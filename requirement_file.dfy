/** `parse_require_file`: every line of a requirements file is stripped,
    blank lines and lines starting with `#` are dropped, and the rest are
    parsed in file order, an include line contributing the records of the
    file it names. The file system is a map from path to the lines
    `readlines` returns; `fuel` bounds the depth of nested includes. */
module RequirementFile {
  import opened Wrappers
  import opened PyStr
  import opened RequirementLine
  import opened PosixPath

  /** The readable files, each as its sequence of lines. */
  type Files = map<string, seq<string>>

  /** A line the file loop drops: blank, or a comment, once stripped. */
  predicate Skipped(raw: string) {
    var line := Strip(raw);
    line == [] || StartsWith(line, "#")
  }

  /** The first error of `head` and `tail`, or their records one after the other. */
  function Chain(head: Result<seq<Info>, ParseError>, tail: Result<seq<Info>, ParseError>): Result<seq<Info>, ParseError> {
    if head.Err? then head
    else if tail.Err? then tail
    else Ok(head.value + tail.value)
  }

  lemma ChainUnit(x: Result<seq<Info>, ParseError>)
    ensures Chain(Ok([]), x) == x
  {
    if x.Ok? {
      assert [] + x.value == x.value;
    }
  }

  lemma ChainAssociative(x: Result<seq<Info>, ParseError>, y: Result<seq<Info>, ParseError>, z: Result<seq<Info>, ParseError>)
    ensures Chain(x, Chain(y, z)) == Chain(Chain(x, y), z)
  {
    if x.Ok? && y.Ok? && z.Ok? {
      assert x.value + (y.value + z.value) == (x.value + y.value) + z.value;
    }
  }

  /** The records of one file, or the first error met while reading it;
      its `-r ` lines are resolved against the file's own directory. */
  function FileInfos(files: Files, path: string, fuel: nat): Result<seq<Info>, ParseError>
    decreases fuel, 2, 0
  {
    if path !in files then Err(FileNotFound(path)) else LinesInfos(files, files[path], DirName(path), fuel)
  }

  /** The records of a run of lines, in order. */
  function LinesInfos(files: Files, lines: seq<string>, dpath: string, fuel: nat): Result<seq<Info>, ParseError>
    decreases fuel, 1, |lines|
  {
    if lines == [] then Ok([])
    else Chain(RawLineInfos(files, lines[0], dpath, fuel), LinesInfos(files, lines[1..], dpath, fuel))
  }

  /** The records one raw line of the file contributes. */
  function RawLineInfos(files: Files, raw: string, dpath: string, fuel: nat): Result<seq<Info>, ParseError>
    decreases fuel, 0, 2
  {
    if Skipped(raw) then Ok([]) else LineInfos(files, Strip(raw), dpath, fuel)
  }

  /** What `parse_line` yields for a kept line: its record, or the records
      of the file it includes. */
  function LineInfos(files: Files, line: string, dpath: string, fuel: nat): Result<seq<Info>, ParseError>
    decreases fuel, 0, 1
  {
    ParsedInfos(files, ParseLine(line), dpath, fuel)
  }

  /** What a parsed line yields: the error, the record, or the records of
      the included file, resolved against `dpath`. */
  function ParsedInfos(files: Files, parsed: Result<Parsed, ParseError>, dpath: string, fuel: nat): Result<seq<Info>, ParseError>
    decreases fuel, 0, 0
  {
    match parsed
    case Err(e) => Err(e)
    case Ok(Record(info)) => Ok([info])
    case Ok(Include(target)) =>
      if fuel == 0 then Err(DepthExceeded) else FileInfos(files, JoinPath(dpath, target), fuel - 1)
  }

  /** `parse_require_file(path)`, collecting what it yields: the loop over the
      file's stripped lines, skipping blanks and comments. */
  method ParseRequireFile(files: Files, path: string, fuel: nat) returns (r: Result<seq<Info>, ParseError>)
    ensures r == FileInfos(files, path, fuel)
    decreases fuel, 2
  {
    if path !in files {
      return Err(FileNotFound(path));
    }
    var dpath := DirName(path);
    var lines := files[path];
    var acc: seq<Info> := [];
    var i := 0;
    assert lines[0..] == lines;
    ChainUnit(LinesInfos(files, lines, dpath, fuel));
    while i < |lines|
      invariant 0 <= i <= |lines|
      invariant LinesInfos(files, lines, dpath, fuel) == Chain(Ok(acc), LinesInfos(files, lines[i..], dpath, fuel))
    {
      assert lines[i..][0] == lines[i] && lines[i..][1..] == lines[i + 1..];
      ghost var tail := LinesInfos(files, lines[i + 1..], dpath, fuel);
      var line := Strip(lines[i]);
      var here: Result<seq<Info>, ParseError> := Ok([]);
      if line != [] && !StartsWith(line, "#") {
        here := ParseLineInfos(files, line, dpath, fuel);
      }
      ChainAssociative(Ok(acc), here, tail);
      if here.Err? {
        return here;
      }
      acc := acc + here.value;
      i := i + 1;
    }
    assert lines[i..] == [];
    assert acc + [] == acc;
    return Ok(acc);
  }

  /** `parse_line(line, dpath)`, collecting what it yields: an include line
      reads the named file, resolved against `dpath`. */
  method ParseLineInfos(files: Files, line: string, dpath: string, fuel: nat) returns (r: Result<seq<Info>, ParseError>)
    ensures r == LineInfos(files, line, dpath, fuel)
    decreases fuel, 1
  {
    var parsed := ParseLine(line);
    r := YieldParsed(files, parsed, dpath, fuel);
  }

  /** The yielding half of `parse_line`: the record of a parsed line, or
      the records of the file an include line names. */
  method YieldParsed(files: Files, parsed: Result<Parsed, ParseError>, dpath: string, fuel: nat) returns (r: Result<seq<Info>, ParseError>)
    ensures r == ParsedInfos(files, parsed, dpath, fuel)
    decreases fuel, 0
  {
    match parsed {
      case Err(e) =>
        return Err(e);
      case Ok(Record(info)) =>
        return Ok([info]);
      case Ok(Include(target)) =>
        if fuel == 0 {
          return Err(DepthExceeded);
        }
        IncludedInfos(files, target, dpath, fuel);
        r := ParseRequireFile(files, JoinPath(dpath, target), fuel - 1);
    }
  }

  /** Lines are processed in file order: the records of two runs of lines
      are those of the first followed by those of the second, and the first
      error wins. */
  lemma {:induction false} LinesInfosAppend(files: Files, a: seq<string>, b: seq<string>, dpath: string, fuel: nat)
    ensures LinesInfos(files, a + b, dpath, fuel) == Chain(LinesInfos(files, a, dpath, fuel), LinesInfos(files, b, dpath, fuel))
    decreases |a|
  {
    if a == [] {
      assert a + b == b;
      ChainUnit(LinesInfos(files, b, dpath, fuel));
    } else {
      assert (a + b)[0] == a[0] && (a + b)[1..] == a[1..] + b;
      LinesInfosAppend(files, a[1..], b, dpath, fuel);
      ChainAssociative(RawLineInfos(files, a[0], dpath, fuel), LinesInfos(files, a[1..], dpath, fuel), LinesInfos(files, b, dpath, fuel));
    }
  }

  /** The stripped lines the loop keeps, in file order. */
  function Kept(lines: seq<string>): seq<string> {
    if lines == [] then []
    else (if Skipped(lines[0]) then [] else [Strip(lines[0])]) + Kept(lines[1..])
  }

  /** A kept line that parses to a record. */
  predicate PlainLine(line: string) {
    ParseLine(line).Ok? && ParseLine(line).value.Record?
  }

  /** Every one of the kept lines parses to a record. */
  predicate AllPlain(kept: seq<string>) {
    kept == [] || (PlainLine(kept[0]) && AllPlain(kept[1..]))
  }

  /** The records of kept lines that all parse to records. */
  function RecordsOf(kept: seq<string>): seq<Info>
    requires AllPlain(kept)
  {
    if kept == [] then [] else [ParseLine(kept[0]).value.info] + RecordsOf(kept[1..])
  }

  /** A kept line that parses to a record contributes exactly that record. */
  lemma PlainLineInfos(files: Files, raw: string, dpath: string, fuel: nat)
    requires !Skipped(raw) && PlainLine(Strip(raw))
    ensures RawLineInfos(files, raw, dpath, fuel) == Ok([ParseLine(Strip(raw)).value.info])
  {
    var parsed := ParseLine(Strip(raw));
    assert LineInfos(files, Strip(raw), dpath, fuel) == ParsedInfos(files, parsed, dpath, fuel);
    assert ParsedInfos(files, parsed, dpath, fuel) == Ok([parsed.value.info]);
  }

  /** When no kept line is an include or an error, the file's records are
      exactly one per kept line, in file order, each parsed from that line:
      blank and comment lines contribute nothing. */
  lemma {:induction false} RecordsInFileOrder(files: Files, lines: seq<string>, dpath: string, fuel: nat)
    requires AllPlain(Kept(lines))
    ensures LinesInfos(files, lines, dpath, fuel) == Ok(RecordsOf(Kept(lines)))
  {
    if lines != [] {
      var rest := lines[1..];
      var kept, keptRest := Kept(lines), Kept(rest);
      assert LinesInfos(files, lines, dpath, fuel) == Chain(RawLineInfos(files, lines[0], dpath, fuel), LinesInfos(files, rest, dpath, fuel));
      if Skipped(lines[0]) {
        assert kept == [] + keptRest == keptRest;
        RecordsInFileOrder(files, rest, dpath, fuel);
        ChainUnit(LinesInfos(files, rest, dpath, fuel));
      } else {
        var line := Strip(lines[0]);
        assert kept == [line] + keptRest;
        assert kept[0] == line && kept[1..] == keptRest;
        RecordsInFileOrder(files, rest, dpath, fuel);
        PlainLineInfos(files, lines[0], dpath, fuel);
      }
    }
  }

  /** A record's line: what is left of a kept line once its inline comment
      is cut off, which is never empty and never holds `" #"`. */
  predicate CommentFree(infos: seq<Info>) {
    forall k :: 0 <= k < |infos| ==> CommentFreeLine(infos[k].line)
  }

  predicate CommentFreeLine(line: string) {
    line != [] && !Contains(line, " #")
  }

  lemma CommentFreeConcat(a: seq<Info>, b: seq<Info>)
    requires CommentFree(a) && CommentFree(b)
    ensures CommentFree(a + b)
  {
    assert forall k :: |a| <= k < |a + b| ==> (a + b)[k] == b[k - |a|];
  }

  /** Every record read from a file, its included files among them, has a
      non-empty line with no inline comment left in it. */
  lemma {:induction false} FileRecordsCommentFree(files: Files, path: string, fuel: nat)
    ensures FileInfos(files, path, fuel).Ok? ==> CommentFree(FileInfos(files, path, fuel).value)
    decreases fuel, 2, 0
  {
    if path in files {
      LinesRecordsCommentFree(files, files[path], DirName(path), fuel);
    }
  }

  lemma {:induction false} LinesRecordsCommentFree(files: Files, lines: seq<string>, dpath: string, fuel: nat)
    ensures LinesInfos(files, lines, dpath, fuel).Ok? ==> CommentFree(LinesInfos(files, lines, dpath, fuel).value)
    decreases fuel, 1, |lines|
  {
    if lines != [] {
      var head, tail := RawLineInfos(files, lines[0], dpath, fuel), LinesInfos(files, lines[1..], dpath, fuel);
      RawLineRecordsCommentFree(files, lines[0], dpath, fuel);
      LinesRecordsCommentFree(files, lines[1..], dpath, fuel);
      if head.Ok? && tail.Ok? {
        CommentFreeConcat(head.value, tail.value);
      }
    }
  }

  lemma {:induction false} RawLineRecordsCommentFree(files: Files, raw: string, dpath: string, fuel: nat)
    ensures RawLineInfos(files, raw, dpath, fuel).Ok? ==> CommentFree(RawLineInfos(files, raw, dpath, fuel).value)
    decreases fuel, 0, 2
  {
    if !Skipped(raw) {
      LineRecordsCommentFree(files, Strip(raw), dpath, fuel);
    }
  }

  lemma {:induction false} LineRecordsCommentFree(files: Files, line: string, dpath: string, fuel: nat)
    requires line != [] && !IsSpace(line[0])
    ensures LineInfos(files, line, dpath, fuel).Ok? ==> CommentFree(LineInfos(files, line, dpath, fuel).value)
    decreases fuel, 0, 1
  {
    var parsed := ParseLine(line);
    CutCommentKeepsStart(line);
    assert parsed.Ok? && parsed.value.Record? ==> parsed.value.info.line == CutComment(line);
    ParsedRecordsCommentFree(files, parsed, dpath, fuel);
  }

  lemma {:induction false} ParsedRecordsCommentFree(files: Files, parsed: Result<Parsed, ParseError>, dpath: string, fuel: nat)
    requires parsed.Ok? && parsed.value.Record? ==> CommentFreeLine(parsed.value.info.line)
    ensures ParsedInfos(files, parsed, dpath, fuel).Ok? ==> CommentFree(ParsedInfos(files, parsed, dpath, fuel).value)
    decreases fuel, 0, 0
  {
    match parsed
    case Err(_) =>
    case Ok(Record(info)) =>
      assert ParsedInfos(files, parsed, dpath, fuel) == Ok([info]);
      assert [info][0] == info;
    case Ok(Include(target)) =>
      if fuel > 0 {
        IncludedInfos(files, target, dpath, fuel);
        FileRecordsCommentFree(files, JoinPath(dpath, target), fuel - 1);
      }
  }

  /** An include line yields what the file it names yields, one level down. */
  lemma IncludedInfos(files: Files, target: string, dpath: string, fuel: nat)
    requires fuel > 0
    ensures ParsedInfos(files, Ok(Include(target)), dpath, fuel) == FileInfos(files, JoinPath(dpath, target), fuel - 1)
  {
  }
}
