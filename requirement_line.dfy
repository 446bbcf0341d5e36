/** One line of a requirements file, as `parse_line` inside
    `parse_requirements` reads it: an inline comment is cut off, a `-r `
    line names another file to include, a `-e ` line names its package after
    `#egg=`, and any other line is split at one optional `;` into a package
    part and a platform marker, and the package part at the leftmost version
    operator among `>=`, `==` and `>`. */
module RequirementLine {
  import opened Wrappers
  import opened PyStr

  /** The alternatives of the version-operator pattern, in the order it tries them. */
  datatype Op = Ge | Eq | Gt

  function OpText(op: Op): string {
    match op
    case Ge => ">="
    case Eq => "=="
    case Gt => ">"
  }

  /** The `(op, version)` pair stored under the `version` key. */
  datatype Version = Version(op: Op, spec: string)

  /** The `info` record of one requirement: `line` and `package` are always
      present, `version` and `platform_deps` only on some lines. */
  datatype Info = Info(line: string, package: string, version: Option<Version>, platformDeps: Option<string>)

  /** What one line yields: a file to include, or a record. */
  datatype Parsed = Include(target: string) | Record(info: Info)

  /** The exceptions parsing raises: an `IndexError` on a `-e ` line without
      `#egg=`, a `ValueError` when a line has more than one `;`, a missing
      included file, and the interpreter's recursion limit on includes. */
  datatype ParseError = MissingEgg | TooManyMarkers | FileNotFound(path: string) | DepthExceeded

  /** The line with everything from the first `" #"` on removed. */
  function CutComment(line: string): (r: string)
    ensures StartsWith(line, r)
    ensures !Contains(r, " #")
    ensures !Contains(line, " #") ==> r == line
    ensures Contains(line, " #") ==> FirstAt(line, " #", |r|)
  {
    var p := Find(line, " #");
    if p > -1 then NoneBeforeFirst(line, " #", p); line[..p] else line
  }

  /** The operator the pattern `>=|==|>` matches at index `j` of `s`. */
  function OpAt(s: string, j: nat): (r: Option<Op>)
    ensures r.Some? ==> OccursAt(s, OpText(r.value), j)
    ensures r.None? <==> !OccursAt(s, ">", j) && !OccursAt(s, "==", j)
    ensures OccursAt(s, ">=", j) ==> r == Some(Ge)
    ensures !OccursAt(s, ">=", j) && OccursAt(s, "==", j) ==> r == Some(Eq)
    ensures r == Some(Gt) ==> !OccursAt(s, ">=", j) && !OccursAt(s, "==", j)
  {
    if OccursAt(s, ">=", j) then
      assert s[j..j + 1] == s[j..j + 2][..1];
      Some(Ge)
    else if OccursAt(s, "==", j) then Some(Eq)
    else if OccursAt(s, ">", j) then Some(Gt)
    else None
  }

  /** A line that does not start with a space keeps at least its first
      character when its comment is cut off. */
  lemma CutCommentKeepsStart(line: string)
    requires line != [] && line[0] != ' '
    ensures CutComment(line) != []
  {
    if Contains(line, " #") {
      assert !OccursAt(line, " #", 0) by {
        if |line| >= 2 {
          assert line[0..2][0] == line[0];
        }
      }
    }
  }

  /** The leftmost index at or after `i` where some operator matches. */
  function FindOpFrom(s: string, i: nat): (r: Option<(nat, Op)>)
    requires i <= |s|
    ensures r.Some? ==> i <= r.value.0 < |s| && OpAt(s, r.value.0) == Some(r.value.1)
    ensures forall j: nat :: i <= j < (if r.Some? then r.value.0 else |s|) ==> OpAt(s, j).None?
    decreases |s| - i
  {
    if i == |s| then None
    else match OpAt(s, i)
      case Some(op) => Some((i, op))
      case None => FindOpFrom(s, i + 1)
  }

  /** `re.split("(>=|==|>)", s, maxsplit=1)`: no match, or the text before
      the leftmost match, the operator matched and the text after it. */
  datatype OpSplit = NoOp | AtOp(before: string, op: Op, after: string)

  function SplitAtOperator(s: string): (r: OpSplit)
    ensures r.NoOp? ==> forall j: nat :: j < |s| ==> OpAt(s, j).None?
    ensures r.AtOp? ==> r.before + OpText(r.op) + r.after == s
    ensures r.AtOp? ==> OpAt(s, |r.before|) == Some(r.op)
    ensures r.AtOp? ==> forall j: nat :: j < |r.before| ==> OpAt(s, j).None?
  {
    match FindOpFrom(s, 0)
    case None => NoOp
    case Some((k, op)) =>
      var n := |OpText(op)|;
      assert s[..k] + s[k..k + n] + s[k + n..] == s;
      AtOp(s[..k], op, s[k + n..])
  }

  /** The split finds no operator exactly when `s` holds no `>` and no
      `==`, and the text before the operator it finds holds neither. */
  lemma SplitAtOperatorText(s: string)
    ensures SplitAtOperator(s).NoOp? <==> !Contains(s, ">") && !Contains(s, "==")
    ensures SplitAtOperator(s).AtOp? ==>
      var before := SplitAtOperator(s).before;
      !Contains(before, ">") && !Contains(before, "==")
  {
    var r := SplitAtOperator(s);
    if r.NoOp? {
      forall j: nat | j < |s|
        ensures !OccursAt(s, ">", j) && !OccursAt(s, "==", j)
      {
        assert OpAt(s, j).None?;
      }
    } else {
      var k := |r.before|;
      assert OccursAt(s, OpText(r.op), k);
      assert Contains(s, ">") || Contains(s, "==");
      assert r.before == s[..k];
      forall j: nat | j < k
        ensures !OccursAt(r.before, ">", j) && !OccursAt(r.before, "==", j)
      {
        OccursInSlice(s, ">", 0, k, j);
        OccursInSlice(s, "==", 0, k, j);
        assert OpAt(s, j).None?;
      }
    }
  }

  /** The record for a package part: its stripped name before the leftmost
      operator and, when there is one, the operator with the stripped rest. */
  function VersionedRecord(line: string, pkgpart: string, deps: Option<string>): Info {
    match SplitAtOperator(pkgpart)
    case NoOp => Info(line, Strip(pkgpart), None, deps)
    case AtOp(before, op, after) => Info(line, Strip(before), Some(Version(op, Strip(after))), deps)
  }

  /** `parse_line` on one (already stripped, non-comment) line. */
  function ParseLine(line: string): (r: Result<Parsed, ParseError>)
    ensures r.Ok? && r.value.Include? <==> StartsWith(CutComment(line), "-r ")
    ensures r.Ok? && r.value.Record? ==> r.value.info.line == CutComment(line)
    ensures r == Err(MissingEgg) ==> StartsWith(CutComment(line), "-e ")
    ensures r == Err(TooManyMarkers) ==> !StartsWith(CutComment(line), "-e ")
    ensures r != Err(MissingEgg) && r != Err(TooManyMarkers) ==> r.Ok?
  {
    var cut := CutComment(line);
    if StartsWith(cut, "-r ") then
      assert OccursAt(cut, " ", 2);
      Ok(Include(Split(cut, " ")[1]))
    else if StartsWith(cut, "-e ") then
      var pieces := Split(cut, "#egg=");
      if |pieces| < 2 then Err(MissingEgg) else Ok(Record(Info(cut, pieces[1], None, None)))
    else if !Contains(cut, ";") then
      Ok(Record(VersionedRecord(cut, cut, None)))
    else
      var pieces := Split(cut, ";");
      if |pieces| != 2 then Err(TooManyMarkers)
      else Ok(Record(VersionedRecord(cut, pieces[0], Some(Strip(pieces[1])))))
  }

  /** A `-r ` line includes the file named by the text after `-r ` up to the
      next space. */
  lemma IncludeLine(line: string)
    requires StartsWith(CutComment(line), "-r ")
    ensures
      var cut := CutComment(line);
      var rest := cut[3..];
      && ParseLine(line).Ok? && ParseLine(line).value.Include?
      && var target := ParseLine(line).value.target;
      && StartsWith(rest, target)
      && !Contains(target, " ")
      && (target == rest || OccursAt(rest, " ", |target|))
  {
    var cut := CutComment(line);
    assert cut[..3] == "-r ";
    assert cut[0..1] == [cut[0]] == "-" && cut[1..2] == [cut[1]] == "r";
    assert OccursAt(cut, " ", 2);
    assert FirstAt(cut, " ", 2);
    SplitHead(cut, " ");
    var rest := cut[3..];
    assert Find(cut, " ") == 2 && rest == cut[Find(cut, " ") + |" "|..];
    SplitHead(rest, " ");
    SplitPiecesFree(rest, " ");
    if Contains(rest, " ") {
      assert OccursAt(rest, " ", Find(rest, " "));
    }
  }

  /** A `-e ` line fails exactly when it has no `#egg=`; otherwise its
      package is the text between the first `#egg=` and the next one (or the
      end), and it has no version and no platform marker. */
  lemma EditableLine(line: string)
    requires StartsWith(CutComment(line), "-e ")
    ensures
      var cut := CutComment(line);
      ParseLine(line) == Err(MissingEgg) <==> !Contains(cut, "#egg=")
    ensures
      var cut := CutComment(line);
      Contains(cut, "#egg=") ==>
        var rest := cut[Find(cut, "#egg=") + 5..];
        && ParseLine(line).Ok? && ParseLine(line).value.Record?
        && var info := ParseLine(line).value.info;
        && info.line == cut && info.version.None? && info.platformDeps.None?
        && StartsWith(rest, info.package)
        && !Contains(info.package, "#egg=")
        && (info.package == rest || OccursAt(rest, "#egg=", |info.package|))
  {
    var cut := CutComment(line);
    assert cut[..3] == "-e ";
    assert !StartsWith(cut, "-r ");
    if Contains(cut, "#egg=") {
      SplitHead(cut, "#egg=");
      var rest := cut[Find(cut, "#egg=") + 5..];
      assert rest == cut[Find(cut, "#egg=") + |"#egg="|..];
      SplitHead(rest, "#egg=");
      SplitPiecesFree(rest, "#egg=");
      if Contains(rest, "#egg=") {
        assert OccursAt(rest, "#egg=", Find(rest, "#egg="));
      }
    }
  }

  /** Any other line fails exactly when it holds two or more `;`. With none,
      the whole line is the package part and there is no platform marker;
      with exactly one, the package part is the text before it and the
      marker is the stripped text after it. */
  lemma MarkerLine(line: string)
    requires !StartsWith(CutComment(line), "-r ") && !StartsWith(CutComment(line), "-e ")
    ensures
      var cut := CutComment(line);
      ParseLine(line) == Err(TooManyMarkers) <==> CountChar(cut, ';') >= 2
    ensures
      var cut := CutComment(line);
      CountChar(cut, ';') == 0 ==> ParseLine(line) == Ok(Record(VersionedRecord(cut, cut, None)))
    ensures
      var cut := CutComment(line);
      CountChar(cut, ';') == 1 ==>
        var p := Find(cut, ";");
        && 0 <= p < |cut| && cut[p] == ';'
        && !Contains(cut[p + 1..], ";")
        && ParseLine(line) == Ok(Record(VersionedRecord(cut, cut[..p], Some(Strip(cut[p + 1..])))))
  {
    var cut := CutComment(line);
    SplitCount(cut, ';');
    CountCharZero(cut, ';');
    if Contains(cut, ";") {
      var p := Find(cut, ";");
      SplitHead(cut, ";");
      var rest := cut[p + 1..];
      SplitHead(rest, ";");
      assert OccursAt(cut, ";", p);
      assert cut[p..p + 1][0] == cut[p];
    }
  }

  /** The fields the version split fills in: the package never holds `>` or
      `==`; there is a version exactly when the package part holds one of
      them; without one the package is the stripped package part, and with
      one the pieces around the operator `SplitAtOperator` takes (the
      leftmost, `>=` before `>`), stripped. */
  lemma VersionFields(line: string, pkgpart: string, deps: Option<string>)
    ensures
      var info := VersionedRecord(line, pkgpart, deps);
      && info.line == line && info.platformDeps == deps
      && !Contains(info.package, ">") && !Contains(info.package, "==")
      && (info.version.None? <==> !Contains(pkgpart, ">") && !Contains(pkgpart, "=="))
      && (info.version.None? ==> info.package == Strip(pkgpart))
    ensures
      var info := VersionedRecord(line, pkgpart, deps);
      info.version.Some? ==>
        exists before: string, after: string {:trigger before + OpText(info.version.value.op) + after} ::
          && SplitAtOperator(pkgpart) == AtOp(before, info.version.value.op, after)
          && before + OpText(info.version.value.op) + after == pkgpart
          && info.package == Strip(before) && info.version.value.spec == Strip(after)
          && !Contains(before, ">") && !Contains(before, "==")
  {
    var split := SplitAtOperator(pkgpart);
    SplitAtOperatorText(pkgpart);
    match split
    case NoOp =>
      StripContains(pkgpart, ">");
      StripContains(pkgpart, "==");
    case AtOp(before, op, after) =>
      StripContains(before, ">");
      StripContains(before, "==");
      assert before + OpText(op) + after == pkgpart;
  }
}
