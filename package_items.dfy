/** `gen_packages_items` and `parse_requirements`: each record of the
    requirements file becomes one requirement string, the package name
    followed, depending on the `versions` argument, by its version clause,
    and then by its platform marker unless the interpreter is Python 3.4. */
module PackageItems {
  import opened Wrappers
  import opened PyStr
  import opened RequirementLine
  import opened RequirementFile

  /** The `versions` argument: a boolean, or a string such as `"strict"`. */
  datatype VersionsArg = Flag(on: bool) | Text(text: string)

  /** Python truthiness of the argument. */
  predicate Truthy(versions: VersionsArg) {
    match versions
    case Flag(on) => on
    case Text(text) => text != ""
  }

  /** `versions == "strict"` */
  predicate IsStrict(versions: VersionsArg) {
    versions == Text("strict")
  }

  /** The version clause a record contributes: nothing when versions are
      off or the record has none, the operator and version as written
      when they are on, and that text with its first `>=` turned into `==`
      in strict mode. */
  function VersionClause(version: Option<Version>, versions: VersionsArg): string {
    if !Truthy(versions) || version.None? then ""
    else if IsStrict(versions) then ReplaceFirst(OpText(version.value.op) + version.value.spec, ">=", "==")
    else OpText(version.value.op) + version.value.spec
  }

  /** The platform marker a record contributes: `;` and the marker, unless
      the record has none or the interpreter is Python 3.4. */
  function MarkerClause(deps: Option<string>, python34: bool): string {
    if python34 || deps.None? then "" else ";" + deps.value
  }

  /** The requirement string for one record. */
  function Item(info: Info, versions: VersionsArg, python34: bool): string {
    info.package + VersionClause(info.version, versions) + MarkerClause(info.platformDeps, python34)
  }

  /** The loop body of `gen_packages_items`: the list of parts built with
      `append` and `extend`, then joined. */
  method AssembleItem(info: Info, versions: VersionsArg, python34: bool) returns (item: string)
    ensures item == Item(info, versions, python34)
  {
    var parts := VersionedParts(info, versions);
    if !python34 {
      if info.platformDeps.Some? {
        JoinAppend("", parts, ";" + info.platformDeps.value);
        parts := parts + [";" + info.platformDeps.value];
      }
    }
    item := Join("", parts);
  }

  /** The first half of that loop body: the package name, then the version
      pieces that `versions` asks for. */
  method VersionedParts(info: Info, versions: VersionsArg) returns (parts: seq<string>)
    ensures |parts| >= 1
    ensures Join("", parts) == info.package + VersionClause(info.version, versions)
  {
    parts := [info.package];
    if Truthy(versions) && info.version.Some? {
      var version := info.version.value;
      if IsStrict(versions) {
        // the version is a pair, which is always truthy
        var joined := Join("", [OpText(version.op), version.spec]);
        JoinPair(OpText(version.op), version.spec);
        var verstr := ReplaceFirst(joined, ">=", "==");
        assert verstr == VersionClause(info.version, versions);
        JoinAppend("", parts, verstr);
        parts := parts + [verstr];
      } else {
        var op := OpText(version.op);
        JoinAppend("", parts, op);
        parts := parts + [op];
        JoinAppend("", parts, version.spec);
        parts := parts + [version.spec];
        assert Join("", parts) == info.package + op + version.spec;
        assert op + version.spec == VersionClause(info.version, versions);
      }
    } else {
      assert VersionClause(info.version, versions) == [];
    }
  }

  /** Joining two pieces with no separator concatenates them. */
  lemma JoinPair(a: string, b: string)
    ensures Join("", [a, b]) == a + b
  {
    assert [a, b][1..] == [b];
  }

  /** Appending a piece to a non-empty list adds the separator and the piece
      to its join. */
  lemma {:induction false} JoinAppend(sep: string, parts: seq<string>, x: string)
    requires |parts| >= 1
    ensures Join(sep, parts + [x]) == Join(sep, parts) + sep + x
  {
    if |parts| > 1 {
      assert (parts + [x])[1..] == parts[1..] + [x];
      JoinAppend(sep, parts[1..], x);
    }
  }

  /** `parse_requirements(fname, versions)`: the requirement strings of the
      file, one per record in order, or the error that reading it raised; a
      file that does not exist gives no requirements. */
  method ParseRequirements(files: Files, fname: string, versions: VersionsArg, python34: bool, fuel: nat)
    returns (r: Result<seq<string>, ParseError>)
    ensures fname !in files ==> r == Ok([])
    ensures fname in files ==> (r.Err? <==> FileInfos(files, fname, fuel).Err?)
    ensures fname in files && r.Err? ==> r.error == FileInfos(files, fname, fuel).error
    ensures fname in files && r.Ok? ==>
      var infos := FileInfos(files, fname, fuel).value;
      |r.value| == |infos| && forall k :: 0 <= k < |infos| ==> r.value[k] == Item(infos[k], versions, python34)
  {
    if fname !in files {
      return Ok([]);
    }
    var parsed := ParseRequireFile(files, fname, fuel);
    if parsed.Err? {
      return Err(parsed.error);
    }
    var items := AssembleItems(parsed.value, versions, python34);
    return Ok(items);
  }

  /** The loop of `gen_packages_items` over the parsed records: one item
      per record, in the order the records come. */
  method AssembleItems(infos: seq<Info>, versions: VersionsArg, python34: bool) returns (items: seq<string>)
    ensures |items| == |infos|
    ensures forall k :: 0 <= k < |infos| ==> items[k] == Item(infos[k], versions, python34)
  {
    items := [];
    var i := 0;
    while i < |infos|
      invariant 0 <= i <= |infos|
      invariant |items| == i
      invariant forall k :: 0 <= k < i ==> items[k] == Item(infos[k], versions, python34)
    {
      var item := AssembleItem(infos[i], versions, python34);
      items := items + [item];
      i := i + 1;
    }
  }

  /** Every item begins with its package name, and what follows is the
      version clause and then the marker clause. */
  lemma ItemStartsWithPackage(info: Info, versions: VersionsArg, python34: bool)
    ensures StartsWith(Item(info, versions, python34), info.package)
    ensures Item(info, versions, python34)[|info.package|..]
         == VersionClause(info.version, versions) + MarkerClause(info.platformDeps, python34)
  {
    var item := Item(info, versions, python34);
    assert item[..|info.package|] == info.package;
  }

  /** With `versions` falsy, no version text reaches the item. */
  lemma UnversionedItem(info: Info, versions: VersionsArg, python34: bool)
    requires !Truthy(versions)
    ensures Item(info, versions, python34) == info.package + MarkerClause(info.platformDeps, python34)
  {
  }

  /** With `versions` truthy but not `"strict"`, the item is the package,
      the operator and the version, as parsed. */
  lemma LooseItem(info: Info, versions: VersionsArg, python34: bool)
    requires Truthy(versions) && !IsStrict(versions) && info.version.Some?
    ensures Item(info, versions, python34)
         == info.package + OpText(info.version.value.op) + info.version.value.spec
            + MarkerClause(info.platformDeps, python34)
  {
  }

  /** In strict mode a minimum version `>= v` is pinned to `== v`. */
  lemma StrictPinsMinimum(info: Info, python34: bool)
    requires info.version.Some? && info.version.value.op == Ge
    ensures Item(info, Text("strict"), python34)
         == info.package + "==" + info.version.value.spec + MarkerClause(info.platformDeps, python34)
  {
    var spec := info.version.value.spec;
    assert FirstAt(">=" + spec, ">=", 0);
    assert (">=" + spec)[2..] == spec;
  }

  /** In strict mode an `==` clause keeps its operator, and only the first
      `>=` inside the version text, if any, becomes `==`. */
  lemma StrictKeepsEquality(info: Info, python34: bool)
    requires info.version.Some? && info.version.value.op == Eq
    ensures Item(info, Text("strict"), python34)
         == info.package + "==" + ReplaceFirst(info.version.value.spec, ">=", "==")
            + MarkerClause(info.platformDeps, python34)
  {
    var spec := info.version.value.spec;
    var t := "==" + spec;
    forall j: nat | j < 2
      ensures !OccursAt(t, ">=", j)
    {
      if j + 2 <= |t| {
        assert t[j..j + 2][0] == t[j] == '=';
      }
    }
    ReplaceFirstAfterPrefix("==", spec, ">=", "==");
  }

  /** In strict mode a `>` clause whose version text starts with `=` (from
      a line such as `pkg> =1`) is rewritten to `==`. */
  lemma StrictGreaterBeforeEquals(info: Info, python34: bool)
    requires info.version.Some? && info.version.value.op == Gt
    requires StartsWith(info.version.value.spec, "=")
    ensures Item(info, Text("strict"), python34)
         == info.package + "==" + info.version.value.spec[1..] + MarkerClause(info.platformDeps, python34)
  {
    var spec := info.version.value.spec;
    var t := ">" + spec;
    assert t == ">=" + spec[1..];
    assert FirstAt(t, ">=", 0);
    assert t[2..] == spec[1..];
  }

  /** In strict mode any other `>` clause keeps its operator, and only the
      first `>=` inside the version text, if any, becomes `==`. */
  lemma StrictKeepsGreater(info: Info, python34: bool)
    requires info.version.Some? && info.version.value.op == Gt
    requires !StartsWith(info.version.value.spec, "=")
    ensures Item(info, Text("strict"), python34)
         == info.package + ">" + ReplaceFirst(info.version.value.spec, ">=", "==")
            + MarkerClause(info.platformDeps, python34)
  {
    var spec := info.version.value.spec;
    var t := ">" + spec;
    forall j: nat | j < 1
      ensures !OccursAt(t, ">=", j)
    {
      if 2 <= |t| {
        assert spec[..1] == [spec[0]];
        assert t[0..2] == [t[0], spec[0]];
      }
    }
    ReplaceFirstAfterPrefix(">", spec, ">=", "==");
    assert VersionClause(info.version, Text("strict")) == ReplaceFirst(t, ">=", "==");
  }

  /** The platform marker is the last thing in the item, and it is there
      exactly when the record has one and the interpreter is not 3.4. */
  lemma MarkerLast(info: Info, versions: VersionsArg, python34: bool)
    ensures info.platformDeps.Some? && !python34 ==>
      var item := Item(info, versions, python34);
      var tail := ";" + info.platformDeps.value;
      |tail| <= |item| && item[|item| - |tail|..] == tail
    ensures info.platformDeps.None? || python34 ==>
      Item(info, versions, python34) == info.package + VersionClause(info.version, versions)
  {
    if info.platformDeps.Some? && !python34 {
      var item := Item(info, versions, python34);
      var tail := ";" + info.platformDeps.value;
      assert item == info.package + VersionClause(info.version, versions) + tail;
    }
  }
}
