/** The two `os.path` functions the parser uses to resolve an included file,
    with POSIX semantics: `dirname` of the including file and `join` of that
    directory with the name written after `-r `. */
module PosixPath {
  import opened PyStr

  /** `s.rfind(c)`: the last index holding `c`, or -1. */
  function RFind(s: string, c: char): (r: int)
    ensures -1 <= r < |s|
    ensures r >= 0 ==> s[r] == c
  {
    if s == [] then -1
    else if s[|s| - 1] == c then |s| - 1
    else RFind(s[..|s| - 1], c)
  }

  /** No occurrence of `c` follows the one `RFind` returns. */
  lemma {:induction false} RFindIsLast(s: string, c: char)
    ensures forall j :: RFind(s, c) < j < |s| ==> s[j] != c
  {
    if s != [] && s[|s| - 1] != c {
      RFindIsLast(s[..|s| - 1], c);
    }
  }

  /** `s.rstrip("/")` */
  function TrimSlashes(s: string): (r: string)
    ensures StartsWith(s, r)
    ensures r == [] || r[|r| - 1] != '/'
  {
    if s == [] || s[|s| - 1] != '/' then s
    else
      var r := TrimSlashes(s[..|s| - 1]);
      assert s[..|s| - 1][..|r|] == s[..|r|];
      r
  }

  /** `rstrip("/")` removes slashes only. */
  lemma {:induction false} TrimSlashesRemovesSlashes(s: string)
    ensures forall j :: |TrimSlashes(s)| <= j < |s| ==> s[j] == '/'
  {
    if s != [] && s[|s| - 1] == '/' {
      TrimSlashesRemovesSlashes(s[..|s| - 1]);
    }
  }

  /** `s` is made of slashes only. */
  predicate AllSlashes(s: string) {
    forall j :: 0 <= j < |s| ==> s[j] == '/'
  }

  /** `posixpath.dirname(p)`: everything up to the last `/`, with trailing
      slashes removed unless the head is all slashes, which is when removing
      them would leave nothing. */
  function DirName(p: string): string {
    var head := p[..RFind(p, '/') + 1];
    var trimmed := TrimSlashes(head);
    if trimmed != [] then trimmed else head
  }

  /** `dirname` cuts the path at its last `/`: it is empty for a bare file
      name; otherwise it is the head up to and including that `/` when the
      head is all slashes, and the head without its trailing slashes (never
      empty) when it is not. */
  lemma DirNameCut(p: string)
    ensures var r, k := DirName(p), RFind(p, '/');
      && StartsWith(p, r)
      && (k == -1 ==> r == [])
      && (r != [] && !AllSlashes(r) ==> r[|r| - 1] != '/')
      && (k >= 0 ==> r != [] && |r| <= k + 1)
      && |r| <= k + 1 && AllSlashes(p[|r|..k + 1])
      && (AllSlashes(p[..k + 1]) ==> r == p[..k + 1])
  {
    var k := RFind(p, '/');
    var head := p[..k + 1];
    assert StartsWith(p, head);
    TrimSlashesRemovesSlashes(head);
    if TrimSlashes(head) != [] {
      var r := TrimSlashes(head);
      assert head[|r| - 1] == r[|r| - 1];
      assert p[..|r|] == head[..|r|];
      assert p[|r|..k + 1] == head[|r|..];
    }
  }

  /** `posixpath.join(a, b)`: an absolute `b` replaces `a`; otherwise `b` is
      appended, after a `/` unless `a` is empty or already ends in one. */
  function JoinPath(a: string, b: string): string {
    if StartsWith(b, "/") then b
    else if a == [] || a[|a| - 1] == '/' then a + b
    else a + "/" + b
  }

  /** A relative name joined to a directory starts with the directory and
      ends with the name, with nothing between them but the one `/` added
      when the directory does not already end in one; an absolute name, or
      any name joined to the empty directory, is kept as written. */
  lemma JoinPathParts(a: string, b: string)
    ensures StartsWith(b, "/") || a == [] ==> JoinPath(a, b) == b
    ensures !StartsWith(b, "/") ==>
      var r := JoinPath(a, b);
      && StartsWith(r, a) && |b| <= |r| && r[|r| - |b|..] == b
      && (a != [] ==> r[|a| - 1] == '/' || r[|a|] == '/')
      && |r| == |a| + |b| + (if a == [] || a[|a| - 1] == '/' then 0 else 1)
  {
    if a == [] {
      assert [] + b == b;
    }
  }

  /** A file named without any `/` lies in the current directory, so the
      names its `-r ` lines give are looked up as written unless absolute. */
  lemma IncludeFromBareName(path: string, target: string)
    requires !Contains(path, "/")
    ensures JoinPath(DirName(path), target) == target
  {
    DirNameCut(path);
    var k := RFind(path, '/');
    if k >= 0 {
      assert OccursAt(path, "/", k) by {
        assert path[k..k + 1] == [path[k]];
      }
      assert false;
    }
    JoinPathParts([], target);
  }
}
