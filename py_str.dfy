/** The Python `str` operations the requirements parser relies on, written
    over `seq<char>`: `isspace`, `strip`, `startswith`, `in`, `find`,
    `split`, `join` and `replace(old, new, 1)`. */
module PyStr {

  /** `c.isspace()`: the characters `str.strip()` removes when given no argument. */
  predicate IsSpace(c: char) {
    || c == ' ' || c == '\t' || c == '\n' || c == '\r' || c == '\U{0B}' || c == '\U{0C}'
    || ('\U{1C}' <= c <= '\U{1F}')
    || c == '\U{85}' || c == '\U{A0}' || c == '\U{1680}'
    || ('\U{2000}' <= c <= '\U{200A}')
    || c == '\U{2028}' || c == '\U{2029}' || c == '\U{202F}' || c == '\U{205F}' || c == '\U{3000}'
  }

  /** `s.startswith(p)` */
  predicate StartsWith(s: string, p: string) {
    |p| <= |s| && s[..|p|] == p
  }

  /** `p` occurs in `s` at index `i`. */
  predicate OccursAt(s: string, p: string, i: nat) {
    i + |p| <= |s| && s[i..i + |p|] == p
  }

  /** `p in s` */
  predicate Contains(s: string, p: string) {
    exists i: nat :: i <= |s| && OccursAt(s, p, i)
  }

  /** `k` is the leftmost index at which `p` occurs in `s`. */
  predicate FirstAt(s: string, p: string, k: nat) {
    OccursAt(s, p, k) && forall j: nat :: j < k ==> !OccursAt(s, p, j)
  }

  /** Leftmost occurrence of `p` in `s` at or after `i`, or -1. */
  function FindFrom(s: string, p: string, i: nat): (r: int)
    requires i <= |s|
    ensures r == -1 || (i <= r && OccursAt(s, p, r))
    ensures forall j: nat :: i <= j && (r == -1 || j < r) ==> !OccursAt(s, p, j)
    decreases |s| - i
  {
    if OccursAt(s, p, i) then i
    else if i == |s| then -1
    else FindFrom(s, p, i + 1)
  }

  /** `s.find(p)` */
  function Find(s: string, p: string): (r: int)
    ensures r == -1 <==> !Contains(s, p)
    ensures r != -1 ==> r >= 0 && FirstAt(s, p, r)
  {
    FindFrom(s, p, 0)
  }

  /** No occurrence of `p` lies wholly before its first occurrence. */
  lemma NoneBeforeFirst(s: string, p: string, k: nat)
    requires p != []
    requires FirstAt(s, p, k)
    ensures !Contains(s[..k], p)
  {
    if Contains(s[..k], p) {
      var i: nat :| i <= k && OccursAt(s[..k], p, i);
      OccursInSlice(s, p, 0, k, i);
    }
  }

  /** An occurrence at `i` in the slice `s[a..b]` is one at `a + i` in `s`. */
  lemma OccursInSlice(s: string, p: string, a: nat, b: nat, i: nat)
    requires a <= b <= |s|
    ensures OccursAt(s[a..b], p, i) ==> OccursAt(s, p, a + i)
  {
    if !OccursAt(s[a..b], p, i) {
      return;
    }
    var n := |p|;
    var whole, part := s[a + i..a + i + n], s[a..b][i..i + n];
    assert forall t :: 0 <= t < n ==> whole[t] == part[t];
  }

  /** An occurrence inside a slice is an occurrence in the whole string. */
  lemma ContainsInSlice(s: string, p: string, a: nat, b: nat)
    requires a <= b <= |s|
    ensures Contains(s[a..b], p) ==> Contains(s, p)
  {
    if Contains(s[a..b], p) {
      var i: nat :| i <= b - a && OccursAt(s[a..b], p, i);
      OccursInSlice(s, p, a, b, i);
    }
  }

  /** `s.lstrip()` */
  function TrimStart(s: string): (r: string)
    ensures |r| <= |s| && r == s[|s| - |r|..]
    ensures r == [] || !IsSpace(r[0])
    ensures forall i :: 0 <= i < |s| - |r| ==> IsSpace(s[i])
  {
    if s != [] && IsSpace(s[0]) then
      var r := TrimStart(s[1..]);
      assert forall i :: 1 <= i < |s| - |r| ==> s[i] == s[1..][i - 1];
      r
    else s
  }

  /** `s.rstrip()` */
  function TrimEnd(s: string): (r: string)
    ensures |r| <= |s| && r == s[..|r|]
    ensures r == [] || !IsSpace(r[|r| - 1])
    ensures forall i :: |r| <= i < |s| ==> IsSpace(s[i])
  {
    if s != [] && IsSpace(s[|s| - 1]) then TrimEnd(s[..|s| - 1]) else s
  }

  /** `s.strip()` */
  function Strip(s: string): (r: string)
    ensures |r| <= |s|
    ensures r == [] || (!IsSpace(r[0]) && !IsSpace(r[|r| - 1]))
  {
    TrimStart(TrimEnd(s))
  }

  /** The stripped string is the slice of `s` left once the whitespace at
      both ends is cut off. */
  lemma StripSlice(s: string) returns (a: nat, b: nat)
    ensures a <= b <= |s| && Strip(s) == s[a..b]
    ensures forall i :: 0 <= i < a ==> IsSpace(s[i])
    ensures forall i :: b <= i < |s| ==> IsSpace(s[i])
  {
    var t := TrimEnd(s);
    b := |t|;
    a := |t| - |Strip(s)|;
    assert Strip(s) == t[a..];
    assert t[a..] == s[a..b];
  }

  /** Stripping twice is stripping once. */
  lemma StripIdempotent(s: string)
    ensures Strip(Strip(s)) == Strip(s)
  {
    var r := Strip(s);
    assert TrimEnd(r) == r;
  }

  /** Stripping removes no occurrence that was not already in `s`. */
  lemma StripContains(s: string, p: string)
    ensures Contains(Strip(s), p) ==> Contains(s, p)
  {
    var a, b := StripSlice(s);
    ContainsInSlice(s, p, a, b);
  }

  /** `sep.join(pieces)` */
  function Join(sep: string, pieces: seq<string>): string {
    if pieces == [] then ""
    else if |pieces| == 1 then pieces[0]
    else pieces[0] + sep + Join(sep, pieces[1..])
  }

  /** `s.split(sep)` for a non-empty separator: the pieces between the
      non-overlapping occurrences of `sep`, scanned left to right. */
  function Split(s: string, sep: string): (pieces: seq<string>)
    requires sep != []
    ensures |pieces| >= 1
    ensures |pieces| == 1 <==> !Contains(s, sep)
    decreases |s|
  {
    var p := Find(s, sep);
    if p == -1 then [s] else [s[..p]] + Split(s[p + |sep|..], sep)
  }

  /** Joining the pieces with the separator gives back the string. */
  lemma {:induction false} SplitJoin(s: string, sep: string)
    requires sep != []
    ensures Join(sep, Split(s, sep)) == s
    decreases |s|
  {
    if Contains(s, sep) {
      SplitHead(s, sep);
      SplitJoin(s[Find(s, sep) + |sep|..], sep);
      JoinAround(s, sep, Find(s, sep), Split(s, sep));
    }
  }

  /** Joining a first piece that ends where `sep` occurs with pieces that
      join to what follows that occurrence gives back the whole string. */
  lemma JoinAround(s: string, sep: string, p: nat, pieces: seq<string>)
    requires OccursAt(s, sep, p)
    requires |pieces| >= 2 && pieces[0] == s[..p]
    requires Join(sep, pieces[1..]) == s[p + |sep|..]
    ensures Join(sep, pieces) == s
  {
    assert Join(sep, pieces) == s[..p] + sep + s[p + |sep|..];
    Around(s, p, p + |sep|);
  }

  /** A string is its text before `i`, between `i` and `j`, and after `j`. */
  lemma Around(s: string, i: nat, j: nat)
    requires i <= j <= |s|
    ensures s == s[..i] + s[i..j] + s[j..]
  {
  }

  /** No piece of a split contains the separator. */
  lemma {:induction false} SplitPiecesFree(s: string, sep: string)
    requires sep != []
    ensures forall k :: 0 <= k < |Split(s, sep)| ==> !Contains(Split(s, sep)[k], sep)
    decreases |s|
  {
    var p := Find(s, sep);
    if p != -1 {
      NoneBeforeFirst(s, sep, p);
      var rest := Split(s[p + |sep|..], sep);
      SplitPiecesFree(s[p + |sep|..], sep);
      var pieces := [s[..p]] + rest;
      assert forall k :: 1 <= k < |pieces| ==> pieces[k] == rest[k - 1];
    }
  }

  /** The first piece of a split runs up to the first occurrence of the
      separator, and the remaining pieces split what follows it. */
  lemma SplitHead(s: string, sep: string)
    requires sep != []
    ensures !Contains(s, sep) ==> Split(s, sep) == [s]
    ensures Contains(s, sep) ==>
      var p := Find(s, sep);
      Split(s, sep)[0] == s[..p] && Split(s, sep)[1..] == Split(s[p + |sep|..], sep)
  {
    var p := Find(s, sep);
    if p != -1 {
      var rest := Split(s[p + |sep|..], sep);
      assert ([s[..p]] + rest)[1..] == rest;
    }
  }

  /** Number of occurrences of `c` in `s`. */
  function CountChar(s: string, c: char): nat {
    if s == [] then 0 else (if s[0] == c then 1 else 0) + CountChar(s[1..], c)
  }

  lemma {:induction false} CountCharAppend(a: string, b: string, c: char)
    ensures CountChar(a + b, c) == CountChar(a, c) + CountChar(b, c)
  {
    if a == [] {
      assert a + b == b;
    } else {
      assert (a + b)[1..] == a[1..] + b;
      CountCharAppend(a[1..], b, c);
    }
  }

  lemma {:induction false} CountCharZero(s: string, c: char)
    ensures CountChar(s, c) == 0 <==> !Contains(s, [c])
  {
    if s != [] {
      CountCharZero(s[1..], c);
      if s[0] == c {
        assert OccursAt(s, [c], 0);
      } else if Contains(s, [c]) {
        var i: nat :| i <= |s| && OccursAt(s, [c], i);
        assert i != 0;
        assert s[1..][i - 1] == s[i];
        assert OccursAt(s[1..], [c], i - 1);
      } else if Contains(s[1..], [c]) {
        assert s[1..|s|] == s[1..];
        ContainsInSlice(s, [c], 1, |s|);
      }
    }
  }

  /** Splitting on a one-character separator gives one piece more than the
      number of times that character occurs. */
  lemma {:induction false} SplitCount(s: string, c: char)
    ensures |Split(s, [c])| == CountChar(s, c) + 1
    decreases |s|
  {
    var p := Find(s, [c]);
    if p == -1 {
      CountCharZero(s, c);
    } else {
      NoneBeforeFirst(s, [c], p);
      CountCharZero(s[..p], c);
      assert s == s[..p] + ([c] + s[p + 1..]);
      CountCharAppend(s[..p], [c] + s[p + 1..], c);
      assert ([c] + s[p + 1..])[1..] == s[p + 1..];
      SplitCount(s[p + 1..], c);
    }
  }

  /** `s.replace(pat, repl, 1)`: only the leftmost occurrence is replaced. */
  function ReplaceFirst(s: string, pat: string, repl: string): (r: string)
    requires pat != []
    ensures !Contains(s, pat) ==> r == s
    ensures forall k: nat :: FirstAt(s, pat, k) ==> r == s[..k] + repl + s[k + |pat|..]
  {
    var p := Find(s, pat);
    if p == -1 then s else s[..p] + repl + s[p + |pat|..]
  }

  /** Past a prefix `a`, the occurrences in `a + s` are those in `s`, shifted. */
  lemma OccursPastPrefix(a: string, s: string, p: string, j: nat)
    requires |a| <= j
    ensures OccursAt(a + s, p, j) <==> OccursAt(s, p, j - |a|)
  {
    if j + |p| <= |a + s| {
      var n := |p|;
      var whole, part := (a + s)[j..j + n], s[j - |a|..j - |a| + n];
      assert forall t :: 0 <= t < n ==> whole[t] == part[t];
    }
  }

  /** When no occurrence of `pat` starts inside the prefix `a`, replacing the
      first one in `a + s` is replacing the first one in `s`. */
  lemma ReplaceFirstAfterPrefix(a: string, s: string, pat: string, repl: string)
    requires pat != []
    requires forall j: nat :: j < |a| ==> !OccursAt(a + s, pat, j)
    ensures ReplaceFirst(a + s, pat, repl) == a + ReplaceFirst(s, pat, repl)
  {
    if Contains(s, pat) {
      ReplaceAfterPrefixAt(a, s, pat, repl, Find(s, pat));
    } else {
      var t := a + s;
      forall i: nat | i <= |t|
        ensures !OccursAt(t, pat, i)
      {
        if |a| <= i {
          OccursPastPrefix(a, s, pat, i);
        }
      }
      assert t == a + s;
    }
  }

  /** The case of `ReplaceFirstAfterPrefix` where `s` holds `pat`, first at `k`. */
  lemma ReplaceAfterPrefixAt(a: string, s: string, pat: string, repl: string, k: nat)
    requires pat != []
    requires forall j: nat :: j < |a| ==> !OccursAt(a + s, pat, j)
    requires FirstAt(s, pat, k)
    ensures ReplaceFirst(a + s, pat, repl) == a + ReplaceFirst(s, pat, repl)
  {
    OccursPastPrefix(a, s, pat, |a| + k);
    forall j: nat | j < |a| + k
      ensures !OccursAt(a + s, pat, j)
    {
      if |a| <= j {
        OccursPastPrefix(a, s, pat, j);
      }
    }
    assert FirstAt(a + s, pat, |a| + k);
    calc {
      ReplaceFirst(a + s, pat, repl);
      (a + s)[..|a| + k] + repl + (a + s)[|a| + k + |pat|..];
      { SpliceAfterPrefix(a, s, k, |pat|, repl); }
      a + (s[..k] + repl + s[k + |pat|..]);
      a + ReplaceFirst(s, pat, repl);
    }
  }

  /** Splicing `x` into `a + s` in place of the `n` characters at `i` splices
      it into `s`. */
  lemma SpliceAfterPrefix(a: string, s: string, i: nat, n: nat, x: string)
    requires i + n <= |s|
    ensures (a + s)[..|a| + i] + x + (a + s)[|a| + i + n..] == a + (s[..i] + x + s[i + n..])
  {
    assert (a + s)[..|a| + i] == a + s[..i];
    assert (a + s)[|a| + i + n..] == s[i + n..];
  }
}
