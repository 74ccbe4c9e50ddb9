/** Python string operations used by both tools: `str.find`, the `in`
    operator on strings, `str.split(sep)`, `sep.join(parts)`,
    `str.replace(old, new)`, `str.startswith` and `str.endswith`. */
module Strings {

  type String = seq<char>

  predicate StartsWith(s: String, p: String) {
    |p| <= |s| && s[..|p|] == p
  }

  predicate EndsWith(s: String, p: String) {
    |p| <= |s| && s[|s| - |p|..] == p
  }

  /** `s.endswith(p)` holds exactly when `s` is some string followed by `p`. */
  lemma EndsWithIsSuffix(s: String, p: String)
    ensures EndsWith(s, p) <==> |p| <= |s| && s[..|s| - |p|] + p == s
  {
    if |p| <= |s| && s[..|s| - |p|] + p == s {
      assert s[|s| - |p|..] == (s[..|s| - |p|] + p)[|s| - |p|..];
    }
  }

  /** `p` occurs in `s` starting at index `i`. */
  predicate OccursAt(s: String, p: String, i: int) {
    0 <= i && i + |p| <= |s| && s[i..i + |p|] == p
  }

  /** The scan behind `s.find(p)`: the first index from `i` on at which `p`
      occurs, or -1. */
  function FindFrom(s: String, p: String, i: nat): (r: int)
    ensures r == -1 || (i <= r && OccursAt(s, p, r))
    decreases |s| - i
  {
    if i + |p| > |s| then -1
    else if s[i..i + |p|] == p then i
    else FindFrom(s, p, i + 1)
  }

  lemma {:induction false} FindFromLeftmost(s: String, p: String, i: nat)
    ensures FindFrom(s, p, i) >= 0 ==> forall j :: i <= j < FindFrom(s, p, i) ==> !OccursAt(s, p, j)
    ensures FindFrom(s, p, i) < 0 ==> forall j :: i <= j ==> !OccursAt(s, p, j)
    decreases |s| - i
  {
    if i + |p| <= |s| && s[i..i + |p|] != p {
      FindFromLeftmost(s, p, i + 1);
    }
  }

  /** `s.find(p)`: the leftmost index at which `p` occurs in `s`, or -1;
      `IndexOfLeftmost` states that no earlier occurrence exists and that -1
      means there is none. */
  function IndexOf(s: String, p: String): (r: int)
    ensures -1 <= r <= |s|
    ensures r >= 0 ==> OccursAt(s, p, r)
  {
    FindFrom(s, p, 0)
  }

  lemma IndexOfLeftmost(s: String, p: String)
    ensures IndexOf(s, p) >= 0 ==> forall j :: 0 <= j < IndexOf(s, p) ==> !OccursAt(s, p, j)
    ensures IndexOf(s, p) < 0 ==> forall j :: !OccursAt(s, p, j)
  {
    FindFromLeftmost(s, p, 0);
  }

  /** Python's `t in s` for strings. */
  predicate Contains(s: String, t: String) {
    IndexOf(s, t) >= 0
  }

  /** `s.split(sep)` for a non-empty separator: the piece before the
      leftmost occurrence `s.find(sep)`, then the split of what follows that
      occurrence; without an occurrence the string is the only piece. */
  function Split(s: String, sep: String): (r: seq<String>)
    requires |sep| > 0
    ensures |r| >= 1
    decreases |s|
  {
    var i := IndexOf(s, sep);
    if i < 0 then [s] else [s[..i]] + Split(s[i + |sep|..], sep)
  }

  /** `sep.join(parts)`. */
  function JoinWith(parts: seq<String>, sep: String): String
    decreases |parts|
  {
    if |parts| == 0 then ""
    else if |parts| == 1 then parts[0]
    else parts[0] + sep + JoinWith(parts[1..], sep)
  }

  lemma JoinWithCons(a: String, t: seq<String>, sep: String)
    requires |t| >= 1
    ensures JoinWith([a] + t, sep) == a + sep + JoinWith(t, sep)
  {
    assert ([a] + t)[1..] == t;
  }

  /** Joining the pieces of a split with the same separator gives back the string. */
  lemma {:induction false} JoinSplit(s: String, sep: String)
    requires |sep| > 0
    ensures JoinWith(Split(s, sep), sep) == s
    decreases |s|
  {
    var i := IndexOf(s, sep);
    if i >= 0 {
      var rest := s[i + |sep|..];
      JoinSplit(rest, sep);
      JoinWithCons(s[..i], Split(rest, sep), sep);
      assert s == s[..i] + s[i..i + |sep|] + rest;
    }
  }

  /** In `a + [c] + b` with `a` free of `c`, the first `c` is the one after `a`. */
  lemma FindSingle(a: String, c: char, b: String)
    requires c !in a
    ensures IndexOf(a + [c] + b, [c]) == |a|
  {
    var s := a + [c] + b;
    assert OccursAt(s, [c], |a|) by {
      assert s[|a|..|a| + 1] == [c];
    }
    IndexOfLeftmost(s, [c]);
    forall j | 0 <= j < |a|
      ensures !OccursAt(s, [c], j)
    {
      assert s[j..j + 1][0] == a[j];
    }
  }

  /** Splitting `a + [c] + b` on `c`, when `a` is free of `c`, yields `a` first. */
  lemma SplitAtFirst(a: String, c: char, b: String)
    requires c !in a
    ensures Split(a + [c] + b, [c]) == [a] + Split(b, [c])
  {
    var s := a + [c] + b;
    FindSingle(a, c, b);
    assert s[..|a|] == a && s[|a| + 1..] == b;
  }

  /** A string free of `c` splits into itself alone. */
  lemma SplitWithout(a: String, c: char)
    requires c !in a
    ensures Split(a, [c]) == [a]
  {
    forall j | 0 <= j < |a|
      ensures !OccursAt(a, [c], j)
    {
      assert a[j..j + 1][0] == a[j];
    }
  }

  /** Splitting on a one-character separator undoes a join of pieces free of it. */
  lemma {:induction false} SplitJoinSingleChar(parts: seq<String>, c: char)
    requires |parts| >= 1
    requires forall k :: 0 <= k < |parts| ==> c !in parts[k]
    ensures Split(JoinWith(parts, [c]), [c]) == parts
    decreases |parts|
  {
    if |parts| == 1 {
      SplitWithout(parts[0], c);
    } else {
      SplitJoinSingleChar(parts[1..], c);
      SplitAtFirst(parts[0], c, JoinWith(parts[1..], [c]));
      assert [parts[0]] + parts[1..] == parts;
    }
  }

  /** `s.replace(p, rep)` for a non-empty `p`: the text before the leftmost
      occurrence `s.find(p)`, then `rep`, then the replacement in what follows
      that occurrence; without an occurrence the string is unchanged. */
  function ReplaceAll(s: String, p: String, rep: String): String
    requires |p| > 0
    decreases |s|
  {
    var i := IndexOf(s, p);
    if i < 0 then s else s[..i] + rep + ReplaceAll(s[i + |p|..], p, rep)
  }

  /** Python's identity `s.replace(p, rep) == rep.join(s.split(p))`. */
  lemma {:induction false} ReplaceIsJoinOfSplit(s: String, p: String, rep: String)
    requires |p| > 0
    ensures ReplaceAll(s, p, rep) == JoinWith(Split(s, p), rep)
    decreases |s|
  {
    var i := IndexOf(s, p);
    if i >= 0 {
      var rest := s[i + |p|..];
      ReplaceIsJoinOfSplit(rest, p, rep);
      JoinWithCons(s[..i], Split(rest, p), rep);
    }
  }

  /** `s.replace(p, '')`; an empty `p` leaves `s` as it is. */
  function StripAll(s: String, p: String): String {
    if |p| == 0 then s else ReplaceAll(s, p, "")
  }

  /** `s.replace(p, '')` drops the leftmost occurrence `s.find(p)` and goes
      on after it; without an occurrence the string is unchanged. This holds
      for an empty `p` too, which `s.find` finds at index 0. */
  lemma StripAllAtFind(s: String, p: String)
    ensures IndexOf(s, p) < 0 ==> StripAll(s, p) == s
    ensures IndexOf(s, p) >= 0 ==>
              StripAll(s, p) == s[..IndexOf(s, p)] + StripAll(s[IndexOf(s, p) + |p|..], p)
  {
    if |p| == 0 {
      StripAllEmpty(s, p);
    } else if IndexOf(s, p) >= 0 {
      var i := IndexOf(s, p);
      AppendEmpty(s[..i], StripAll(s[i + |p|..], p));
    }
  }

  lemma StripAllEmpty(s: String, p: String)
    requires |p| == 0
    ensures IndexOf(s, p) == 0 && StripAll(s, p) == s[..0] + StripAll(s[0 + |p|..], p)
  {
    assert s[0..0] == p;
    assert s[..0] + s[0..] == s;
  }

  lemma AppendEmpty(a: String, b: String)
    ensures a + "" + b == a + b
  {
  }

  /** Stripping `.zip` from `/r/z.zip` leaves `/r/z`. */
  lemma StripZipExample()
    ensures StripAll("/r/z.zip", ".zip") == "/r/z"
  {
    var s: String := "/r/z.zip";
    assert OccursAt(s, ".zip", 4);
    assert forall j :: 0 <= j < 4 ==> !OccursAt(s, ".zip", j) by {
      assert s[0] != '.' && s[1] != '.' && s[2] != '.' && s[3] != '.';
    }
    IndexOfLeftmost(s, ".zip");
    assert IndexOf(s, ".zip") == 4;
    assert s[..4] == "/r/z" && s[8..] == "";
  }

  /** Removing every occurrence of `p` keeps exactly the pieces between them,
      in order. */
  lemma StripAllKeepsPieces(s: String, p: String)
    requires |p| > 0
    ensures StripAll(s, p) == JoinWith(Split(s, p), "")
  {
    ReplaceIsJoinOfSplit(s, p, "");
  }

  /** A string in which `p` does not occur is returned unchanged. */
  lemma StripAllAbsent(s: String, p: String)
    requires !Contains(s, p)
    ensures StripAll(s, p) == s
  {
    StripAllAtFind(s, p);
  }

  lemma MulStep(a: int, n: int)
    ensures a * n == a * (n - 1) + a
  {
  }

  /** Each removed occurrence shortens the string by `|p|`. */
  lemma {:induction false} StripAllLength(s: String, p: String)
    requires |p| > 0
    ensures |StripAll(s, p)| == |s| - |p| * (|Split(s, p)| - 1)
    decreases |s|
  {
    var i := IndexOf(s, p);
    if i >= 0 {
      var rest := s[i + |p|..];
      StripAllLength(rest, p);
      MulStep(|p|, |Split(rest, p)|);
    }
  }

  /** The first character survives when it cannot begin an occurrence. */
  lemma StripAllKeepsFirst(s: String, p: String)
    requires |s| > 0 && |p| > 0 && s[0] != p[0]
    ensures |StripAll(s, p)| > 0 && StripAll(s, p)[0] == s[0]
  {
    assert !OccursAt(s, p, 0) by {
      assert |p| <= |s| ==> s[0..|p|][0] == s[0];
    }
  }
}
