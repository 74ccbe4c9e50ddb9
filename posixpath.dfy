/** The parts of Python 2's `posixpath` (`os.path` on POSIX) that the tools
    use: `isabs`, `join` with two arguments, `split` and `dirname`. */
module PosixPath {
  import opened Strings

  const Sep: char := '/'

  /** `os.path.isabs(p)`: the path starts with a slash. */
  predicate IsAbs(p: String) {
    |p| > 0 && p[0] == Sep
  }

  /** `os.path.join(a, b)`: an absolute `b` replaces `a`; otherwise `b` is
      appended after a slash unless `a` is empty or already ends in one. */
  function Join(a: String, b: String): (r: String)
    ensures IsAbs(b) ==> r == b
    ensures EndsWith(r, b)
    ensures !IsAbs(b) ==> StartsWith(r, a) && |r| <= |a| + 1 + |b|
  {
    if IsAbs(b) then b
    else if a == [] || a[|a| - 1] == Sep then a + b
    else a + [Sep] + b
  }

  /** `p.rfind(c)`: the index of the last `c` in `p`, or -1. */
  function RFind(p: String, c: char): (r: int)
    ensures -1 <= r < |p|
    ensures r >= 0 ==> p[r] == c && forall j :: r < j < |p| ==> p[j] != c
    ensures r < 0 ==> c !in p
    decreases |p|
  {
    if |p| == 0 then -1
    else if p[|p| - 1] == c then |p| - 1
    else RFind(p[..|p| - 1], c)
  }

  /** `s.rstrip(c)`: `s` without its trailing run of `c`. */
  function RStrip(s: String, c: char): (r: String)
    ensures |r| <= |s| && r == s[..|r|]
    ensures |r| > 0 ==> r[|r| - 1] != c
    ensures forall j :: |r| <= j < |s| ==> s[j] == c
    decreases |s|
  {
    if |s| > 0 && s[|s| - 1] == c then RStrip(s[..|s| - 1], c) else s
  }

  predicate AllSlashes(s: String) {
    forall j :: 0 <= j < |s| ==> s[j] == Sep
  }

  /** `os.path.split(p)`: the tail is everything after the last slash; the
      head is everything before it, with trailing slashes removed unless the
      head is made of slashes only. */
  function PathSplit(p: String): (r: (String, String))
    ensures Sep !in r.1
    ensures EndsWith(p, r.1)
    ensures |r.1| == |p| || p[|p| - |r.1| - 1] == Sep
    ensures Sep in p ==> |r.0| > 0
  {
    var i := RFind(p, Sep) + 1;
    var head, tail := p[..i], p[i..];
    if head != [] && !AllSlashes(head) then (RStrip(head, Sep), tail) else (head, tail)
  }

  /** `os.path.dirname(p)`. */
  function Dirname(p: String): String {
    PathSplit(p).0
  }

  /** `rfind` finds the slash that is followed by a slash-free `b`. */
  lemma {:induction false} RFindLastSlash(a: String, b: String)
    requires Sep !in b
    ensures RFind(a + [Sep] + b, Sep) == |a|
    decreases |b|
  {
    var p := a + [Sep] + b;
    if b == [] {
      assert p[|p| - 1] == Sep;
    } else {
      var b' := b[..|b| - 1];
      assert p[..|p| - 1] == a + [Sep] + b';
      assert p[|p| - 1] == b[|b| - 1];
      assert Sep !in b' by {
        assert forall j :: 0 <= j < |b'| ==> b'[j] == b[j];
      }
      RFindLastSlash(a, b');
    }
  }

  /** Splitting `a/b`, with no slash in either part, gives back `a` and `b`,
      except that an empty `a` leaves the root `/` as the head. */
  lemma PathSplitOneSlash(a: String, b: String)
    requires Sep !in a && Sep !in b
    ensures PathSplit(a + [Sep] + b) == (if a == [] then [Sep] else a, b)
  {
    var p := a + [Sep] + b;
    RFindLastSlash(a, b);
    var i := RFind(p, Sep);
    assert p[..i + 1] == a + [Sep];
    assert p[i + 1..] == b;
    if a != [] {
      assert !AllSlashes(a + [Sep]) by { assert (a + [Sep])[0] == a[0]; }
      assert RStrip(a + [Sep], Sep) == RStrip(a, Sep) by {
        assert (a + [Sep])[..|a|] == a;
      }
      assert RStrip(a, Sep) == a by { assert a[|a| - 1] != Sep; }
    }
  }

  /** Splitting a joined path gives back its two parts, when the directory
      is non-empty with no trailing slash and the file name holds no slash. */
  lemma PathSplitJoin(d: String, f: String)
    requires d != [] && d[|d| - 1] != Sep
    requires Sep !in f
    ensures PathSplit(Join(d, f)) == (d, f)
  {
    var p := d + [Sep] + f;
    assert Join(d, f) == p;
    RFindLastSlash(d, f);
    var i := RFind(p, Sep);
    assert p[..i + 1] == d + [Sep];
    assert p[i + 1..] == f;
    assert !AllSlashes(d + [Sep]) by { assert (d + [Sep])[|d| - 1] == d[|d| - 1]; }
    assert RStrip(d + [Sep], Sep) == RStrip(d, Sep) by {
      assert (d + [Sep])[..|d|] == d;
    }
  }
}
