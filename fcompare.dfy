/** The classification loop of `fcompare.py`: each file name of the first
    folder is reduced to a comparison token and looked up among the file
    names of the second folder, and the outcome is tallied. */
module FCompare {
  import opened Wrappers
  import opened Strings

  // ---------------------------------------------------------------------
  // The `[A-Z]{1}[a-z]+[A-Z]{1}[a-z]+` search
  // ---------------------------------------------------------------------

  /** The regex classes `[A-Z]` and `[a-z]` (ASCII ranges). */
  predicate IsUpper(c: char) { 'A' <= c <= 'Z' }
  predicate IsLower(c: char) { 'a' <= c <= 'z' }

  /** A `GenusSpecies` token: an uppercase letter, then lowercase letters
      with exactly one more uppercase letter among them, neither right after
      the first nor last. */
  ghost predicate IsToken(t: String) {
    |t| >= 4 && IsUpper(t[0]) &&
    exists j :: 2 <= j <= |t| - 2 && IsUpper(t[j]) &&
                forall q :: 1 <= q < |t| && q != j ==> IsLower(t[q])
  }

  /** The regex matches `s[i..k]`: a token starting at `i` whose last
      lowercase run cannot be extended (the `+` is greedy). */
  ghost predicate TokenAt(s: String, i: int, k: int) {
    0 <= i < k <= |s| && IsToken(s[i..k]) && (k == |s| || !IsLower(s[k]))
  }

  /** The end of the run of lowercase letters starting at `p`. */
  function LowerEnd(s: String, p: nat): (q: nat)
    requires p <= |s|
    ensures p <= q <= |s|
    ensures forall x :: p <= x < q ==> IsLower(s[x])
    ensures q == |s| || !IsLower(s[q])
    decreases |s| - p
  {
    if p < |s| && IsLower(s[p]) then LowerEnd(s, p + 1) else p
  }

  /** The lowercase run from `p` ends at the first position that is not
      lowercase. */
  lemma {:induction false} LowerEndAt(s: String, p: nat, x: nat)
    requires p <= x <= |s|
    requires forall y :: p <= y < x ==> IsLower(s[y])
    requires x == |s| || !IsLower(s[x])
    ensures LowerEnd(s, p) == x
    decreases x - p
  {
    if p < x {
      LowerEndAt(s, p + 1, x);
    }
  }

  /** Where a token at `i` would have to end, read off the token's shape. */
  lemma TokenAtShape(s: String, i: int, k: int)
    ensures TokenAt(s, i, k) ==>
              && i + 1 < |s| && IsUpper(s[i]) && IsLower(s[i + 1])
              && var j := LowerEnd(s, i + 1);
                 j + 1 < |s| && IsUpper(s[j]) && IsLower(s[j + 1]) && LowerEnd(s, j + 1) == k
  {
    if TokenAt(s, i, k) {
      var t := s[i..k];
      var jj :| 2 <= jj <= |t| - 2 && IsUpper(t[jj]) &&
                forall q :: 1 <= q < |t| && q != jj ==> IsLower(t[q]);
      assert forall q :: 1 <= q < |t| ==> t[q] == s[i + q];
      assert IsLower(s[i + 1]) by { assert IsLower(t[1]); }
      assert IsUpper(s[i + jj]) by { assert t[jj] == s[i + jj]; }
      assert forall x :: i + 1 <= x < i + jj ==> IsLower(s[x]) by {
        forall x | i + 1 <= x < i + jj ensures IsLower(s[x]) {
          assert IsLower(t[x - i]);
        }
      }
      LowerEndAt(s, i + 1, i + jj);
      var j := i + jj;
      assert IsLower(s[j + 1]) by { assert IsLower(t[jj + 1]); }
      assert forall x :: j + 1 <= x < k ==> IsLower(s[x]) by {
        forall x | j + 1 <= x < k ensures IsLower(s[x]) {
          assert IsLower(t[x - i]);
        }
      }
      LowerEndAt(s, j + 1, k);
    }
  }

  /** Whether the regex matches starting exactly at `i`, and where it ends. */
  function MatchAt(s: String, i: nat): (r: Option<nat>)
    requires i <= |s|
    ensures forall k :: TokenAt(s, i, k) <==> r == Some(k)
  {
    if i + 1 < |s| && IsUpper(s[i]) && IsLower(s[i + 1]) then
      var j := LowerEnd(s, i + 1);
      if j + 1 < |s| && IsUpper(s[j]) && IsLower(s[j + 1]) then
        var k := LowerEnd(s, j + 1);
        assert TokenAt(s, i, k) by {
          var t := s[i..k];
          assert forall q :: 1 <= q < |t| ==> t[q] == s[i + q];
          assert IsUpper(t[j - i]) && forall q :: 1 <= q < |t| && q != j - i ==> IsLower(t[q]);
        }
        assert forall k' :: TokenAt(s, i, k') ==> k' == k by {
          forall k' { TokenAtShape(s, i, k'); }
        }
        Some(k)
      else
        assert forall k' :: !TokenAt(s, i, k') by {
          forall k' { TokenAtShape(s, i, k'); }
        }
        None
    else
      assert forall k' :: !TokenAt(s, i, k') by {
        forall k' { TokenAtShape(s, i, k'); }
      }
      None
  }

  /** The regex holds at `a` and nowhere to its left. */
  ghost predicate LeftmostAt(s: String, a: int, k: int) {
    TokenAt(s, a, k) && forall b, k' :: 0 <= b < a ==> !TokenAt(s, b, k')
  }

  /** The span of the leftmost match at or after `i`. */
  function FindSpan(s: String, i: nat): (r: Option<(nat, nat)>)
    requires i <= |s|
    ensures r.None? <==> forall a, k :: i <= a ==> !TokenAt(s, a, k)
    ensures r.Some? ==> i <= r.value.0 && TokenAt(s, r.value.0, r.value.1)
    ensures r.Some? ==> forall b, k' :: i <= b < r.value.0 ==> !TokenAt(s, b, k')
    decreases |s| - i
  {
    if i == |s| then None
    else match MatchAt(s, i)
      case Some(k) => Some((i, k))
      case None => FindSpan(s, i + 1)
  }

  /** `re.search(p, s).group()`, or `None` when there is no match: the
      leftmost token with its lowercase runs taken in full. */
  function FindToken(s: String): (r: Option<String>)
    ensures r.None? <==> forall a, k :: !TokenAt(s, a, k)
    ensures r.Some? ==> exists a, k :: LeftmostAt(s, a, k) && r.value == s[a..k]
    ensures r.Some? ==> IsToken(r.value)
  {
    match FindSpan(s, 0)
    case None => None
    case Some((a, k)) =>
      assert LeftmostAt(s, a, k);
      Some(s[a..k])
  }

  // ---------------------------------------------------------------------
  // The classification of one file, as a reference
  // ---------------------------------------------------------------------

  /** The command-line inputs of the loop: the second folder's names, the
      extension, the cutoff, and `get_close_matches` taken as given. */
  datatype Args = Args(files2: seq<String>, extension: String, cutoff: Option<real>,
                       closeMatches: (String, seq<String>, real) -> seq<String>)

  /** `if args.cutoff:` — `None` and `0.0` are false. */
  predicate CutoffSet(cutoff: Option<real>) {
    cutoff.Some? && cutoff.value != 0.0
  }

  /** A cutoff of `0.0` is false, so the file is judged in exact mode, as
      with no cutoff at all. */
  lemma ZeroCutoffIsExact(file1: String, args: Args)
    requires args.cutoff == Some(0.0)
    ensures Judge(file1, args) == Judge(file1, args.(cutoff := None))
  {
  }

  /** What `matches[_file1]` holds: one name, or the candidate list. */
  datatype MatchValue = Name(name: String) | Candidates(names: seq<String>)

  /** The last name in `files` that contains `token`. */
  function LastContaining(files: seq<String>, token: String): (r: Option<String>)
    ensures r.None? <==> forall j :: 0 <= j < |files| ==> !Contains(files[j], token)
    ensures r.Some? ==> r.value in files && Contains(r.value, token)
    decreases |files|
  {
    if files == [] then None
    else if Contains(files[|files| - 1], token) then Some(files[|files| - 1])
    else
      var pre := files[..|files| - 1];
      assert forall j :: 0 <= j < |pre| ==> pre[j] == files[j];
      LastContaining(pre, token)
  }

  /** The name found is the last one containing the token: every later
      name lacks it. */
  lemma {:induction false} LastContainingIsLast(files: seq<String>, token: String)
    ensures LastContaining(files, token).Some? ==>
              exists j :: 0 <= j < |files| && files[j] == LastContaining(files, token).value &&
                          forall j' :: j < j' < |files| ==> !Contains(files[j'], token)
    decreases |files|
  {
    if files == [] {
    } else if Contains(files[|files| - 1], token) {
      var j := |files| - 1;
      assert files[j] == LastContaining(files, token).value;
    } else {
      var pre := files[..|files| - 1];
      LastContainingIsLast(pre, token);
      if LastContaining(pre, token).Some? {
        var j :| 0 <= j < |pre| && pre[j] == LastContaining(pre, token).value &&
                 forall j' :: j < j' < |pre| ==> !Contains(pre[j'], token);
        assert LastContaining(files, token) == LastContaining(pre, token);
        forall j' | j < j' < |files|
          ensures !Contains(files[j'], token)
        {
          if j' < |pre| {
            assert files[j'] == pre[j'];
          }
        }
        assert files[j] == pre[j];
      }
    }
  }

  lemma LastContainingSnoc(files: seq<String>, x: String, token: String)
    ensures LastContaining(files + [x], token) ==
            if Contains(x, token) then Some(x) else LastContaining(files, token)
  {
    assert (files + [x])[..|files|] == files;
  }

  lemma LastContainingPrefix(files: seq<String>, j: nat, token: String)
    requires j < |files|
    ensures LastContaining(files[..j + 1], token) ==
            if Contains(files[j], token) then Some(files[j]) else LastContaining(files[..j], token)
  {
    assert files[..j + 1] == files[..j] + [files[j]];
    LastContainingSnoc(files[..j], files[j], token);
  }

  /** How one file of the first folder ends up: skipped for want of a
      token, matched, or unmatched. */
  datatype Verdict = NoToken | Matched(value: MatchValue) | NoMatch

  /** The verdict for one file of the first folder, whose name first loses
      every occurrence of the extension. */
  function Judge(file1: String, args: Args): (v: Verdict)
    ensures CutoffSet(args.cutoff) ==> v.Matched? && v.value.Candidates?
    ensures !CutoffSet(args.cutoff) ==>
              (v.NoToken? <==> FindToken(StripAll(file1, args.extension)).None?)
    ensures !CutoffSet(args.cutoff) && v.Matched? ==>
              var t := FindToken(StripAll(file1, args.extension)).value;
              v.value.Name? && v.value.name in args.files2 && Contains(v.value.name, t)
    ensures !CutoffSet(args.cutoff) && FindToken(StripAll(file1, args.extension)).Some? ==>
              var t := FindToken(StripAll(file1, args.extension)).value;
              (v.Matched? <==> exists j :: 0 <= j < |args.files2| && Contains(args.files2[j], t))
  {
    var token := StripAll(file1, args.extension);
    if CutoffSet(args.cutoff) then
      Matched(Candidates(args.closeMatches(token, args.files2, args.cutoff.value)))
    else match FindToken(token)
      case None => NoToken
      case Some(t) =>
        match LastContaining(args.files2, t)
        case Some(f) => Matched(Name(f))
        case None => NoMatch
  }

  // ---------------------------------------------------------------------
  // Tallies over the first folder
  // ---------------------------------------------------------------------

  function CountMatched(files1: seq<String>, args: Args): nat
    decreases |files1|
  {
    if files1 == [] then 0
    else CountMatched(files1[..|files1| - 1], args) +
         (if Judge(files1[|files1| - 1], args).Matched? then 1 else 0)
  }

  function CountNoToken(files1: seq<String>, args: Args): nat
    decreases |files1|
  {
    if files1 == [] then 0
    else CountNoToken(files1[..|files1| - 1], args) +
         (if Judge(files1[|files1| - 1], args).NoToken? then 1 else 0)
  }

  /** The unmatched names, in `files1` order. */
  function Unmatched(files1: seq<String>, args: Args): seq<String>
    decreases |files1|
  {
    if files1 == [] then []
    else Unmatched(files1[..|files1| - 1], args) +
         (if Judge(files1[|files1| - 1], args).NoMatch? then [files1[|files1| - 1]] else [])
  }

  /** Every file is matched, unmatched or skipped, and only one of them. */
  lemma {:induction false} TalliesCoverAll(files1: seq<String>, args: Args)
    ensures CountMatched(files1, args) + |Unmatched(files1, args)| + CountNoToken(files1, args) == |files1|
    decreases |files1|
  {
    if files1 != [] {
      TalliesCoverAll(files1[..|files1| - 1], args);
    }
  }

  /** With a set cutoff every file counts as matched, whatever the candidate
      lists hold. */
  lemma {:induction false} CutoffMatchesAll(files1: seq<String>, args: Args)
    requires CutoffSet(args.cutoff)
    ensures CountMatched(files1, args) == |files1|
    ensures Unmatched(files1, args) == [] && CountNoToken(files1, args) == 0
    decreases |files1|
  {
    if files1 != [] {
      CutoffMatchesAll(files1[..|files1| - 1], args);
    }
  }

  /** A name is reported unmatched exactly when it is in `files1` and its
      verdict is `NoMatch`. */
  lemma {:induction false} UnmatchedMembers(files1: seq<String>, args: Args, x: String)
    ensures x in Unmatched(files1, args) <==> x in files1 && Judge(x, args).NoMatch?
    decreases |files1|
  {
    if files1 != [] {
      var pre, last := files1[..|files1| - 1], files1[|files1| - 1];
      UnmatchedMembers(pre, args, x);
      assert files1 == pre + [last];
      assert x in files1 <==> x in pre || x == last;
    }
  }

  // ---------------------------------------------------------------------
  // The loop itself
  // ---------------------------------------------------------------------

  /** The counters printed at the end. */
  datatype Report = Report(exactMatch: nat, similarMatchOne: nat, similarMatchMany: nat,
                           unmatched: seq<String>)

  /** The dictionary holding the name found for `file1`, if any. */
  function MatchesFor(file1: String, found: Option<String>): map<String, MatchValue> {
    match found
    case Some(f) => map[file1 := Name(f)]
    case None => map[]
  }

  /** The inner `for _file2 in files2:` loop: each name containing the
      token overwrites `matches[_file1]`, so the last one is kept. */
  method Lookup(file1: String, files2: seq<String>, token: String)
    returns (matches: map<String, MatchValue>)
    ensures matches == MatchesFor(file1, LastContaining(files2, token))
  {
    matches := map[];
    for j := 0 to |files2|
      invariant matches == MatchesFor(file1, LastContaining(files2[..j], token))
    {
      LastContainingPrefix(files2, j, token);
      if Contains(files2[j], token) {
        matches := matches[file1 := Name(files2[j])];
      }
    }
    assert files2[..|files2|] == files2;
  }

  /** One more file extends the tallies by its own verdict. */
  lemma TalliesSnoc(files1: seq<String>, i: nat, args: Args)
    requires i < |files1|
    ensures CountMatched(files1[..i + 1], args) ==
            CountMatched(files1[..i], args) + (if Judge(files1[i], args).Matched? then 1 else 0)
    ensures Unmatched(files1[..i + 1], args) ==
            Unmatched(files1[..i], args) + (if Judge(files1[i], args).NoMatch? then [files1[i]] else [])
  {
    assert files1[..i + 1][..i] == files1[..i];
  }

  /** In exact mode with a token, `matches` holds one entry iff the verdict
      is a match, and none iff it is no match. */
  lemma ExactMatches(file1: String, args: Args, token: String)
    requires !CutoffSet(args.cutoff) && FindToken(StripAll(file1, args.extension)) == Some(token)
    ensures var n := |MatchesFor(file1, LastContaining(args.files2, token))|;
            && n <= 1 && (n == 1 <==> Judge(file1, args).Matched?) && (n == 0 <==> Judge(file1, args).NoMatch?)
  {
  }

  /** `for _file1 in files1: ...` with the per-file `matches` dictionary. */
  method Classify(files1: seq<String>, args: Args) returns (r: Report)
    ensures r.exactMatch == CountMatched(files1, args)
    ensures r.unmatched == Unmatched(files1, args)
    ensures r.similarMatchOne == 0 && r.similarMatchMany == 0
  {
    var exactMatch, similarMatchOne, similarMatchMany := 0, 0, 0;
    var unmatched: seq<String> := [];
    for i := 0 to |files1|
      invariant exactMatch == CountMatched(files1[..i], args)
      invariant unmatched == Unmatched(files1[..i], args)
      invariant similarMatchOne == 0 && similarMatchMany == 0
    {
      TalliesSnoc(files1, i, args);
      var file1 := files1[i];
      var token := StripAll(file1, args.extension);
      var matches: map<String, MatchValue> := map[];
      if CutoffSet(args.cutoff) {
        matches := matches[file1 := Candidates(args.closeMatches(token, args.files2, args.cutoff.value))];
      } else {
        var m := FindToken(token);
        if m.None? {
          continue;
        }
        token := m.value;
        matches := Lookup(file1, args.files2, token);
        ExactMatches(file1, args, token);
      }
      if |matches| == 1 {
        exactMatch := exactMatch + 1;
      } else if |matches| > 1 {
        similarMatchMany := similarMatchMany + 1;
      } else {
        unmatched := unmatched + [file1];
      }
    }
    assert files1[..|files1|] == files1;
    r := Report(exactMatch, similarMatchOne, similarMatchMany, unmatched);
  }
}
