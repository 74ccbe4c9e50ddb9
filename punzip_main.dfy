/** The two computations in `main` of `punzip.py` that decide what is
    extracted and by how many workers: the scan of the `os.walk` output for
    `.zip` files, and the sizing of the worker pool. */
module PunzipMain {
  import opened Wrappers
  import opened Strings
  import opened PosixPath

  // ---------------------------------------------------------------------
  // The scan filter
  // ---------------------------------------------------------------------

  /** One `(root, dirnames, filenames)` triple yielded by `os.walk(folder)`. */
  datatype WalkStep = WalkStep(root: String, dirnames: seq<String>, filenames: seq<String>)

  /** `if args.pattern:` — a missing or empty pattern is false. */
  predicate HasPattern(pattern: Option<String>) {
    pattern.Some? && pattern.value != []
  }

  /** A file name is kept when the pattern, if there is one, finds a match
      in it (`search`, the compiled user regex) and it ends in `.zip`. */
  predicate Selected(pattern: Option<String>, search: String -> bool, filename: String) {
    (!HasPattern(pattern) || search(filename)) && EndsWith(filename, ".zip")
  }

  /** With no pattern, or an empty one, every `.zip` file name is kept. */
  lemma NoPatternKeepsEveryZip(pattern: Option<String>, search: String -> bool, filename: String)
    requires !HasPattern(pattern)
    ensures Selected(pattern, search, filename) <==> EndsWith(filename, ".zip")
  {
  }

  /** The paths one walk step contributes, in `filenames` order;
      `absPath` stands for `os.path.abspath`. */
  function Picked(root: String, filenames: seq<String>, pattern: Option<String>,
                  search: String -> bool, absPath: String -> String): seq<String>
    decreases |filenames|
  {
    if filenames == [] then []
    else
      var f := filenames[|filenames| - 1];
      Picked(root, filenames[..|filenames| - 1], pattern, search, absPath) +
      (if Selected(pattern, search, f) then [Recorded(root, f, absPath)] else [])
  }

  /** The `zipfiles` list for a whole walk, step after step. */
  function Scanned(walk: seq<WalkStep>, pattern: Option<String>, search: String -> bool,
                   absPath: String -> String): seq<String>
    decreases |walk|
  {
    if walk == [] then []
    else
      var w := walk[|walk| - 1];
      Scanned(walk[..|walk| - 1], pattern, search, absPath) +
      Picked(w.root, w.filenames, pattern, search, absPath)
  }

  lemma PickedSnoc(root: String, filenames: seq<String>, j: nat, pattern: Option<String>,
                   search: String -> bool, absPath: String -> String)
    requires j < |filenames|
    ensures Picked(root, filenames[..j + 1], pattern, search, absPath) ==
            Picked(root, filenames[..j], pattern, search, absPath) +
            (if Selected(pattern, search, filenames[j]) then [Recorded(root, filenames[j], absPath)] else [])
  {
    assert filenames[..j + 1][..j] == filenames[..j];
  }

  lemma ScannedSnoc(walk: seq<WalkStep>, i: nat, pattern: Option<String>,
                    search: String -> bool, absPath: String -> String)
    requires i < |walk|
    ensures Scanned(walk[..i + 1], pattern, search, absPath) ==
            Scanned(walk[..i], pattern, search, absPath) +
            Picked(walk[i].root, walk[i].filenames, pattern, search, absPath)
  {
    assert walk[..i + 1][..i] == walk[..i];
  }

  /** The nested scan loop, appending to `zipfiles` in place. */
  method Scan(walk: seq<WalkStep>, pattern: Option<String>, search: String -> bool,
              absPath: String -> String) returns (zipfiles: seq<String>)
    ensures zipfiles == Scanned(walk, pattern, search, absPath)
  {
    zipfiles := [];
    for i := 0 to |walk|
      invariant zipfiles == Scanned(walk[..i], pattern, search, absPath)
    {
      var root, filenames := walk[i].root, walk[i].filenames;
      ghost var before := zipfiles;
      for j := 0 to |filenames|
        invariant zipfiles == before + Picked(root, filenames[..j], pattern, search, absPath)
      {
        var filename := filenames[j];
        PickedSnoc(root, filenames, j, pattern, search, absPath);
        var m := if HasPattern(pattern) then search(filename) else true;
        if m && EndsWith(filename, ".zip") {
          zipfiles := zipfiles + [absPath(Join(root, filename))];
        }
      }
      assert filenames[..|filenames|] == filenames;
      ScannedSnoc(walk, i, pattern, search, absPath);
    }
    assert walk[..|walk|] == walk;
  }

  lemma {:induction false} PickedMembers(root: String, filenames: seq<String>, pattern: Option<String>,
                                         search: String -> bool, absPath: String -> String, x: String)
    ensures x in Picked(root, filenames, pattern, search, absPath) <==>
            exists j :: 0 <= j < |filenames| && Selected(pattern, search, filenames[j]) &&
                        x == Recorded(root, filenames[j], absPath)
    decreases |filenames|
  {
    if filenames != [] {
      var pre := filenames[..|filenames| - 1];
      PickedMembers(root, pre, pattern, search, absPath, x);
      assert forall j :: 0 <= j < |pre| ==> pre[j] == filenames[j];
    }
  }

  /** The path the scan records for file name `f` found under `root`. */
  function Recorded(root: String, f: String, absPath: String -> String): String {
    absPath(Join(root, f))
  }

  /** Walk step `i`, file `j` is selected and recorded as `x`. */
  predicate RecordedAt(walk: seq<WalkStep>, pattern: Option<String>, search: String -> bool,
                       absPath: String -> String, x: String, i: int, j: int) {
    0 <= i < |walk| && 0 <= j < |walk[i].filenames| &&
    Selected(pattern, search, walk[i].filenames[j]) &&
    x == Recorded(walk[i].root, walk[i].filenames[j], absPath)
  }

  lemma {:induction false} ScannedSound(walk: seq<WalkStep>, pattern: Option<String>,
                                        search: String -> bool, absPath: String -> String, x: String)
    requires x in Scanned(walk, pattern, search, absPath)
    ensures exists i, j :: RecordedAt(walk, pattern, search, absPath, x, i, j)
    decreases |walk|
  {
    var n := |walk| - 1;
    var pre, w := walk[..n], walk[n];
    if x in Scanned(pre, pattern, search, absPath) {
      ScannedSound(pre, pattern, search, absPath, x);
      var i, j :| RecordedAt(pre, pattern, search, absPath, x, i, j);
      assert pre[i] == walk[i];
      assert RecordedAt(walk, pattern, search, absPath, x, i, j);
    } else {
      PickedMembers(w.root, w.filenames, pattern, search, absPath, x);
      var j :| 0 <= j < |w.filenames| && Selected(pattern, search, w.filenames[j]) &&
               x == Recorded(w.root, w.filenames[j], absPath);
      assert RecordedAt(walk, pattern, search, absPath, x, n, j);
    }
  }

  lemma {:induction false} ScannedComplete(walk: seq<WalkStep>, pattern: Option<String>,
                                           search: String -> bool, absPath: String -> String,
                                           x: String, i: int, j: int)
    requires RecordedAt(walk, pattern, search, absPath, x, i, j)
    ensures x in Scanned(walk, pattern, search, absPath)
    decreases |walk|
  {
    var n := |walk| - 1;
    var pre, w := walk[..n], walk[n];
    if i < n {
      assert pre[i] == walk[i];
      ScannedComplete(pre, pattern, search, absPath, x, i, j);
    } else {
      PickedMembers(w.root, w.filenames, pattern, search, absPath, x);
    }
  }

  /** The scan lists exactly the selected file names of every walk step,
      each joined to its step's root. */
  lemma ScannedMembers(walk: seq<WalkStep>, pattern: Option<String>,
                       search: String -> bool, absPath: String -> String, x: String)
    ensures x in Scanned(walk, pattern, search, absPath) <==>
            exists i, j :: RecordedAt(walk, pattern, search, absPath, x, i, j)
  {
    if x in Scanned(walk, pattern, search, absPath) {
      ScannedSound(walk, pattern, search, absPath, x);
    }
    if exists i, j :: RecordedAt(walk, pattern, search, absPath, x, i, j) {
      var i, j :| RecordedAt(walk, pattern, search, absPath, x, i, j);
      ScannedComplete(walk, pattern, search, absPath, x, i, j);
    }
  }

  /** Walk order is kept: the scan of two walks in sequence is the scan of
      the first followed by the scan of the second. */
  lemma {:induction false} ScannedAppend(w1: seq<WalkStep>, w2: seq<WalkStep>, pattern: Option<String>,
                                         search: String -> bool, absPath: String -> String)
    ensures Scanned(w1 + w2, pattern, search, absPath) ==
            Scanned(w1, pattern, search, absPath) + Scanned(w2, pattern, search, absPath)
    decreases |w2|
  {
    if w2 == [] {
      assert w1 + w2 == w1;
    } else {
      var pre, w := w2[..|w2| - 1], w2[|w2| - 1];
      ScannedAppend(w1, pre, pattern, search, absPath);
      var picked := Picked(w.root, w.filenames, pattern, search, absPath);
      assert (w1 + w2)[..|w1 + w2| - 1] == w1 + pre;
      assert (w1 + w2)[|w1 + w2| - 1] == w;
      assert Scanned(w1 + w2, pattern, search, absPath) ==
             Scanned(w1 + pre, pattern, search, absPath) + picked;
      assert Scanned(w2, pattern, search, absPath) == Scanned(pre, pattern, search, absPath) + picked;
    }
  }

  // ---------------------------------------------------------------------
  // Worker-count sizing
  // ---------------------------------------------------------------------

  datatype Warning =
    | MoreJobsThanCpus(jobs: int, cpus: nat)
    | MoreJobsThanZipfiles(jobs: int, found: nat)

  /** The value `args.jobs` holds at the assertion, and the warnings logged
      on the way. */
  datatype Sizing = Sizing(jobs: int, warnings: seq<Warning>)

  function Min(a: int, b: int): int {
    if a <= b then a else b
  }

  /** The sizing of `args.jobs` from the requested count (`None` when
      `--jobs` is omitted; in Python 2 `None > n` is false), the CPU count and
      the number of `.zip` files found. The CPU half uses integer division. */
  function SizeJobs(requested: Option<int>, cpus: nat, found: nat): (s: Sizing)
    ensures requested.Some? ==> s.jobs == Min(requested.value, found)
    ensures requested.None? ==> s.jobs == Min(found, cpus / 2)
    ensures requested.Some? ==>
              (MoreJobsThanCpus(requested.value, cpus) in s.warnings <==> requested.value > cpus)
    ensures requested.Some? ==>
              (MoreJobsThanZipfiles(requested.value, found) in s.warnings <==> requested.value > found)
    ensures forall w :: w in s.warnings ==>
              requested == Some(w.jobs) &&
              ((w.MoreJobsThanCpus? && w.jobs > cpus && w.cpus == cpus) ||
               (w.MoreJobsThanZipfiles? && w.jobs > found && w.found == found))
    ensures |s.warnings| <= 2
  {
    var w1 := if requested.Some? && requested.value > cpus
              then [MoreJobsThanCpus(requested.value, cpus)] else [];
    var (jobs, w2) :=
      if requested.Some? && requested.value > found
      then (Some(found as int), [MoreJobsThanZipfiles(requested.value, found)])
      else (requested, []);
    var jobs' :=
      if jobs.None? then
        var safe := cpus / 2;
        if found < safe then found else safe
      else jobs.value;
    Sizing(jobs', w1 + w2)
  }

  /** `assert args.jobs > 0`: the pool size, or `None` for the
      `AssertionError` that ends the program. The assertion passes exactly
      when some archive was found and the request is positive, or, with no
      request, the machine has at least two CPUs; then the pool has between
      1 and `found` workers. */
  function PoolSize(requested: Option<int>, cpus: nat, found: nat): (r: Option<nat>)
    ensures r.Some? <==> found >= 1 &&
                         (requested.Some? ==> requested.value >= 1) &&
                         (requested.None? ==> cpus >= 2)
    ensures r.Some? ==> 1 <= r.value <= found
  {
    var s := SizeJobs(requested, cpus, found);
    if s.jobs > 0 then Some(s.jobs) else None
  }

  /** A request above the number of archives found is clamped to it; a
      request above the CPU count only warns. */
  lemma RequestClamped(n: int, cpus: nat, found: nat)
    ensures n > found ==> SizeJobs(Some(n), cpus, found).jobs == found
    ensures n <= found ==> SizeJobs(Some(n), cpus, found).jobs == n
    ensures MoreJobsThanCpus(n, cpus) in SizeJobs(Some(n), cpus, found).warnings <==> n > cpus
  {
  }
}
