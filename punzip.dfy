/** The extraction kernel of `punzip.py`: how one archive entry name is
    mapped to a directory and a file name, and the per-archive `extract`
    loop that applies the overwrite rule against the filesystem, counts
    extracted and skipped files and fires progress milestones. */
module Punzip {
  import opened Wrappers
  import opened Strings
  import opened PosixPath

  newtype Byte = x: int | 0 <= x < 256
  type Bytes = seq<Byte>

  /** One member of an archive, in `namelist()` order, with its own bytes;
      two members may carry the same name. */
  datatype Entry = Entry(name: String, data: Bytes)

  /** `zfile.read(name)`: the bytes of the last member called `name`, or
      `None` (`KeyError`) when there is none. */
  function Read(archive: seq<Entry>, name: String): Option<Bytes>
    decreases |archive|
  {
    if archive == [] then None
    else if archive[|archive| - 1].name == name then Some(archive[|archive| - 1].data)
    else Read(archive[..|archive| - 1], name)
  }

  /** Reading fails exactly when no member has the name, and otherwise gives
      the bytes of a member with that name. */
  lemma {:induction false} ReadSpec(archive: seq<Entry>, name: String)
    ensures Read(archive, name).None? <==> forall j :: 0 <= j < |archive| ==> archive[j].name != name
    ensures Read(archive, name).Some? ==>
              exists j :: 0 <= j < |archive| && archive[j].name == name && archive[j].data == Read(archive, name).value
    decreases |archive|
  {
    if archive != [] && archive[|archive| - 1].name != name {
      var pre := archive[..|archive| - 1];
      ReadSpec(pre, name);
      assert forall j :: 0 <= j < |pre| ==> pre[j] == archive[j];
    }
  }

  /** Every member's name can be read. */
  lemma {:induction false} ReadFinds(archive: seq<Entry>, j: nat)
    requires j < |archive|
    ensures Read(archive, archive[j].name).Some?
    decreases |archive|
  {
    if archive[|archive| - 1].name != archive[j].name {
      var pre := archive[..|archive| - 1];
      assert pre[j] == archive[j];
      ReadFinds(pre, j);
    }
  }

  /** A repeated name reads the bytes of its last member. */
  lemma {:induction false} ReadIsLast(archive: seq<Entry>, j: nat)
    requires j < |archive|
    requires forall j' :: j < j' < |archive| ==> archive[j'].name != archive[j].name
    ensures Read(archive, archive[j].name) == Some(archive[j].data)
    decreases |archive|
  {
    if j < |archive| - 1 {
      var pre := archive[..|archive| - 1];
      assert pre[j] == archive[j];
      ReadIsLast(pre, j);
    }
  }

  /** The entries `extract` handles: the members in `namelist()` order, each
      with the bytes `zfile.read(name)` gives for its name. */
  function Members(archive: seq<Entry>): (es: seq<Entry>)
    ensures |es| == |archive|
  {
    seq(|archive|, i requires 0 <= i < |archive| => Entry(archive[i].name, ReadMember(archive, i)))
  }

  /** What `zfile.read` gives for the name of member `i`. */
  function ReadMember(archive: seq<Entry>, i: nat): Bytes
    requires i < |archive|
  {
    ReadFinds(archive, i);
    Read(archive, archive[i].name).value
  }

  /** The `i`-th entry handled is the `i`-th member's name with what reading
      that name gives. */
  lemma MemberAt(archive: seq<Entry>, i: nat)
    requires i < |archive|
    ensures Members(archive)[i].name == archive[i].name
    ensures Read(archive, archive[i].name) == Some(Members(archive)[i].data)
  {
  }

  /** With no repeated name, every member is written with its own bytes. */
  lemma DistinctNamesKeepData(archive: seq<Entry>)
    requires forall i, j :: 0 <= i < j < |archive| ==> archive[i].name != archive[j].name
    ensures Members(archive) == archive
  {
    forall i | 0 <= i < |archive|
      ensures Members(archive)[i] == archive[i]
    {
      ReadIsLast(archive, i);
      MemberAt(archive, i);
    }
  }

  const ZipSuffix: String := ".zip"

  /** Where an entry goes, before it is joined to the archive's directory;
      `DepthUnsupported` makes `extract` give up on the archive. */
  datatype Resolution = Target(dirname: String, filename: String) | DepthUnsupported

  // ---------------------------------------------------------------------
  // Entry-path resolution
  // ---------------------------------------------------------------------

  /** The case split on the `/`-separated segments of an entry name. */
  function Resolve(zipname: String, name: String): (r: Resolution)
    ensures r.DepthUnsupported? <==> TooDeep(Split(name, [Sep]))
  {
    var items := Split(name, [Sep]);
    if |items| == 1 then Target(StripAll(zipname, ZipSuffix), items[0])
    else if |items| == 3 then
      if items[0] == items[1] then Target(items[1], items[2]) else DepthUnsupported
    else if |items| > 3 then DepthUnsupported
    else
      var (d, f) := PathSplit(name);
      Target(d, f)
  }

  /** Which segment lists `Resolve` refuses: more than three segments, or
      three whose first two differ. */
  predicate TooDeep(items: seq<String>) {
    |items| > 3 || (|items| == 3 && items[0] != items[1])
  }

  /** A name without a slash keeps its name and goes to the archive path
      with every `.zip` removed. */
  lemma ResolveBareName(zipname: String, name: String)
    requires Sep !in name
    ensures Resolve(zipname, name) == Target(StripAll(zipname, ZipSuffix), name)
  {
    SplitWithout(name, Sep);
  }

  /** `a/b` goes to directory `a` (the root `/` when `a` is empty), file `b`. */
  lemma ResolveTwoSegments(zipname: String, a: String, b: String)
    requires Sep !in a && Sep !in b
    ensures Resolve(zipname, a + [Sep] + b) == Target(if a == [] then [Sep] else a, b)
  {
    SplitJoinSingleChar([a, b], Sep);
    PathSplitOneSlash(a, b);
  }

  /** `x/x/y`: the doubled root folder is collapsed to `x`. */
  lemma ResolveDoubledRoot(zipname: String, x: String, y: String)
    requires Sep !in x && Sep !in y
    ensures Resolve(zipname, x + [Sep] + x + [Sep] + y) == Target(x, y)
  {
    SplitJoinSingleChar([x, x, y], Sep);
    assert JoinWith([x, y], [Sep]) == x + [Sep] + y;
    assert [x, x, y][1..] == [x, y];
    assert JoinWith([x, x, y], [Sep]) == x + [Sep] + (x + [Sep] + y);
    assert x + [Sep] + (x + [Sep] + y) == x + [Sep] + x + [Sep] + y;
  }

  /** Names built from slash-free segments are refused exactly when the
      segments are too deep. */
  lemma ResolveSegments(zipname: String, items: seq<String>)
    requires |items| >= 1
    requires forall k :: 0 <= k < |items| ==> Sep !in items[k]
    ensures Resolve(zipname, JoinWith(items, [Sep])).DepthUnsupported? <==> TooDeep(items)
  {
    SplitJoinSingleChar(items, Sep);
  }

  /** A nested folder under a doubled root, `x/x/d/f`, has four segments
      and is refused. */
  lemma NestedUnderDoubledRootIsRefused(zipname: String, x: String, d: String, f: String)
    requires Sep !in x && Sep !in d && Sep !in f
    ensures Resolve(zipname, x + [Sep] + x + [Sep] + d + [Sep] + f) == DepthUnsupported
  {
    var items := [x, x, d, f];
    assert items[1..] == [x, d, f] && items[2..] == [d, f] && items[3..] == [f];
    assert JoinWith([d, f], [Sep]) == d + [Sep] + f;
    assert JoinWith([x, d, f], [Sep]) == x + [Sep] + (d + [Sep] + f);
    assert JoinWith(items, [Sep]) == x + [Sep] + (x + [Sep] + (d + [Sep] + f));
    assert x + [Sep] + (x + [Sep] + (d + [Sep] + f)) == x + [Sep] + x + [Sep] + d + [Sep] + f;
    ResolveSegments(zipname, items);
  }

  /** An archive path is absolute, so a bare entry's directory is used as it
      stands, not under the archive's directory. */
  lemma BareNameDirectoryIsAbsolute(zipname: String, root: String, name: String)
    requires IsAbs(zipname) && Sep !in name
    ensures var dir := StripAll(zipname, ZipSuffix);
            Resolve(zipname, name) == Target(dir, name) && Join(root, dir) == dir
  {
    ResolveBareName(zipname, name);
    StripAllKeepsFirst(zipname, ZipSuffix);
  }

  // ---------------------------------------------------------------------
  // The filesystem and the extraction loop as a specification
  // ---------------------------------------------------------------------

  /** Regular files with their contents, and existing directories. */
  datatype Fs = Fs(files: map<String, Bytes>, dirs: set<String>) {
    /** `os.path.exists`: a file or a directory is there. */
    predicate Exists(p: String) {
      p in files || p in dirs
    }
  }

  /** Nothing is removed: every file and directory of `a` is still in `b`. */
  predicate Grows(a: Fs, b: Fs) {
    a.files.Keys <= b.files.Keys && a.dirs <= b.dirs
  }

  /** Opening `path` for writing raises `IOError`: it names a directory, or
      the environment refuses it (`fails`: permissions, a full disk, ...). */
  predicate WriteFails(fs: Fs, path: String, fails: String -> bool) {
    path in fs.dirs || fails(path)
  }

  /** What one archive's extraction works against: the archive path, its
      directory and the environment's write failures. */
  datatype Site = Site(zipname: String, root: String, fails: String -> bool)

  datatype Job = Job(site: Site, increment: nat, overwrite: bool)

  /** The set-up at the top of `extract`: `root` is the archive's directory
      and `increment` is `nfiles / 10` in integer division. */
  function NewJob(zipname: String, archive: seq<Entry>, overwrite: bool, fails: String -> bool): (j: Job)
    ensures j.increment == 0 <==> |archive| < 10
    ensures j.increment * 10 <= |archive| < (j.increment + 1) * 10
  {
    Job(Site(zipname, Dirname(zipname), fails), |archive| / 10, overwrite)
  }

  /** The loop's variables: the filesystem, `files_extracted`,
      `files_skipped`, the milestone number `m`, the progress values logged
      so far, and whether `extract` has returned 1. */
  datatype Progress = Progress(fs: Fs, extracted: nat, skipped: nat, m: nat, log: seq<nat>, aborted: bool)

  function Start(fs: Fs): Progress {
    Progress(fs, 0, 0, 1, [], false)
  }

  function ExitCode(p: Progress): int {
    if p.aborted then 1 else 0
  }

  /** The milestone check after an entry is extracted or skipped. */
  function Milestone(job: Job, st: Progress): Progress {
    if st.extracted >= st.m * job.increment
    then st.(log := st.log + [st.extracted + st.skipped], m := st.m + 1)
    else st
  }

  /** The directory the entry's destination is in, after joining. */
  function DirOf(site: Site, d: String): String {
    Join(site.root, d)
  }

  /** The file the entry is written to. */
  function PathOf(site: Site, d: String, f: String): String {
    Join(DirOf(site, d), f)
  }

  /** The filesystem once the destination's directory is made if missing. */
  function WithDir(fs: Fs, dir: String): (r: Fs)
    ensures r.Exists(dir) && Grows(fs, r) && r.files == fs.files
    ensures r.dirs <= fs.dirs + {dir}
  {
    if fs.Exists(dir) then fs else fs.(dirs := fs.dirs + {dir})
  }

  /** The entry's destination is already in place in `fs`: its directory is
      there, and so is its file unless writing it fails. */
  predicate Settled(site: Site, fs: Fs, e: Entry) {
    match Resolve(site.zipname, e.name)
    case DepthUnsupported => true
    case Target(d, f) =>
      d == [] || f == [] ||
      (fs.Exists(DirOf(site, d)) && (fs.Exists(PathOf(site, d, f)) || site.fails(PathOf(site, d, f))))
  }

  /** The body of the `try` for an entry that resolved to file `path` in
      directory `dir`: make the directory if missing, then skip, write, or
      stop at an `IOError`; the milestone check follows a skip or a write. */
  function Place(job: Job, st: Progress, dir: String, path: String, data: Bytes): (r: Progress)
    ensures r.aborted == st.aborted
    ensures Grows(st.fs, r.fs) && r.fs.Exists(dir)
    ensures r.fs.dirs <= st.fs.dirs + {dir} && r.fs.files.Keys <= st.fs.files.Keys + {path}
    ensures forall p :: p in st.fs.files && p != path ==> r.fs.files[p] == st.fs.files[p]
    ensures r.fs.Exists(path) || job.site.fails(path)
    ensures !r.fs.Exists(path) ==> r.extracted == st.extracted && r.skipped == st.skipped
    ensures st.extracted <= r.extracted && st.skipped <= r.skipped
    ensures r.extracted + r.skipped <= st.extracted + st.skipped + 1
    ensures job.overwrite ==> r.skipped == st.skipped
    ensures !job.overwrite && st.fs.Exists(dir) && (st.fs.Exists(path) || job.site.fails(path)) ==>
              r.fs == st.fs && r.extracted == st.extracted
  {
    var fs := WithDir(st.fs, dir);
    if fs.Exists(path) && !job.overwrite then
      Milestone(job, st.(fs := fs, skipped := st.skipped + 1))
    else if WriteFails(fs, path, job.site.fails) then
      st.(fs := fs)
    else
      Milestone(job, st.(fs := fs.(files := fs.files[path := data]), extracted := st.extracted + 1))
  }

  /** One iteration of `for name in zfile.namelist()`. */
  function Step(job: Job, st: Progress, e: Entry): (r: Progress)
    ensures st.aborted ==> r == st
    ensures Grows(st.fs, r.fs)
    ensures st.extracted <= r.extracted && st.skipped <= r.skipped
    ensures r.extracted + r.skipped <= st.extracted + st.skipped + 1
    ensures job.overwrite ==> r.skipped == st.skipped
    ensures !st.aborted ==> Settled(job.site, r.fs, e)
    ensures !job.overwrite && Settled(job.site, st.fs, e) ==>
              r.fs == st.fs && r.extracted == st.extracted
  {
    if st.aborted then st
    else match Resolve(job.site.zipname, e.name)
      case DepthUnsupported => st.(aborted := true)
      case Target(d, f) =>
        if d == [] || f == [] then st
        else Place(job, st, DirOf(job.site, d), PathOf(job.site, d, f), e.data)
  }

  /** `Resolve` refuses the entry's depth. */
  predicate Refused(site: Site, e: Entry) {
    Resolve(site.zipname, e.name).DepthUnsupported?
  }

  /** Some entry of `es` has a depth `Resolve` refuses. */
  predicate Aborts(site: Site, es: seq<Entry>)
    decreases |es|
  {
    es != [] && (Aborts(site, es[..|es| - 1]) || Refused(site, es[|es| - 1]))
  }

  lemma {:induction false} AbortsHasWitness(site: Site, es: seq<Entry>)
    requires Aborts(site, es)
    ensures exists k :: 0 <= k < |es| && Refused(site, es[k])
    decreases |es|
  {
    var pre := es[..|es| - 1];
    if Aborts(site, pre) {
      AbortsHasWitness(site, pre);
      var k :| 0 <= k < |pre| && Refused(site, pre[k]);
      assert es[k] == pre[k];
    } else {
      assert Refused(site, es[|es| - 1]);
    }
  }

  lemma {:induction false} WitnessAborts(site: Site, es: seq<Entry>, k: nat)
    requires k < |es| && Refused(site, es[k])
    ensures Aborts(site, es)
    decreases |es|
  {
    if k < |es| - 1 {
      var pre := es[..|es| - 1];
      assert pre[k] == es[k];
      WitnessAborts(site, pre, k);
    }
  }

  /** The call aborts exactly when some entry is refused. */
  lemma AbortsIff(site: Site, es: seq<Entry>)
    ensures Aborts(site, es) <==> exists k :: 0 <= k < |es| && Refused(site, es[k])
  {
    if Aborts(site, es) {
      AbortsHasWitness(site, es);
    }
    if exists k :: 0 <= k < |es| && Refused(site, es[k]) {
      var k :| 0 <= k < |es| && Refused(site, es[k]);
      WitnessAborts(site, es, k);
    }
  }

  /** The loop over the entries `es`, from state `st`. */
  function Run(job: Job, st: Progress, es: seq<Entry>): (r: Progress)
    ensures Grows(st.fs, r.fs)
    ensures r.extracted + r.skipped <= st.extracted + st.skipped + |es|
    ensures r.aborted == (st.aborted || Aborts(job.site, es))
    decreases |es|
  {
    if es == [] then st
    else
      var pre := es[..|es| - 1];
      Step(job, Run(job, st, pre), es[|es| - 1])
  }

  /** The whole `extract(zipname, overwrite)` call against filesystem `fs`. */
  function Extraction(zipname: String, archive: seq<Entry>, overwrite: bool,
                      fails: String -> bool, fs: Fs): Progress {
    Run(NewJob(zipname, archive, overwrite, fails), Start(fs), Members(archive))
  }

  /** The directory of `/r/z.zip` is `/r`. */
  lemma ExampleRoot()
    ensures Dirname("/r/z.zip") == "/r"
  {
    RFindLastSlash("/r", "z.zip");
    assert "/r/z.zip" == "/r" + [Sep] + "z.zip";
    assert "/r/z.zip"[..3] == "/r/" && "/r/"[1] != Sep;
    assert RStrip("/r/", Sep) == RStrip("/r", Sep) == "/r";
  }

  /** Joining `/r`, `a` and `b`. */
  lemma ExamplePaths()
    ensures Join("/r", "a") == "/r/a" && Join("/r/a", "b") == "/r/a/b"
  {
    assert !IsAbs("a") && "/r"[1] != Sep;
    assert "/r" + [Sep] + "a" == "/r/a";
    assert !IsAbs("b") && "/r/a"[3] != Sep;
    assert "/r/a" + [Sep] + "b" == "/r/a/b";
  }

  /** An entry whose file is already there is skipped without overwrite. */
  lemma StepSkipsPresent(job: Job, st: Progress, e: Entry, d: String, f: String)
    requires !job.overwrite && !st.aborted
    requires Resolve(job.site.zipname, e.name) == Target(d, f) && d != [] && f != []
    requires PathOf(job.site, d, f) in st.fs.files
    ensures var r := Step(job, st, e);
            r.fs.files == st.fs.files && r.extracted == st.extracted && r.skipped == st.skipped + 1 && !r.aborted
  {
    StepPlaces(job, st, e, d, f);
    OverwriteRule(job, st, DirOf(job.site, d), PathOf(job.site, d, f), e.data);
  }

  /** On an empty filesystem an entry is written when the write may succeed. */
  lemma StepWritesOnEmpty(job: Job, st: Progress, e: Entry, d: String, f: String)
    requires !st.aborted && st.fs == Fs(map[], {})
    requires Resolve(job.site.zipname, e.name) == Target(d, f) && d != [] && f != []
    requires PathOf(job.site, d, f) != DirOf(job.site, d) && !job.site.fails(PathOf(job.site, d, f))
    ensures var r := Step(job, st, e);
            && r.fs.files == map[PathOf(job.site, d, f) := e.data]
            && r.extracted == st.extracted + 1 && r.skipped == st.skipped && !r.aborted
  {
    StepPlaces(job, st, e, d, f);
    OverwriteRule(job, st, DirOf(job.site, d), PathOf(job.site, d, f), e.data);
  }

  /** Without overwrite, on an empty filesystem, the same destination twice:
      written once, then skipped. */
  lemma SameTargetTwice(job: Job, st: Progress, e: Entry, d: String, f: String)
    requires !job.overwrite && !st.aborted && st.fs == Fs(map[], {})
    requires Resolve(job.site.zipname, e.name) == Target(d, f) && d != [] && f != []
    requires PathOf(job.site, d, f) != DirOf(job.site, d) && !job.site.fails(PathOf(job.site, d, f))
    ensures var r := Run(job, st, [e, e]);
            && r.fs.files == map[PathOf(job.site, d, f) := e.data]
            && r.extracted == st.extracted + 1 && r.skipped == st.skipped + 1
  {
    var s1 := Step(job, st, e);
    StepWritesOnEmpty(job, st, e, d, f);
    StepSkipsPresent(job, s1, e, d, f);
    assert Run(job, st, [e]) == s1 by {
      assert [e][..0] == [];
    }
    assert Run(job, st, [e, e]) == Step(job, s1, e) by {
      assert [e, e][..1] == [e];
    }
  }

  /** Two members called `a/b`, extracted without overwrite: the first
      writes the bytes of the last one, which `zfile.read` returns, and the
      second is skipped. */
  lemma RepeatedNameWritesLastMember(d1: Bytes, d2: Bytes, fails: String -> bool)
    requires !fails("/r/a/b")
    ensures var r := Extraction("/r/z.zip", [Entry("a/b", d1), Entry("a/b", d2)], false, fails, Fs(map[], {}));
            && r.fs.files == map["/r/a/b" := d2] && r.extracted == 1 && r.skipped == 1
  {
    var job := NewJob("/r/z.zip", [Entry("a/b", d1), Entry("a/b", d2)], false, fails);
    ExampleMembers(d1, d2);
    ExampleResolve();
    ExampleRoot();
    ExamplePaths();
    SameTargetTwice(job, Start(Fs(map[], {})), Entry("a/b", d2), "a", "b");
  }

  /** Both members called `a/b` are handled with the second one's bytes. */
  lemma ExampleMembers(d1: Bytes, d2: Bytes)
    ensures Members([Entry("a/b", d1), Entry("a/b", d2)]) == [Entry("a/b", d2), Entry("a/b", d2)]
  {
    var archive := [Entry("a/b", d1), Entry("a/b", d2)];
    ReadIsLast(archive, 1);
    MemberAt(archive, 0);
    MemberAt(archive, 1);
  }

  /** `a/b` in `/r/z.zip` goes to directory `a` and file `b`. */
  lemma ExampleResolve()
    ensures Resolve("/r/z.zip", "a/b") == Target("a", "b")
  {
    ResolveTwoSegments("/r/z.zip", "a", "b");
    assert "a/b" == "a" + [Sep] + "b";
  }

  /** Reading the members' bytes does not change which entry is refused. */
  lemma MembersAbort(site: Site, archive: seq<Entry>)
    ensures Aborts(site, Members(archive)) == Aborts(site, archive)
  {
    var es := Members(archive);
    AbortsIff(site, es);
    AbortsIff(site, archive);
    if exists k :: 0 <= k < |es| && Refused(site, es[k]) {
      var k :| 0 <= k < |es| && Refused(site, es[k]);
      MemberAt(archive, k);
    }
    if exists k :: 0 <= k < |archive| && Refused(site, archive[k]) {
      var k :| 0 <= k < |archive| && Refused(site, archive[k]);
      MemberAt(archive, k);
    }
  }

  // ---------------------------------------------------------------------
  // Properties of the extraction loop
  // ---------------------------------------------------------------------

  /** `files_extracted + files_skipped <= nfiles`, nothing on the filesystem
      is removed, and `extract` returns 1 exactly when some entry is too
      deep and 0 otherwise. */
  lemma ExtractionOutcome(zipname: String, archive: seq<Entry>, overwrite: bool,
                          fails: String -> bool, fs: Fs)
    ensures var r := Extraction(zipname, archive, overwrite, fails, fs);
            && r.extracted + r.skipped <= |archive|
            && Grows(fs, r.fs)
            && ExitCode(r) == (if Aborts(Site(zipname, Dirname(zipname), fails), archive) then 1 else 0)
  {
    MembersAbort(Site(zipname, Dirname(zipname), fails), archive);
  }

  lemma RunSnoc(job: Job, st: Progress, es: seq<Entry>, i: nat)
    requires i < |es|
    ensures Run(job, st, es[..i + 1]) == Step(job, Run(job, st, es[..i]), es[i])
  {
    assert es[..i + 1][..i] == es[..i];
  }

  /** Once an aborted state is reached, later entries change nothing. */
  lemma {:induction false} RunAfterAbort(job: Job, st: Progress, es: seq<Entry>, j: nat)
    requires j <= |es|
    requires Run(job, st, es[..j]).aborted
    ensures Run(job, st, es) == Run(job, st, es[..j])
    decreases |es| - j
  {
    if j < |es| {
      var pre := es[..|es| - 1];
      assert pre[..j] == es[..j];
      RunAfterAbort(job, st, pre, j);
      assert es[..|es|] == es;
    } else {
      assert es[..j] == es;
    }
  }

  /** The first entry of unsupported depth ends the call: no later entry is
      touched, and what the earlier entries wrote and counted stands. */
  lemma StopsAtFirstTooDeep(job: Job, st: Progress, es: seq<Entry>, i: nat)
    requires !st.aborted
    requires i < |es| && Resolve(job.site.zipname, es[i].name).DepthUnsupported?
    ensures Run(job, st, es) == Run(job, st, es[..i]).(aborted := true)
  {
    var p := Run(job, st, es[..i]);
    assert es[..i + 1][..i] == es[..i];
    if p.aborted {
      RunAfterAbort(job, st, es[..i + 1], i);
    }
    RunAfterAbort(job, st, es, i + 1);
  }

  /** An entry whose directory or file name resolves empty (a `dir/` marker,
      say) changes neither the filesystem nor any counter. */
  lemma EmptyPartIsIgnored(job: Job, st: Progress, e: Entry)
    requires Resolve(job.site.zipname, e.name).Target?
    requires Resolve(job.site.zipname, e.name).dirname == [] ||
             Resolve(job.site.zipname, e.name).filename == []
    ensures Step(job, st, e) == st
  {
  }

  /** An entry with a non-empty destination is handed to `Place`. */
  lemma StepPlaces(job: Job, st: Progress, e: Entry, d: String, f: String)
    requires !st.aborted
    requires Resolve(job.site.zipname, e.name) == Target(d, f) && d != [] && f != []
    ensures Step(job, st, e) == Place(job, st, DirOf(job.site, d), PathOf(job.site, d, f), e.data)
  {
  }

  /** One more entry with a destination: the loop places it when both parts
      are non-empty and otherwise goes on unchanged. */
  lemma RunTarget(job: Job, st: Progress, es: seq<Entry>, i: nat, d: String, f: String)
    requires i < |es| && !Run(job, st, es[..i]).aborted
    requires Resolve(job.site.zipname, es[i].name) == Target(d, f)
    ensures Run(job, st, es[..i + 1]) ==
            if d != [] && f != []
            then Place(job, Run(job, st, es[..i]), DirOf(job.site, d), PathOf(job.site, d, f), es[i].data)
            else Run(job, st, es[..i])
  {
    RunSnoc(job, st, es, i);
    if d != [] && f != [] {
      StepPlaces(job, Run(job, st, es[..i]), es[i], d, f);
    } else {
      EmptyPartIsIgnored(job, Run(job, st, es[..i]), es[i]);
    }
  }

  /** The overwrite rule: an existing target with overwrite off is skipped
      and left as it is; otherwise the target ends up holding the entry's
      bytes and counts as extracted, unless the write raises `IOError`, which
      moves no counter. The directory is made in every case. */
  lemma OverwriteRule(job: Job, st: Progress, dir: String, path: String, data: Bytes)
    ensures var fs := WithDir(st.fs, dir);
            var r := Place(job, st, dir, path, data);
            && r.fs.dirs == fs.dirs
            && (fs.Exists(path) && !job.overwrite ==>
                  r.fs == fs && r.skipped == st.skipped + 1 && r.extracted == st.extracted)
            && (!(fs.Exists(path) && !job.overwrite) && !WriteFails(fs, path, job.site.fails) ==>
                  r.fs.files == st.fs.files[path := data] &&
                  r.extracted == st.extracted + 1 && r.skipped == st.skipped)
            && (!(fs.Exists(path) && !job.overwrite) && WriteFails(fs, path, job.site.fails) ==>
                  r == st.(fs := fs))
  {
  }

  /** With overwrite on, nothing is ever skipped. */
  lemma {:induction false} OverwriteNeverSkips(job: Job, st: Progress, es: seq<Entry>)
    requires job.overwrite
    ensures Run(job, st, es).skipped == st.skipped
    decreases |es|
  {
    if es != [] {
      OverwriteNeverSkips(job, st, es[..|es| - 1]);
    }
  }

  /** The milestone bookkeeping: one log line per firing; with `increment`
      0 every extracted or skipped entry fires; otherwise
      `(m - 1) * increment <= files_extracted < m * increment`. */
  predicate MilestonesKept(job: Job, st: Progress) {
    && st.m >= 1
    && |st.log| == st.m - 1
    && (job.increment == 0 ==> st.m - 1 == st.extracted + st.skipped)
    && (job.increment >= 1 ==>
          (st.m - 1) * job.increment <= st.extracted < st.m * job.increment)
  }

  lemma PlaceKeepsMilestones(job: Job, st: Progress, dir: String, path: String, data: Bytes)
    requires MilestonesKept(job, st)
    ensures MilestonesKept(job, Place(job, st, dir, path, data))
  {
    var r := Place(job, st, dir, path, data);
    if job.increment >= 1 && r.m == st.m + 1 {
      assert st.extracted + 1 <= st.m * job.increment;
      assert r.m * job.increment == st.m * job.increment + job.increment;
    }
  }

  lemma StepKeepsMilestones(job: Job, st: Progress, e: Entry)
    requires MilestonesKept(job, st)
    ensures MilestonesKept(job, Step(job, st, e))
  {
    if !st.aborted {
      match Resolve(job.site.zipname, e.name)
      case DepthUnsupported =>
      case Target(d, f) =>
        if d != [] && f != [] {
          PlaceKeepsMilestones(job, st, DirOf(job.site, d), PathOf(job.site, d, f), e.data);
        }
    }
  }

  lemma {:induction false} RunKeepsMilestones(job: Job, st: Progress, es: seq<Entry>)
    requires MilestonesKept(job, st)
    ensures MilestonesKept(job, Run(job, st, es))
    decreases |es|
  {
    if es != [] {
      RunKeepsMilestones(job, st, es[..|es| - 1]);
      StepKeepsMilestones(job, Run(job, st, es[..|es| - 1]), es[|es| - 1]);
    }
  }

  lemma MulMono(a: int, b: int, d: nat)
    requires a <= b
    ensures a * d <= b * d
  {
    assert b * d - a * d == (b - a) * d;
  }

  /** Floor division is pinned down by its bracket. */
  lemma DivBetween(x: nat, q: nat, d: nat)
    requires d >= 1 && q * d <= x < (q + 1) * d
    ensures x / d == q
  {
    var k := x / d;
    assert x == k * d + x % d;
    if k < q {
      MulMono(k + 1, q, d);
      assert false;
    } else if k > q {
      MulMono(q + 1, k, d);
      assert false;
    }
  }

  lemma MilestoneCount(job: Job, r: Progress)
    requires MilestonesKept(job, r)
    ensures |r.log| == r.m - 1
    ensures job.increment == 0 ==> r.m - 1 == r.extracted + r.skipped
    ensures job.increment >= 1 ==>
              r.extracted < r.m * job.increment && r.m - 1 == r.extracted / job.increment
  {
    if job.increment >= 1 {
      DivBetween(r.extracted, r.m - 1, job.increment);
    }
  }

  /** Milestones over a whole call: with fewer than 10 entries every handled
      entry fires; otherwise `m - 1 == files_extracted / increment`. */
  lemma Milestones(zipname: String, archive: seq<Entry>, overwrite: bool,
                   fails: String -> bool, fs: Fs)
    ensures var r := Extraction(zipname, archive, overwrite, fails, fs);
            var inc := |archive| / 10;
            && |r.log| == r.m - 1
            && (inc == 0 ==> r.m - 1 == r.extracted + r.skipped)
            && (inc >= 1 ==> r.extracted < r.m * inc && r.m - 1 == r.extracted / inc)
  {
    var job := NewJob(zipname, archive, overwrite, fails);
    RunKeepsMilestones(job, Start(fs), Members(archive));
    MilestoneCount(job, Run(job, Start(fs), Members(archive)));
  }

  // ---------------------------------------------------------------------
  // A second run without overwrite
  // ---------------------------------------------------------------------

  /** Every entry handled before an abort is settled in `fs`. */
  predicate AllSettled(site: Site, fs: Fs, es: seq<Entry>)
    decreases |es|
  {
    es == [] ||
    (AllSettled(site, fs, es[..|es| - 1]) &&
     (Aborts(site, es[..|es| - 1]) || Settled(site, fs, es[|es| - 1])))
  }

  lemma SettledGrows(site: Site, fs: Fs, fs': Fs, e: Entry)
    requires Grows(fs, fs') && Settled(site, fs, e)
    ensures Settled(site, fs', e)
  {
  }

  lemma {:induction false} AllSettledGrows(site: Site, fs: Fs, fs': Fs, es: seq<Entry>)
    requires Grows(fs, fs') && AllSettled(site, fs, es)
    ensures AllSettled(site, fs', es)
    decreases |es|
  {
    if es != [] {
      AllSettledGrows(site, fs, fs', es[..|es| - 1]);
      if !Aborts(site, es[..|es| - 1]) {
        SettledGrows(site, fs, fs', es[|es| - 1]);
      }
    }
  }

  /** A run leaves every entry it handled settled. */
  lemma {:induction false} RunSettles(job: Job, st: Progress, es: seq<Entry>)
    requires !st.aborted
    ensures AllSettled(job.site, Run(job, st, es).fs, es)
    decreases |es|
  {
    if es != [] {
      var pre := es[..|es| - 1];
      var p := Run(job, st, pre);
      RunSettles(job, st, pre);
      AllSettledGrows(job.site, p.fs, Step(job, p, es[|es| - 1]).fs, pre);
    }
  }

  /** A run without overwrite over settled entries writes nothing. */
  lemma {:induction false} SettledRunWritesNothing(job: Job, st: Progress, es: seq<Entry>)
    requires !job.overwrite && !st.aborted && AllSettled(job.site, st.fs, es)
    ensures Run(job, st, es).fs == st.fs && Run(job, st, es).extracted == st.extracted
    decreases |es|
  {
    if es != [] {
      SettledRunWritesNothing(job, st, es[..|es| - 1]);
    }
  }

  /** The entries handled before any abort whose destination file is
      present in `fs`. */
  function Present(site: Site, fs: Fs, es: seq<Entry>): nat
    decreases |es|
  {
    if es == [] then 0
    else
      var pre, e := es[..|es| - 1], es[|es| - 1];
      Present(site, fs, pre) +
      (if !Aborts(site, pre) && Landed(site, fs, e) then 1 else 0)
  }

  /** The entry has a non-empty destination whose file is present in `fs`. */
  predicate Landed(site: Site, fs: Fs, e: Entry) {
    match Resolve(site.zipname, e.name)
    case DepthUnsupported => false
    case Target(d, f) => d != [] && f != [] && fs.Exists(PathOf(site, d, f))
  }

  lemma {:induction false} PresentGrows(site: Site, fs: Fs, fs': Fs, es: seq<Entry>)
    requires Grows(fs, fs')
    ensures Present(site, fs, es) <= Present(site, fs', es)
    decreases |es|
  {
    if es != [] {
      PresentGrows(site, fs, fs', es[..|es| - 1]);
    }
  }

  /** A run counts, as extracted or skipped, only entries whose file is
      present at its end. */
  lemma {:induction false} CountedArePresent(job: Job, st: Progress, es: seq<Entry>)
    requires !st.aborted
    ensures var r := Run(job, st, es);
            r.extracted + r.skipped <= st.extracted + st.skipped + Present(job.site, r.fs, es)
    decreases |es|
  {
    if es != [] {
      var pre, e := es[..|es| - 1], es[|es| - 1];
      var p := Run(job, st, pre);
      var r := Step(job, p, e);
      assert r == Run(job, st, es);
      CountedArePresent(job, st, pre);
      PresentGrows(job.site, p.fs, r.fs, pre);
      if !p.aborted {
        match Resolve(job.site.zipname, e.name)
        case DepthUnsupported =>
        case Target(d, f) =>
          if d != [] && f != [] {
            StepPlaces(job, p, e, d, f);
          }
      }
    }
  }

  /** A run without overwrite over settled entries skips exactly the
      entries whose file is present. */
  lemma {:induction false} SettledRunSkipsPresent(job: Job, st: Progress, es: seq<Entry>)
    requires !job.overwrite && !st.aborted && AllSettled(job.site, st.fs, es)
    ensures Run(job, st, es).skipped == st.skipped + Present(job.site, st.fs, es)
    decreases |es|
  {
    if es != [] {
      var pre, e := es[..|es| - 1], es[|es| - 1];
      SettledRunSkipsPresent(job, st, pre);
      SettledRunWritesNothing(job, st, pre);
      var p := Run(job, st, pre);
      if !p.aborted {
        match Resolve(job.site.zipname, e.name)
        case DepthUnsupported =>
        case Target(d, f) =>
          if d != [] && f != [] {
            StepPlaces(job, p, e, d, f);
            OverwriteRule(job, p, DirOf(job.site, d), PathOf(job.site, d, f), e.data);
          }
      }
    }
  }

  /** Extracting the same archive a second time without overwrite, under the
      same write failures, changes nothing on disk, extracts nothing, skips at
      least every entry the first run extracted or skipped, and returns the
      same code. `SecondRunKeepsFiles` drops the assumption on the failures. */
  lemma SecondRunChangesNothing(zipname: String, archive: seq<Entry>, overwrite: bool,
                                fails: String -> bool, fs: Fs)
    ensures var first := Extraction(zipname, archive, overwrite, fails, fs);
            var second := Extraction(zipname, archive, false, fails, first.fs);
            && second.fs == first.fs && second.extracted == 0 && ExitCode(second) == ExitCode(first)
            && second.skipped >= first.extracted + first.skipped
  {
    var job1 := NewJob(zipname, archive, overwrite, fails);
    var job2 := NewJob(zipname, archive, false, fails);
    var es := Members(archive);
    var first := Run(job1, Start(fs), es);
    RunSettles(job1, Start(fs), es);
    assert job2.site == job1.site;
    SettledRunWritesNothing(job2, Start(first.fs), es);
    CountedArePresent(job1, Start(fs), es);
    SettledRunSkipsPresent(job2, Start(first.fs), es);
  }

  /** Without overwrite, placing an entry leaves every existing file's bytes. */
  lemma PlaceKeepsFiles(job: Job, st: Progress, dir: String, path: String, data: Bytes)
    requires !job.overwrite
    ensures var r := Place(job, st, dir, path, data);
            forall p :: p in st.fs.files ==> p in r.fs.files && r.fs.files[p] == st.fs.files[p]
  {
    if path in st.fs.files {
      assert WithDir(st.fs, dir).Exists(path);
    }
  }

  lemma StepKeepsFiles(job: Job, st: Progress, e: Entry)
    requires !job.overwrite
    ensures var r := Step(job, st, e);
            forall p :: p in st.fs.files ==> p in r.fs.files && r.fs.files[p] == st.fs.files[p]
  {
    if !st.aborted {
      match Resolve(job.site.zipname, e.name)
      case DepthUnsupported =>
      case Target(d, f) =>
        if d != [] && f != [] {
          PlaceKeepsFiles(job, st, DirOf(job.site, d), PathOf(job.site, d, f), e.data);
        }
    }
  }

  /** A run without overwrite never changes the bytes of a file that was
      already there, whatever the environment's write failures. */
  lemma {:induction false} NoOverwriteKeepsFiles(job: Job, st: Progress, es: seq<Entry>)
    requires !job.overwrite
    ensures var r := Run(job, st, es);
            forall p :: p in st.fs.files ==> p in r.fs.files && r.fs.files[p] == st.fs.files[p]
    decreases |es|
  {
    if es != [] {
      var pre := es[..|es| - 1];
      NoOverwriteKeepsFiles(job, st, pre);
      StepKeepsFiles(job, Run(job, st, pre), es[|es| - 1]);
    }
  }

  /** The refused entries depend on the archive path alone, not on the
      write failures. */
  lemma AbortsIgnoresFails(zipname: String, root: String, fails: String -> bool,
                           fails2: String -> bool, es: seq<Entry>)
    ensures Aborts(Site(zipname, root, fails), es) == Aborts(Site(zipname, root, fails2), es)
  {
    AbortsIff(Site(zipname, root, fails), es);
    AbortsIff(Site(zipname, root, fails2), es);
  }

  /** A second extraction without overwrite, whatever its own write failures
      `fails2`, keeps every file and directory the first left and the bytes
      of every such file, and returns the same code. It may still write
      files whose write failed in the first run. */
  lemma SecondRunKeepsFiles(zipname: String, archive: seq<Entry>, overwrite: bool,
                            fails: String -> bool, fails2: String -> bool, fs: Fs)
    ensures var first := Extraction(zipname, archive, overwrite, fails, fs);
            var second := Extraction(zipname, archive, false, fails2, first.fs);
            && Grows(first.fs, second.fs)
            && (forall p :: p in first.fs.files ==> second.fs.files[p] == first.fs.files[p])
            && ExitCode(second) == ExitCode(first)
  {
    var first := Extraction(zipname, archive, overwrite, fails, fs);
    NoOverwriteKeepsFiles(NewJob(zipname, archive, false, fails2), Start(first.fs), Members(archive));
    ExtractionOutcome(zipname, archive, overwrite, fails, fs);
    ExtractionOutcome(zipname, archive, false, fails2, first.fs);
    AbortsIgnoresFails(zipname, Dirname(zipname), fails, fails2, archive);
  }

  // ---------------------------------------------------------------------
  // The filesystem as the imperative code changes it
  // ---------------------------------------------------------------------

  class FileSystem {
    var files: map<String, Bytes>
    var dirs: set<String>

    constructor (files0: map<String, Bytes>, dirs0: set<String>)
      ensures State() == Fs(files0, dirs0)
    {
      files, dirs := files0, dirs0;
    }

    function State(): Fs
      reads this
    {
      Fs(files, dirs)
    }

    predicate Exists(p: String)
      reads this
    {
      State().Exists(p)
    }

    /** `os.mkdir(p)`. */
    method Mkdir(p: String)
      modifies this
      ensures State() == old(State()).(dirs := old(dirs) + {p})
    {
      dirs := dirs + {p};
    }

    /** `open(p, 'w').write(data)`; `ok` is false when it raises `IOError`. */
    method WriteFile(p: String, data: Bytes, fails: String -> bool) returns (ok: bool)
      modifies this
      ensures ok == !WriteFails(old(State()), p, fails)
      ensures State() == if ok then old(State()).(files := old(files)[p := data]) else old(State())
    {
      ok := !(p in dirs || fails(p));
      if ok {
        files := files[p := data];
      }
    }
  }

  /** The body of the `try` for one entry that resolved to file `path` in
      directory `dir`, acting on the filesystem and the loop's counters;
      `ok` is false when the write raised `IOError`. */
  method PlaceEntry(fs: FileSystem, job: Job, dir: String, path: String, data: Bytes,
                    extracted: nat, skipped: nat, m: nat, log: seq<nat>)
    returns (extracted': nat, skipped': nat, m': nat, log': seq<nat>)
    modifies fs
    ensures Progress(fs.State(), extracted', skipped', m', log', false) ==
            Place(job, Progress(old(fs.State()), extracted, skipped, m, log, false), dir, path, data)
  {
    ghost var before := Progress(fs.State(), extracted, skipped, m, log, false);
    OverwriteRule(job, before, dir, path, data);
    extracted', skipped', m', log' := extracted, skipped, m, log;
    if !fs.Exists(dir) {
      fs.Mkdir(dir);
    }
    if fs.Exists(path) && !job.overwrite {
      skipped' := skipped' + 1;
    } else {
      var ok := fs.WriteFile(path, data, job.site.fails);
      if !ok {
        return;
      }
      extracted' := extracted' + 1;
    }
    if extracted' >= m' * job.increment {
      log' := log' + [extracted' + skipped'];
      m' := m' + 1;
    }
  }

  /** A whole call is the loop over the members from the start state. */
  lemma ExtractionRuns(zipname: String, archive: seq<Entry>, overwrite: bool, fails: String -> bool, fs: Fs)
    ensures Extraction(zipname, archive, overwrite, fails, fs) ==
            Run(NewJob(zipname, archive, overwrite, fails), Start(fs), Members(archive))
  {
  }

  /** One iteration of the loop for member `i`: `refused` when its depth
      makes `extract` return 1, otherwise the entry is handled as `Run` says. */
  method ExtractEntry(fs: FileSystem, job: Job, archive: seq<Entry>, i: nat, ghost st0: Progress,
                      extracted: nat, skipped: nat, m: nat, log: seq<nat>)
    returns (refused: bool, extracted': nat, skipped': nat, m': nat, log': seq<nat>)
    requires i < |archive|
    requires Run(job, st0, Members(archive)[..i]) == Progress(fs.State(), extracted, skipped, m, log, false)
    modifies fs
    ensures refused <==> Resolve(job.site.zipname, archive[i].name).DepthUnsupported?
    ensures refused ==> fs.State() == old(fs.State()) &&
                        Run(job, st0, Members(archive)) == Progress(fs.State(), extracted, skipped, m, log, true)
    ensures !refused ==>
              Run(job, st0, Members(archive)[..i + 1]) == Progress(fs.State(), extracted', skipped', m', log', false)
  {
    ghost var es := Members(archive);
    var name := archive[i].name;
    MemberAt(archive, i);
    refused, extracted', skipped', m', log' := false, extracted, skipped, m, log;
    match Resolve(job.site.zipname, name)
    case DepthUnsupported =>
      StopsAtFirstTooDeep(job, st0, es, i);
      refused := true;
    case Target(dirname, filename) =>
      RunTarget(job, st0, es, i, dirname, filename);
      if dirname != [] && filename != [] {
        var dir := Join(job.site.root, dirname);
        var path := Join(dir, filename);
        var data := Read(archive, name).value;
        extracted', skipped', m', log' := PlaceEntry(fs, job, dir, path, data, extracted, skipped, m, log);
      }
  }

  /** `extract(zipname, overwrite)`: returns the exit code together with the
      counters and the progress values of the milestone log lines. */
  method Extract(fs: FileSystem, zipname: String, archive: seq<Entry>, overwrite: bool,
                 fails: String -> bool)
    returns (code: int, extracted: nat, skipped: nat, log: seq<nat>)
    modifies fs
    ensures var r := Extraction(zipname, archive, overwrite, fails, old(fs.State()));
            && code == ExitCode(r) && fs.State() == r.fs
            && extracted == r.extracted && skipped == r.skipped && log == r.log
  {
    var job := NewJob(zipname, archive, overwrite, fails);
    ExtractionRuns(zipname, archive, overwrite, fails, fs.State());
    extracted, skipped := 0, 0;
    var m := 1;
    log := [];
    ghost var st0 := Start(fs.State());
    ghost var es := Members(archive);
    assert es[..0] == [];
    for i := 0 to |archive|
      invariant Run(job, st0, es[..i]) == Progress(fs.State(), extracted, skipped, m, log, false)
    {
      var refused, extracted', skipped', m', log' := ExtractEntry(fs, job, archive, i, st0, extracted, skipped, m, log);
      if refused {
        return 1, extracted, skipped, log;
      }
      extracted, skipped, m, log := extracted', skipped', m', log';
    }
    assert es[..|es|] == es;
    code := 0;
  }
}
