/**
  The breadth-first directory walker `fast_walk` of searcher_no_GUI_faster.py
  and its skip list.

  The filesystem is a finite map from a directory path to what `os.scandir`
  returns for it: `Some(entries)` in read order, or `None` when the call
  raises (permission denied, vanished, not a directory). A path that is not
  a key cannot be read either. Each entry carries the answer of
  `DirEntry.is_dir(follow_symlinks=False)` as its kind, so a symbolic link to
  a directory is an entry of kind `SymbolicLink`, never a `Directory`; a
  directory junction, for which that call answers true, is a `Directory`
  and is entered.

  The map is one fixed snapshot of the volume: entries created, removed or
  renamed while the walk is under way are not modelled.
 */
module Walker {
  import opened Wrappers
  import opened Paths

  datatype EntryKind = Directory | SymbolicLink | Regular

  datatype Entry = Entry(name: string, kind: EntryKind)

  type FileSystem = map<Path, Option<seq<Entry>>>

  /** One `(current, dirs, files)` triple yielded by the walker: the
      directory, the full paths of its subdirectories and the bare names of
      everything else, each in read order. */
  datatype Visit = Visit(path: Path, dirs: seq<Path>, files: seq<string>)

  /** `os.scandir(p)`: the listing, or `None` when it raises. */
  function ReadDir(fs: FileSystem, p: Path): Option<seq<Entry>> {
    if p in fs then fs[p] else None
  }

  /** Every listed name is a real entry name (non-empty, no separator).
      Without this a directory could list itself (an entry named "" under
      "C:\\") and the walk would never end. */
  predicate WellFormed(fs: FileSystem) {
    forall p, e :: p in fs && fs[p].Some? && e in fs[p].value ==> IsEntryName(e.name)
  }

  /** The prefixes the walker refuses to enter. */
  const SKIP_FOLDERS: seq<Path> := [
    "C:\\Windows\\WinSxS",
    "C:\\Windows\\System32\\DriverStore",
    "C:\\Windows\\SoftwareDistribution",
    "C:\\ProgramData\\Microsoft\\Windows\\Caches"
  ]

  /** `any(current.startswith(skip) for skip in SKIP_FOLDERS)`: a raw,
      case-sensitive string-prefix test. */
  predicate IsSkipped(p: Path) {
    exists skip :: skip in SKIP_FOLDERS && skip <= p
  }

  /** The `dirs` list: the full path of every `Directory` entry, in read order. */
  function ChildDirs(p: Path, entries: seq<Entry>): seq<Path> {
    if entries == [] then []
    else
      var e := entries[|entries| - 1];
      ChildDirs(p, entries[..|entries| - 1]) + (if e.kind == Directory then [Join(p, e.name)] else [])
  }

  /** The `files` list: the bare name of every other entry, in read order. */
  function FileNames(entries: seq<Entry>): seq<string> {
    if entries == [] then []
    else
      var e := entries[|entries| - 1];
      FileNames(entries[..|entries| - 1]) + (if e.kind != Directory then [e.name] else [])
  }

  /** The `for entry in it` loop: split one listing into `dirs` and `files`. */
  method ScanEntries(current: Path, entries: seq<Entry>) returns (dirs: seq<Path>, files: seq<string>)
    ensures dirs == ChildDirs(current, entries)
    ensures files == FileNames(entries)
    ensures |dirs| + |files| == |entries|
  {
    dirs, files := [], [];
    for i := 0 to |entries|
      invariant dirs == ChildDirs(current, entries[..i])
      invariant files == FileNames(entries[..i])
      invariant |dirs| + |files| == i
    {
      var entry := entries[i];
      assert entries[..i + 1][..i] == entries[..i];
      if entry.kind == Directory {
        dirs := dirs + [Join(current, entry.name)];
      } else {
        files := files + [entry.name];
      }
    }
    assert entries[..|entries|] == entries;
  }

  /** Every entry lands in exactly one list: a `Directory` entry as its
      joined path in `dirs`, any other entry (symbolic links included) as its
      bare name in `files`. */
  lemma {:induction false} PartitionExact(p: Path, entries: seq<Entry>)
    ensures |ChildDirs(p, entries)| + |FileNames(entries)| == |entries|
    ensures forall c :: c in ChildDirs(p, entries) <==>
      exists e :: e in entries && e.kind == Directory && c == Join(p, e.name)
    ensures forall n :: n in FileNames(entries) <==>
      exists e :: e in entries && e.kind != Directory && n == e.name
  {
    if entries != [] {
      var init, e := entries[..|entries| - 1], entries[|entries| - 1];
      PartitionExact(p, init);
      assert entries == init + [e];
      forall c ensures c in ChildDirs(p, entries) <==>
        exists e' :: e' in entries && e'.kind == Directory && c == Join(p, e'.name)
      {
        if c in ChildDirs(p, init) {
          var e' :| e' in init && e'.kind == Directory && c == Join(p, e'.name);
          assert e' in entries;
        }
      }
      forall n ensures n in FileNames(entries) <==>
        exists e' :: e' in entries && e'.kind != Directory && n == e'.name
      {
        if n in FileNames(init) {
          var e' :| e' in init && e'.kind != Directory && n == e'.name;
          assert e' in entries;
        }
      }
    }
  }

  /** What processing one dequeued path produces: nothing when it is
      skipped or cannot be read, otherwise the triple to yield. */
  function Expand(fs: FileSystem, p: Path): Option<Visit> {
    if IsSkipped(p) then None
    else match ReadDir(fs, p)
      case None => None
      case Some(entries) => Some(Visit(p, ChildDirs(p, entries), FileNames(entries)))
  }

  // ---------------------------------------------------------------------
  // Termination: the walk explores the finite unfolding of the directory
  // graph. A child path is strictly longer than its parent, and only keys
  // of the (finite) map can be read, so the unfolding below a path is
  // finite; RankAll(fs, 0, queue) is the number of nodes still to dequeue.

  ghost function KeysFrom(fs: FileSystem, n: nat): set<Path> {
    set p | p in fs && |p| >= n
  }

  ghost function Rank(fs: FileSystem, p: Path): (r: nat)
    ensures r >= 1
    decreases KeysFrom(fs, |p|), 0
  {
    match ReadDir(fs, p)
    case None => 1
    case Some(entries) =>
      assert p in KeysFrom(fs, |p|) && p !in KeysFrom(fs, |p| + 1);
      1 + RankAll(fs, |p| + 1, ChildDirs(p, entries))
  }

  /** The summed rank of the paths in `cs` that are at least `n` long. */
  ghost function RankAll(fs: FileSystem, n: nat, cs: seq<Path>): nat
    decreases KeysFrom(fs, n), 1, |cs|
  {
    if cs == [] then 0
    else
      assert |cs[0]| >= n ==> KeysFrom(fs, |cs[0]|) <= KeysFrom(fs, n);
      (if |cs[0]| >= n then Rank(fs, cs[0]) else 0) + RankAll(fs, n, cs[1..])
  }

  lemma {:induction false} RankAllAppend(fs: FileSystem, a: seq<Path>, b: seq<Path>)
    ensures RankAll(fs, 0, a + b) == RankAll(fs, 0, a) + RankAll(fs, 0, b)
    decreases |a|
  {
    if a != [] {
      assert (a + b)[1..] == a[1..] + b;
      RankAllAppend(fs, a[1..], b);
    } else {
      assert a + b == b;
    }
  }

  lemma {:induction false} RankAllLonger(fs: FileSystem, n: nat, cs: seq<Path>)
    requires forall c :: c in cs ==> |c| >= n
    ensures RankAll(fs, n, cs) == RankAll(fs, 0, cs)
    decreases |cs|
  {
    if cs != [] {
      assert cs[0] in cs;
      assert forall c :: c in cs[1..] ==> c in cs;
      RankAllLonger(fs, n, cs[1..]);
    }
  }

  lemma {:induction false} ChildDirsLonger(p: Path, entries: seq<Entry>)
    requires forall e :: e in entries ==> IsEntryName(e.name)
    ensures forall c :: c in ChildDirs(p, entries) ==> |c| >= |p| + 1
  {
    PartitionExact(p, entries);
    forall c | c in ChildDirs(p, entries) ensures |c| >= |p| + 1 {
      var e :| e in entries && e.kind == Directory && c == Join(p, e.name);
      JoinExtends(p, e.name);
    }
  }

  /** Expanding the head of the queue and appending its subdirectories
      leaves strictly less to do. */
  lemma WalkStepDecreases(fs: FileSystem, queue: seq<Path>, v: Visit)
    requires WellFormed(fs) && queue != [] && Expand(fs, queue[0]) == Some(v)
    ensures RankAll(fs, 0, queue[1..] + v.dirs) < RankAll(fs, 0, queue)
  {
    var p := queue[0];
    var entries := ReadDir(fs, p).value;
    assert p in fs && fs[p] == Some(entries);
    ChildDirsLonger(p, entries);
    RankAllLonger(fs, |p| + 1, v.dirs);
    RankAllAppend(fs, queue[1..], v.dirs);
  }

  /** The sequence of triples `fast_walk` yields for a given queue:
      `popleft`, drop it when skipped or unreadable, otherwise yield its
      triple and `extend` the queue with its subdirectories. */
  function Walk(fs: FileSystem, queue: seq<Path>): seq<Visit>
    requires WellFormed(fs)
    decreases RankAll(fs, 0, queue)
  {
    if queue == [] then []
    else match Expand(fs, queue[0])
      case None => Walk(fs, queue[1..])
      case Some(v) =>
        WalkStepDecreases(fs, queue, v);
        [v] + Walk(fs, queue[1..] + v.dirs)
  }

  /** Every yielded triple is about a readable, non-skipped directory and
      reports exactly the partition of its listing. */
  lemma {:induction false} WalkYieldsFaithfulTriples(fs: FileSystem, queue: seq<Path>)
    requires WellFormed(fs)
    ensures forall v :: v in Walk(fs, queue) ==>
      && !IsSkipped(v.path)
      && ReadDir(fs, v.path).Some?
      && v.dirs == ChildDirs(v.path, ReadDir(fs, v.path).value)
      && v.files == FileNames(ReadDir(fs, v.path).value)
    decreases RankAll(fs, 0, queue)
  {
    if queue != [] {
      match Expand(fs, queue[0])
      case None =>
        WalkYieldsFaithfulTriples(fs, queue[1..]);
      case Some(v) =>
        WalkStepDecreases(fs, queue, v);
        WalkYieldsFaithfulTriples(fs, queue[1..] + v.dirs);
    }
  }

  /** `fast_walk(start_path)`, with the yielded triples collected in order. */
  method FastWalk(fs: FileSystem, start: Path) returns (visits: seq<Visit>)
    requires WellFormed(fs)
    ensures visits == Walk(fs, [start])
    ensures forall v :: v in visits ==>
      && !IsSkipped(v.path)
      && ReadDir(fs, v.path).Some?
      && v.dirs == ChildDirs(v.path, ReadDir(fs, v.path).value)
      && v.files == FileNames(ReadDir(fs, v.path).value)
  {
    var queue := [start];
    visits := [];
    while queue != []
      invariant visits + Walk(fs, queue) == Walk(fs, [start])
      decreases RankAll(fs, 0, queue)
    {
      var current := queue[0];
      ghost var before := queue;
      queue := queue[1..];
      if IsSkipped(current) {
        continue;
      }
      var listing := ReadDir(fs, current);
      if listing.None? {
        continue;
      }
      var dirs, files := ScanEntries(current, listing.value);
      var v := Visit(current, dirs, files);
      assert Expand(fs, current) == Some(v);
      WalkStepDecreases(fs, before, v);
      visits := visits + [v];
      queue := queue + dirs;
    }
    WalkYieldsFaithfulTriples(fs, [start]);
  }
}
