/**
  What the breadth-first walk guarantees: which directories it yields,
  what it reports for each, and in which order.
 */
module WalkTheorems {
  import opened Paths
  import opened Walker

  /** Some triple in `visits` is about directory `p`. */
  predicate Visited(visits: seq<Visit>, p: Path) {
    exists v :: v in visits && v.path == p
  }

  /** Processing `p` puts `c` on the queue. */
  ghost predicate Enqueues(fs: FileSystem, p: Path, c: Path) {
    Expand(fs, p).Some? && c in Expand(fs, p).value.dirs
  }

  /** A path through the directory graph along which every directory is
      readable and not skipped, each one listing the next as a subdirectory. */
  ghost predicate IsChain(fs: FileSystem, chain: seq<Path>) {
    && |chain| > 0
    && Expand(fs, chain[|chain| - 1]).Some?
    && forall i :: 0 <= i < |chain| - 1 ==> Enqueues(fs, chain[i], chain[i + 1])
  }

  /** `p` can be reached from `root` without passing through (or being) a
      skipped or unreadable directory. */
  ghost predicate Reachable(fs: FileSystem, root: Path, p: Path) {
    exists chain :: IsChain(fs, chain) && chain[0] == root && chain[|chain| - 1] == p
  }

  /** A queued directory that can be expanded is yielded. */
  lemma {:induction false} QueuedIsVisited(fs: FileSystem, queue: seq<Path>, p: Path)
    requires WellFormed(fs) && p in queue && Expand(fs, p).Some?
    ensures Visited(Walk(fs, queue), p)
    decreases RankAll(fs, 0, queue)
  {
    match Expand(fs, queue[0])
    case None =>
      QueuedIsVisited(fs, queue[1..], p);
    case Some(v) =>
      WalkStepDecreases(fs, queue, v);
      if queue[0] != p {
        QueuedIsVisited(fs, queue[1..] + v.dirs, p);
        var w :| w in Walk(fs, queue[1..] + v.dirs) && w.path == p;
        assert w in Walk(fs, queue);
      } else {
        assert v in Walk(fs, queue);
      }
  }

  /** Once a directory is yielded, every subdirectory it lists that can
      be expanded is yielded too. */
  lemma {:induction false} ChildOfVisitedIsVisited(fs: FileSystem, queue: seq<Path>, p: Path, c: Path)
    requires WellFormed(fs) && Visited(Walk(fs, queue), p)
    requires Enqueues(fs, p, c) && Expand(fs, c).Some?
    ensures Visited(Walk(fs, queue), c)
    decreases RankAll(fs, 0, queue)
  {
    match Expand(fs, queue[0])
    case None =>
      ChildOfVisitedIsVisited(fs, queue[1..], p, c);
    case Some(v) =>
      WalkStepDecreases(fs, queue, v);
      var rest := Walk(fs, queue[1..] + v.dirs);
      if queue[0] == p {
        QueuedIsVisited(fs, queue[1..] + v.dirs, c);
      } else {
        var w :| w in Walk(fs, queue) && w.path == p;
        assert w in rest;
        ChildOfVisitedIsVisited(fs, queue[1..] + v.dirs, p, c);
      }
      var w :| w in rest && w.path == c;
      assert w in Walk(fs, queue);
  }

  lemma {:induction false} ChainPrefixVisited(fs: FileSystem, queue: seq<Path>, chain: seq<Path>, k: nat)
    requires WellFormed(fs) && IsChain(fs, chain) && chain[0] in queue && k < |chain|
    ensures Visited(Walk(fs, queue), chain[k])
    decreases k
  {
    if k == 0 {
      if |chain| > 1 {
        assert Enqueues(fs, chain[0], chain[1]);
      }
      QueuedIsVisited(fs, queue, chain[0]);
    } else {
      ChainPrefixVisited(fs, queue, chain, k - 1);
      assert Enqueues(fs, chain[k - 1], chain[k]);
      if k < |chain| - 1 {
        assert Enqueues(fs, chain[k], chain[k + 1]);
      }
      ChildOfVisitedIsVisited(fs, queue, chain[k - 1], chain[k]);
    }
  }

  lemma {:induction false} VisitedHasChain(fs: FileSystem, queue: seq<Path>, p: Path)
    requires WellFormed(fs) && Visited(Walk(fs, queue), p)
    ensures exists chain :: IsChain(fs, chain) && chain[0] in queue && chain[|chain| - 1] == p
    decreases RankAll(fs, 0, queue)
  {
    match Expand(fs, queue[0])
    case None =>
      VisitedHasChain(fs, queue[1..], p);
      var chain :| IsChain(fs, chain) && chain[0] in queue[1..] && chain[|chain| - 1] == p;
      assert chain[0] in queue;
    case Some(v) =>
      WalkStepDecreases(fs, queue, v);
      if queue[0] == p {
        assert IsChain(fs, [p]);
      } else {
        var w :| w in Walk(fs, queue) && w.path == p;
        assert w in Walk(fs, queue[1..] + v.dirs);
        VisitedHasChain(fs, queue[1..] + v.dirs, p);
        var chain :| IsChain(fs, chain) && chain[0] in queue[1..] + v.dirs && chain[|chain| - 1] == p;
        if chain[0] in queue[1..] {
          assert chain[0] in queue;
        } else {
          var longer := [queue[0]] + chain;
          assert Enqueues(fs, longer[0], longer[1]);
          forall i | 0 <= i < |longer| - 1 ensures Enqueues(fs, longer[i], longer[i + 1]) {
            if i > 0 {
              assert longer[i] == chain[i - 1] && longer[i + 1] == chain[i];
            }
          }
          assert IsChain(fs, longer);
        }
      }
  }

  /** The walk from `root` yields exactly the directories reachable from it
      through readable, non-skipped directories. */
  lemma WalkVisitsExactlyReachable(fs: FileSystem, root: Path, p: Path)
    requires WellFormed(fs)
    ensures Visited(Walk(fs, [root]), p) <==> Reachable(fs, root, p)
  {
    if Visited(Walk(fs, [root]), p) {
      VisitedHasChain(fs, [root], p);
    }
    if Reachable(fs, root, p) {
      var chain :| IsChain(fs, chain) && chain[0] == root && chain[|chain| - 1] == p;
      ChainPrefixVisited(fs, [root], chain, |chain| - 1);
    }
  }

  /** A yielded triple is the listing of a reachable directory, and every
      reachable directory is yielded. */
  lemma VisitOfReachable(fs: FileSystem, root: Path, dir: Path) returns (v: Visit)
    requires WellFormed(fs) && Reachable(fs, root, dir)
    ensures v in Walk(fs, [root]) && v.path == dir
    ensures ReadDir(fs, dir).Some?
    ensures v.dirs == ChildDirs(dir, ReadDir(fs, dir).value) && v.files == FileNames(ReadDir(fs, dir).value)
  {
    WalkVisitsExactlyReachable(fs, root, dir);
    WalkYieldsFaithfulTriples(fs, [root]);
    v :| v in Walk(fs, [root]) && v.path == dir;
  }

  lemma VisitIsReachable(fs: FileSystem, root: Path, v: Visit)
    requires WellFormed(fs) && v in Walk(fs, [root])
    ensures Reachable(fs, root, v.path)
    ensures ReadDir(fs, v.path).Some?
    ensures v.dirs == ChildDirs(v.path, ReadDir(fs, v.path).value) && v.files == FileNames(ReadDir(fs, v.path).value)
  {
    WalkVisitsExactlyReachable(fs, root, v.path);
    WalkYieldsFaithfulTriples(fs, [root]);
  }

  /** A subdirectory of a skipped directory starts with the same prefix, so
      pruning a path at dequeue time prunes its whole subtree. */
  lemma SkipCoversSubtree(p: Path, entries: seq<Entry>, c: Path)
    requires IsSkipped(p) && c in ChildDirs(p, entries)
    ensures IsSkipped(c)
  {
    PartitionExact(p, entries);
    var e :| e in entries && e.kind == Directory && c == Join(p, e.name);
    JoinExtends(p, e.name);
    var skip :| skip in SKIP_FOLDERS && skip <= p;
    assert skip <= c;
  }

  /** The skip test is a raw string prefix: a sibling whose name merely
      extends a skipped folder's name is pruned too, and a path spelled in
      another case is not. */
  lemma RawPrefixSkip()
    ensures IsSkipped("C:\\Windows\\WinSxSX")
    ensures IsSkipped("C:\\Windows\\WinSxS\\amd64")
    ensures !IsSkipped("C:\\Windows\\System32")
    ensures !IsSkipped("c:\\windows\\winsxs")
  {
    var winSxS := SKIP_FOLDERS[0];
    assert winSxS in SKIP_FOLDERS;
    assert winSxS <= "C:\\Windows\\WinSxSX";
    assert winSxS <= "C:\\Windows\\WinSxS\\amd64";
    var system32 := "C:\\Windows\\System32";
    DiffersAt(SKIP_FOLDERS[0], system32, 11);
    assert |SKIP_FOLDERS[1]| > |system32|;
    DiffersAt(SKIP_FOLDERS[2], system32, 12);
    DiffersAt(SKIP_FOLDERS[3], system32, 3);
    var lower := "c:\\windows\\winsxs";
    DiffersAt(SKIP_FOLDERS[0], lower, 0);
    DiffersAt(SKIP_FOLDERS[1], lower, 0);
    DiffersAt(SKIP_FOLDERS[2], lower, 0);
    DiffersAt(SKIP_FOLDERS[3], lower, 0);
  }

  lemma DiffersAt(s: string, t: string, i: nat)
    requires i < |s| && i < |t| && s[i] != t[i]
    ensures !(s <= t)
  {
  }

  // ---------------------------------------------------------------------
  // Breadth-first order.

  /** The triples yielded for the directories of `queue`, in queue order. */
  function Layer(fs: FileSystem, queue: seq<Path>): seq<Visit> {
    if queue == [] then []
    else
      match Expand(fs, queue[0])
      case None => Layer(fs, queue[1..])
      case Some(v) => [v] + Layer(fs, queue[1..])
  }

  /** The queue those directories leave behind: their subdirectory lists,
      concatenated in queue order. */
  function Frontier(fs: FileSystem, queue: seq<Path>): seq<Path> {
    if queue == [] then []
    else
      match Expand(fs, queue[0])
      case None => Frontier(fs, queue[1..])
      case Some(v) => v.dirs + Frontier(fs, queue[1..])
  }

  /** FIFO discipline: with `queue` ahead of `later`, the walk first yields
      every directory of `queue` in order, and only then turns to `later`
      followed by the subdirectories those directories listed. */
  lemma {:induction false} WalkDrainsQueueFirst(fs: FileSystem, queue: seq<Path>, later: seq<Path>)
    requires WellFormed(fs)
    ensures Walk(fs, queue + later) == Layer(fs, queue) + Walk(fs, later + Frontier(fs, queue))
    decreases |queue|
  {
    if queue == [] {
      assert queue + later == later && later + [] == later;
    } else {
      var q := queue + later;
      assert q[0] == queue[0] && q[1..] == queue[1..] + later;
      match Expand(fs, queue[0])
      case None =>
        WalkDrainsQueueFirst(fs, queue[1..], later);
      case Some(v) =>
        assert q[1..] + v.dirs == queue[1..] + (later + v.dirs);
        WalkDrainsQueueFirst(fs, queue[1..], later + v.dirs);
        assert later + Frontier(fs, queue) == (later + v.dirs) + Frontier(fs, queue[1..]);
    }
  }

  /** Breadth-first: the walk yields one whole level (the readable,
      non-skipped directories of the current queue, in order) before any
      directory of the next level. */
  lemma WalkByLevels(fs: FileSystem, queue: seq<Path>)
    requires WellFormed(fs)
    ensures Walk(fs, queue) == Layer(fs, queue) + Walk(fs, Frontier(fs, queue))
  {
    WalkDrainsQueueFirst(fs, queue, []);
    assert queue + [] == queue;
    assert [] + Frontier(fs, queue) == Frontier(fs, queue);
  }
}
