/**
  Case-insensitive substring matching over the walker's triples, as the
  loops of `search` (searcher_no_GUI_faster.py) and `search_file`
  (searcher_no_GUI.py) perform it.
 */
module Matcher {
  import opened Text
  import opened Paths
  import opened Walker

  /** `mode == "file"` or `mode == "folder"`. */
  datatype Mode = FileMode | FolderMode

  /** `target.lower() in name.lower()`. */
  predicate NameMatches(name: string, target: string) {
    Contains(Lower(name), Lower(target))
  }

  /** File mode, one triple: `join(root, f)` for each matching file name. */
  function FileMatches(root: Path, files: seq<string>, target: string): seq<Path> {
    if files == [] then []
    else
      var f := files[|files| - 1];
      FileMatches(root, files[..|files| - 1], target) + (if NameMatches(f, target) then [Join(root, f)] else [])
  }

  /** Folder mode, one triple: each child path whose basename matches. */
  function FolderMatches(dirs: seq<Path>, target: string): seq<Path> {
    if dirs == [] then []
    else
      var d := dirs[|dirs| - 1];
      FolderMatches(dirs[..|dirs| - 1], target) + (if NameMatches(Basename(d), target) then [d] else [])
  }

  function VisitMatches(v: Visit, target: string, mode: Mode): seq<Path> {
    match mode
    case FileMode => FileMatches(v.path, v.files, target)
    case FolderMode => FolderMatches(v.dirs, target)
  }

  /** The `matches` list after consuming `visits` in order. */
  function AllMatches(visits: seq<Visit>, target: string, mode: Mode): seq<Path> {
    if visits == [] then []
    else AllMatches(visits[..|visits| - 1], target, mode) + VisitMatches(visits[|visits| - 1], target, mode)
  }

  /** The innermost loop over one triple, in `search` and `search_file`:
      append the matching file paths (file mode) or child folder paths
      (folder mode). */
  method AppendMatches(matches: seq<Path>, v: Visit, target: string, mode: Mode) returns (extended: seq<Path>)
    ensures extended == matches + VisitMatches(v, target, mode)
  {
    extended := matches;
    if mode == FileMode {
      for k := 0 to |v.files|
        invariant extended == matches + FileMatches(v.path, v.files[..k], target)
      {
        assert v.files[..k + 1][..k] == v.files[..k];
        var f := v.files[k];
        if NameMatches(f, target) {
          extended := extended + [Join(v.path, f)];
        }
      }
      assert v.files[..|v.files|] == v.files;
    } else {
      for k := 0 to |v.dirs|
        invariant extended == matches + FolderMatches(v.dirs[..k], target)
      {
        assert v.dirs[..k + 1][..k] == v.dirs[..k];
        var d := v.dirs[k];
        if NameMatches(Basename(d), target) {
          extended := extended + [d];
        }
      }
      assert v.dirs[..|v.dirs|] == v.dirs;
    }
  }

  /** The loop over all triples of one walk: append every match in order. */
  method AppendAllMatches(matches: seq<Path>, visits: seq<Visit>, target: string, mode: Mode) returns (extended: seq<Path>)
    ensures extended == matches + AllMatches(visits, target, mode)
  {
    extended := matches;
    for j := 0 to |visits|
      invariant extended == matches + AllMatches(visits[..j], target, mode)
    {
      assert visits[..j + 1][..j] == visits[..j];
      extended := AppendMatches(extended, visits[j], target, mode);
    }
    assert visits[..|visits|] == visits;
  }

  /** Append-only in walk order: the matches of a longer walk extend those
      of any prefix of it, so a list cut short is a prefix of the full one. */
  lemma {:induction false} AllMatchesAppend(a: seq<Visit>, b: seq<Visit>, target: string, mode: Mode)
    ensures AllMatches(a + b, target, mode) == AllMatches(a, target, mode) + AllMatches(b, target, mode)
    decreases |b|
  {
    if b == [] {
      assert a + b == a;
    } else {
      var b', last := b[..|b| - 1], b[|b| - 1];
      assert (a + b)[..|a + b| - 1] == a + b' && (a + b)[|a + b| - 1] == last;
      calc {
        AllMatches(a + b, target, mode);
        AllMatches(a + b', target, mode) + VisitMatches(last, target, mode);
        { AllMatchesAppend(a, b', target, mode); }
        AllMatches(a, target, mode) + AllMatches(b', target, mode) + VisitMatches(last, target, mode);
        AllMatches(a, target, mode) + AllMatches(b, target, mode);
      }
    }
  }

  lemma {:induction false} FileMatchesIff(root: Path, files: seq<string>, target: string, p: Path)
    ensures p in FileMatches(root, files, target) <==>
      exists f :: f in files && NameMatches(f, target) && p == Join(root, f)
  {
    if files != [] {
      var init := files[..|files| - 1];
      FileMatchesIff(root, init, target, p);
      assert files == init + [files[|files| - 1]];
      if p in FileMatches(root, init, target) {
        var f :| f in init && NameMatches(f, target) && p == Join(root, f);
        assert f in files;
      }
    }
  }

  lemma {:induction false} FolderMatchesIff(dirs: seq<Path>, target: string, p: Path)
    ensures p in FolderMatches(dirs, target) <==> p in dirs && NameMatches(Basename(p), target)
  {
    if dirs != [] {
      var init := dirs[..|dirs| - 1];
      FolderMatchesIff(init, target, p);
      assert dirs == init + [dirs[|dirs| - 1]];
    }
  }

  /** File mode reports `join(root, f)` exactly for the matching file names
      of the visited directories; directories are never reported. */
  lemma {:induction false} FileModeMatchesIff(visits: seq<Visit>, target: string, p: Path)
    ensures p in AllMatches(visits, target, FileMode) <==>
      exists v, f :: v in visits && f in v.files && NameMatches(f, target) && p == Join(v.path, f)
  {
    if visits != [] {
      var init, last := visits[..|visits| - 1], visits[|visits| - 1];
      FileModeMatchesIff(init, target, p);
      FileMatchesIff(last.path, last.files, target, p);
      assert visits == init + [last];
      if p in AllMatches(init, target, FileMode) {
        var v, f :| v in init && f in v.files && NameMatches(f, target) && p == Join(v.path, f);
        assert v in visits;
      }
      if exists v, f :: v in visits && f in v.files && NameMatches(f, target) && p == Join(v.path, f) {
        var v, f :| v in visits && f in v.files && NameMatches(f, target) && p == Join(v.path, f);
        if v != last {
          assert v in init;
        }
      }
    }
  }

  /** Folder mode reports a child path exactly when some visited directory
      lists it and its basename matches; the child itself need not be visited. */
  lemma {:induction false} FolderModeMatchesIff(visits: seq<Visit>, target: string, p: Path)
    ensures p in AllMatches(visits, target, FolderMode) <==>
      (exists v :: v in visits && p in v.dirs) && NameMatches(Basename(p), target)
  {
    if visits != [] {
      var init, last := visits[..|visits| - 1], visits[|visits| - 1];
      FolderModeMatchesIff(init, target, p);
      FolderMatchesIff(last.dirs, target, p);
      assert visits == init + [last];
      if exists v :: v in visits && p in v.dirs {
        var v :| v in visits && p in v.dirs;
        if v != last {
          assert v in init;
        }
      }
      if exists v :: v in init && p in v.dirs {
        var v :| v in init && p in v.dirs;
        assert v in visits;
      }
    }
  }
}
