/**
  searcher_no_GUI.py: `search_file` scans every drive with `os.walk`,
  collects file names containing the target (ignoring case), and offers to
  delete one match; plus one pass of its main menu. What `os.walk` yields
  for a drive is the oracle `walkOf`; only the root and the file names of
  each triple are used.
 */
module NoGuiSearch {
  import opened Text
  import opened Paths
  import opened Drives
  import opened Walker
  import opened Matcher
  import opened DeletionGate

  /** The "[index/total] Scanning drive..." line printed before each drive. */
  datatype Progress = Progress(index: nat, total: nat, drive: Path)

  /** The `matches` list after scanning `drives` in order. */
  function FoundFiles(walkOf: Path -> seq<Visit>, drives: seq<Path>, target: string): seq<Path> {
    if drives == [] then []
    else
      FoundFiles(walkOf, drives[..|drives| - 1], target)
        + AllMatches(walkOf(drives[|drives| - 1]), target, FileMode)
  }

  datatype FileSearchOutcome =
    | NoMatchingFiles                                  // "No matching files found."
    | Decided(matches: seq<Path>, decision: Decision)  // deletion prompt

  function SearchFileResult(walkOf: Path -> seq<Visit>, pathExists: Path -> bool, target: string,
                            choice: string, answer: string): FileSearchOutcome
  {
    var matches := FoundFiles(walkOf, AllDrives(pathExists), target);
    if matches == [] then NoMatchingFiles
    else Decided(matches, DecideByIndex(matches, choice, answer))
  }

  /** Scanning one more drive appends that drive's file matches. */
  lemma FoundFilesStep(walkOf: Path -> seq<Visit>, drives: seq<Path>, k: nat, target: string)
    requires k < |drives|
    ensures FoundFiles(walkOf, drives[..k + 1], target)
         == FoundFiles(walkOf, drives[..k], target) + AllMatches(walkOf(drives[k]), target, FileMode)
  {
    assert drives[..k + 1][..k] == drives[..k];
  }

  /** `search_file(target)`: the progress lines it prints, in order, and how it ends. */
  method SearchFile(walkOf: Path -> seq<Visit>, pathExists: Path -> bool, target: string,
                    choice: string, answer: string) returns (progress: seq<Progress>, outcome: FileSearchOutcome)
    ensures |progress| == |AllDrives(pathExists)|
    ensures forall i :: 0 <= i < |progress| ==>
      progress[i] == Progress(i + 1, |AllDrives(pathExists)|, AllDrives(pathExists)[i])
    ensures outcome == SearchFileResult(walkOf, pathExists, target, choice, answer)
  {
    var drives := GetAllDrives(pathExists);
    var total := |drives|;
    var matches := [];
    progress := [];
    for index := 0 to total
      invariant |progress| == index
      invariant forall i :: 0 <= i < index ==> progress[i] == Progress(i + 1, total, drives[i])
      invariant matches == FoundFiles(walkOf, drives[..index], target)
    {
      progress := progress + [Progress(index + 1, total, drives[index])];
      matches := AppendAllMatches(matches, walkOf(drives[index]), target, FileMode);
      FoundFilesStep(walkOf, drives, index, target);
    }
    assert drives[..total] == drives;
    if matches == [] {
      outcome := NoMatchingFiles;
    } else {
      outcome := Decided(matches, DecideByIndex(matches, choice, answer));
    }
  }

  /** Only files are reported: `join(root, f)` for every file name `f` of
      every triple of every drive whose name contains the target, ignoring
      case, and nothing else. */
  lemma {:induction false} FoundFilesPerDrive(walkOf: Path -> seq<Visit>, drives: seq<Path>, target: string, p: Path)
    ensures p in FoundFiles(walkOf, drives, target) <==>
      exists d :: d in drives && p in AllMatches(walkOf(d), target, FileMode)
  {
    if drives != [] {
      var init := drives[..|drives| - 1];
      FoundFilesPerDrive(walkOf, init, target, p);
      assert drives == init + [drives[|drives| - 1]];
      if exists d :: d in init && p in AllMatches(walkOf(d), target, FileMode) {
        var d :| d in init && p in AllMatches(walkOf(d), target, FileMode);
        assert d in drives;
      }
    }
  }

  lemma FoundFilesExact(walkOf: Path -> seq<Visit>, drives: seq<Path>, target: string, p: Path)
    ensures p in FoundFiles(walkOf, drives, target) <==>
      exists d, v, f :: d in drives && v in walkOf(d) && f in v.files && NameMatches(f, target) && p == Join(v.path, f)
  {
    FoundFilesPerDrive(walkOf, drives, target, p);
    if p in FoundFiles(walkOf, drives, target) {
      var d :| d in drives && p in AllMatches(walkOf(d), target, FileMode);
      FileModeMatchesIff(walkOf(d), target, p);
    }
    if exists d, v, f :: d in drives && v in walkOf(d) && f in v.files && NameMatches(f, target) && p == Join(v.path, f) {
      var d, v, f :| d in drives && v in walkOf(d) && f in v.files && NameMatches(f, target) && p == Join(v.path, f);
      FileModeMatchesIff(walkOf(d), target, p);
    }
  }

  /** Matches are only ever appended: scanning more drives extends the list
      found on the first ones. */
  lemma {:induction false} FoundFilesAppendOnly(walkOf: Path -> seq<Visit>, drives: seq<Path>, more: seq<Path>, target: string)
    ensures FoundFiles(walkOf, drives, target) <= FoundFiles(walkOf, drives + more, target)
    decreases |more|
  {
    if more == [] {
      assert drives + more == drives;
    } else {
      var more' := more[..|more| - 1];
      assert (drives + more)[..|drives + more| - 1] == drives + more';
      FoundFilesAppendOnly(walkOf, drives, more', target);
    }
  }

  /** Without matches there is no prompt; otherwise a removal is attempted
      only for a typed number k in 1..len(matches), on matches[k-1], after a
      confirming answer. */
  lemma SearchFileRemovesOnlyTheSelectedFile(walkOf: Path -> seq<Visit>, pathExists: Path -> bool, target: string,
                                             choice: string, answer: string, p: Path)
    ensures SearchFileResult(walkOf, pathExists, target, choice, answer) == NoMatchingFiles <==>
      FoundFiles(walkOf, AllDrives(pathExists), target) == []
    ensures (exists matches :: SearchFileResult(walkOf, pathExists, target, choice, answer) == Decided(matches, Remove(p)))
      <==> && FoundFiles(walkOf, AllDrives(pathExists), target) != []
           && IsDigits(Strip(choice))
           && 1 <= ParseNat(Strip(choice)) <= |FoundFiles(walkOf, AllDrives(pathExists), target)|
           && p == FoundFiles(walkOf, AllDrives(pathExists), target)[ParseNat(Strip(choice)) - 1]
           && Confirmed(answer)
  {
    var matches := FoundFiles(walkOf, AllDrives(pathExists), target);
    RemovalIff(matches, choice, answer, p);
  }

  // ---------------------------------------------------------------------
  // One pass of `main`.

  datatype MenuAction =
    | SearchFiles(target: string)
    | ListStartupFiles
    | Exit
    | InvalidOption
    | EmptyName         // "Please enter a valid file name.", back to the menu

  function MenuStep(rawOption: string, rawTarget: string): (a: MenuAction)
    ensures a.SearchFiles? ==>
      && a.target != []
      && !IsSpace(a.target[0]) && !IsSpace(a.target[|a.target| - 1])
      && exists i, j :: 0 <= i <= j <= |rawTarget| && a.target == rawTarget[i..j]
  {
    StripBySpec(rawTarget, IsSpace);
    var option := Strip(rawOption);
    var target := Strip(rawTarget);
    if option == "1" then (if target != [] then SearchFiles(target) else EmptyName)
    else if option == "2" then ListStartupFiles
    else if option == "3" then Exit
    else InvalidOption
  }
}
