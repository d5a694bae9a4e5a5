/**
  searcher_no_GUI_faster.py: the drive menu `choose_drive`, the scan and
  match loops of `search`, the deletion prompt that follows them, and one
  pass of the main menu. Console input arrives as parameters; console
  output, the spinner and the clock are not modelled.
 */
module FasterSearch {
  import opened Wrappers
  import opened Text
  import opened Paths
  import opened Drives
  import opened Walker
  import opened WalkTheorems
  import opened Matcher
  import opened DeletionGate

  /** `choose_drive` once the drive list is known: a number 1..n picks one
      drive, n+1 picks all of them, anything else is `None`. */
  function ChooseDrive(rawChoice: string, drives: seq<Path>): (r: Option<seq<Path>>)
    ensures !IsDigits(Strip(rawChoice)) ==> r == None
    ensures r.Some? <==> IsDigits(Strip(rawChoice)) && 1 <= ParseNat(Strip(rawChoice)) <= |drives| + 1
    ensures r.Some? ==> r.value == drives || (|r.value| == 1 && r.value[0] in drives)
    ensures r.Some? ==>
      var k := ParseNat(Strip(rawChoice));
      r.value == if k <= |drives| then [drives[k - 1]] else drives
  {
    var choice := Strip(rawChoice);
    if !IsDigits(choice) then None
    else
      var n := ParseNat(choice);
      if 1 <= n <= |drives| then Some([drives[n - 1]])
      else if n == |drives| + 1 then Some(drives)
      else None
  }

  /** Typing menu number k: 1..n selects that drive alone, n+1 selects every
      drive, and 0 or anything larger is rejected. */
  lemma ChooseDriveByNumber(drives: seq<Path>, k: nat)
    ensures ChooseDrive(DecimalString(k), drives) ==
      if 1 <= k <= |drives| then Some([drives[k - 1]])
      else if k == |drives| + 1 then Some(drives)
      else None
  {
    var s := DecimalString(k);
    ParseDecimalString(k);
    StripPadding([], s, [], IsSpace);
    assert [] + s + [] == s;
    assert Strip(s) == s && IsDigits(s) && ParseNat(s) == k;
  }

  /** The match list of `search` over the chosen drives, drive by drive. */
  function ScanMatches(fs: FileSystem, drives: seq<Path>, target: string, mode: Mode): seq<Path>
    requires WellFormed(fs)
  {
    if drives == [] then []
    else
      ScanMatches(fs, drives[..|drives| - 1], target, mode)
        + AllMatches(Walk(fs, [drives[|drives| - 1]]), target, mode)
  }

  /** The nested loops of `search`: walk the chosen drives in order and
      append every match. */
  method CollectMatches(fs: FileSystem, drives: seq<Path>, target: string, mode: Mode) returns (matches: seq<Path>)
    requires WellFormed(fs)
    ensures matches == ScanMatches(fs, drives, target, mode)
  {
    matches := [];
    for i := 0 to |drives|
      invariant matches == ScanMatches(fs, drives[..i], target, mode)
    {
      assert drives[..i + 1][..i] == drives[..i];
      var visits := FastWalk(fs, drives[i]);
      matches := AppendAllMatches(matches, visits, target, mode);
    }
    assert drives[..|drives|] == drives;
  }

  /** How one call of `search(target, mode)` ends. */
  datatype SearchOutcome =
    | InvalidDriveSelection                            // "Invalid drive selection."
    | NoMatches                                        // "No matches found."
    | Listed(matches: seq<Path>)                       // folder mode: list only
    | Decided(matches: seq<Path>, decision: Decision)  // file mode: deletion prompt

  function SearchResult(fs: FileSystem, pathExists: Path -> bool, target: string, mode: Mode,
                        driveChoice: string, deleteChoice: string, answer: string): SearchOutcome
    requires WellFormed(fs)
  {
    match ChooseDrive(driveChoice, AllDrives(pathExists))
    case None => InvalidDriveSelection
    case Some(drives) =>
      if drives == [] then InvalidDriveSelection
      else
        var matches := ScanMatches(fs, drives, target, mode);
        if matches == [] then NoMatches
        else if mode == FolderMode then Listed(matches)
        else Decided(matches, DecideByIndex(matches, deleteChoice, answer))
  }

  /** `search(target, mode)`; `fs` is what `os.scandir` reports and
      `pathExists` is `os.path.exists`. */
  method Search(fs: FileSystem, pathExists: Path -> bool, target: string, mode: Mode,
                driveChoice: string, deleteChoice: string, answer: string) returns (outcome: SearchOutcome)
    requires WellFormed(fs)
    ensures outcome == SearchResult(fs, pathExists, target, mode, driveChoice, deleteChoice, answer)
  {
    var available := GetAllDrives(pathExists);
    var chosen := ChooseDrive(driveChoice, available);
    if chosen.None? || chosen.value == [] {
      return InvalidDriveSelection;
    }
    var matches := CollectMatches(fs, chosen.value, target, mode);
    if matches == [] {
      return NoMatches;
    }
    if mode == FileMode {
      outcome := Decided(matches, DecideByIndex(matches, deleteChoice, answer));
    } else {
      outcome := Listed(matches);
    }
  }

  /** With no drive present, every menu answer (including "1", which is
      then the "All drives" entry of an empty list) is rejected. */
  lemma NoDrivesRejectsEveryChoice(fs: FileSystem, pathExists: Path -> bool, target: string, mode: Mode,
                                   driveChoice: string, deleteChoice: string, answer: string)
    requires WellFormed(fs) && AllDrives(pathExists) == []
    ensures SearchResult(fs, pathExists, target, mode, driveChoice, deleteChoice, answer) == InvalidDriveSelection
  {
  }

  /** A removal is only ever attempted in file mode, on the match whose
      number was typed, after a confirming answer; folder mode never
      removes anything. */
  lemma SearchRemovesOnlyTheSelectedFile(fs: FileSystem, pathExists: Path -> bool, target: string, mode: Mode,
                                         driveChoice: string, deleteChoice: string, answer: string, p: Path)
    requires WellFormed(fs)
    ensures mode == FolderMode ==> !SearchResult(fs, pathExists, target, mode, driveChoice, deleteChoice, answer).Decided?
    ensures (exists matches :: SearchResult(fs, pathExists, target, mode, driveChoice, deleteChoice, answer) == Decided(matches, Remove(p)))
      ==> && mode == FileMode
          && IsDigits(Strip(deleteChoice))
          && Confirmed(answer)
          && exists drives :: ChooseDrive(driveChoice, AllDrives(pathExists)) == Some(drives)
               && 1 <= ParseNat(Strip(deleteChoice)) <= |ScanMatches(fs, drives, target, FileMode)|
               && p == ScanMatches(fs, drives, target, FileMode)[ParseNat(Strip(deleteChoice)) - 1]
  {
    if exists matches :: SearchResult(fs, pathExists, target, mode, driveChoice, deleteChoice, answer) == Decided(matches, Remove(p)) {
      var matches :| SearchResult(fs, pathExists, target, mode, driveChoice, deleteChoice, answer) == Decided(matches, Remove(p));
      var drives := ChooseDrive(driveChoice, AllDrives(pathExists)).value;
      RemovalIff(matches, deleteChoice, answer, p);
      assert matches == ScanMatches(fs, drives, target, FileMode);
    }
  }

  // ---------------------------------------------------------------------
  // What a scan finds.

  lemma {:induction false} ScanMatchesPerDrive(fs: FileSystem, drives: seq<Path>, target: string, mode: Mode, p: Path)
    requires WellFormed(fs)
    ensures p in ScanMatches(fs, drives, target, mode) <==>
      exists d :: d in drives && p in AllMatches(Walk(fs, [d]), target, mode)
  {
    if drives != [] {
      var init := drives[..|drives| - 1];
      ScanMatchesPerDrive(fs, init, target, mode, p);
      assert drives == init + [drives[|drives| - 1]];
      if exists d :: d in init && p in AllMatches(Walk(fs, [d]), target, mode) {
        var d :| d in init && p in AllMatches(Walk(fs, [d]), target, mode);
        assert d in drives;
      }
    }
  }

  /** File mode over one drive: `p` is reported exactly when it joins a
      reachable directory with the name of a non-directory entry it lists
      (symbolic links included) whose name contains the target, ignoring case. */
  lemma FileScanExact(fs: FileSystem, root: Path, target: string, p: Path)
    requires WellFormed(fs)
    ensures p in AllMatches(Walk(fs, [root]), target, FileMode) <==>
      exists dir: Path, entries: seq<Entry>, e: Entry :: && Reachable(fs, root, dir) && ReadDir(fs, dir) == Some(entries) && e in entries && e.kind != Directory
                       && NameMatches(e.name, target) && p == Join(dir, e.name)
  {
    var visits := Walk(fs, [root]);
    FileModeMatchesIff(visits, target, p);
    if p in AllMatches(visits, target, FileMode) {
      var v, f :| v in visits && f in v.files && NameMatches(f, target) && p == Join(v.path, f);
      VisitIsReachable(fs, root, v);
      PartitionExact(v.path, ReadDir(fs, v.path).value);
      var e :| e in ReadDir(fs, v.path).value && e.kind != Directory && f == e.name;
    }
    if exists dir: Path, entries: seq<Entry>, e: Entry :: && Reachable(fs, root, dir) && ReadDir(fs, dir) == Some(entries) && e in entries && e.kind != Directory
                        && NameMatches(e.name, target) && p == Join(dir, e.name) {
      var dir: Path, entries: seq<Entry>, e: Entry :| && Reachable(fs, root, dir) && ReadDir(fs, dir) == Some(entries) && e in entries && e.kind != Directory
                    && NameMatches(e.name, target) && p == Join(dir, e.name);
      var v := VisitOfReachable(fs, root, dir);
      PartitionExact(dir, entries);
      assert e.name in v.files;
    }
  }

  /** Folder mode over one drive: `p` is reported exactly when it is the
      joined path of a `Directory` entry of a reachable directory whose own
      name contains the target, ignoring case. */
  lemma FolderScanExact(fs: FileSystem, root: Path, target: string, p: Path)
    requires WellFormed(fs)
    ensures p in AllMatches(Walk(fs, [root]), target, FolderMode) <==>
      exists dir: Path, entries: seq<Entry>, e: Entry :: && Reachable(fs, root, dir) && ReadDir(fs, dir) == Some(entries) && e in entries && e.kind == Directory
                       && NameMatches(e.name, target) && p == Join(dir, e.name)
  {
    var visits := Walk(fs, [root]);
    FolderModeMatchesIff(visits, target, p);
    if p in AllMatches(visits, target, FolderMode) {
      var v :| v in visits && p in v.dirs;
      VisitIsReachable(fs, root, v);
      PartitionExact(v.path, ReadDir(fs, v.path).value);
      var e :| e in ReadDir(fs, v.path).value && e.kind == Directory && p == Join(v.path, e.name);
      ReadableListing(fs, v.path, ReadDir(fs, v.path).value, e);
      BasenameOfJoin(v.path, e.name);
    }
    if exists dir: Path, entries: seq<Entry>, e: Entry :: && Reachable(fs, root, dir) && ReadDir(fs, dir) == Some(entries) && e in entries && e.kind == Directory
                        && NameMatches(e.name, target) && p == Join(dir, e.name) {
      var dir: Path, entries: seq<Entry>, e: Entry :| && Reachable(fs, root, dir) && ReadDir(fs, dir) == Some(entries) && e in entries && e.kind == Directory
                    && NameMatches(e.name, target) && p == Join(dir, e.name);
      var v := VisitOfReachable(fs, root, dir);
      PartitionExact(dir, entries);
      assert p in v.dirs;
      ReadableListing(fs, dir, entries, e);
      BasenameOfJoin(dir, e.name);
    }
  }

  lemma ReadableListing(fs: FileSystem, dir: Path, entries: seq<Entry>, e: Entry)
    requires WellFormed(fs) && ReadDir(fs, dir) == Some(entries) && e in entries
    ensures IsEntryName(e.name)
  {
  }

  /** Folder matches are taken from the parent's list, so a folder the
      walker will prune is still reported, while it is never itself visited. */
  lemma SkippedFolderStillReported(fs: FileSystem, root: Path, target: string, v: Visit, c: Path)
    requires WellFormed(fs) && v in Walk(fs, [root]) && c in v.dirs
    requires IsSkipped(c) && NameMatches(Basename(c), target)
    ensures c in AllMatches(Walk(fs, [root]), target, FolderMode)
    ensures !Visited(Walk(fs, [root]), c)
  {
    FolderModeMatchesIff(Walk(fs, [root]), target, c);
    WalkYieldsFaithfulTriples(fs, [root]);
  }

  // ---------------------------------------------------------------------
  // One pass of `main`.

  datatype MenuAction =
    | SearchFiles(target: string)
    | SearchFolders(target: string)
    | ListStartupFiles
    | DeleteFileByPath
    | Exit
    | InvalidOption
    | EmptyTarget   // option 1 or 2 with a blank name: back to the menu

  /** The option typed at "Select an option" and, for options 1 and 2, the
      name typed next. */
  function MenuStep(rawOption: string, rawTarget: string): (a: MenuAction)
    ensures (a.SearchFiles? || a.SearchFolders?) ==>
      && a.target != []
      && !IsSpace(a.target[0]) && !IsSpace(a.target[|a.target| - 1])
      && exists i, j :: 0 <= i <= j <= |rawTarget| && a.target == rawTarget[i..j]
  {
    StripBySpec(rawTarget, IsSpace);
    var option := Strip(rawOption);
    var target := Strip(rawTarget);
    if option == "1" then (if target != [] then SearchFiles(target) else EmptyTarget)
    else if option == "2" then (if target != [] then SearchFolders(target) else EmptyTarget)
    else if option == "3" then ListStartupFiles
    else if option == "4" then DeleteFileByPath
    else if option == "5" then Exit
    else InvalidOption
  }
}
