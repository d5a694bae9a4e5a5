# File searcher (command-line editions) in Dafny

This project models the two command-line scripts of a Windows file searcher:

- `searcher_no_GUI_faster.py`, the "faster" edition.
  - It lists the drive roots `A:\` … `Z:\` that exist.
  - It lets the user pick one drive, or all of them.
  - It walks each chosen drive breadth-first with a queue of directories. Four Windows system folders (`SKIP_FOLDERS`) are pruned by a raw prefix test, and unreadable directories are dropped silently.
  - It collects every file name (file mode) or child folder name (folder mode) that contains the search text, compared case-insensitively.
  - In file mode it offers to delete one match, chosen by number and confirmed with `y`. A second command deletes a file given by its path, after an "is a file" check and the same confirmation.
- `searcher_no_GUI.py`, the older edition. It searches every drive for file names only, prints one progress line per drive, and uses the same number-and-confirm deletion.

Console input is modelled as strings passed in. Operating-system queries are modelled as parameters:

- "does this path exist" is a function `Path -> bool`;
- "is this a file" is a function `Path -> bool`;
- the directory listings are a `FileSystem` map from a path to its entries, or to `None` when listing it raises.

Each script's `os.remove` call appears as the decision to remove a given path (`Remove(p)` / `RemovePath(p)`).

Modules, in dependency order:

- `Wrappers`: `Option`.
- `Text`: `str.strip`, `str.lower`, `str.isdigit` and `int` on decimal strings, and the substring test.
- `Paths`: Windows `os.path.join` and `os.path.basename`.
- `Drives`: `get_all_drives`, which both scripts share.
- `Walker`: `SKIP_FOLDERS` and `fast_walk`. `Walk` is the functional specification of the queue loop, and `FastWalk` is the loop itself, proved equal to it.
- `WalkTheorems`: what the walk visits (exactly the directories reachable from the start through unskipped, readable directories, never through symbolic links), and its breadth-first order.
- `Matcher`: the match-collection loops of `search` and `search_file`.
- `DeletionGate`: the number/confirm gate, and the guards of `delete_by_path`.
- `FasterSearch`: `choose_drive`, `search` and the menu of the faster edition.
- `NoGuiSearch`: `search_file` and the menu of the older edition.

## Model

| member | source | states |
|---|---|---|
| Text.StripBySpec | searcher_no_GUI_faster.py:68 | `strip` removes exactly a run of blanks at each end and keeps the middle slice, whose end characters are not blanks |
| Text.ParseDecimalString | searcher_no_GUI_faster.py:70-73 | the decimal spelling of any n passes `isdigit()` and `int()` gives back n |
| Paths.BasenameOfJoin | searcher_no_GUI_faster.py:113-114 | `basename(join(root, name))` is `name` for any entry name without a separator |
| Drives.AllDrivesExact | searcher_no_GUI.py:5-11 | the drive list holds exactly the roots `X:\` that exist, in alphabetical order, with no repeats |
| Drives.GetAllDrives | searcher_no_GUI_faster.py:8-14 | the loop over A–Z returns the existing drive roots in alphabetical order, and nothing else |
| Walker.ScanEntries | searcher_no_GUI_faster.py:36-43 | one listing is split into full child-directory paths (real directories, symlinks not followed) and bare names of every other entry, in listing order, with no entry lost |
| Walker.PartitionExact | searcher_no_GUI_faster.py:39-43 | a path is in `dirs` iff it joins the directory with a directory entry's name; a name is in `files` iff it names a non-directory entry; the two lengths add up to the listing's |
| Walker.WalkStepDecreases | searcher_no_GUI_faster.py:28-46 | expanding the head of the queue strictly shrinks the remaining work, so the walk ends on a finite tree of well-formed names |
| Walker.WalkYieldsFaithfulTriples | searcher_no_GUI_faster.py:31-45 | every yielded triple is for a directory that is not skipped and is readable, and carries exactly that directory's listing, split |
| Walker.FastWalk | searcher_no_GUI_faster.py:24-49 | the queue loop yields exactly the breadth-first walk, and every triple is for a non-skipped, readable directory together with its actual listing |
| WalkTheorems.QueuedIsVisited | searcher_no_GUI_faster.py:28-46 | every queued directory that is neither skipped nor unreadable is eventually yielded |
| WalkTheorems.ChildOfVisitedIsVisited | searcher_no_GUI_faster.py:45-46 | a readable, unskipped child directory of a yielded directory is yielded too |
| WalkTheorems.VisitedHasChain | searcher_no_GUI_faster.py:26-46 | everything yielded lies at the end of a chain of expandable parent/child directories starting at a queued path |
| WalkTheorems.WalkVisitsExactlyReachable | searcher_no_GUI_faster.py:24-49 | a directory is yielded iff it is reachable from the start through unskipped, readable directories |
| WalkTheorems.SkipCoversSubtree | searcher_no_GUI_faster.py:31-32 | every child path of a skipped folder is itself skipped, so a pruned folder's whole subtree is pruned |
| WalkTheorems.RawPrefixSkip | searcher_no_GUI_faster.py:17-22 | the skip test is a raw case-sensitive prefix test: `WinSxSX` and `WinSxS\amd64` are skipped, `System32` and lower-case `c:\windows\winsxs` are not |
| WalkTheorems.WalkDrainsQueueFirst | searcher_no_GUI_faster.py:26-29 | first in, first out: everything already queued is yielded before anything it enqueues |
| WalkTheorems.WalkByLevels | searcher_no_GUI_faster.py:28-46 | the walk is one breadth-first layer followed by the walk of that layer's child directories |
| Matcher.AppendMatches | searcher_no_GUI_faster.py:107-116 | one triple appends its matching file paths (file mode) or matching child folder paths (folder mode), in order, to the existing matches |
| Matcher.AppendAllMatches | searcher_no_GUI_faster.py:98-116 | consuming a whole walk appends the matches of every triple in walk order |
| Matcher.AllMatchesAppend | searcher_no_GUI_faster.py:92-116 | matches of a concatenated walk are the concatenated matches, so drives accumulate into one list |
| Matcher.FileMatchesIff | searcher_no_GUI_faster.py:108-110 | within one triple, p is a file match iff p joins the root with a listed file whose name contains the target, ignoring case |
| Matcher.FolderMatchesIff | searcher_no_GUI_faster.py:113-116 | within one triple, p is a folder match iff p is a listed child directory whose basename contains the target, ignoring case |
| Matcher.FileModeMatchesIff | searcher_no_GUI_faster.py:107-110 | p is a file-mode match iff some yielded triple lists a file whose name contains the target, ignoring case, and p is that file's joined path |
| Matcher.FolderModeMatchesIff | searcher_no_GUI_faster.py:112-116 | p is a folder-mode match iff p is listed as a child of some yielded triple and its basename contains the target, ignoring case |
| DeletionGate.ConfirmedIff | searcher_no_GUI_faster.py:141-142 | the confirmation is accepted iff the stripped answer is `y` or `Y` |
| DeletionGate.DecideByIndex | searcher_no_GUI_faster.py:128-149 | the choice is skipped (`NoChoice`, "No files deleted.") iff the stripped choice is empty; the selection is invalid iff it is non-empty and not all digits or out of 1..number of matches; a removal is only ever of a listed match, after a confirmed answer |
| DeletionGate.RemovalIff | searcher_no_GUI.py:56-76 | match p is removed iff the stripped choice is all digits, its value k is within 1..number of matches, p is the k-th match, and the answer confirms |
| DeletionGate.StripPadding | searcher_no_GUI.py:56 | stripping a string padded only with dropped characters gives back the unpadded core |
| DeletionGate.SelectByNumber | searcher_no_GUI.py:66-76 | typing k for 1 ≤ k ≤ number of matches selects the k-th match: removed if confirmed, declined otherwise |
| DeletionGate.OutOfRangeIsInvalid | searcher_no_GUI.py:62-64 | `0` and the number one past the last match are rejected as an invalid selection |
| DeletionGate.BlankChoiceDeletesNothing | searcher_no_GUI.py:56-60 | an empty or blank choice deletes nothing and asks no confirmation |
| DeletionGate.QuotedPathRoundTrip | searcher_no_GUI_faster.py:153 | a path pasted in double quotes with blanks around it is recovered exactly |
| DeletionGate.DecideByPath | searcher_no_GUI_faster.py:151-169 | a path is only removed if it names a file and the answer confirms |
| DeletionGate.PathRemovalIff | searcher_no_GUI_faster.py:153-169 | path p is removed iff p is the cleaned input, p is a file, and the answer confirms; the cleaned path never starts or ends with a quote |
| FasterSearch.ChooseDrive | searcher_no_GUI_faster.py:61-81 | a stripped choice that is not all digits gives `None`; there is a selection iff the choice is all digits with value k in 1..n+1, for any spelling (`" 02 "` counts as 2); the selection is exactly drive k alone for k ≤ n and every drive for k = n+1 |
| FasterSearch.ChooseDriveByNumber | searcher_no_GUI_faster.py:70-81 | k selects drive k for 1 ≤ k ≤ n, all drives for k = n+1, and nothing otherwise |
| FasterSearch.ScanMatchesPerDrive | searcher_no_GUI_faster.py:95-98 | a path is collected iff it is a match in the walk of one of the chosen drives |
| FasterSearch.CollectMatches | searcher_no_GUI_faster.py:95-116 | the per-drive loop (each drive walked, each triple matched) produces the drive-by-drive concatenation of matches |
| FasterSearch.Search | searcher_no_GUI_faster.py:83-149 | `search` ends in an invalid drive selection, no matches, a listing only (folder mode), or a deletion decision on the collected matches (file mode) |
| FasterSearch.NoDrivesRejectsEveryChoice | searcher_no_GUI_faster.py:84-87 | when no drive exists, every drive choice ends as an invalid drive selection, including the "All drives" number |
| FasterSearch.SearchRemovesOnlyTheSelectedFile | searcher_no_GUI_faster.py:120-149 | folder mode never deletes; in file mode a removal needs a valid drive choice, a numeric selection of a collected match and a confirmation |
| WalkTheorems.VisitOfReachable | searcher_no_GUI_faster.py:24-49 | every reachable directory is yielded with its own listing |
| WalkTheorems.VisitIsReachable | searcher_no_GUI_faster.py:24-49 | every yielded directory is reachable and carries its own listing |
| FasterSearch.FileScanExact | searcher_no_GUI_faster.py:98-110 | on one drive, p is a file-mode match iff some reachable directory lists a non-directory entry whose name contains the target and p is its joined path |
| FasterSearch.FolderScanExact | searcher_no_GUI_faster.py:98-116 | on one drive, p is a folder-mode match iff some reachable directory lists a directory entry whose name contains the target and p is its joined path |
| FasterSearch.SkippedFolderStillReported | searcher_no_GUI_faster.py:112-116 | a skipped folder whose name matches is still reported as a folder match, although it is never itself walked |
| FasterSearch.MenuStep | searcher_no_GUI_faster.py:171-203 | a search is only started with a non-empty target: a slice of the typed text with no blanks at either end |
| NoGuiSearch.SearchFile | searcher_no_GUI.py:23-76 | one progress line `[i/total] drive` per existing drive, in order, then the same outcome as `SearchFileResult` |
| NoGuiSearch.FoundFilesPerDrive | searcher_no_GUI.py:35-44 | a path is found iff it is a file match in the walk of one of the drives |
| NoGuiSearch.FoundFilesExact | searcher_no_GUI.py:38-44 | p is found iff some walked triple of some drive lists a file whose name contains the target, ignoring case, and p is its joined path |
| NoGuiSearch.FoundFilesAppendOnly | searcher_no_GUI.py:30-44 | scanning more drives only appends: earlier matches keep their numbers |
| NoGuiSearch.SearchFileRemovesOnlyTheSelectedFile | searcher_no_GUI.py:48-76 | the search reports no matches iff nothing was found; file p is removed iff something was found, the stripped choice is a number k in range, p is the k-th match, and the answer confirms |
| NoGuiSearch.MenuStep | searcher_no_GUI.py:78-102 | a search is only started with a non-empty target: a slice of the typed text with no blanks at either end |

## Left out

- Console output is not modelled: menus, listings, messages, the spinner and `time.time()`. The results the user sees are the returned outcome values.
- The repetition of the `while True` menu loop is not modelled. `MenuStep` models one pass, and `Exit` ends the loop.
- `list_startup_files` is not modelled: it only prints a directory listing from an environment-dependent path. The menus only name it, as `ListStartupFiles`.
- `os.remove` and its failure are not modelled. The model stops at the decision to remove. Whether the removal then succeeds, and the "Failed to delete file" message, depend on the operating system.
- `os.scandir` is replaced by the `FileSystem` map. A path missing from the map, or mapped to `None`, stands for a listing that raises and is dropped. An error raised partway through a listing is modelled as the whole directory being unreadable. In that case Python would also drop the triple, because it yields only after the listing finishes.
- Walker.Walk: requires `WellFormed`: every listed entry name is non-empty and contains no separator. This is an assumption about what the operating system returns, not something the code checks. Without it the loop need not terminate.
- Walker.Walk: walks one fixed, finite snapshot of the volume. Directories that appear, disappear or change while a scan of several minutes is running are not modelled.
- Walker.Walk: a directory junction counts as a `Directory`, because `is_dir(follow_symlinks=False)` answers true for it, and it is entered. A cycle of junctions makes the real walk descend until path-length limits make a listing fail. The model can only show this as a finite snapshot whose deepest path is unreadable.
- `fast_walk` is a generator, and the model collects its output as a sequence. `search` never changes the yielded lists and only reads them, so this laziness cannot be observed.
- `os.walk` in `searcher_no_GUI.py` is a parameter `walkOf` giving the triples for each drive. Its traversal order, its `onerror` handler and how it handles symlinks are not modelled.
- Text: `lower`, `isspace` and `isdigit` are modelled on ASCII only. Python's Unicode rules are not modelled: non-ASCII case folding, and Unicode digits such as `²`, which pass `isdigit()` but that `int()` rejects with an exception.
- Text.ParseNat: has no length limit. Python 3.11 and later (and the 3.10.7 and 3.9.14 security releases) by default make `int()` raise `ValueError` on a decimal string longer than 4300 digits. At the drive prompt and the "Enter number" prompt such an input ends the program with an uncaught exception. The model instead answers `None` (`FasterSearch.ChooseDrive`, `FasterSearch.ChooseDriveByNumber`) or `Invalid` (`DeletionGate.DecideByIndex`).
- Paths.Join: does not model `ntpath.join` when the name is itself absolute or carries a drive. Listed entry names never do.
- Paths.Basename: does not model splitting off a drive (`C:name`). Every path it is applied to here is a full path with a separator.
- Neither command-line script can cancel a scan, and neither reports progress through callbacks. The `[i/total] Scanning drive...` line of `searcher_no_GUI.py` is modelled as `NoGuiSearch.Progress`. The faster edition's per-drive `Scanning drive... Done.` line and both scripts' spinners are console output and are not modelled.
- `searcher.py` (the GUI edition) is not part of this model.
