/**
  `get_all_drives`, identical in both scripts: probe the drive roots
  "A:\\" to "Z:\\" in alphabetical order and keep those that exist. The
  host's `os.path.exists` is the oracle `pathExists`.
 */
module Drives {
  import opened Paths

  /** The root of the drive with the k-th upper-case letter. */
  function DriveName(k: nat): Path
    requires k < 26
  {
    [('A' as int + k) as char, ':', '\\']
  }

  function Candidates(): seq<Path> {
    seq(26, k requires 0 <= k < 26 => DriveName(k))
  }

  /** The candidates that exist, in candidate order. */
  function Existing(candidates: seq<Path>, pathExists: Path -> bool): seq<Path> {
    if candidates == [] then []
    else
      var d := candidates[|candidates| - 1];
      Existing(candidates[..|candidates| - 1], pathExists) + (if pathExists(d) then [d] else [])
  }

  function AllDrives(pathExists: Path -> bool): seq<Path> {
    Existing(Candidates(), pathExists)
  }

  /** A well-formed drive root "X:\\". */
  predicate IsDriveRoot(d: Path) {
    |d| == 3 && 'A' <= d[0] <= 'Z' && d[1] == ':' && d[2] == '\\'
  }

  /** Drive roots in strictly increasing letter order. */
  predicate Alphabetical(drives: seq<Path>) {
    && (forall i :: 0 <= i < |drives| ==> IsDriveRoot(drives[i]))
    && (forall i, j :: 0 <= i < j < |drives| ==> drives[i][0] < drives[j][0])
  }

  lemma {:induction false} ExistingPrefix(pathExists: Path -> bool, k: nat)
    requires k <= 26
    ensures forall d :: d in Existing(Candidates()[..k], pathExists) <==> d in Candidates()[..k] && pathExists(d)
    ensures Alphabetical(Existing(Candidates()[..k], pathExists))
    ensures forall d :: d in Existing(Candidates()[..k], pathExists) ==> d[0] < ('A' as int + k) as char
  {
    if k > 0 {
      ExistingPrefix(pathExists, k - 1);
      var prefix := Candidates()[..k];
      assert prefix[..k - 1] == Candidates()[..k - 1];
      assert prefix == Candidates()[..k - 1] + [DriveName(k - 1)];
    }
  }

  /** `get_all_drives` returns exactly the existing candidates, each a drive
      root, in alphabetical order and so each at most once. */
  lemma AllDrivesExact(pathExists: Path -> bool)
    ensures forall d :: d in AllDrives(pathExists) <==> d in Candidates() && pathExists(d)
    ensures Alphabetical(AllDrives(pathExists))
    ensures forall i, j :: 0 <= i < j < |AllDrives(pathExists)| ==> AllDrives(pathExists)[i] != AllDrives(pathExists)[j]
  {
    ExistingPrefix(pathExists, 26);
    assert Candidates()[..26] == Candidates();
    var drives := AllDrives(pathExists);
    forall i, j | 0 <= i < j < |drives| ensures drives[i] != drives[j] {
      assert drives[i][0] < drives[j][0];
    }
  }

  method GetAllDrives(pathExists: Path -> bool) returns (drives: seq<Path>)
    ensures drives == AllDrives(pathExists)
    ensures forall d :: d in drives <==> d in Candidates() && pathExists(d)
    ensures Alphabetical(drives)
  {
    drives := [];
    for k := 0 to 26
      invariant drives == Existing(Candidates()[..k], pathExists)
    {
      var drive := DriveName(k);
      assert Candidates()[..k + 1] == Candidates()[..k] + [drive];
      if pathExists(drive) {
        drives := drives + [drive];
      }
    }
    assert Candidates()[..26] == Candidates();
    AllDrivesExact(pathExists);
  }
}
