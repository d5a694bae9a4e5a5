/**
  Windows path operations as `os.path` (ntpath) performs them on the paths
  the searcher builds: joining a directory with an entry name and taking the
  last component.
 */
module Paths {

  type Path = string

  predicate IsSeparator(c: char) {
    c == '\\' || c == '/'
  }

  /** A directory entry name as the OS reports it: non-empty, no separator. */
  predicate IsEntryName(name: string) {
    name != [] && forall i :: 0 <= i < |name| ==> !IsSeparator(name[i])
  }

  /** `os.path.join(root, name)` for a relative `name`: a backslash is
      inserted unless `root` is empty or already ends in a separator. */
  function Join(root: Path, name: string): Path {
    if root == [] || IsSeparator(root[|root| - 1]) then root + name
    else root + "\\" + name
  }

  /** `os.path.basename(p)`: everything after the last separator. */
  function Basename(p: Path): string {
    if p == [] || IsSeparator(p[|p| - 1]) then []
    else Basename(p[..|p| - 1]) + [p[|p| - 1]]
  }

  /** A joined path begins with its directory and is longer by at least the name. */
  lemma JoinExtends(root: Path, name: string)
    ensures root <= Join(root, name)
    ensures |Join(root, name)| >= |root| + |name|
  {
  }

  lemma {:induction false} BasenameAfterSeparator(prefix: Path, name: string)
    requires prefix == [] || IsSeparator(prefix[|prefix| - 1])
    requires forall i :: 0 <= i < |name| ==> !IsSeparator(name[i])
    ensures Basename(prefix + name) == name
    decreases |name|
  {
    if name != [] {
      var p := prefix + name;
      assert p[..|p| - 1] == prefix + name[..|name| - 1];
      BasenameAfterSeparator(prefix, name[..|name| - 1]);
    } else {
      assert prefix + name == prefix;
    }
  }

  /** `basename(join(root, name)) == name` for a name without separators,
      so a folder is matched on exactly the name its parent listed. */
  lemma BasenameOfJoin(root: Path, name: string)
    requires forall i :: 0 <= i < |name| ==> !IsSeparator(name[i])
    ensures Basename(Join(root, name)) == name
  {
    if root == [] || IsSeparator(root[|root| - 1]) {
      BasenameAfterSeparator(root, name);
    } else {
      assert root + "\\" + name == (root + "\\") + name;
      BasenameAfterSeparator(root + "\\", name);
    }
  }
}
