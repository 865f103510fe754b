/** The checked-out working tree, as the scanner observes it. */
module Files {
  import opened Wrappers

  /** A directory, named by its path. */
  type Dir = string

  datatype Path = Path(dir: Dir, name: string)

  /**
   * `listing` holds, for every existing directory, the names of its entries;
   * `contents` holds the decoded text of every file that can be read. A file that
   * is listed but has no contents models a read or decode error.
   */
  datatype Tree = Tree(listing: map<Dir, set<string>>, contents: map<Path, string>)

  /** One result of the recursive walk `repo_path.rglob('*')`. */
  datatype Entry = Entry(path: Path, isFile: bool)

  const PackageJson := "package.json"
  const YarnLock := "yarn.lock"
  const PackageLock := "package-lock.json"
  const RequirementsTxt := "requirements.txt"

  predicate DirExists(t: Tree, d: Dir) {
    d in t.listing
  }

  /** `(d / name).exists()`. */
  predicate Exists(t: Tree, d: Dir, name: string) {
    d in t.listing && name in t.listing[d]
  }

  /** `open(p).read()`: `None` when it raises. */
  function Read(t: Tree, p: Path): Option<string> {
    if p in t.contents then Some(t.contents[p]) else None
  }
}
