/**
 * The state a `DependencyScanner` accumulates while it parses the dependency files of
 * one checkout, as values: the per-directory package-manager memo and the three
 * dependency lists. `Scanner.DependencyScanner` steps through exactly these values.
 */
module Scanning {
  import opened Wrappers
  import opened Seqs
  import opened Text
  import opened Json
  import opened Files
  import opened Ecosystems
  import opened Detection
  import opened Parsers

  // ---------------------------------------------------------------- find_dependency_files

  /** `{'path': ..., 'type': ..., 'directory': ...}`, one per dependency file found. */
  datatype FileInfo = FileInfo(path: Path, kind: Option<Ecosystem>, directory: Dir)

  /** A walked entry that is a file whose name is one of the three manifest names. */
  predicate IsDependencyFile(e: Entry) {
    e.isFile && (e.path.name == PackageJson || e.path.name == YarnLock || e.path.name == RequirementsTxt)
  }

  function InfoOf(e: Entry): FileInfo {
    FileInfo(e.path, FileTypeOf(e.path.name), e.path.dir)
  }

  /** Every dependency file of the walk, in walk order. */
  function DependencyFiles(walk: seq<Entry>): seq<FileInfo> {
    Map(Filter(walk, IsDependencyFile), InfoOf)
  }

  /**
   * Each record found names a real file with a manifest name, carries the type of that
   * name (never `None`) and the file's own parent directory.
   */
  lemma DependencyFilesTyped(walk: seq<Entry>)
    ensures forall f :: f in DependencyFiles(walk) ==>
      && f.kind.Some? && ManifestName(f.kind.value) == f.path.name
      && f.directory == f.path.dir
      && Entry(f.path, true) in walk
  {
    forall f | f in DependencyFiles(walk)
      ensures f.kind.Some? && ManifestName(f.kind.value) == f.path.name
      ensures f.directory == f.path.dir && Entry(f.path, true) in walk
    {
      var kept := Filter(walk, IsDependencyFile);
      var k :| 0 <= k < |kept| && f == InfoOf(kept[k]);
      FilterMembers(walk, IsDependencyFile, kept[k]);
    }
  }

  /** A walked file with a manifest name is recorded; nothing with any other name is. */
  lemma DependencyFilesComplete(walk: seq<Entry>, e: Entry)
    requires e in walk
    ensures IsDependencyFile(e) ==> InfoOf(e) in DependencyFiles(walk)
    ensures FileTypeOf(e.path.name).None? ==> InfoOf(e) !in DependencyFiles(walk)
  {
    var kept := Filter(walk, IsDependencyFile);
    FilterMembers(walk, IsDependencyFile, e);
    if IsDependencyFile(e) {
      var k :| 0 <= k < |kept| && kept[k] == e;
      assert DependencyFiles(walk)[k] == InfoOf(e);
    }
    if InfoOf(e) in DependencyFiles(walk) {
      var k :| 0 <= k < |kept| && InfoOf(e) == InfoOf(kept[k]);
      FilterMembers(walk, IsDependencyFile, kept[k]);
    }
  }

  /** Records appear in walk order, one per dependency file. */
  lemma DependencyFilesOrder(a: seq<Entry>, b: seq<Entry>)
    ensures DependencyFiles(a + b) == DependencyFiles(a) + DependencyFiles(b)
    ensures |DependencyFiles(a)| == |KeptIndices(a, IsDependencyFile)|
  {
    FilterAppend(a, b, IsDependencyFile);
    FilterCount(a, IsDependencyFile);
  }

  // ---------------------------------------------------------------- parse_dependencies

  /** `package_managers` (directory to detected manager) and `dependencies` (tag to list). */
  datatype ScanState = ScanState(managers: map<Dir, Option<Ecosystem>>, deps: map<Ecosystem, seq<Dependency>>)

  /** The state `__init__` leaves: no directory detected, three empty lists. */
  const Initial := ScanState(map[], map[Npm := [], Yarn := [], Python := []])

  /** `self.dependencies[e].extend(more)`; a missing key raises and the handler leaves everything as it was. */
  function Extend(deps: map<Ecosystem, seq<Dependency>>, e: Ecosystem, more: seq<Dependency>): map<Ecosystem, seq<Dependency>> {
    if e in deps then deps[e := deps[e] + more] else deps
  }

  lemma ExtendNothing(deps: map<Ecosystem, seq<Dependency>>, e: Ecosystem)
    ensures Extend(deps, e, []) == deps
  {
    if e in deps {
      assert deps[e] + [] == deps[e];
    }
  }

  /** What a package.json adds: nothing when it cannot be read or `PackageJsonDependencies` gives up. */
  function PackageJsonFile(t: Tree, parse: Parser, p: Path): seq<Dependency> {
    match Read(t, p)
    case None => []
    case Some(content) =>
      match PackageJsonDependencies(content, parse)
      case None => []
      case Some(ds) => ds
  }

  /** What a yarn.lock adds: its distinct names at version `unknown`; nothing when unreadable. */
  function YarnLockFile(t: Tree, p: Path): seq<Dependency> {
    match Read(t, p)
    case None => []
    case Some(content) => WithUnknownVersion(YarnLockNames(content))
  }

  /** What a requirements.txt adds: its kept lines at version `unknown`; nothing when unreadable. */
  function RequirementsFile(t: Tree, p: Path): seq<Dependency> {
    match Read(t, p)
    case None => []
    case Some(content) => WithUnknownVersion(Requirements(content))
  }

  /** The memo after an npm or yarn file of directory `d` has been seen. */
  function Remember(managers: map<Dir, Option<Ecosystem>>, t: Tree, parse: Parser, d: Dir): (m: map<Dir, Option<Ecosystem>>)
    ensures d in m
  {
    if d in managers then managers else managers[d := DetectPackageManager(t, parse, d)]
  }

  /**
   * `parse_dependencies(file_info)`: an npm or yarn file first memoises its directory's
   * manager, then a package.json adds to that manager's list and a yarn.lock adds to
   * the yarn list only when the manager is yarn; a python file adds to the python list;
   * a file of no type changes nothing.
   */
  function ParseFile(s: ScanState, t: Tree, parse: Parser, f: FileInfo): ScanState {
    match f.kind
    case None => s
    case Some(Python) => s.(deps := Extend(s.deps, Python, RequirementsFile(t, f.path)))
    case Some(_) =>
      var managers := Remember(s.managers, t, parse, f.path.dir);
      var manager := managers[f.path.dir];
      if manager.None? then s.(managers := managers)
      else if f.path.name == PackageJson then
        ScanState(managers, Extend(s.deps, manager.value, PackageJsonFile(t, parse, f.path)))
      else if f.path.name == YarnLock && manager == Some(Yarn) then
        ScanState(managers, Extend(s.deps, Yarn, YarnLockFile(t, f.path)))
      else s.(managers := managers)
  }

  /** The loop of `scan_repository` over the files found. */
  function ParseAll(s: ScanState, t: Tree, parse: Parser, files: seq<FileInfo>): ScanState
    decreases |files|
  {
    if files == [] then s
    else ParseFile(ParseAll(s, t, parse, files[..|files| - 1]), t, parse, files[|files| - 1])
  }

  /** Parsing one more file continues from the state the files before it left. */
  lemma ParseAllStep(s: ScanState, t: Tree, parse: Parser, files: seq<FileInfo>, i: int)
    requires 0 <= i < |files|
    ensures ParseAll(s, t, parse, files[..i + 1]) == ParseFile(ParseAll(s, t, parse, files[..i]), t, parse, files[i])
  {
    assert files[..i + 1][..i] == files[..i];
  }

  /** Every memoised verdict is what detection gives for that directory. */
  predicate Sound(managers: map<Dir, Option<Ecosystem>>, t: Tree, parse: Parser) {
    forall d :: d in managers ==> managers[d] == DetectPackageManager(t, parse, d)
  }

  /** `l` is `old` followed by more. */
  predicate Grows(old_: seq<Dependency>, l: seq<Dependency>) {
    |old_| <= |l| && l[..|old_|] == old_
  }

  /** No list but `e`'s differs between `before` and `after`. */
  predicate OnlyTouches(before: map<Ecosystem, seq<Dependency>>, after: map<Ecosystem, seq<Dependency>>, e: Ecosystem) {
    forall x :: x in before && x in after && x != e ==> after[x] == before[x]
  }

  /**
   * One file keeps the keys, only ever appends, and appends to at most one list, the
   * one of `e`.
   */
  lemma ParseFileAppends(s: ScanState, t: Tree, parse: Parser, f: FileInfo)
    ensures var r := ParseFile(s, t, parse, f);
      && r.deps.Keys == s.deps.Keys
      && (forall x :: x in s.deps ==> Grows(s.deps[x], r.deps[x]))
      && exists e :: OnlyTouches(s.deps, r.deps, e)
  {
    match f.kind {
      case None =>
        ExtendAppends(s.deps, Npm, []);
        ExtendNothing(s.deps, Npm);
      case Some(Python) =>
        ExtendAppends(s.deps, Python, RequirementsFile(t, f.path));
      case Some(_) =>
        var managers := Remember(s.managers, t, parse, f.path.dir);
        var manager := managers[f.path.dir];
        if manager.None? {
          ExtendAppends(s.deps, Npm, []);
          ExtendNothing(s.deps, Npm);
        } else if f.path.name == PackageJson {
          ExtendAppends(s.deps, manager.value, PackageJsonFile(t, parse, f.path));
        } else if f.path.name == YarnLock && manager == Some(Yarn) {
          ExtendAppends(s.deps, Yarn, YarnLockFile(t, f.path));
        } else {
          ExtendAppends(s.deps, Npm, []);
          ExtendNothing(s.deps, Npm);
        }
    }
  }

  /** Extending keeps the keys, only appends, and touches no list but `e`'s. */
  lemma ExtendAppends(deps: map<Ecosystem, seq<Dependency>>, e: Ecosystem, more: seq<Dependency>)
    ensures var r := Extend(deps, e, more);
      && r.Keys == deps.Keys
      && (forall x :: x in deps ==> Grows(deps[x], r[x]))
      && OnlyTouches(deps, r, e)
  {
  }

  /**
   * The memo: an entry once made is never changed, and exactly the directory of an npm
   * or yarn file gets one.
   */
  lemma ParseFileMemo(s: ScanState, t: Tree, parse: Parser, f: FileInfo)
    ensures var r := ParseFile(s, t, parse, f);
      && (forall d :: d in s.managers ==> d in r.managers && r.managers[d] == s.managers[d])
      && r.managers.Keys == if f.kind == Some(Npm) || f.kind == Some(Yarn) then s.managers.Keys + {f.path.dir} else s.managers.Keys
  {
    ParseFileMemoIs(s, t, parse, f);
  }

  /** Only an npm or yarn file touches the memo, and then by `Remember`. */
  lemma ParseFileMemoIs(s: ScanState, t: Tree, parse: Parser, f: FileInfo)
    ensures ParseFile(s, t, parse, f).managers ==
      if f.kind == Some(Npm) || f.kind == Some(Yarn) then Remember(s.managers, t, parse, f.path.dir) else s.managers
  {
  }

  /** A memo that agrees with detection keeps agreeing. */
  lemma ParseFileSound(s: ScanState, t: Tree, parse: Parser, f: FileInfo)
    requires Sound(s.managers, t, parse)
    ensures Sound(ParseFile(s, t, parse, f).managers, t, parse)
  {
    ParseFileMemoIs(s, t, parse, f);
  }

  /** A memoised `None` is honoured: the file adds nothing, even when detection would now succeed. */
  lemma CachedNoneAddsNothing(s: ScanState, t: Tree, parse: Parser, f: FileInfo)
    requires f.kind == Some(Npm) || f.kind == Some(Yarn)
    requires f.path.dir in s.managers && s.managers[f.path.dir] == None
    ensures ParseFile(s, t, parse, f) == s
  {
  }

  /** A directory without a manager contributes nothing from its npm or yarn files. */
  lemma NoManagerAddsNothing(s: ScanState, t: Tree, parse: Parser, f: FileInfo)
    requires Sound(s.managers, t, parse)
    requires f.kind == Some(Npm) || f.kind == Some(Yarn)
    requires DetectPackageManager(t, parse, f.path.dir) == None
    ensures ParseFile(s, t, parse, f).deps == s.deps
  {
  }

  /** A package.json adds its records to the list of its directory's manager. */
  lemma PackageJsonToManager(s: ScanState, t: Tree, parse: Parser, f: FileInfo, content: string, ds: seq<Dependency>)
    requires Sound(s.managers, t, parse)
    requires f.kind == Some(Npm) || f.kind == Some(Yarn)
    requires f.path.name == PackageJson && Read(t, f.path) == Some(content)
    requires PackageJsonDependencies(content, parse) == Some(ds)
    requires DetectPackageManager(t, parse, f.path.dir).Some?
    requires s.deps.Keys == {Npm, Yarn, Python}
    ensures var m := DetectPackageManager(t, parse, f.path.dir).value;
      ParseFile(s, t, parse, f).deps == s.deps[m := s.deps[m] + ds]
  {
  }

  /** A yarn.lock among the directory's entries is parsed into the yarn list. */
  lemma YarnLockParsed(s: ScanState, t: Tree, parse: Parser, f: FileInfo, content: string)
    requires Sound(s.managers, t, parse)
    requires f.kind == Some(Yarn) && f.path.name == YarnLock
    requires Exists(t, f.path.dir, YarnLock) && Read(t, f.path) == Some(content)
    requires Yarn in s.deps
    ensures ParseFile(s, t, parse, f).deps == s.deps[Yarn := s.deps[Yarn] + WithUnknownVersion(YarnLockNames(content))]
  {
    YarnLockWins(t, parse, f.path.dir);
  }

  /** A yarn.lock in a directory memoised as npm adds nothing. */
  lemma YarnLockIgnoredUnderNpm(s: ScanState, t: Tree, parse: Parser, f: FileInfo)
    requires f.kind == Some(Npm) || f.kind == Some(Yarn)
    requires f.path.name == YarnLock
    requires f.path.dir in s.managers && s.managers[f.path.dir] == Some(Npm)
    ensures ParseFile(s, t, parse, f) == s
  {
  }

  /** A requirements.txt leaves the memo alone and adds its lines to the python list. */
  lemma RequirementsToPython(s: ScanState, t: Tree, parse: Parser, f: FileInfo, content: string)
    requires f.kind == Some(Python) && Read(t, f.path) == Some(content)
    requires Python in s.deps
    ensures ParseFile(s, t, parse, f).managers == s.managers
    ensures ParseFile(s, t, parse, f).deps == s.deps[Python := s.deps[Python] + WithUnknownVersion(Requirements(content))]
  {
  }

  /** The whole loop keeps the keys and the memo's soundness, and only appends. */
  lemma {:induction false} ParseAllInvariant(s: ScanState, t: Tree, parse: Parser, files: seq<FileInfo>)
    requires Sound(s.managers, t, parse)
    ensures var r := ParseAll(s, t, parse, files);
      && Sound(r.managers, t, parse)
      && r.deps.Keys == s.deps.Keys
      && (forall e :: e in s.deps ==> Grows(s.deps[e], r.deps[e]))
    decreases |files|
  {
    if files != [] {
      var init := files[..|files| - 1];
      var mid := ParseAll(s, t, parse, init);
      ParseAllInvariant(s, t, parse, init);
      ParseFileSound(mid, t, parse, files[|files| - 1]);
      ParseFileAppends(mid, t, parse, files[|files| - 1]);
    }
  }

  /** The python files' contributions, in file order. */
  function PythonDependencies(t: Tree, files: seq<FileInfo>): seq<Dependency>
    decreases |files|
  {
    if files == [] then []
    else
      var f := files[|files| - 1];
      PythonDependencies(t, files[..|files| - 1]) + if f.kind == Some(Python) then RequirementsFile(t, f.path) else []
  }

  /**
   * With a sound memo the python list receives exactly the requirements files' lines,
   * file after file; package.json and yarn.lock never reach it, since detection never
   * answers python.
   */
  lemma {:induction false} PythonListIsRequirements(s: ScanState, t: Tree, parse: Parser, files: seq<FileInfo>)
    requires Sound(s.managers, t, parse)
    requires Python in s.deps
    ensures var r := ParseAll(s, t, parse, files);
      Python in r.deps && r.deps[Python] == s.deps[Python] + PythonDependencies(t, files)
    decreases |files|
  {
    if files != [] {
      var init := files[..|files| - 1];
      var f := files[|files| - 1];
      var mid := ParseAll(s, t, parse, init);
      PythonListIsRequirements(s, t, parse, init);
      ParseAllInvariant(s, t, parse, init);
      ParseFilePython(mid, t, parse, f);
      var extra := if f.kind == Some(Python) then RequirementsFile(t, f.path) else [];
      assert ParseAll(s, t, parse, files) == ParseFile(mid, t, parse, f);
      assert PythonDependencies(t, files) == PythonDependencies(t, init) + extra;
      Associate(s.deps[Python], PythonDependencies(t, init), extra);
    }
  }

  /** One file reaches the python list only when it is a python file. */
  lemma ParseFilePython(s: ScanState, t: Tree, parse: Parser, f: FileInfo)
    requires Sound(s.managers, t, parse)
    requires Python in s.deps
    ensures var r := ParseFile(s, t, parse, f);
      && Python in r.deps
      && r.deps[Python] == s.deps[Python] + if f.kind == Some(Python) then RequirementsFile(t, f.path) else []
  {
    var d := f.path.dir;
    if f.kind == Some(Npm) || f.kind == Some(Yarn) {
      assert Remember(s.managers, t, parse, d)[d] == DetectPackageManager(t, parse, d);
    }
  }

  /** Scanning from the initial state always leaves the three keys. */
  lemma ParseAllFromInitial(t: Tree, parse: Parser, files: seq<FileInfo>)
    ensures ParseAll(Initial, t, parse, files).deps.Keys == {Npm, Yarn, Python}
    ensures Sound(ParseAll(Initial, t, parse, files).managers, t, parse)
  {
    ParseAllInvariant(Initial, t, parse, files);
  }
}
