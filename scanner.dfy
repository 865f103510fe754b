/** `DependencyScanner`: the object that scans one repository checkout. */
module Scanner {
  import opened Wrappers
  import opened Seqs
  import opened Json
  import opened Files
  import opened Ecosystems
  import opened Detection
  import opened Parsers
  import opened Scanning
  import opened Advisories

  class DependencyScanner {
    const repoUrl: string
    const repoName: string
    /** `package_managers`: the memoised verdict of each directory seen. */
    var packageManagers: map<Dir, Option<Ecosystem>>
    /** `dependencies`: the list of records under each of the three tags. */
    var dependencies: map<Ecosystem, seq<Dependency>>

    /** The three keys are present. */
    ghost predicate Valid()
      reads this
    {
      dependencies.Keys == {Npm, Yarn, Python}
    }

    function State(): ScanState
      reads this
    {
      ScanState(packageManagers, dependencies)
    }

    constructor (repoUrl: string, repoName: string)
      ensures this.repoUrl == repoUrl && this.repoName == repoName
      ensures Valid() && State() == Initial
    {
      this.repoUrl := repoUrl;
      this.repoName := repoName;
      packageManagers := map[];
      dependencies := map[Npm := [], Yarn := [], Python := []];
    }

    /** `parse_dependencies(file_info)` against a checkout `t`. */
    method ParseDependencies(t: Tree, parse: Parser, f: FileInfo)
      requires Valid()
      modifies this
      ensures Valid()
      ensures State() == ParseFile(old(State()), t, parse, f)
    {
      var directory := f.path.dir;
      if f.kind == Some(Npm) || f.kind == Some(Yarn) {
        if directory !in packageManagers {
          packageManagers := packageManagers[directory := DetectPackageManager(t, parse, directory)];
        }
        var manager := packageManagers[directory];
        if manager.None? {
          return;
        }
        if f.path.name == PackageJson {
          AddPackageJson(t, parse, f.path, manager.value);
        } else if f.path.name == YarnLock && manager == Some(Yarn) {
          AddYarnLock(t, f.path);
        }
      } else if f.kind == Some(Python) {
        AddRequirements(t, f.path);
      }
    }

    /** The package.json branch: its records go to the list of `manager`. */
    method AddPackageJson(t: Tree, parse: Parser, p: Path, manager: Ecosystem)
      modifies this`dependencies
      ensures dependencies == Extend(old(dependencies), manager, PackageJsonFile(t, parse, p))
    {
      ExtendNothing(dependencies, manager);
      var content := Read(t, p);
      if content.Some? {
        var parsed := PackageJsonDependencies(content.value, parse);
        if parsed.Some? && parsed.value != [] && manager in dependencies {
          dependencies := dependencies[manager := dependencies[manager] + parsed.value];
        }
      }
    }

    /** The yarn.lock branch: its names go to the yarn list. */
    method AddYarnLock(t: Tree, p: Path)
      modifies this`dependencies
      ensures dependencies == Extend(old(dependencies), Yarn, YarnLockFile(t, p))
    {
      ExtendNothing(dependencies, Yarn);
      var content := Read(t, p);
      if content.Some? && Yarn in dependencies {
        var names := ParseYarnLock(content.value);
        dependencies := dependencies[Yarn := dependencies[Yarn] + WithUnknownVersion(names)];
      }
    }

    /** The requirements.txt branch: its kept lines go to the python list. */
    method AddRequirements(t: Tree, p: Path)
      modifies this`dependencies
      ensures dependencies == Extend(old(dependencies), Python, RequirementsFile(t, p))
    {
      ExtendNothing(dependencies, Python);
      var content := Read(t, p);
      if content.Some? && Python in dependencies {
        dependencies := dependencies[Python := dependencies[Python] + WithUnknownVersion(Requirements(content.value))];
      }
    }

    /** `find_dependency_files`, over the entries the recursive walk yields, in walk order. */
    method FindDependencyFiles(walk: seq<Entry>) returns (files: seq<FileInfo>)
      ensures files == DependencyFiles(walk)
    {
      files := [];
      var i := 0;
      while i < |walk|
        invariant 0 <= i <= |walk|
        invariant files == DependencyFiles(walk[..i])
      {
        var entry := walk[i];
        assert walk[..i + 1] == walk[..i] + [entry];
        DependencyFilesOrder(walk[..i], [entry]);
        assert [entry][..0] == [];
        if entry.isFile && (entry.path.name == PackageJson || entry.path.name == YarnLock || entry.path.name == RequirementsTxt) {
          files := files + [FileInfo(entry.path, FileTypeOf(entry.path.name), entry.path.dir)];
        }
        i := i + 1;
      }
      assert walk[..i] == walk;
    }

    /** The body of the inner loop of `check_vulnerabilities`: the query for one dependency. */
    method QueryAdvisories(kind: Ecosystem, dep: Dependency, lookup: Lookup) returns (found: Result<seq<VulnMatch>>)
      ensures found == Check(Tagged(kind, dep), lookup)
    {
      var response := lookup(dep.name);
      if response.Raised? {
        return Err(response.message);
      }
      found := Ok([]);
      if response.status == 200 {
        if response.body.Err? {
          return Err(response.body.message);
        }
        var vulns := response.body.value;
        if Truthy(vulns) {
          found := Ok([VulnMatch(dep.name, kind, dep.version, vulns)]);
        }
      }
    }

    /** The inner loop of `check_vulnerabilities`, over the list of one tag. */
    method CheckList(kind: Ecosystem, deps: seq<Dependency>, lookup: Lookup) returns (r: Result<seq<VulnMatch>>)
      ensures r == Report(TagAll(kind, deps), lookup)
    {
      var vulnerabilities := [];
      var j := 0;
      TagAllSnoc(kind, deps, 0);
      while j < |deps|
        invariant 0 <= j <= |deps|
        invariant Report(TagAll(kind, deps[..j]), lookup) == Ok(vulnerabilities)
      {
        var dep := deps[j];
        TagAllSnoc(kind, deps, j + 1);
        ReportSnoc(TagAll(kind, deps[..j]), Tagged(kind, dep), lookup);
        var found := QueryAdvisories(kind, dep, lookup);
        if found.Err? {
          TagAllSplit(kind, deps, j + 1);
          ReportErrSticky(TagAll(kind, deps[..j + 1]), TagAll(kind, deps[j + 1..]), lookup);
          return Err(found.message);
        }
        vulnerabilities := vulnerabilities + found.value;
        j := j + 1;
      }
      assert deps[..j] == deps;
      return Ok(vulnerabilities);
    }

    /** `check_vulnerabilities()`; an `Err` is the exception that escapes it. */
    method CheckVulnerabilities(lookup: Lookup) returns (r: Result<seq<VulnMatch>>)
      requires Valid()
      ensures r == Report(AllTagged(dependencies), lookup)
      ensures r.Ok? ==> (r.value ==
        Matches(TagAll(Npm, dependencies[Npm]) + TagAll(Yarn, dependencies[Yarn]) + TagAll(Python, dependencies[Python]), lookup))
    {
      var vulnerabilities := [];
      var k := 0;
      while k < |Tags|
        invariant 0 <= k <= |Tags|
        invariant Report(TaggedIn(dependencies, Tags[..k]), lookup) == Ok(vulnerabilities)
      {
        var kind := Tags[k];
        TaggedInSnoc(dependencies, Tags, k);
        var done := TaggedIn(dependencies, Tags[..k]);
        if kind in dependencies && dependencies[kind] != [] {
          var found := CheckList(kind, dependencies[kind], lookup);
          ReportConcat(done, TagAll(kind, dependencies[kind]), lookup);
          assert TaggedIn(dependencies, Tags[..k + 1]) == done + TagAll(kind, dependencies[kind]);
          if found.Err? {
            TaggedInStopsAfter(dependencies, Tags, k + 1, lookup);
            return Err(found.message);
          }
          vulnerabilities := vulnerabilities + found.value;
        } else {
          assert done + [] == done;
          assert TaggedIn(dependencies, Tags[..k + 1]) == done;
        }
        k := k + 1;
      }
      assert Tags[..k] == Tags;
      AllTaggedOrder(dependencies);
      ReportIsMatches(AllTagged(dependencies), lookup);
      return Ok(vulnerabilities);
    }
  }
}
