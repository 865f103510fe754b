/**
 * `scan_repository` (one repository: clone, find, parse, query) and the loop of
 * `main` that scans every repository of the organisation not excluded by name.
 */
module Orchestrator {
  import opened Wrappers
  import opened Seqs
  import opened Text
  import opened Json
  import opened Files
  import opened Ecosystems
  import opened Parsers
  import opened Scanning
  import opened Advisories
  import opened Scanner

  /** What cloning a URL into a fresh directory yields: the checkout and its walk, or the error. */
  datatype Checkout = Cloned(tree: Tree, walk: seq<Entry>) | CloneFailed(message: string)

  /** `git.Repo.clone_from`, by URL. */
  type Cloner = string -> Checkout

  /** The two fields of a repository record that `main` uses. */
  datatype Repo = Repo(name: string, cloneUrl: string)

  /**
   * `{'repo_name', 'dependencies', 'vulnerabilities'}` for a completed scan,
   * `{'repo_name', 'error'}` when an exception ended it.
   */
  datatype ScanResult =
    | Scanned(repoName: string, dependencies: map<Ecosystem, seq<Dependency>>, vulnerabilities: seq<VulnMatch>)
    | Failed(repoName: string, error: string)

  /** The result `scan_repository(repo_url, repo_name)` returns. */
  function ScanOutcome(repoUrl: string, repoName: string, clone: Cloner, parse: Parser, lookup: Lookup): ScanResult {
    match clone(repoUrl)
    case CloneFailed(message) => Failed(repoName, message)
    case Cloned(t, walk) =>
      var s := ParseAll(Initial, t, parse, DependencyFiles(walk));
      match Report(AllTagged(s.deps), lookup)
      case Err(message) => Failed(repoName, message)
      case Ok(vulnerabilities) => Scanned(repoName, s.deps, vulnerabilities)
  }

  /** `scan_repository`, driving a fresh `DependencyScanner`. */
  method ScanRepository(repoUrl: string, repoName: string, clone: Cloner, parse: Parser, lookup: Lookup)
    returns (result: ScanResult)
    ensures result == ScanOutcome(repoUrl, repoName, clone, parse, lookup)
  {
    var scanner := new DependencyScanner(repoUrl, repoName);
    var checkout := clone(repoUrl);
    if checkout.CloneFailed? {
      return Failed(repoName, checkout.message);
    }
    var files := scanner.FindDependencyFiles(checkout.walk);
    var i := 0;
    while i < |files|
      invariant 0 <= i <= |files|
      invariant scanner.Valid()
      invariant scanner.State() == ParseAll(Initial, checkout.tree, parse, files[..i])
    {
      ParseAllStep(Initial, checkout.tree, parse, files, i);
      scanner.ParseDependencies(checkout.tree, parse, files[i]);
      i := i + 1;
    }
    assert files[..i] == files;
    var vulnerabilities := scanner.CheckVulnerabilities(lookup);
    if vulnerabilities.Err? {
      return Failed(repoName, vulnerabilities.message);
    }
    return Scanned(repoName, scanner.dependencies, vulnerabilities.value);
  }

  /** A result always names its repository; a failed clone is reported with its message. */
  lemma ScanOutcomeNamed(repoUrl: string, repoName: string, clone: Cloner, parse: Parser, lookup: Lookup)
    ensures ScanOutcome(repoUrl, repoName, clone, parse, lookup).repoName == repoName
    ensures clone(repoUrl).CloneFailed? ==>
      ScanOutcome(repoUrl, repoName, clone, parse, lookup) == Failed(repoName, clone(repoUrl).message)
  {
  }

  /**
   * After a successful clone the scan fails exactly when some query fails; the error is
   * that of the first failing query.
   */
  lemma ScanFailsOnQuery(repoUrl: string, repoName: string, clone: Cloner, parse: Parser, lookup: Lookup)
    requires clone(repoUrl).Cloned?
    ensures var xs := AllTagged(ParseAll(Initial, clone(repoUrl).tree, parse, DependencyFiles(clone(repoUrl).walk)).deps);
      && (ScanOutcome(repoUrl, repoName, clone, parse, lookup).Failed? <==> exists i :: 0 <= i < |xs| && Fails(xs[i], lookup))
      && (ScanOutcome(repoUrl, repoName, clone, parse, lookup).Failed? ==>
            exists i :: 0 <= i < |xs| && Fails(xs[i], lookup) && (forall j :: 0 <= j < i ==> !Fails(xs[j], lookup))
              && ScanOutcome(repoUrl, repoName, clone, parse, lookup).error == FailureMessage(xs[i], lookup))
  {
    var xs := AllTagged(ParseAll(Initial, clone(repoUrl).tree, parse, DependencyFiles(clone(repoUrl).walk)).deps);
    var r := ScanOutcome(repoUrl, repoName, clone, parse, lookup);
    assert r.Failed? <==> Report(xs, lookup).Err?;
    ReportErrIff(xs, lookup);
    if r.Failed? {
      assert r.error == Report(xs, lookup).message;
      ReportFirstFailure(xs, lookup);
    }
  }

  /**
   * A completed scan has the three lists, python's being the requirements files' lines;
   * its vulnerabilities are the records of the hits in query order (npm, yarn, python,
   * each in list order), and every record names a dependency recorded under its type,
   * with its version, and the truthy advisory body the service answered with.
   */
  lemma ScannedResult(repoUrl: string, repoName: string, clone: Cloner, parse: Parser, lookup: Lookup)
    requires ScanOutcome(repoUrl, repoName, clone, parse, lookup).Scanned?
    ensures var r := ScanOutcome(repoUrl, repoName, clone, parse, lookup);
      && clone(repoUrl).Cloned?
      && r.dependencies.Keys == {Npm, Yarn, Python}
      && r.dependencies[Python] == PythonDependencies(clone(repoUrl).tree, DependencyFiles(clone(repoUrl).walk))
      && r.vulnerabilities == Matches(AllTagged(r.dependencies), lookup)
      && (forall m :: m in r.vulnerabilities ==>
            && m.kind in r.dependencies
            && Dependency(m.dependency, m.version) in r.dependencies[m.kind]
            && lookup(m.dependency) == Replied(200, Ok(m.vulnerabilities))
            && Truthy(m.vulnerabilities))
  {
    var t, files := clone(repoUrl).tree, DependencyFiles(clone(repoUrl).walk);
    var deps := ParseAll(Initial, t, parse, files).deps;
    ParseAllFromInitial(t, parse, files);
    PythonListIsRequirements(Initial, t, parse, files);
    assert [] + PythonDependencies(t, files) == PythonDependencies(t, files);
    ReportIsMatches(AllTagged(deps), lookup);
    forall m | m in ScanOutcome(repoUrl, repoName, clone, parse, lookup).vulnerabilities
      ensures m.kind in deps && Dependency(m.dependency, m.version) in deps[m.kind]
      ensures lookup(m.dependency) == Replied(200, Ok(m.vulnerabilities)) && Truthy(m.vulnerabilities)
    {
      ReportFields(AllTagged(deps), lookup, m);
      TaggedMembers(deps, Tags, Tagged(m.kind, Dependency(m.dependency, m.version)));
    }
  }

  // ---------------------------------------------------------------- main

  /** `os.getenv('EXCLUDED_REPOS', '').split(',')`. */
  function ExcludedRepos(env: Option<string>): (names: seq<string>)
    ensures |names| >= 1
    ensures forall n :: n in names ==> ',' !in n
  {
    var s := if env.Some? then env.value else "";
    SplitPiecesHaveNoSeparator(s, ',');
    Split(s, ',')
  }

  /** Unset, the list is `['']`: only a repository named by the empty string is skipped. */
  lemma ExcludedUnset()
    ensures ExcludedRepos(None) == [""]
  {
  }

  /** Joining the excluded names with commas gives back the variable's value. */
  lemma ExcludedRoundTrip(value: string)
    ensures Join(ExcludedRepos(Some(value)), ',') == value
  {
    JoinSplit(value, ',');
  }

  /** The repositories `main` scans, in listing order. */
  function Included(repos: seq<Repo>, excluded: seq<string>): seq<Repo> {
    Filter(repos, (r: Repo) => r.name !in excluded)
  }

  /** The `results` list `main` builds. */
  function BatchResults(repos: seq<Repo>, excluded: seq<string>, clone: Cloner, parse: Parser, lookup: Lookup): seq<ScanResult>
    decreases |repos|
  {
    if repos == [] then []
    else
      var r := repos[|repos| - 1];
      BatchResults(repos[..|repos| - 1], excluded, clone, parse, lookup)
        + if r.name in excluded then [] else [ScanOutcome(r.cloneUrl, r.name, clone, parse, lookup)]
  }

  /**
   * The loop of `main` over the organisation's repositories, skipping the names that
   * `EXCLUDED_REPOS` (here `env`, unset when `None`) lists.
   */
  method ScanBatch(repos: seq<Repo>, env: Option<string>, clone: Cloner, parse: Parser, lookup: Lookup)
    returns (results: seq<ScanResult>)
    ensures results == BatchResults(repos, ExcludedRepos(env), clone, parse, lookup)
    ensures forall i :: 0 <= i < |results| ==> results[i].repoName !in ExcludedRepos(env)
  {
    var excluded := ExcludedRepos(env);
    results := [];
    var i := 0;
    while i < |repos|
      invariant 0 <= i <= |repos|
      invariant results == BatchResults(repos[..i], excluded, clone, parse, lookup)
    {
      var repo := repos[i];
      BatchResultsStep(repos, excluded, clone, parse, lookup, i);
      if repo.name !in excluded {
        var result := ScanRepository(repo.cloneUrl, repo.name, clone, parse, lookup);
        results := results + [result];
      }
      i := i + 1;
    }
    assert repos[..i] == repos;
    assert forall i :: 0 <= i < |results| ==> results[i].repoName !in excluded by {
      BatchNames(repos, excluded, clone, parse, lookup);
    }
  }

  /** One more repository adds its scan, unless its name is excluded. */
  lemma BatchResultsStep(repos: seq<Repo>, excluded: seq<string>, clone: Cloner, parse: Parser, lookup: Lookup, i: int)
    requires 0 <= i < |repos|
    ensures BatchResults(repos[..i + 1], excluded, clone, parse, lookup) ==
      BatchResults(repos[..i], excluded, clone, parse, lookup)
        + if repos[i].name in excluded then [] else [ScanOutcome(repos[i].cloneUrl, repos[i].name, clone, parse, lookup)]
  {
    assert repos[..i + 1][..i] == repos[..i];
  }

  /**
   * One result per repository not excluded, in listing order: the `i`-th result is the
   * scan of the `i`-th included repository.
   */
  lemma {:induction false} BatchFollowsIncluded(repos: seq<Repo>, excluded: seq<string>, clone: Cloner, parse: Parser, lookup: Lookup)
    ensures var results, kept := BatchResults(repos, excluded, clone, parse, lookup), Included(repos, excluded);
      && |results| == |kept|
      && forall i :: 0 <= i < |results| ==> results[i] == ScanOutcome(kept[i].cloneUrl, kept[i].name, clone, parse, lookup)
    decreases |repos|
  {
    if repos != [] {
      BatchFollowsIncluded(repos[..|repos| - 1], excluded, clone, parse, lookup);
    }
  }

  /** The results name every included repository and no excluded one. */
  lemma BatchNames(repos: seq<Repo>, excluded: seq<string>, clone: Cloner, parse: Parser, lookup: Lookup)
    ensures var results := BatchResults(repos, excluded, clone, parse, lookup);
      && |results| == |KeptIndices(repos, (r: Repo) => r.name !in excluded)|
      && (forall i :: 0 <= i < |results| ==> results[i].repoName !in excluded)
      && (forall r :: r in repos && r.name !in excluded ==>
            exists i :: 0 <= i < |results| && results[i].repoName == r.name)
  {
    var keep := (r: Repo) => r.name !in excluded;
    var results, kept := BatchResults(repos, excluded, clone, parse, lookup), Included(repos, excluded);
    BatchFollowsIncluded(repos, excluded, clone, parse, lookup);
    FilterCount(repos, keep);
    forall i | 0 <= i < |results|
      ensures results[i].repoName !in excluded
    {
      ScanOutcomeNamed(kept[i].cloneUrl, kept[i].name, clone, parse, lookup);
      FilterMembers(repos, keep, kept[i]);
    }
    forall r | r in repos && r.name !in excluded
      ensures exists i :: 0 <= i < |results| && results[i].repoName == r.name
    {
      FilterMembers(repos, keep, r);
      var i :| 0 <= i < |kept| && kept[i] == r;
      ScanOutcomeNamed(r.cloneUrl, r.name, clone, parse, lookup);
      assert results[i].repoName == r.name;
    }
  }
}
