/**
 * `DependencyScanner.check_vulnerabilities`: one advisory query per recorded
 * dependency, in list order, and the matches it keeps.
 */
module Advisories {
  import opened Wrappers
  import opened Json
  import opened Ecosystems

  /**
   * What one `GET /advisories?package=<name>` ends in: the request raises, or a reply
   * with its status code and its body decoded as JSON (`Err` when `.json()` raises).
   */
  datatype Answer = Raised(message: string) | Replied(status: int, body: Result<Json>)

  /** The advisory service, queried by package name only. */
  type Lookup = string -> Answer

  /** `{'dependency': ..., 'type': ..., 'version': ..., 'vulnerabilities': ...}`. */
  datatype VulnMatch = VulnMatch(dependency: string, kind: Ecosystem, version: Json, vulnerabilities: Json)

  /** A dependency together with the key of the list it was found in. */
  datatype Tagged = Tagged(kind: Ecosystem, dep: Dependency)

  /** The queries for one list: its dependencies in order, each under the list's key. */
  function TagAll(e: Ecosystem, ds: seq<Dependency>): seq<Tagged> {
    seq(|ds|, i requires 0 <= i < |ds| => Tagged(e, ds[i]))
  }

  /** The dependencies of a sequence of queries, in order. */
  function DepsOf(ts: seq<Tagged>): seq<Dependency> {
    seq(|ts|, i requires 0 <= i < |ts| => ts[i].dep)
  }

  /** Tagging a list gives its dependencies back, in order, each under the key `e`. */
  lemma TagAllFields(e: Ecosystem, ds: seq<Dependency>)
    ensures DepsOf(TagAll(e, ds)) == ds
    ensures forall t :: t in TagAll(e, ds) ==> t.kind == e
  {
  }

  /** The lists of `tags` that are keys of `deps`, concatenated in that order. */
  function TaggedIn(deps: map<Ecosystem, seq<Dependency>>, tags: seq<Ecosystem>): seq<Tagged>
    decreases |tags|
  {
    if tags == [] then []
    else
      var e := tags[|tags| - 1];
      TaggedIn(deps, tags[..|tags| - 1]) + if e in deps then TagAll(e, deps[e]) else []
  }

  /** `self.dependencies.items()`: npm, then yarn, then python. */
  function AllTagged(deps: map<Ecosystem, seq<Dependency>>): seq<Tagged> {
    TaggedIn(deps, Tags)
  }

  /** The query for this dependency raises, or answers 200 with a body that does not decode. */
  predicate Fails(x: Tagged, lookup: Lookup) {
    var a := lookup(x.dep.name);
    a.Raised? || (a.status == 200 && a.body.Err?)
  }

  function FailureMessage(x: Tagged, lookup: Lookup): string
    requires Fails(x, lookup)
  {
    var a := lookup(x.dep.name);
    if a.Raised? then a.message else a.body.message
  }

  /** The query answers 200 with a decodable, truthy body. */
  predicate Hit(x: Tagged, lookup: Lookup) {
    var a := lookup(x.dep.name);
    a.Replied? && a.status == 200 && a.body.Ok? && Truthy(a.body.value)
  }

  /** The record a hit produces: the name, the list's key, the recorded version, the advisories. */
  function MatchOf(x: Tagged, lookup: Lookup): VulnMatch
    requires Hit(x, lookup)
  {
    VulnMatch(x.dep.name, x.kind, x.dep.version, lookup(x.dep.name).body.value)
  }

  /** The outcome of querying for `x`: an error, one match, or nothing. */
  function Check(x: Tagged, lookup: Lookup): (r: Result<seq<VulnMatch>>)
    ensures r.Err? <==> Fails(x, lookup)
    ensures r.Err? ==> r.message == FailureMessage(x, lookup)
    ensures r.Ok? ==> r.value == if Hit(x, lookup) then [MatchOf(x, lookup)] else []
  {
    match lookup(x.dep.name)
    case Raised(message) => Err(message)
    case Replied(status, body) =>
      if status != 200 then Ok([])
      else
        match body
        case Err(message) => Err(message)
        case Ok(v) => if Truthy(v) then Ok([VulnMatch(x.dep.name, x.kind, x.dep.version, v)]) else Ok([])
  }

  /** The queries for `xs` one after another; the first error ends the scan. */
  function Report(xs: seq<Tagged>, lookup: Lookup): Result<seq<VulnMatch>>
    decreases |xs|
  {
    if xs == [] then Ok([])
    else
      match Report(xs[..|xs| - 1], lookup)
      case Err(message) => Err(message)
      case Ok(ms) =>
        match Check(xs[|xs| - 1], lookup)
        case Err(message) => Err(message)
        case Ok(more) => Ok(ms + more)
  }

  /** The records of the hits among `xs`, in order: the part of `xs` a successful report keeps. */
  function Matches(xs: seq<Tagged>, lookup: Lookup): seq<VulnMatch>
    decreases |xs|
  {
    if xs == [] then []
    else
      var x := xs[|xs| - 1];
      Matches(xs[..|xs| - 1], lookup) + if Hit(x, lookup) then [MatchOf(x, lookup)] else []
  }

  /** A successful report is the hits' records, in query order, and nothing else. */
  lemma {:induction false} ReportIsMatches(xs: seq<Tagged>, lookup: Lookup)
    requires Report(xs, lookup).Ok?
    ensures Report(xs, lookup).value == Matches(xs, lookup)
    decreases |xs|
  {
    if xs != [] {
      ReportIsMatches(xs[..|xs| - 1], lookup);
    }
  }

  /** One more query after `xs`. */
  lemma ReportSnoc(xs: seq<Tagged>, x: Tagged, lookup: Lookup)
    ensures Report(xs + [x], lookup) ==
      if Report(xs, lookup).Err? then Report(xs, lookup)
      else if Check(x, lookup).Err? then Check(x, lookup)
      else Ok(Report(xs, lookup).value + Check(x, lookup).value)
  {
    assert (xs + [x])[..|xs|] == xs;
  }

  /** The report succeeds exactly when no query fails. */
  lemma {:induction false} ReportOkIff(xs: seq<Tagged>, lookup: Lookup)
    ensures Report(xs, lookup).Ok? <==> forall i :: 0 <= i < |xs| ==> !Fails(xs[i], lookup)
    decreases |xs|
  {
    if xs != [] {
      var init := xs[..|xs| - 1];
      ReportOkIff(init, lookup);
      assert forall i :: 0 <= i < |init| ==> init[i] == xs[i];
    }
  }

  /** The report fails exactly when some query fails. */
  lemma ReportErrIff(xs: seq<Tagged>, lookup: Lookup)
    ensures Report(xs, lookup).Err? <==> exists i :: 0 <= i < |xs| && Fails(xs[i], lookup)
  {
    ReportOkIff(xs, lookup);
  }

  /** A failed report carries the message of the first query that fails. */
  lemma {:induction false} ReportFirstFailure(xs: seq<Tagged>, lookup: Lookup)
    requires Report(xs, lookup).Err?
    ensures exists i ::
      && 0 <= i < |xs| && Fails(xs[i], lookup)
      && (forall j :: 0 <= j < i ==> !Fails(xs[j], lookup))
      && Report(xs, lookup).message == FailureMessage(xs[i], lookup)
    decreases |xs|
  {
    var init := xs[..|xs| - 1];
    assert forall i :: 0 <= i < |init| ==> init[i] == xs[i];
    if Report(init, lookup).Err? {
      ReportFirstFailure(init, lookup);
      var i :| 0 <= i < |init| && Fails(init[i], lookup)
        && (forall j :: 0 <= j < i ==> !Fails(init[j], lookup))
        && Report(init, lookup).message == FailureMessage(init[i], lookup);
      assert Fails(xs[i], lookup);
    } else {
      ReportOkIff(init, lookup);
      var i := |xs| - 1;
      assert Fails(xs[i], lookup);
    }
  }

  /** Successful reports of consecutive parts concatenate. */
  lemma {:induction false} ReportAppend(xs: seq<Tagged>, ys: seq<Tagged>, lookup: Lookup)
    requires Report(xs, lookup).Ok? && Report(ys, lookup).Ok?
    ensures Report(xs + ys, lookup) == Ok(Report(xs, lookup).value + Report(ys, lookup).value)
    decreases |ys|
  {
    if ys == [] {
      assert xs + ys == xs;
      assert Report(xs, lookup).value + [] == Report(xs, lookup).value;
    } else {
      var init := ys[..|ys| - 1];
      assert (xs + ys)[..|xs + ys| - 1] == xs + init;
      assert (xs + ys)[|xs + ys| - 1] == ys[|ys| - 1];
      assert Report(init, lookup).Ok?;
      ReportAppend(xs, init, lookup);
      var a, b, c := Report(xs, lookup).value, Report(init, lookup).value, Check(ys[|ys| - 1], lookup).value;
      assert a + b + c == a + (b + c);
    }
  }

  /** The report of `xs + ys`: that of `xs` if it fails, else that of `ys` if it fails, else both matches. */
  lemma {:induction false} ReportConcat(xs: seq<Tagged>, ys: seq<Tagged>, lookup: Lookup)
    ensures Report(xs + ys, lookup) ==
      if Report(xs, lookup).Err? then Report(xs, lookup)
      else if Report(ys, lookup).Err? then Report(ys, lookup)
      else Ok(Report(xs, lookup).value + Report(ys, lookup).value)
    decreases |ys|
  {
    if ys == [] {
      assert xs + ys == xs;
      if Report(xs, lookup).Ok? {
        assert Report(xs, lookup).value + [] == Report(xs, lookup).value;
      }
    } else {
      var init := ys[..|ys| - 1];
      var y := ys[|ys| - 1];
      assert ys == init + [y];
      assert xs + ys == (xs + init) + [y];
      ReportConcat(xs, init, lookup);
      ReportSnoc(xs + init, y, lookup);
      ReportSnoc(init, y, lookup);
      if Report(xs, lookup).Ok? && Report(init, lookup).Ok? && Check(y, lookup).Ok? {
        var a, b, c := Report(xs, lookup).value, Report(init, lookup).value, Check(y, lookup).value;
        assert a + b + c == a + (b + c);
      }
    }
  }

  /**
   * A successful report holds exactly the hits: every match is the record of a hit, and
   * every hit's record is there.
   */
  lemma {:induction false} ReportMembers(xs: seq<Tagged>, lookup: Lookup, m: VulnMatch)
    requires Report(xs, lookup).Ok?
    ensures m in Report(xs, lookup).value <==> exists i :: 0 <= i < |xs| && Hit(xs[i], lookup) && m == MatchOf(xs[i], lookup)
    decreases |xs|
  {
    if xs != [] {
      var init := xs[..|xs| - 1];
      var x := xs[|xs| - 1];
      ReportMembers(init, lookup, m);
      assert forall i :: 0 <= i < |init| ==> init[i] == xs[i];
      if m in Report(xs, lookup).value && m !in Report(init, lookup).value {
        assert Hit(x, lookup) && m == MatchOf(x, lookup);
      }
    }
  }

  /** Each match names a queried dependency with its list's key and its recorded version. */
  lemma ReportFields(xs: seq<Tagged>, lookup: Lookup, m: VulnMatch)
    requires Report(xs, lookup).Ok? && m in Report(xs, lookup).value
    ensures Tagged(m.kind, Dependency(m.dependency, m.version)) in xs
    ensures lookup(m.dependency) == Replied(200, Ok(m.vulnerabilities)) && Truthy(m.vulnerabilities)
  {
    ReportMembers(xs, lookup, m);
  }

  /** The tagged list holds each recorded dependency under its own key, and nothing else. */
  lemma {:induction false} TaggedMembers(deps: map<Ecosystem, seq<Dependency>>, tags: seq<Ecosystem>, x: Tagged)
    ensures x in TaggedIn(deps, tags) <==> x.kind in tags && x.kind in deps && x.dep in deps[x.kind]
    decreases |tags|
  {
    if tags != [] {
      var init := tags[..|tags| - 1];
      TaggedMembers(deps, init, x);
      assert tags == init + [tags[|tags| - 1]];
    }
  }

  /** With the three keys present, the queries go through npm, then yarn, then python. */
  lemma AllTaggedOrder(deps: map<Ecosystem, seq<Dependency>>)
    requires deps.Keys == {Npm, Yarn, Python}
    ensures AllTagged(deps) == TagAll(Npm, deps[Npm]) + TagAll(Yarn, deps[Yarn]) + TagAll(Python, deps[Python])
  {
    assert TaggedIn(deps, [Npm]) == TagAll(Npm, deps[Npm]) by {
      assert [Npm][..0] == [];
    }
    assert TaggedIn(deps, [Npm, Yarn]) == TagAll(Npm, deps[Npm]) + TagAll(Yarn, deps[Yarn]) by {
      assert [Npm, Yarn][..1] == [Npm];
    }
    assert Tags[..2] == [Npm, Yarn];
  }

  /** The tagged list is as long as the lists together. */
  lemma AllTaggedLength(deps: map<Ecosystem, seq<Dependency>>)
    requires deps.Keys == {Npm, Yarn, Python}
    ensures |AllTagged(deps)| == |deps[Npm]| + |deps[Yarn]| + |deps[Python]|
  {
    AllTaggedOrder(deps);
  }

  /** Nothing recorded, nothing queried: the report is empty. */
  lemma NothingToCheck(lookup: Lookup)
    ensures Report(AllTagged(map[Npm := [], Yarn := [], Python := []]), lookup) == Ok([])
  {
    var deps: map<Ecosystem, seq<Dependency>> := map[Npm := [], Yarn := [], Python := []];
    AllTaggedLength(deps);
  }

  /** The tag lists of `a + b` are those of `a`, then those of `b`. */
  lemma {:induction false} TaggedInAppend(deps: map<Ecosystem, seq<Dependency>>, a: seq<Ecosystem>, b: seq<Ecosystem>)
    ensures TaggedIn(deps, a + b) == TaggedIn(deps, a) + TaggedIn(deps, b)
    decreases |b|
  {
    if b == [] {
      assert a + b == a;
    } else {
      var init := b[..|b| - 1];
      assert (a + b)[..|a + b| - 1] == a + init;
      TaggedInAppend(deps, a, init);
    }
  }

  /** A failed report of a prefix is the report of the whole. */
  lemma {:induction false} ReportErrSticky(xs: seq<Tagged>, ys: seq<Tagged>, lookup: Lookup)
    requires Report(xs, lookup).Err?
    ensures Report(xs + ys, lookup) == Report(xs, lookup)
    decreases |ys|
  {
    if ys == [] {
      assert xs + ys == xs;
    } else {
      var init := ys[..|ys| - 1];
      assert (xs + ys)[..|xs + ys| - 1] == xs + init;
      ReportErrSticky(xs, init, lookup);
    }
  }

  lemma TagAllSplit(e: Ecosystem, ds: seq<Dependency>, n: int)
    requires 0 <= n <= |ds|
    ensures TagAll(e, ds) == TagAll(e, ds[..n]) + TagAll(e, ds[n..])
  {
  }

  /** A failed report of the lists of the first `k` tags is the report of all of them. */
  lemma TaggedInStopsAfter(deps: map<Ecosystem, seq<Dependency>>, tags: seq<Ecosystem>, k: int, lookup: Lookup)
    requires 0 <= k <= |tags|
    requires Report(TaggedIn(deps, tags[..k]), lookup).Err?
    ensures Report(TaggedIn(deps, tags), lookup) == Report(TaggedIn(deps, tags[..k]), lookup)
  {
    assert tags == tags[..k] + tags[k..];
    TaggedInAppend(deps, tags[..k], tags[k..]);
    ReportErrSticky(TaggedIn(deps, tags[..k]), TaggedIn(deps, tags[k..]), lookup);
  }

  /** One more tag. */
  lemma TaggedInSnoc(deps: map<Ecosystem, seq<Dependency>>, tags: seq<Ecosystem>, k: int)
    requires 0 <= k < |tags|
    ensures TaggedIn(deps, tags[..k + 1]) ==
      TaggedIn(deps, tags[..k]) + if tags[k] in deps then TagAll(tags[k], deps[tags[k]]) else []
  {
    assert tags[..k + 1][..k] == tags[..k];
  }

  /** The first `j` dependencies of a list, tagged. */
  lemma TagAllSnoc(e: Ecosystem, ds: seq<Dependency>, j: int)
    requires 0 <= j <= |ds|
    ensures j == 0 ==> TagAll(e, ds[..j]) == []
    ensures 0 < j ==> TagAll(e, ds[..j]) == TagAll(e, ds[..j - 1]) + [Tagged(e, ds[j - 1])]
  {
  }
}
