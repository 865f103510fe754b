/**
 * The three manifest formats read by `DependencyScanner.parse_dependencies`:
 * package.json (a merge of two JSON objects), yarn.lock (a line scanner) and
 * requirements.txt (a line filter).
 */
module Parsers {
  import opened Wrappers
  import opened Seqs
  import opened Text
  import opened Dicts
  import opened Json
  import opened Ecosystems

  // ---------------------------------------------------------------- package.json

  /**
   * `**data.get(key, {})`: an absent key unpacks as `{}`, an object as its dictionary;
   * any other value is not a mapping and `**` raises (`None`).
   */
  function MappingField(data: Dict<Json>, key: string): Option<Dict<Json>> {
    match Get(data, key)
    case None => Some([])
    case Some(v) => if v.JObject? then Some(AsDict(v.members)) else None
  }

  /** `[{'name': k, 'version': v} for k, v in d.items()]`. */
  function DictEntries(d: Dict<Json>): (ds: seq<Dependency>)
    ensures NamesOf(ds) == Keys(d)
  {
    seq(|d|, i requires 0 <= i < |d| => Dependency(d[i].0, d[i].1))
  }

  /**
   * What one package.json contributes: `None` when the content is blank, does not decode,
   * is not an object, or has a `dependencies` / `devDependencies` value that is not an object.
   */
  function PackageJsonDependencies(content: string, parse: Parser): Option<seq<Dependency>> {
    if Strip(content, Whitespace) == "" then None
    else
      match parse(content)
      case None => None
      case Some(j) =>
        if !j.JObject? then None
        else
          var data := ObjectDict(j);
          match MappingField(data, "dependencies")
          case None => None
          case Some(deps) =>
            match MappingField(data, "devDependencies")
            case None => None
            case Some(devDeps) => Some(DictEntries(Merge(deps, devDeps)))
  }

  lemma MappingFieldUnique(data: Dict<Json>, key: string)
    ensures MappingField(data, key).Some? ==> KeyUnique(MappingField(data, key).value)
  {
    var v := Get(data, key);
    if v.Some? && v.value.JObject? {
      AsDictLaw(v.value.members);
    }
  }

  /** Blank content, undecodable content and a non-object document contribute nothing. */
  lemma PackageJsonRejects(content: string, parse: Parser)
    requires Strip(content, Whitespace) == "" || parse(content).None? || !parse(content).value.JObject?
    ensures PackageJsonDependencies(content, parse) == None
  {
  }

  /**
   * A `dependencies` or `devDependencies` value that is not an object makes `**` raise,
   * and the handler leaves the file contributing nothing.
   */
  lemma PackageJsonFieldRejects(content: string, parse: Parser, key: string, v: Json)
    requires parse(content).Some? && parse(content).value.JObject?
    requires key == "dependencies" || key == "devDependencies"
    requires Get(ObjectDict(parse(content).value), key) == Some(v) && !v.JObject?
    ensures PackageJsonDependencies(content, parse) == None
  {
  }

  /**
   * Otherwise the contribution has one record per distinct name of `dependencies` and
   * `devDependencies`: names of `dependencies` first in their order, then names found
   * only in `devDependencies` in theirs; a name in `devDependencies` takes its version
   * from there, and every version is the specifier value itself.
   */
  lemma {:induction false} PackageJsonMerges(content: string, parse: Parser, deps: Dict<Json>, devDeps: Dict<Json>)
    requires Strip(content, Whitespace) != ""
    requires parse(content).Some? && parse(content).value.JObject?
    requires MappingField(ObjectDict(parse(content).value), "dependencies") == Some(deps)
    requires MappingField(ObjectDict(parse(content).value), "devDependencies") == Some(devDeps)
    ensures PackageJsonDependencies(content, parse).Some?
    ensures var ds := PackageJsonDependencies(content, parse).value;
      && NoDup(NamesOf(ds))
      && NamesOf(ds) == AppendNew(Keys(deps), Keys(devDeps))
      && (forall n :: n in NamesOf(ds) <==> n in Keys(deps) || n in Keys(devDeps))
      && (forall i :: 0 <= i < |ds| ==>
            Some(ds[i].version) == if ds[i].name in Keys(devDeps) then Get(devDeps, ds[i].name) else Get(deps, ds[i].name))
  {
    var data := ObjectDict(parse(content).value);
    MappingFieldUnique(data, "dependencies");
    var m := Merge(deps, devDeps);
    MergeLaw(deps, devDeps);
    var ds := DictEntries(m);
    assert PackageJsonDependencies(content, parse) == Some(ds);
    forall n ensures n in NamesOf(ds) <==> n in Keys(deps) || n in Keys(devDeps) {
      AppendNewMembers(Keys(deps), Keys(devDeps), n);
    }
    forall i | 0 <= i < |ds|
      ensures Some(ds[i].version) == if ds[i].name in Keys(devDeps) then Get(devDeps, ds[i].name) else Get(deps, ds[i].name)
    {
      GetAt(m, i);
    }
  }

  /** `{"dependencies": {"a": "1.0.0"}, "devDependencies": {"a": "2.0.0"}}` yields `a` at 2.0.0 only. */
  lemma DevDependencyWins(content: string, parse: Parser)
    requires Strip(content, Whitespace) != ""
    requires parse(content) == Some(JObject([
      ("dependencies", JObject([("a", JString("1.0.0"))])),
      ("devDependencies", JObject([("a", JString("2.0.0"))]))]))
    ensures PackageJsonDependencies(content, parse) == Some([Dependency("a", JString("2.0.0"))])
  {
    var j := parse(content).value;
    var deps := [("a", JString("1.0.0"))];
    var devDeps := [("a", JString("2.0.0"))];
    AsDictLaw(j.members);
    assert Get(j.members, "devDependencies") == Some(JObject(devDeps));
    assert Get(j.members, "dependencies") == Some(JObject(deps)) by {
      assert j.members[..1] == [("dependencies", JObject(deps))];
    }
    assert AsDict(deps) == deps by { AsDictSingle("a", JString("1.0.0")); }
    assert AsDict(devDeps) == devDeps by { AsDictSingle("a", JString("2.0.0")); }
    assert Merge(deps, devDeps) == devDeps by {
      assert Keys(deps) == ["a"];
      assert IndexOf(Keys(deps), "a") == 0;
      assert devDeps[..0] == [];
    }
    assert MappingField(ObjectDict(j), "dependencies") == Some(deps);
    assert MappingField(ObjectDict(j), "devDependencies") == Some(devDeps);
    assert DictEntries(devDeps) == [Dependency("a", JString("2.0.0"))];
  }

  lemma AsDictSingle(k: string, v: Json)
    ensures AsDict([(k, v)]) == [(k, v)]
  {
    assert [(k, v)][..0] == [];
    assert Update([], [(k, v)][..0]) == [];
    assert Keys<Json>([]) == [];
    assert IndexOf([], k) == -1;
  }

  /** `{}` yields no dependencies. */
  lemma EmptyObjectHasNone(content: string, parse: Parser)
    requires Strip(content, Whitespace) != ""
    requires parse(content) == Some(JObject([]))
    ensures PackageJsonDependencies(content, parse) == Some([])
  {
  }

  // ---------------------------------------------------------------- yarn.lock

  /**
   * The scoped-package name `'@' + parts[1].split(',')[0]`. It is only reached when
   * `parts[0]` starts with '@', which never happens (see `ScopedBranchUnreachable`), and
   * is total so that the unreachable branch holds no proof obligation.
   */
  function ScopedName(parts: seq<string>): string {
    if |parts| >= 2 then "@" + Split(parts[1], ',')[0] else "@"
  }

  /**
   * The package name a yarn.lock line announces: `None` unless the stripped line starts
   * with a double quote and, with its quotes stripped, contains '@'.
   */
  function HeaderName(line: string): Option<string> {
    var t := Strip(line, Whitespace);
    if !StartsWith(t, '"') then None
    else
      var p := Strip(t, Quote);
      if '@' !in p then None
      else
        var parts := Split(p, '@');
        Some(if StartsWith(parts[0], '@') then ScopedName(parts) else parts[0])
  }

  /** The name a line contributes: the announced name unless it is empty. */
  function NamedIn(line: string): Option<string> {
    match HeaderName(line)
    case Some(n) => if n != "" then Some(n) else None
    case None => None
  }

  /** The non-empty names announced by `lines`, in order, repeats included. */
  function HeaderNames(lines: seq<string>): seq<string> {
    Somes(Map(lines, NamedIn))
  }

  /** The names the yarn.lock parser collects from `content`. */
  function YarnLockNames(content: string): seq<string> {
    Dedup(HeaderNames(Split(content, '\n')))
  }

  /** The part of the loop body that reads one line: the package it announces, if any. */
  method ReadHeader(line: string) returns (currentPackage: Option<string>)
    ensures currentPackage == HeaderName(line)
  {
    currentPackage := None;
    var stripped := Strip(line, Whitespace);
    if StartsWith(stripped, '"') {
      var packageLine := Strip(stripped, Quote);
      if '@' in packageLine {
        var parts := Split(packageLine, '@');
        if StartsWith(parts[0], '@') {
          currentPackage := Some(ScopedName(parts));
        } else {
          currentPackage := Some(parts[0]);
        }
      }
    }
  }

  /** The header-scanning loop of the yarn.lock branch. */
  method ParseYarnLock(content: string) returns (names: seq<string>)
    ensures names == YarnLockNames(content)
  {
    var lines := Split(content, '\n');
    names := [];
    var i := 0;
    while i < |lines|
      invariant 0 <= i <= |lines|
      invariant names == Dedup(HeaderNames(lines[..i]))
    {
      var currentPackage := ReadHeader(lines[i]);
      YarnLockReadStep(lines, i, names, currentPackage);
      if currentPackage.Some? && currentPackage.value != "" && currentPackage.value !in names {
        names := names + [currentPackage.value];
      }
      i := i + 1;
    }
    assert lines[..i] == lines;
  }

  /** Line `i` adds its name when it announces a new one. */
  lemma YarnLockNamesStep(lines: seq<string>, i: int)
    requires 0 <= i < |lines|
    ensures Dedup(HeaderNames(lines[..i + 1])) ==
      var ns := Dedup(HeaderNames(lines[..i]));
      match NamedIn(lines[i])
      case Some(n) => if n in ns then ns else ns + [n]
      case None => ns
  {
    assert lines[..i + 1] == lines[..i] + [lines[i]];
    assert Map(lines[..i + 1], NamedIn) == Map(lines[..i], NamedIn) + [NamedIn(lines[i])];
    SomesSnoc(Map(lines[..i], NamedIn), NamedIn(lines[i]));
    if NamedIn(lines[i]).Some? {
      AppendNewSnoc([], HeaderNames(lines[..i]), NamedIn(lines[i]).value);
    }
  }

  /** `YarnLockNamesStep` in the terms of the loop: the header read from line `i` and the names so far. */
  lemma YarnLockReadStep(lines: seq<string>, i: int, names: seq<string>, currentPackage: Option<string>)
    requires 0 <= i < |lines|
    requires names == Dedup(HeaderNames(lines[..i])) && currentPackage == HeaderName(lines[i])
    ensures Dedup(HeaderNames(lines[..i + 1])) ==
      if currentPackage.Some? && currentPackage.value != "" && currentPackage.value !in names
      then names + [currentPackage.value] else names
  {
    YarnLockNamesStep(lines, i);
  }

  /** No announced name contains '@', so the scoped-package branch is dead. */
  lemma ScopedBranchUnreachable(line: string)
    ensures HeaderName(line).Some? ==> '@' !in HeaderName(line).value
  {
    var t := Strip(line, Whitespace);
    var p := Strip(t, Quote);
    SplitPiecesHaveNoSeparator(p, '@');
  }

  /**
   * A line announces a name exactly when its stripped form starts with a double quote
   * and, with the quotes stripped, contains '@'; the name is then the text before the
   * first '@'.
   */
  lemma HeaderNameIsPrefixBeforeAt(line: string)
    ensures HeaderName(line).Some? <==>
      StartsWith(Strip(line, Whitespace), '"') && '@' in Strip(Strip(line, Whitespace), Quote)
    ensures HeaderName(line).Some? ==>
      var p := Strip(Strip(line, Whitespace), Quote);
      var n := HeaderName(line).value;
      |n| < |p| && p[..|n|] == n && p[|n|] == '@' && '@' !in n
  {
    var t := Strip(line, Whitespace);
    if StartsWith(t, '"') {
      var p := Strip(t, Quote);
      if '@' in p {
        IndexOfFound(p, '@');
        IndexOfFirst(p, '@');
        var i := IndexOf(p, '@');
        SplitAt(p, '@', i);
        ScopedBranchUnreachable(line);
        assert HeaderName(line) == Some(p[..i]);
      }
    }
  }

  /** The name is the text before the first '@' of the quote-stripped line. */
  lemma HeaderNameAt(line: string, i: int)
    requires StartsWith(Strip(line, Whitespace), '"')
    requires var p := Strip(Strip(line, Whitespace), Quote);
      0 <= i < |p| && p[i] == '@' && '@' !in p[..i]
    ensures HeaderName(line) == Some(Strip(Strip(line, Whitespace), Quote)[..i])
  {
    var p := Strip(Strip(line, Whitespace), Quote);
    IndexOfIs(p, '@', i);
    SplitAt(p, '@', i);
    ScopedBranchUnreachable(line);
  }

  /** A header line `"<n>@...":`, with `n` free of `@` and not opening with a quote, announces `n`. */
  lemma QuotedHeaderName(line: string, n: string)
    requires |line| >= |n| + 3 && line[0] == '"' && line[|line| - 1] == ':'
    requires n != [] && n[0] != '"' && '@' !in n
    requires line[1..|n| + 1] == n && line[|n| + 1] == '@'
    ensures HeaderName(line) == Some(n)
  {
    StripKeeps(line, Whitespace);
    QuoteOpensOnly(line);
    var p := line[1..];
    assert p[..|n|] == n;
    HeaderNameAt(line, |n|);
  }

  /** A line `"lodash@<range>":`, such as `"lodash@^4.17.0":`, announces `lodash`. */
  lemma LodashHeader(line: string)
    requires |line| >= 9 && line[..8] == "\"lodash@" && line[|line| - 1] == ':'
    ensures HeaderName(line) == Some("lodash")
  {
    assert line[1..7] == "lodash";
    QuotedHeaderName(line, "lodash");
  }

  /** Two lines announcing the same name give that name once. */
  lemma {:induction false} RepeatedHeader(content: string, l1: string, l2: string, n: string)
    requires content == l1 + ['\n'] + l2 && '\n' !in l1 && '\n' !in l2 && n != ""
    requires HeaderName(l1) == Some(n) && HeaderName(l2) == Some(n)
    ensures YarnLockNames(content) == [n]
  {
    assert NamedIn(l1) == Some(n) && NamedIn(l2) == Some(n);
    SameNameTwice([l1, l2], n);
    SplitTwo(l1, l2, '\n');
  }

  /** Two lines that both announce `n` collect it once. */
  lemma SameNameTwice(lines: seq<string>, n: string)
    requires |lines| == 2 && NamedIn(lines[0]) == Some(n) && NamedIn(lines[1]) == Some(n)
    ensures Dedup(HeaderNames(lines)) == [n]
  {
    YarnLockNamesStep(lines, 0);
    assert lines[..0] == [] && lines[..1] == [lines[0]];
    YarnLockNamesStep(lines, 1);
    assert lines[..2] == lines;
  }

  /** Two lines `"lodash@<range>":` give `lodash` once. */
  lemma LodashTwice(content: string, l1: string, l2: string)
    requires content == l1 + ['\n'] + l2 && '\n' !in l1 && '\n' !in l2
    requires |l1| >= 9 && l1[..8] == "\"lodash@" && l1[|l1| - 1] == ':'
    requires |l2| >= 9 && l2[..8] == "\"lodash@" && l2[|l2| - 1] == ':'
    ensures YarnLockNames(content) == ["lodash"]
  {
    LodashHeader(l1);
    LodashHeader(l2);
    RepeatedHeader(content, l1, l2, "lodash");
  }

  /** Two headers of the same package give its name once. */
  lemma LodashListedOnce()
    ensures YarnLockNames("\"lodash@^4.17.0\":\n\"lodash@^4.16.0\":") == ["lodash"]
  {
    var l1, l2 := "\"lodash@^4.17.0\":", "\"lodash@^4.16.0\":";
    assert "\"lodash@^4.17.0\":\n\"lodash@^4.16.0\":" == l1 + ['\n'] + l2;
    assert '\n' !in l1 && '\n' !in l2;
    assert l1[..8] == "\"lodash@" && l2[..8] == "\"lodash@";
    LodashTwice("\"lodash@^4.17.0\":\n\"lodash@^4.16.0\":", l1, l2);
  }

  /** A quoted scoped header such as `"@babel/core@^7.0.0":` announces the empty name. */
  lemma ScopedHeaderNamesNothing(line: string)
    requires HasPrefix(Strip(line, Whitespace), "\"@")
    ensures HeaderName(line) == Some("")
  {
    var t := Strip(line, Whitespace);
    assert t[0] == '"' && t[1] == '@';
    var u := TrimStart(t, Quote);
    assert TrimStart(t[1..], Quote) == t[1..];
    assert u == t[1..];
    var p := TrimEnd(u, Quote);
    TrimEndPrefix(u, Quote);
    assert |p| > 0 && p[0] == '@';
    assert IndexOf(p, '@') == 0;
  }

  /** The header `"@babel/core@^7.0.0, @babel/core@^7.1.0":` announces the empty name. */
  lemma BabelHeaderDropped()
    ensures HeaderName("\"@babel/core@^7.0.0, @babel/core@^7.1.0\":") == Some("")
  {
    var line := "\"@babel/core@^7.0.0, @babel/core@^7.1.0\":";
    assert line[0] == '"' && line[1] == '@' && line[|line| - 1] == ':';
    StripKeeps(line, Whitespace);
    assert line[..2] == "\"@";
    ScopedHeaderNamesNothing(line);
  }

  /** The collected names are distinct. */
  lemma YarnLockNamesDistinct(content: string)
    ensures NoDup(YarnLockNames(content))
  {
    AppendNewNoDup([], HeaderNames(Split(content, '\n')));
  }

  /** Some line of `lines` announces the name `n`. */
  predicate Announces(lines: seq<string>, n: string) {
    exists k :: 0 <= k < |lines| && HeaderName(lines[k]) == Some(n)
  }

  lemma HeaderNamesMembers(lines: seq<string>, n: string)
    ensures n in HeaderNames(lines) <==> n != "" && Announces(lines, n)
  {
    SomesMembers(Map(lines, NamedIn), n);
    if n != "" && Announces(lines, n) {
      var k :| 0 <= k < |lines| && HeaderName(lines[k]) == Some(n);
      assert Map(lines, NamedIn)[k] == Some(n);
    }
  }

  /** A name is collected exactly when some line announces it and it is not empty. */
  lemma YarnLockNamesMembers(content: string, n: string)
    ensures n in YarnLockNames(content) <==> n != "" && Announces(Split(content, '\n'), n)
  {
    AppendNewMembers([], HeaderNames(Split(content, '\n')), n);
    HeaderNamesMembers(Split(content, '\n'), n);
  }

  /** The collected names keep the order of their first announcement. */
  lemma YarnLockNamesOrder(content: string)
    ensures var names := YarnLockNames(content); var all := HeaderNames(Split(content, '\n'));
      forall i, j :: 0 <= i < j < |names| ==> IndexOf(all, names[i]) < IndexOf(all, names[j])
  {
    var all := HeaderNames(Split(content, '\n'));
    assert YarnLockNames(content) == AppendNew([], all);
    AppendNewFirstOccurrenceOrder([], all);
  }

  // ---------------------------------------------------------------- requirements.txt

  /** `line.strip() and not line.startswith('#')`, with the `#` test on the raw line. */
  predicate IsRequirement(raw: string) {
    Strip(raw, Whitespace) != "" && !StartsWith(raw, '#')
  }

  function StripLine(raw: string): string {
    Strip(raw, Whitespace)
  }

  /** `[line.strip() for line in lines if line.strip() and not line.startswith('#')]`. */
  function KeptRequirements(lines: seq<string>): seq<string> {
    Map(Filter(lines, IsRequirement), StripLine)
  }

  /** The requirement entries of a requirements.txt. */
  function Requirements(content: string): seq<string> {
    KeptRequirements(ReadLines(content))
  }

  /** Every entry is non-empty and already stripped. */
  lemma RequirementsAreStripped(lines: seq<string>)
    ensures forall k :: 0 <= k < |KeptRequirements(lines)| ==>
      KeptRequirements(lines)[k] != "" && StripLine(KeptRequirements(lines)[k]) == KeptRequirements(lines)[k]
  {
    var kept := Filter(lines, IsRequirement);
    forall k | 0 <= k < |kept|
      ensures KeptRequirements(lines)[k] != "" && StripLine(KeptRequirements(lines)[k]) == KeptRequirements(lines)[k]
    {
      FilterMembers(lines, IsRequirement, kept[k]);
      StripIdempotent(kept[k], Whitespace);
    }
  }

  /** The filter keeps file order: it distributes over concatenation. */
  lemma RequirementsInOrder(a: seq<string>, b: seq<string>)
    ensures KeptRequirements(a + b) == KeptRequirements(a) + KeptRequirements(b)
  {
    FilterAppend(a, b, IsRequirement);
  }

  /** There is one entry per line that passes the test. */
  lemma RequirementsCount(lines: seq<string>)
    ensures |KeptRequirements(lines)| == |KeptIndices(lines, IsRequirement)|
  {
    FilterCount(lines, IsRequirement);
  }

  /** An entry is exactly the stripped form of some line that passes the test. */
  lemma RequirementsMembers(lines: seq<string>, e: string)
    ensures e in KeptRequirements(lines) <==>
      exists raw :: raw in lines && IsRequirement(raw) && StripLine(raw) == e
  {
    var kept := Filter(lines, IsRequirement);
    if e in KeptRequirements(lines) {
      var k :| 0 <= k < |kept| && StripLine(kept[k]) == e;
      FilterMembers(lines, IsRequirement, kept[k]);
    }
    if raw :| raw in lines && IsRequirement(raw) && StripLine(raw) == e {
      FilterMembers(lines, IsRequirement, raw);
      var k :| 0 <= k < |kept| && kept[k] == raw;
      assert KeptRequirements(lines)[k] == e;
    }
  }

  /**
   * Reading with `readlines()` (newlines kept) or splitting on '\n' gives the same entries:
   * the kept newline is stripped and never decides the '#' test.
   */
  lemma {:induction false} RequirementsIgnoreLineEnds(content: string)
    ensures Requirements(content) == KeptRequirements(Split(content, '\n'))
    decreases |content|
  {
    var i := IndexOf(content, '\n');
    if content == [] {
      EmptyRequirements();
    } else if i >= 0 {
      RequirementsIgnoreLineEnds(content[i + 1..]);
      RequirementsLineStep(content, i);
    } else {
      IndexOfFound(content, '\n');
      OneLineRequirements(content);
    }
  }

  /** An empty file and its single empty piece both give no entries. */
  lemma EmptyRequirements()
    ensures Requirements("") == KeptRequirements(Split("", '\n')) == []
  {
    assert Split("", '\n') == [""];
    assert Filter([""], IsRequirement) == [] by {
      assert [""][..0] == [];
    }
  }

  /** A non-empty text without a newline is one line and one piece. */
  lemma OneLineRequirements(content: string)
    requires content != [] && '\n' !in content
    ensures Requirements(content) == KeptRequirements(Split(content, '\n'))
  {
    assert ReadLines(content) == [content] == Split(content, '\n');
  }

  /** The step of `RequirementsIgnoreLineEnds`: the first line, with or without its newline. */
  lemma RequirementsLineStep(content: string, i: int)
    requires 0 <= i < |content| && i == IndexOf(content, '\n')
    requires Requirements(content[i + 1..]) == KeptRequirements(Split(content[i + 1..], '\n'))
    ensures Requirements(content) == KeptRequirements(Split(content, '\n'))
  {
    FirstLineKept(content, i);
    FirstPieceKept(content, i);
    LineEndIgnored(content[..i]);
    PrefixThrough(content, i);
  }

  /** The entries of a text are those of its first line, then those of the rest. */
  lemma FirstLineKept(content: string, i: int)
    requires 0 <= i < |content| && i == IndexOf(content, '\n')
    ensures Requirements(content) == KeptRequirements([content[..i + 1]]) + Requirements(content[i + 1..])
  {
    ReadLinesAt(content, i);
    RequirementsInOrder([content[..i + 1]], ReadLines(content[i + 1..]));
  }

  /** The entries of the pieces are those of the first piece, then those of the rest. */
  lemma FirstPieceKept(content: string, i: int)
    requires 0 <= i < |content| && i == IndexOf(content, '\n')
    ensures KeptRequirements(Split(content, '\n')) ==
      KeptRequirements([content[..i]]) + KeptRequirements(Split(content[i + 1..], '\n'))
  {
    SplitAt(content, '\n', i);
    RequirementsInOrder([content[..i]], Split(content[i + 1..], '\n'));
  }

  /** A line gives the same entry with or without its newline. */
  lemma LineEndIgnored(piece: string)
    ensures KeptRequirements([piece + ['\n']]) == KeptRequirements([piece])
  {
    var line := piece + ['\n'];
    StripDropsLast(piece, '\n', Whitespace);
    assert IsRequirement(line) == IsRequirement(piece);
    assert [line][..0] == [] && [piece][..0] == [];
  }

  /** A comment line indented by whitespace passes the test and survives as its stripped text. */
  lemma IndentedCommentKept(raw: string)
    requires |raw| > 0 && IsSpace(raw[0]) && StartsWith(StripLine(raw), '#')
    ensures IsRequirement(raw)
    ensures KeptRequirements([raw]) == [StripLine(raw)]
  {
    assert Filter([raw], IsRequirement) == [raw] by {
      assert [raw][..0] == [];
    }
  }
}
