# hawkeye dependency scanner, modelled in Dafny

hawkeye walks every repository of a GitHub organisation and looks up security
advisories for third-party dependencies. Each repository is cloned, its dependency
manifests (`package.json`, `yarn.lock`, `requirements.txt`) are found, and each
directory's package manager is decided. The names and versions are then extracted into
three lists keyed `npm`, `yarn` and `python`, and the advisory service is queried once
per recorded dependency.

This project models that engine, `main.py`, as follows:

- **Immutable values**: the checkout, JSON values and dictionaries.
- **`DependencyScanner` as a class**: its memo `package_managers` and its dictionary of
  lists `dependencies` are fields that its methods update.
- **Loops as methods with invariants**: the yarn.lock line scanner, the
  dependency-file filter, the advisory loop and the `main` batch loop. Each method is
  proved equal to a specification function, and the properties are proved about those
  functions.

Behaviour that is not computed in `main.py` is passed in as a parameter:

- JSON decoding: a `Parser`, `string -> Option<Json>`, where `None` means the decoder
  raised.
- The advisory service: a `Lookup` from a package name to a reply or an exception.
- `git clone` and the recursive walk: a `Cloner` from a URL to a checkout plus its walk
  in walk order, or the clone error.
- The `EXCLUDED_REPOS` environment variable: an `Option<string>`.

A `try`/`except` that makes a file contribute nothing becomes an `Option` or a total
function returning the empty contribution. An exception that ends a scan becomes a
`Failed` result.

Modules, one per file:

| module | file | what |
|---|---|---|
| `Wrappers` | wrappers.dfy | `Option`, `Result` |
| `Seqs` | seqs.dfy | list idioms: `x not in acc` appends, comprehensions, filters |
| `Text` | text.dfy | `str.strip`, `split`, `join`, `startswith`, `in`, `lower`, `readlines` |
| `Dicts` | dicts.dfy | Python dictionaries as key-ordered pair lists: `get`, `d[k] = v`, `dict(...)`, `{**a, **b}` |
| `Json` | json.dfy | decoded JSON values, truthiness |
| `Files` | files.dfy | a checkout: directory listings and file contents |
| `Ecosystems` | ecosystems.dfy | the three tags, dependency records, `_get_file_type` |
| `Detection` | detection.dfy | `detect_package_manager` |
| `Parsers` | parsers.dfy | the package.json, yarn.lock and requirements.txt parsers |
| `Scanning` | scanning.dfy | `find_dependency_files` and `parse_dependencies` as functions on the scanner's state |
| `Advisories` | advisories.dfy | `check_vulnerabilities` as a function of the lookup |
| `Scanner` | scanner.dfy | class `DependencyScanner` |
| `Orchestrator` | orchestrator.dfy | `scan_repository` and the loop of `main` |

### Behaviours of the code the model states

- **Scoped yarn.lock names.** main.py:126 splits the unquoted header on `'@'`, and only
  then does main.py:127 test whether `parts[0]` starts with `'@'`.
  - No piece of that split contains `'@'`, so the branch at main.py:127-129, the one
    marked `# Scoped package`, never runs (`Parsers.ScopedBranchUnreachable`).
  - A scoped header such as `"@babel/core@^7.0.0":` gives an empty `parts[0]`, which
    the test at main.py:133 drops (`Parsers.ScopedHeaderNamesNothing`,
    `Parsers.BabelHeaderDropped`). So scoped yarn.lock packages are never recorded.
- **Comments in requirements.txt.** main.py:151 tests `line.startswith('#')` on the raw
  line, not on `line.strip()`. An indented comment therefore passes, and is recorded as
  its stripped text (`Parsers.IndentedCommentKept`).
- **Advisory failures.** Nothing in `check_vulnerabilities` catches an exception from
  `requests.get` (main.py:181-185) or from `response.json()` (main.py:188).
  - Either one reaches the handler of `scan_repository` (main.py:281-286), which ends
    that repository's scan with an `error` result.
  - The message is that of the first failing query (`Orchestrator.ScanFailsOnQuery`).
  - A non-200 status raises nothing; it only means no match.
- **Excluded repositories.** main.py:313 skips every repository whose name is in
  `EXCLUDED_REPOS`, and nothing is reported for it (`Orchestrator.BatchNames`).

## Model

| member | source | states |
|---|---|---|
| `Text.TrimStart` | main.py:122 | the result is no longer than the input and does not start with a stripped character |
| `Text.TrimStartSuffix` | main.py:122 | `lstrip` removes exactly a prefix made of stripped characters |
| `Text.TrimEnd` | main.py:122 | the result is no longer than the input and does not end with a stripped character |
| `Text.TrimEndPrefix` | main.py:122 | `rstrip` removes exactly a suffix made of stripped characters |
| `Text.Strip` | main.py:122-124 | neither end of `strip()` / `strip('"')` is a stripped character, and it is no longer than the input |
| `Text.StripKeeps` | main.py:122-124 | a string that begins and ends with kept characters is its own strip |
| `Text.StripIdempotent` | main.py:149 | stripping twice is stripping once |
| `Text.StripDropsLast` | main.py:149-151 | a trailing whitespace character (the newline `readlines` keeps) does not change the strip |
| `Text.QuoteOpensOnly` | main.py:124 | a line opened but not closed by one double quote loses only that quote to `strip('"')` |
| `Text.StartsWith` | main.py:123 | `startswith` of one character: the string is non-empty and begins with it; used by `Parsers.HeaderNameIsPrefixBeforeAt` and `Parsers.IsRequirement` (main.py:151) |
| `Text.ContainsAt` | main.py:52 | substring `in` holds exactly when the pattern occurs at some index |
| `Text.Contains` | main.py:52 | substring `in`, as in `'yarn' in ....lower()`; its properties are `Text.ContainsAt` |
| `Text.Lower` | main.py:52 | `lower()`; its properties are `Text.LowerLaw` |
| `Text.LowerLaw` | main.py:52 | `lower()` keeps the length; it turns each upper-case letter into its lower-case letter and leaves every other character alone; no upper-case letter remains, so lowering twice is lowering once |
| `Text.Split` | main.py:121 | `split(sep)` gives at least one piece |
| `Text.SplitCount` | main.py:121 | `split(sep)` gives more than one piece exactly when `sep` occurs |
| `Text.SplitPiecesHaveNoSeparator` | main.py:126 | no piece of `split(sep)` contains `sep` |
| `Text.JoinSplit` | main.py:16 | joining the pieces of `split(sep)` with `sep` gives the string back |
| `Text.SplitJoin` | main.py:16 | splitting separator-free pieces joined by `sep` gives the pieces back |
| `Text.SplitTwo` | main.py:121 | two separator-free pieces joined by `sep` split into exactly those two |
| `Text.ReadLines` | main.py:150 | no line `readlines()` yields is empty |
| `Text.ReadLinesConcat` | main.py:150 | the lines concatenate to the text |
| `Text.ReadLinesEndings` | main.py:150 | a newline only ends a line, and every line but the last ends with one |
| `Json.Truthy` | main.py:189 | `if vulns:` on the decoded body; its use is stated by `Advisories.Check` and `Advisories.ReportFields` |
| `Dicts.Get` | main.py:94-95 | `d.get(k)`; its properties are `Dicts.GetAbsent` and `Dicts.GetAt` |
| `Dicts.Assign` | main.py:93-96 | `d[k] = v`; its properties are `Dicts.AssignLaw` |
| `Dicts.Update` | main.py:93-96 | `for k, v in e: d[k] = v`; its properties are `Dicts.UpdateKeys`, `Dicts.UpdateGet` and `Dicts.UpdateEmptyIdentity` |
| `Dicts.AsDict` | main.py:88 | a decoded object as a dictionary; its properties are `Dicts.AsDictLaw` |
| `Dicts.Merge` | main.py:93-96 | `{**a, **b}`; its properties are `Dicts.MergeLaw` |
| `Dicts.GetAbsent` | main.py:94-95 | `get` of an absent key finds nothing, so the `{}` default applies |
| `Dicts.GetAt` | main.py:101 | in a key-unique dictionary, each pair `items()` yields is what `get` finds for its key |
| `Dicts.AssignLaw` | main.py:93-96 | `d[k] = v` keeps keys unique, adds only a new `k` at the end, and changes only `k`'s value |
| `Dicts.UpdateKeys` | main.py:93-96 | inserting pairs in order keeps keys unique and appends the new keys in first-occurrence order |
| `Dicts.UpdateGet` | main.py:93-96 | after inserting pairs, a key that was inserted holds its last inserted value; every other key is untouched |
| `Dicts.UpdateEmptyIdentity` | main.py:93-96 | rebuilding a key-unique dictionary gives it back |
| `Dicts.AsDictLaw` | main.py:88 | a decoded object as a dictionary has unique keys in first-occurrence order, each with its last value |
| `Dicts.MergeLaw` | main.py:93-96 | `{**a, **b}`: `a`'s keys keep their places, then `b`'s new keys in order; a key of `b` takes `b`'s value |
| `Seqs.IndexOf` | main.py:121-126 | the position where `str.split` cuts: it holds the separator, or is -1 |
| `Seqs.IndexOfFound` | main.py:93-96 | `d[k] = v` finds a position for `k` exactly when `k` is already a key |
| `Seqs.IndexOfFirst` | main.py:121-126 | `split` cuts at the first separator: none occurs before the position found |
| `Seqs.IndexOfIs` | main.py:133-134 | the first position holding a name is the one found, which orders the collected names by first announcement |
| `Seqs.AppendNew` | main.py:133-134 | appending only absent names keeps what was collected as a prefix |
| `Seqs.AppendNewSnoc` | main.py:133-134 | one more candidate is appended exactly when it is not yet collected |
| `Seqs.AppendNewMembers` | main.py:133-134 | an element is collected exactly when it was present before or is a candidate |
| `Seqs.AppendNewNoDup` | main.py:133-134 | the collected list stays duplicate-free |
| `Seqs.AppendNewFirstOccurrenceOrder` | main.py:133-134 | the appended part holds new candidates only, ordered by their first occurrence |
| `Seqs.FilterAppend` | main.py:148-152 | a filtering comprehension distributes over concatenation (it keeps order) |
| `Seqs.FilterMembers` | main.py:148-152 | an element is kept exactly when it occurs and passes the test |
| `Seqs.FilterCount` | main.py:148-152 | one element is kept per position that passes the test |
| `Seqs.SomesSnoc` | main.py:121-134 | one more line adds its name exactly when it announces one |
| `Seqs.SomesMembers` | main.py:121-134 | a name is among the announced names exactly when some line announces it |
| `Ecosystems.WithUnknownVersion` | main.py:136-139 | the records built from names; its properties are `Ecosystems.WithUnknownVersionNames` |
| `Ecosystems.WithUnknownVersionNames` | main.py:136-139 | one record per name, carrying the names in order, each with version `unknown` |
| `Ecosystems.FileTypeOf` | main.py:225-232 | a recognised type is one whose manifest name is the file name; `None` exactly for other names |
| `Ecosystems.FileTypeOfManifestName` | main.py:225-232 | each type is recognised from its own manifest name |
| `Detection.DeclaresYarn` | main.py:52 | the `packageManager` test; its properties are `Detection.YarnDeclaration` and `Detection.NpmDeclaration` |
| `Detection.ManifestManager` | main.py:47-56 | the verdict from package.json; its properties are `Detection.ManifestDecides` |
| `Detection.DetectPackageManager` | main.py:31-60 | never python; `None` exactly when the directory is missing or holds none of yarn.lock, package-lock.json and package.json |
| `Files.DirExists` | main.py:34 | `directory.exists()`: the directory is listed in the tree; `Detection.DetectPackageManager` answers nothing without it |
| `Files.Exists` | main.py:41-47 | `(directory / name).exists()`: the directory is listed and holds the name; `Detection.YarnLockWins`, `Detection.PackageLockNext` and `Detection.ManifestDecides` decide by it |
| `Files.Read` | main.py:82-83 | `open(p).read()`: the file's text, or nothing when opening or decoding raises (also main.py:50, 116 and 147); `Scanning.PackageJsonToManager`, `Scanning.YarnLockParsed` and `Scanning.RequirementsToPython` state what a read file contributes, and `Detection.DetectionIsLocal` that only reads inside the directory matter |
| `Detection.YarnLockWins` | main.py:41-43 | a yarn.lock decides yarn, whatever else is present |
| `Detection.PackageLockNext` | main.py:44-46 | otherwise a package-lock.json decides npm |
| `Detection.ManifestDecides` | main.py:47-56 | otherwise the verdict is yarn exactly when package.json reads, decodes to an object and its `packageManager` string, lower-cased, contains `yarn`; npm otherwise, errors included |
| `Detection.DetectionIsLocal` | main.py:34-57 | the verdict depends only on the directory's three names and its package.json |
| `Detection.YarnDeclaration` | main.py:52 | `"Yarn@3.0.0"` declares yarn, because the comparison ignores letter case |
| `Detection.NpmDeclaration` | main.py:52 | `"npm@9.0.0"` does not declare yarn |
| `Parsers.DictEntries` | main.py:99-102 | the records carry the dictionary's keys, in order |
| `Parsers.MappingField` | main.py:94-95 | `package_data.get(key, {})` unpacked; its properties are `Parsers.MappingFieldUnique` |
| `Parsers.PackageJsonDependencies` | main.py:84-102 | the package.json contribution; its properties are `Parsers.PackageJsonRejects`, `Parsers.PackageJsonFieldRejects`, `Parsers.PackageJsonMerges` and `Parsers.DevDependencyWins` |
| `Parsers.MappingFieldUnique` | main.py:93-96 | an unpacked `dependencies` / `devDependencies` object is a key-unique dictionary |
| `Parsers.PackageJsonRejects` | main.py:84-91 | blank content, undecodable content or a non-object document contributes nothing |
| `Parsers.PackageJsonFieldRejects` | main.py:93-110 | a `dependencies` or `devDependencies` value that is not an object makes `**` raise, and the file contributes nothing |
| `Parsers.PackageJsonMerges` | main.py:93-102 | otherwise: one record per distinct name, `dependencies` names first, then names only in `devDependencies`; `devDependencies` wins on a shared name; versions verbatim |
| `Parsers.DevDependencyWins` | main.py:93-96 | the same name in both fields yields one record with the `devDependencies` version |
| `Parsers.EmptyObjectHasNone` | main.py:98-105 | `{}` yields no records |
| `Parsers.HeaderName` | main.py:122-131 | the name one yarn.lock line announces; its properties are `Parsers.HeaderNameIsPrefixBeforeAt`, `Parsers.HeaderNameAt`, `Parsers.ScopedBranchUnreachable` and `Parsers.ScopedHeaderNamesNothing` |
| `Parsers.ScopedName` | main.py:129 | the name the scoped branch would form: `@` and the first comma-separated piece of the second `@`-part; `Parsers.ScopedBranchUnreachable` states that the branch never runs |
| `Parsers.NamedIn` | main.py:133 | the announced name unless it is empty; its properties are `Parsers.HeaderNamesMembers` |
| `Parsers.YarnLockNames` | main.py:118-134 | the names the yarn.lock loop collects; its properties are `Parsers.YarnLockNamesDistinct`, `Parsers.YarnLockNamesMembers` and `Parsers.YarnLockNamesOrder` |
| `Parsers.ReadHeader` | main.py:122-131 | the loop body computes the name the line announces (`HeaderName`) |
| `Parsers.ParseYarnLock` | main.py:118-134 | the loop collects the distinct non-empty announced names in order (`YarnLockNames`) |
| `Parsers.YarnLockNamesStep` | main.py:121-134 | one more line adds its non-empty name exactly when the name is new |
| `Parsers.ScopedBranchUnreachable` | main.py:125-129 | no announced name contains `@`, so the scoped branch never runs |
| `Parsers.ScopedHeaderNamesNothing` | main.py:123-133 | a quoted header starting `"@` announces the empty name |
| `Parsers.BabelHeaderDropped` | main.py:123-133 | `"@babel/core@^7.0.0, @babel/core@^7.1.0":` announces the empty name |
| `Parsers.HeaderNameIsPrefixBeforeAt` | main.py:122-131 | a line announces a name exactly when its stripped form starts with `"` and, with quotes stripped, contains `@`; the name is then the `@`-free text before the first `@` |
| `Parsers.HeaderNameAt` | main.py:124-131 | when index `i` holds the first `@` of the quote-stripped line, the name is the text before `i` |
| `Parsers.QuotedHeaderName` | main.py:122-131 | a header `"<n>@...":`, with `n` free of `@` and not opening with a quote, announces `n` |
| `Parsers.LodashHeader` | main.py:122-131 | every line `"lodash@<range>":`, such as `"lodash@^4.17.0":`, announces `lodash` |
| `Parsers.RepeatedHeader` | main.py:121-134 | two lines announcing the same non-empty name collect that name once |
| `Parsers.SameNameTwice` | main.py:133-134 | two lines that both announce `n` append it once, through the `not in dependencies` test |
| `Parsers.LodashTwice` | main.py:121-134 | two `"lodash@<range>":` lines collect `["lodash"]` |
| `Parsers.LodashListedOnce` | main.py:118-134 | the lines `"lodash@^4.17.0":` and `"lodash@^4.16.0":` collect `["lodash"]` |
| `Parsers.YarnLockNamesDistinct` | main.py:133-134 | the collected names are distinct |
| `Parsers.HeaderNamesMembers` | main.py:121-134 | a name is announced and kept exactly when it is non-empty and some line announces it |
| `Parsers.YarnLockNamesMembers` | main.py:121-134 | a name is collected exactly when it is non-empty and some line of the file announces it |
| `Parsers.YarnLockNamesOrder` | main.py:133-134 | the collected names keep the order of their first announcement |
| `Parsers.KeptRequirements` | main.py:148-152 | the requirements comprehension over given lines; its properties are `Parsers.RequirementsAreStripped`, `Parsers.RequirementsInOrder`, `Parsers.RequirementsCount` and `Parsers.RequirementsMembers` |
| `Parsers.IsRequirement` | main.py:151 | the filter test, with `#` tested on the raw line; its properties are `Parsers.RequirementsMembers` and `Parsers.IndentedCommentKept` |
| `Parsers.Requirements` | main.py:148-152 | the comprehension over `readlines()`; its properties are `Parsers.RequirementsIgnoreLineEnds` |
| `Parsers.RequirementsAreStripped` | main.py:148-152 | every entry is non-empty and already stripped |
| `Parsers.RequirementsInOrder` | main.py:148-152 | entries keep file order: the filter distributes over concatenation |
| `Parsers.RequirementsCount` | main.py:148-152 | there is one entry per line that passes the test |
| `Parsers.RequirementsMembers` | main.py:148-152 | an entry is exactly the stripped form of a non-blank line whose raw text does not start with `#` |
| `Parsers.RequirementsIgnoreLineEnds` | main.py:150-151 | `readlines()` lines with their newlines give the same entries as splitting on newlines |
| `Parsers.LineEndIgnored` | main.py:149-151 | a line gives the same entries with or without its trailing newline |
| `Parsers.IndentedCommentKept` | main.py:151 | a comment indented by whitespace passes the test and is kept as its stripped text |
| `Scanning.DependencyFiles` | main.py:212-223 | the records `find_dependency_files` builds; its properties are `Scanning.DependencyFilesTyped`, `Scanning.DependencyFilesComplete` and `Scanning.DependencyFilesOrder` |
| `Scanning.IsDependencyFile` | main.py:215-216 | a walked file with one of the three manifest names; its properties are `Scanning.DependencyFilesTyped` and `Scanning.DependencyFilesComplete` |
| `Scanning.InfoOf` | main.py:217-221 | the path, type and parent directory of a record; its properties are `Scanning.DependencyFilesTyped` |
| `Scanning.DependencyFilesTyped` | main.py:214-221 | each record names a walked file with a manifest name, has that name's type (never `None`) and the file's parent directory |
| `Scanning.DependencyFilesComplete` | main.py:214-221 | every walked file with a manifest name is recorded; nothing of another name is |
| `Scanning.DependencyFilesOrder` | main.py:212-223 | records follow walk order, one per dependency file |
| `Scanning.Extend` | main.py:99-102 | `self.dependencies[e].extend(more)`; its properties are `Scanning.ExtendNothing` and `Scanning.ExtendAppends` |
| `Scanning.ParseFile` | main.py:62-163 | one call of `parse_dependencies`; its properties are `Scanning.ParseFileAppends`, `Scanning.ParseFileMemo`, `Scanning.ParseFileSound` and the per-file lemmas below |
| `Scanning.ParseAll` | main.py:271-272 | the parse loop of `scan_repository`; its properties are `Scanning.ParseAllInvariant` and `Scanning.PythonListIsRequirements` |
| `Scanning.PackageJsonFile` | main.py:81-110 | the package.json records, nothing when the file cannot be read or is rejected; its properties are `Scanning.PackageJsonToManager` |
| `Scanning.YarnLockFile` | main.py:115-143 | the yarn.lock records, nothing when the file cannot be read; its properties are `Scanning.YarnLockParsed` |
| `Scanning.RequirementsFile` | main.py:146-160 | the requirements.txt records, nothing when the file cannot be read; its properties are `Scanning.RequirementsToPython` |
| `Scanning.ExtendNothing` | main.py:99 | extending by nothing changes nothing |
| `Scanning.ExtendAppends` | main.py:99-102 | `extend` keeps the keys, only appends, and touches one list |
| `Scanning.Remember` | main.py:72-73 | after an npm or yarn file, its directory is memoised |
| `Scanning.ParseFileAppends` | main.py:70-160 | one file keeps the three keys, only appends, and appends to at most one list |
| `Scanning.ParseFileMemo` | main.py:72-75 | a memo entry is never changed, and exactly an npm or yarn file's directory gains one |
| `Scanning.ParseFileMemoIs` | main.py:70-75 | only npm and yarn files touch the memo, by detecting an unseen directory |
| `Scanning.ParseFileSound` | main.py:72-73 | a memo that agrees with detection keeps agreeing |
| `Scanning.CachedNoneAddsNothing` | main.py:75-78 | a memoised `None` makes the file change nothing, even if detection would now succeed |
| `Scanning.NoManagerAddsNothing` | main.py:75-78 | an npm or yarn file in a directory without a manager adds nothing |
| `Scanning.PackageJsonToManager` | main.py:80-102 | a package.json's records are appended to the list of its directory's detected manager, nothing else changes |
| `Scanning.YarnLockParsed` | main.py:112-139 | a yarn.lock in its own directory is parsed into the yarn list, nothing else changes |
| `Scanning.YarnLockIgnoredUnderNpm` | main.py:112-114 | a yarn.lock in a directory memoised as npm changes nothing |
| `Scanning.RequirementsToPython` | main.py:145-156 | a requirements.txt leaves the memo alone and appends its entries, version `unknown`, to the python list |
| `Scanning.ParseAllInvariant` | main.py:271-272 | the parse loop keeps the memo sound and the keys, and only appends |
| `Scanning.PythonListIsRequirements` | main.py:271-272 | the python list receives exactly the requirements entries, file after file; package.json and yarn.lock never reach it |
| `Scanning.ParseFilePython` | main.py:145-156 | one file reaches the python list only when it is a python file |
| `Scanning.ParseAllFromInitial` | main.py:25-29 | from the initial state the three keys always remain and the memo is sound |
| `Scanning.Initial` | main.py:24-29 | the state on construction: no directory classified, and empty `npm`, `yarn` and `python` lists; its properties are `Scanning.ParseAllFromInitial` |
| `Advisories.TagAll` | main.py:178 | the queries of one list; its properties are `Advisories.TagAllFields` |
| `Advisories.TagAllFields` | main.py:178 | one query per dependency of the list, carrying the dependencies in order, each tagged with the list's key |
| `Advisories.TaggedIn` | main.py:174-176 | the queries of the lists of some keys, key by key; its properties are `Advisories.TaggedInAppend` and `Advisories.TaggedMembers` |
| `Advisories.AllTagged` | main.py:174-176 | all queries in the order of `self.dependencies.items()`; its properties are `Advisories.AllTaggedOrder`, `Advisories.TaggedMembers` and `Advisories.AllTaggedLength` |
| `Advisories.Fails` | main.py:181-188 | a query whose request raises or whose 200 body does not decode; its properties are `Advisories.Check` |
| `Advisories.Hit` | main.py:187-189 | a query with a 200 status and a truthy decoded body; its properties are `Advisories.Check` |
| `Advisories.MatchOf` | main.py:191-196 | the record of a hit; its properties are `Advisories.ReportFields` |
| `Advisories.Report` | main.py:174-198 | the result of `check_vulnerabilities`; its properties are `Advisories.ReportOkIff`, `Advisories.ReportErrIff`, `Advisories.ReportFirstFailure` and `Advisories.ReportIsMatches` |
| `Advisories.Matches` | main.py:187-196 | the records of the hits; its properties are `Advisories.ReportMembers` and `Advisories.ReportFields` |
| `Advisories.Check` | main.py:179-196 | a query fails exactly when the request raises or a 200 body does not decode; otherwise it yields one match for a truthy 200 body and nothing else |
| `Advisories.ReportIsMatches` | main.py:174-196 | a completed report is exactly the hits' records, in query order |
| `Advisories.ReportOkIff` | main.py:174-196 | the report completes exactly when no query fails |
| `Advisories.ReportErrIff` | main.py:174-196 | the report fails exactly when some query fails |
| `Advisories.ReportFirstFailure` | main.py:181-188 | a failed report carries the message of the first failing query |
| `Advisories.ReportErrSticky` | main.py:181-188 | after a failure nothing further is queried: the report stays that failure |
| `Advisories.ReportAppend` | main.py:174-198 | completed reports of consecutive parts concatenate |
| `Advisories.ReportConcat` | main.py:174-198 | the report of two parts: the first's failure, else the second's, else both matches |
| `Advisories.ReportMembers` | main.py:187-196 | a record is in a completed report exactly when it is the record of a hit |
| `Advisories.ReportFields` | main.py:191-196 | each record names a queried dependency with its list's key and version, and the truthy 200 body |
| `Advisories.TaggedMembers` | main.py:174-178 | a dependency is queried under a key exactly when it is recorded under it |
| `Advisories.AllTaggedOrder` | main.py:174-178 | the queries go through npm, then yarn, then python |
| `Advisories.AllTaggedLength` | main.py:174-178 | there are as many queries as recorded dependencies |
| `Advisories.NothingToCheck` | main.py:175-176 | three empty lists give an empty report |
| `Advisories.TaggedInAppend` | main.py:174 | the queries of a sequence of keys split at any point |
| `Scanner.DependencyScanner.constructor` | main.py:20-29 | the URL and name are stored, the memo is empty and the three lists are empty |
| `Scanner.DependencyScanner.ParseDependencies` | main.py:62-163 | the new memo and lists are those `ParseFile` gives for the old ones; the three keys stay (`Valid`) |
| `Scanner.DependencyScanner.AddPackageJson` | main.py:80-110 | the manager's list is extended by what the package.json contributes |
| `Scanner.DependencyScanner.AddYarnLock` | main.py:115-143 | the yarn list is extended by the yarn.lock's names |
| `Scanner.DependencyScanner.AddRequirements` | main.py:145-160 | the python list is extended by the requirements entries |
| `Scanner.DependencyScanner.FindDependencyFiles` | main.py:210-223 | the records are `DependencyFiles` of the walk |
| `Scanner.DependencyScanner.QueryAdvisories` | main.py:179-196 | the query for one dependency is `Check` |
| `Scanner.DependencyScanner.CheckList` | main.py:178-196 | the inner loop is the report of one list's queries |
| `Scanner.DependencyScanner.CheckVulnerabilities` | main.py:165-198 | the result is the report of all recorded dependencies in key order; when it completes, it is the hits' records, npm first, then yarn, then python |
| `Orchestrator.ScanOutcome` | main.py:263-286 | the result of `scan_repository`; its properties are `Orchestrator.ScanOutcomeNamed`, `Orchestrator.ScanFailsOnQuery` and `Orchestrator.ScannedResult` |
| `Orchestrator.ScanRepository` | main.py:263-286 | the result is `ScanOutcome`: clone, find, parse every file in order, query |
| `Orchestrator.ScanOutcomeNamed` | main.py:276-286 | every result names its repository; a failed clone gives `error` with its message |
| `Orchestrator.ScanFailsOnQuery` | main.py:274-286 | after a clone the scan fails exactly when some query fails, with the first failing query's message |
| `Orchestrator.ScannedResult` | main.py:270-280 | a completed scan has the three lists, python's being the requirements entries; its vulnerabilities are the hits' records in key order, each naming a recorded dependency and its truthy body |
| `Orchestrator.ExcludedRepos` | main.py:16 | the exclusion list has at least one entry and no entry holds a comma |
| `Orchestrator.ExcludedUnset` | main.py:16 | unset, the list is `['']` |
| `Orchestrator.ExcludedRoundTrip` | main.py:16 | the entries joined by commas give the variable's value |
| `Orchestrator.Included` | main.py:312-315 | the repositories the loop does not skip; its properties are `Orchestrator.BatchFollowsIncluded` |
| `Orchestrator.BatchResults` | main.py:312-320 | the `results` list; its properties are `Orchestrator.BatchFollowsIncluded` and `Orchestrator.BatchNames` |
| `Orchestrator.ScanBatch` | main.py:312-320 | the loop, skipping the names `EXCLUDED_REPOS` lists, builds `BatchResults` for `ExcludedRepos` of the variable; no result has an excluded name |
| `Orchestrator.BatchFollowsIncluded` | main.py:312-320 | one result per included repository, in listing order, each its scan |
| `Orchestrator.BatchNames` | main.py:312-320 | as many results as included repositories; no excluded name; every included repository is named |

## Left out

- `get_organization_repos` (main.py:234-261): paginated HTTP. `main` takes the repository list as a parameter.
- The checks at the start of `main` are not modelled, because they are configuration and I/O:
  - the token and organisation check;
  - the empty-listing early return;
  - the reporter, both its header and its progress bar.
- `save_detailed_report`, `print_final_summary` and all of reporter.py: rendering and file output.
- scripts/setup.py: process I/O.
- `clone_repository` (main.py:200-208) and `tempfile.TemporaryDirectory` (main.py:265): the `Cloner` parameter stands in for them. `clone_repository` sets `repo_path`, and `find_dependency_files` walks it at main.py:214. The model has no `repo_path` field: the `Cloner`'s walk stands for that walk.
- `requests.get` (main.py:181-185): the `Lookup` parameter stands in for it. It is keyed by package name only, like the query; headers and the token do not affect it.
- `ScanBatch` passes one `Lookup` to every scan, so a name gets the same answer in every list and every repository. A transient network failure that hits one query and not another is not modelled.
- `rglob('*')` (main.py:214): the walk is an input sequence, so its order is whatever the cloner gives.
- Environment loading (main.py:14-17): only `EXCLUDED_REPOS` is modelled, as an `Option<string>`.
- `json.load` / `json.loads`: the `Parser` parameter stands in for them. Decoder internals are not modelled.
- `print` calls throughout: they are logging with no effect on results.
- Text encoding: files are given as decoded text. A file that exists but cannot be read or decoded is listed without contents.
- Encoding of the two package.json reads: `detect_package_manager` opens package.json with the platform's default encoding (main.py:50), while the parser reads it as UTF-8 (main.py:82). The model gives both reads the same text, so a package.json that decodes under one encoding but not the other is not modelled.
- Newline translation of text-mode reads: Python turns `\r\n` and a lone `\r` into `\n`, both in yarn.lock's `f.read()` (main.py:116-117) and in requirements.txt's `readlines()` (main.py:150). The model translates nothing, and only `\n` ends a line. So a file with a lone `\r` is several lines in Python and one line in the model.
- `Text.LowerLaw`: folds ASCII letters only; Python's `lower()` also folds other Unicode letters.
- `Text.IsSpace`: the fixed set of code points for which `str.isspace()` is true, not a live Unicode database.
- The `except` at main.py:58-60: detection's own existence tests cannot raise in the model.
- `dep.get('version', 'unknown')` (main.py:194): every record has a version here, so the default is not modelled.
- Walk errors in `scan_repository`'s handler (main.py:281-286): an exception raised by `rglob` during the walk is not modelled, because the walk is `Checkout.walk`, an input sequence.
- Parse errors in the same handler: they cannot reach it in the model. The `*File` functions turn a read, decode or parse error into nothing contributed, as `parse_dependencies`' own handlers do. Only clone and query failures reach the handler.
- `Checkout.walk` and `Checkout.tree` are independent inputs: nothing requires a walked file to be listed in the tree. So lemmas such as `Scanning.YarnLockParsed`, which require the file to exist, take that as a precondition rather than drawing it from the checkout.
