/** Which package manager governs a directory (`DependencyScanner.detect_package_manager`). */
module Detection {
  import opened Wrappers
  import opened Text
  import opened Dicts
  import opened Json
  import opened Files
  import opened Ecosystems

  /** `'packageManager' in data and 'yarn' in data['packageManager'].lower()` did not raise and held. */
  predicate DeclaresYarn(j: Json) {
    && j.JObject?
    && var v := Get(ObjectDict(j), "packageManager");
    && v.Some? && v.value.JString?
    && Contains(Lower(v.value.s), "yarn")
  }

  /**
   * The verdict from package.json alone: `yarn` when it declares yarn, `npm` otherwise,
   * including when reading, decoding or inspecting it raises.
   */
  function ManifestManager(content: Option<string>, parse: Parser): Ecosystem {
    match content
    case None => Npm
    case Some(c) =>
      match parse(c)
      case None => Npm
      case Some(j) => if DeclaresYarn(j) then Yarn else Npm
  }

  /** `detect_package_manager(directory)`. */
  function DetectPackageManager(t: Tree, parse: Parser, d: Dir): (r: Option<Ecosystem>)
    ensures r != Some(Python)
    ensures r.None? <==>
      !DirExists(t, d) || (!Exists(t, d, YarnLock) && !Exists(t, d, PackageLock) && !Exists(t, d, PackageJson))
  {
    if !DirExists(t, d) then None
    else if Exists(t, d, YarnLock) then Some(Yarn)
    else if Exists(t, d, PackageLock) then Some(Npm)
    else if Exists(t, d, PackageJson) then Some(ManifestManager(Read(t, Path(d, PackageJson)), parse))
    else None
  }

  /** A yarn.lock decides for yarn, whatever else the directory holds. */
  lemma YarnLockWins(t: Tree, parse: Parser, d: Dir)
    requires Exists(t, d, YarnLock)
    ensures DetectPackageManager(t, parse, d) == Some(Yarn)
  {
  }

  /** Without a yarn.lock, a package-lock.json decides for npm. */
  lemma PackageLockNext(t: Tree, parse: Parser, d: Dir)
    requires Exists(t, d, PackageLock) && !Exists(t, d, YarnLock)
    ensures DetectPackageManager(t, parse, d) == Some(Npm)
  {
  }

  /**
   * With package.json as the only evidence the verdict is yarn exactly when the file reads,
   * decodes to an object, and its `packageManager` value is a string containing "yarn"
   * in any letter case; it is npm otherwise.
   */
  lemma ManifestDecides(t: Tree, parse: Parser, d: Dir)
    requires Exists(t, d, PackageJson) && !Exists(t, d, YarnLock) && !Exists(t, d, PackageLock)
    ensures DetectPackageManager(t, parse, d) in {Some(Npm), Some(Yarn)}
    ensures DetectPackageManager(t, parse, d) == Some(Yarn) <==>
      && Path(d, PackageJson) in t.contents
      && parse(t.contents[Path(d, PackageJson)]).Some?
      && var j := parse(t.contents[Path(d, PackageJson)]).value;
      && j.JObject?
      && Get(j.members, "packageManager").Some?
      && Get(j.members, "packageManager").value.JString?
      && exists k :: OccursAt(Lower(Get(j.members, "packageManager").value.s), "yarn", k)
  {
    var c := Read(t, Path(d, PackageJson));
    if c.Some? && parse(c.value).Some? {
      var j := parse(c.value).value;
      if j.JObject? {
        AsDictLaw(j.members);
        var v := Get(j.members, "packageManager");
        if v.Some? && v.value.JString? {
          ContainsAt(Lower(v.value.s), "yarn");
        }
      }
    }
  }

  /**
   * The verdict depends only on the directory itself: which of the three names it lists
   * and what its package.json holds.
   */
  lemma DetectionIsLocal(t1: Tree, t2: Tree, parse: Parser, d: Dir)
    requires DirExists(t1, d) <==> DirExists(t2, d)
    requires forall n :: n in {YarnLock, PackageLock, PackageJson} ==> (Exists(t1, d, n) <==> Exists(t2, d, n))
    requires Read(t1, Path(d, PackageJson)) == Read(t2, Path(d, PackageJson))
    ensures DetectPackageManager(t1, parse, d) == DetectPackageManager(t2, parse, d)
  {
    assert Exists(t1, d, YarnLock) <==> Exists(t2, d, YarnLock);
    assert Exists(t1, d, PackageLock) <==> Exists(t2, d, PackageLock);
    assert Exists(t1, d, PackageJson) <==> Exists(t2, d, PackageJson);
  }

  /** `"packageManager": "Yarn@3.0.0"` declares yarn (the comparison ignores letter case). */
  lemma YarnDeclaration()
    ensures DeclaresYarn(JObject([("packageManager", JString("Yarn@3.0.0"))]))
  {
    var j := JObject([("packageManager", JString("Yarn@3.0.0"))]);
    AsDictLaw(j.members);
    assert Lower("Yarn@3.0.0")[..4] == "yarn";
  }

  /** `"packageManager": "npm@9.0.0"` does not. */
  lemma NpmDeclaration()
    ensures !DeclaresYarn(JObject([("packageManager", JString("npm@9.0.0"))]))
  {
    var j := JObject([("packageManager", JString("npm@9.0.0"))]);
    AsDictLaw(j.members);
    assert Get(ObjectDict(j), "packageManager") == Some(JString("npm@9.0.0"));
    var s := Lower("npm@9.0.0");
    forall i | 0 <= i < |s| ensures s[i] != 'y' {
      assert "npm@9.0.0"[i] != 'y' && "npm@9.0.0"[i] != 'Y';
    }
    forall k | 0 <= k <= |s| - 4 ensures !OccursAt(s, "yarn", k) {
      assert s[k..k + 4][0] == s[k];
    }
    ContainsAt(s, "yarn");
  }
}
