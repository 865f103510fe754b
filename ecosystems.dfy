/** Ecosystem tags, dependency records and the manifest-name mapping. */
module Ecosystems {
  import opened Wrappers
  import opened Json
  import opened Files

  /** The three tags: keys of the dependency dictionary, file types and package managers. */
  datatype Ecosystem = Npm | Yarn | Python

  /** The keys of `self.dependencies`, in the order the constructor inserts them. */
  const Tags := [Npm, Yarn, Python]

  /** `{'name': ..., 'version': ...}`; a package.json version is kept as whatever JSON value it is. */
  datatype Dependency = Dependency(name: string, version: Json)

  const Unknown := JString("unknown")

  /** `[{'name': n, 'version': 'unknown'} for n in names]`. */
  function WithUnknownVersion(names: seq<string>): seq<Dependency> {
    seq(|names|, i requires 0 <= i < |names| => Dependency(names[i], Unknown))
  }

  /** The names of a list of records, in order. */
  function NamesOf(ds: seq<Dependency>): seq<string> {
    seq(|ds|, i requires 0 <= i < |ds| => ds[i].name)
  }

  /** The records give the names back, in order, and every version is `unknown`. */
  lemma WithUnknownVersionNames(names: seq<string>)
    ensures NamesOf(WithUnknownVersion(names)) == names
    ensures forall d :: d in WithUnknownVersion(names) ==> d.version == Unknown
  {
  }

  /** The manifest file name of each file type. */
  function ManifestName(e: Ecosystem): string {
    match e
    case Npm => PackageJson
    case Yarn => YarnLock
    case Python => RequirementsTxt
  }

  /** `_get_file_type`: the type of a manifest name, `None` for any other name. */
  function FileTypeOf(name: string): (r: Option<Ecosystem>)
    ensures r.Some? ==> ManifestName(r.value) == name
    ensures r.None? ==> forall e :: ManifestName(e) != name
  {
    if name == PackageJson then Some(Npm)
    else if name == YarnLock then Some(Yarn)
    else if name == RequirementsTxt then Some(Python)
    else None
  }

  /** Each file type is recognised from its own manifest name. */
  lemma FileTypeOfManifestName(e: Ecosystem)
    ensures FileTypeOf(ManifestName(e)) == Some(e)
  {
  }
}
