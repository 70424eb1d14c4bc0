/**
  The extension registry update script: the gallery's list of extensions,
  each with its release history, kept sorted by name, with every
  extension's versions in descending semantic-version order and its
  `latestVersion` the first of them.

  The list-level functions (`Updated`, `DetailsUpdated`, `VersionAdded`,
  `NewAdded`, `ReleaseAdded`) say what each operation does to the list and
  which error it raises; the methods of `ExtensionList` perform the same
  steps in place and are proved equal to them; the lemmas state the
  registry's invariants and how each operation keeps them.
*/
module ExtensionRegistry {
  import opened Basics
  import Text
  import Sequences
  import Semver

  // ---------------------------------------------------------------------------
  // Records
  // ---------------------------------------------------------------------------

  datatype Category = Category(id: string, title: string, description: string)

  datatype RequiredFeature = ApiPublishing | OAuthIntegrations | CurrentUserExecution

  /** A version constraint on one language runtime (`{"requires": ">=3.9"}`). */
  datatype LanguageRequirement = LanguageRequirement(requirement: string)

  datatype ExtensionEnvironment = ExtensionEnvironment(
    python: Option<LanguageRequirement>,
    r: Option<LanguageRequirement>,
    quarto: Option<LanguageRequirement>)

  datatype ExtensionVersion = ExtensionVersion(
    version: string,
    released: string,
    url: string,
    minimumConnectVersion: string,
    requiredFeatures: Option<seq<RequiredFeature>>,
    requiredEnvironment: Option<ExtensionEnvironment>)

  datatype Extension = Extension(
    name: string,
    title: string,
    description: string,
    homepage: string,
    latestVersion: ExtensionVersion,
    versions: seq<ExtensionVersion>,
    tags: seq<string>,
    category: Option<string>)

  /** The `extension` object of an extension's manifest.json. */
  datatype ManifestExtension = ManifestExtension(
    name: string,
    title: string,
    description: string,
    homepage: string,
    version: string,
    minimumConnectVersion: string,
    requiredFeatures: Option<seq<RequiredFeature>>,
    category: Option<string>,
    tags: Option<seq<string>>)

  datatype ExtensionManifest = ExtensionManifest(
    extension: ManifestExtension,
    environment: Option<ExtensionEnvironment>)

  /** A file attached to a GitHub release. */
  datatype Asset = Asset(name: string, browserDownloadUrl: string)

  /** The fields of a GitHub release that the script reads. */
  datatype Release = Release(tagName: string, assets: seq<Asset>, publishedAt: string)

  /** The errors the script throws, and the TypeErrors it runs into. */
  datatype RegistryError =
    | ExtensionMissing(name: string)          // "Extension <name> does not exist in the list"
    | InvalidVersion(version: string)         // "Invalid version: <version>"
    | VersionExists(version: string)          // "Version <version> already exists"
    | ExtensionExists(name: string)           // "Extension <name> already exists in the list"
    | UpdateTargetMissing(name: string)       // "Failed to update Extension <name>, not found in list"
    | StoredVersionInvalid(version: string)   // semver's TypeError on a stored version it cannot parse
    | AssetMissing(fileName: string)          // destructuring the `undefined` that `find` returns

  /** A list of extensions after an operation, with the operation's outcome. */
  type Change = (seq<Extension>, Outcome<RegistryError>)

  // ---------------------------------------------------------------------------
  // Release tags and assets
  // ---------------------------------------------------------------------------

  /** `tag_name.split("@")[0]`: the part of the tag before the first "@", or the whole tag. */
  function ExtensionNameFromRelease(release: Release): (name: string)
    ensures '@' !in name
    ensures Text.StartsWith(release.tagName, name)
    ensures |name| < |release.tagName| ==> release.tagName[|name|] == '@'
    ensures '@' !in release.tagName ==> name == release.tagName
  {
    Text.SplitFirst(release.tagName, '@');
    Text.Split(release.tagName, '@')[0]
  }

  /** `assets.find(asset => asset.name === fileName)`: the first asset with the name. */
  function FindAsset(assets: seq<Asset>, fileName: string): (r: Option<Asset>)
    ensures r.None? <==> forall a :: a in assets ==> a.name != fileName
    ensures r.Some? ==> exists i :: 0 <= i < |assets| && r.value == assets[i] && assets[i].name == fileName
                          && forall j :: 0 <= j < i ==> assets[j].name != fileName
  {
    if |assets| == 0 then None
    else if assets[0].name == fileName then Some(assets[0])
    else
      var r := FindAsset(assets[1..], fileName);
      assert r.Some? ==> exists i :: 0 <= i < |assets| && r.value == assets[i] && assets[i].name == fileName
                          && forall j :: 0 <= j < i ==> assets[j].name != fileName by {
        if r.Some? {
          var k :| 0 <= k < |assets[1..]| && r.value == assets[1..][k] && assets[1..][k].name == fileName
                   && forall j :: 0 <= j < k ==> assets[1..][j].name != fileName;
          assert forall j :: 1 <= j < k + 1 ==> assets[j] == assets[1..][j - 1];
          assert r.value == assets[k + 1];
        }
      }
      assert r.None? ==> forall a :: a in assets ==> a.name != fileName by {
        if r.None? {
          forall a | a in assets ensures a.name != fileName {
            if a != assets[0] {
              var k :| 0 <= k < |assets| && assets[k] == a;
              assert a in assets[1..] by { assert assets[1..][k - 1] == a; }
            }
          }
        }
      }
      r
  }

  /**
    The version record built from a manifest and its release; the optional
    fields are present exactly when the manifest has them (an array is
    truthy even when empty).
  */
  function NewVersion(manifest: ExtensionManifest, release: Release, url: string): (v: ExtensionVersion)
    ensures v.version == manifest.extension.version && v.released == release.publishedAt && v.url == url
    ensures v.minimumConnectVersion == manifest.extension.minimumConnectVersion
    ensures v.requiredFeatures == manifest.extension.requiredFeatures
    ensures v.requiredEnvironment == manifest.environment
    ensures v.requiredFeatures.Some? <==> manifest.extension.requiredFeatures.Some?
    ensures v.requiredEnvironment.Some? <==> manifest.environment.Some?
  {
    ExtensionVersion(
      manifest.extension.version,
      release.publishedAt,
      url,
      manifest.extension.minimumConnectVersion,
      manifest.extension.requiredFeatures,
      manifest.environment)
  }

  // ---------------------------------------------------------------------------
  // Lookup
  // ---------------------------------------------------------------------------

  /** `extensions.findIndex(ex => ex.name === name)`, with None for -1. */
  function FindIndex(xs: seq<Extension>, name: string): (r: Option<nat>)
    ensures r.None? <==> forall i :: 0 <= i < |xs| ==> xs[i].name != name
    ensures r.Some? ==> r.value < |xs| && xs[r.value].name == name
    ensures r.Some? ==> forall j :: 0 <= j < r.value ==> xs[j].name != name
  {
    if |xs| == 0 then None
    else if xs[0].name == name then Some(0)
    else match FindIndex(xs[1..], name)
      case None => None
      case Some(i) => Some(i + 1)
  }

  /** Replacing the first entry with a name by one of the same name keeps it the first. */
  lemma FindIndexAfterReplace(xs: seq<Extension>, name: string, y: Extension)
    requires FindIndex(xs, name).Some?
    requires y.name == name
    ensures FindIndex(xs[FindIndex(xs, name).value := y], name) == FindIndex(xs, name)
  {
    var i := FindIndex(xs, name).value;
    var ys := xs[i := y];
    assert ys[i].name == name;
  }

  // ---------------------------------------------------------------------------
  // Orders
  // ---------------------------------------------------------------------------

  /** The semantic version a version record carries, when its string is valid. */
  function SemverOf(v: ExtensionVersion): Option<Semver.Version> {
    Semver.Parse(v.version)
  }

  /**
    `semverRcompare(a.version, b.version) <= 0`: `a` may stand before `b` in
    descending order. semver throws on an invalid string; the script only
    sorts after every stored version has been parsed, so the placement of
    invalid strings (last) never takes effect.
  */
  predicate NewerOrSame(a: ExtensionVersion, b: ExtensionVersion) {
    match (SemverOf(a), SemverOf(b))
    case (Some(x), Some(y)) => Semver.Compare(y, x) <= 0
    case (Some(_), None) => true
    case (None, Some(_)) => false
    case (None, None) => true
  }

  function Descending(): (ExtensionVersion, ExtensionVersion) -> bool {
    (a: ExtensionVersion, b: ExtensionVersion) => NewerOrSame(a, b)
  }

  lemma DescendingIsTotalPreorder()
    ensures Sequences.TotalPreorder(Descending())
  {
    var le := Descending();
    forall a, b ensures le(a, b) || le(b, a) {
      if SemverOf(a).Some? && SemverOf(b).Some? {
        Semver.LeTotalOrder(SemverOf(a).value, SemverOf(b).value, SemverOf(a).value);
      }
    }
    forall a, b, c | le(a, b) && le(b, c) ensures le(a, c) {
      if SemverOf(a).Some? && SemverOf(b).Some? && SemverOf(c).Some? {
        Semver.LeTotalOrder(SemverOf(c).value, SemverOf(b).value, SemverOf(a).value);
      }
    }
  }

  /** `sortExtensionVersions`: a stable sort into descending semver order. */
  function SortVersions(vs: seq<ExtensionVersion>): seq<ExtensionVersion> {
    Sequences.Sort(vs, Descending())
  }

  /** Sorting the versions rearranges them into descending semver order, losing and adding none. */
  lemma SortVersionsResult(vs: seq<ExtensionVersion>)
    ensures multiset(SortVersions(vs)) == multiset(vs)
    ensures Sequences.Sorted(SortVersions(vs), Descending())
  {
    DescendingIsTotalPreorder();
    Sequences.SortSorted(vs, Descending());
  }

  function NameOf(e: Extension): string {
    e.name
  }

  /**
    `a.name.localeCompare(b.name) <= 0`, with code-point order standing for
    the locale's collation; the two agree on names of lower-case ASCII letters,
    digits and "-", not on letter case, other punctuation or accents.
  */
  function ByName(): (Extension, Extension) -> bool {
    (a: Extension, b: Extension) => Text.LessEq(a.name, b.name)
  }

  lemma ByNameIsTotalPreorder()
    ensures Sequences.TotalPreorder(ByName())
  {
    var le := ByName();
    forall a, b ensures le(a, b) || le(b, a) {
      Text.LessTotal(a.name, b.name);
    }
    forall a, b, c | le(a, b) && le(b, c) ensures le(a, c) {
      if a.name != b.name && b.name != c.name {
        Text.LessTransitive(a.name, b.name, c.name);
      }
    }
  }

  /** `sortExtensions`: a stable sort by name. */
  function SortByName(xs: seq<Extension>): seq<Extension> {
    Sequences.Sort(xs, ByName())
  }

  /** Sorting the list rearranges it into ascending name order, losing and adding no entry. */
  lemma SortByNameResult(xs: seq<Extension>)
    ensures multiset(SortByName(xs)) == multiset(xs)
    ensures forall i, j :: 0 <= i < j < |SortByName(xs)| ==> Text.LessEq(SortByName(xs)[i].name, SortByName(xs)[j].name)
  {
    ByNameIsTotalPreorder();
    Sequences.SortSorted(xs, ByName());
    var ys := SortByName(xs);
    forall i, j | 0 <= i < j < |ys| ensures Text.LessEq(ys[i].name, ys[j].name) {
      assert ByName()(ys[i], ys[j]);
    }
  }

  // ---------------------------------------------------------------------------
  // Invariants
  // ---------------------------------------------------------------------------

  /** Every version is valid and each is strictly older than the one before it. */
  predicate StrictlyDescending(vs: seq<ExtensionVersion>) {
    && (forall i :: 0 <= i < |vs| ==> SemverOf(vs[i]).Some?)
    && (forall i, j :: 0 <= i < j < |vs| ==>
          Semver.Le(SemverOf(vs[j]).value, SemverOf(vs[i]).value) && SemverOf(vs[j]) != SemverOf(vs[i]))
  }

  /** An extension's history: non-empty, strictly descending, headed by its latest version. */
  predicate WellFormed(e: Extension) {
    |e.versions| > 0 && e.latestVersion == e.versions[0] && StrictlyDescending(e.versions)
  }

  predicate NamesStrictlySorted(xs: seq<Extension>) {
    forall i, j :: 0 <= i < j < |xs| ==> Text.Less(xs[i].name, xs[j].name)
  }

  /** What the registry file keeps true: names unique and sorted, every history well formed. */
  predicate Invariant(xs: seq<Extension>) {
    NamesStrictlySorted(xs) && forall i :: 0 <= i < |xs| ==> WellFormed(xs[i])
  }

  /** Replacing one entry by a well-formed one of the same name keeps the invariant. */
  lemma ReplaceKeepsInvariant(xs: seq<Extension>, i: nat, e: Extension)
    requires Invariant(xs)
    requires i < |xs| && e.name == xs[i].name && WellFormed(e)
    ensures Invariant(xs[i := e])
  {
    var ys := xs[i := e];
    assert forall k :: 0 <= k < |ys| ==> ys[k].name == xs[k].name;
    assert forall k :: 0 <= k < |ys| && k != i ==> ys[k] == xs[k];
  }

  // ---------------------------------------------------------------------------
  // updateExtension
  // ---------------------------------------------------------------------------

  /** `updateExtension(name, data)`: replace the first entry with that name. */
  function Updated(xs: seq<Extension>, name: string, data: Extension): Change {
    match FindIndex(xs, name)
    case None => (xs, Fail(UpdateTargetMissing(name)))
    case Some(i) => (xs[i := data], Pass)
  }

  /** updateExtension fails exactly when the name is absent; otherwise only that one entry changes. */
  lemma UpdatedReplacesOneEntry(xs: seq<Extension>, name: string, data: Extension)
    ensures Updated(xs, name, data).1 == Fail(UpdateTargetMissing(name))
            <==> forall e :: e in xs ==> e.name != name
    ensures Updated(xs, name, data).1.Fail? ==> Updated(xs, name, data).0 == xs
    ensures Updated(xs, name, data).1.Pass? ==>
              var ys := Updated(xs, name, data).0;
              && |ys| == |xs|
              && exists i :: 0 <= i < |xs| && xs[i].name == name && ys[i] == data
                  && (forall j :: 0 <= j < i ==> xs[j].name != name)
                  && (forall j :: 0 <= j < |xs| && j != i ==> ys[j] == xs[j])
  {
    if FindIndex(xs, name).Some? {
      var i := FindIndex(xs, name).value;
      assert xs[i] in xs;
    } else {
      forall e | e in xs ensures e.name != name {
        var k :| 0 <= k < |xs| && xs[k] == e;
      }
    }
  }

  // ---------------------------------------------------------------------------
  // updateExtensionDetails
  // ---------------------------------------------------------------------------

  /**
    The spread `{...current, title, description, homepage, tags}` with
    `category` only when one is given; `tags` defaults to `[]`.
  */
  function WithDetails(
    current: Extension, title: string, description: string, homepage: string,
    tags: Option<seq<string>>, category: Option<string>): Extension
  {
    current.(
      title := title,
      description := description,
      homepage := homepage,
      tags := tags.GetOr([]),
      category := if Given(category) then category else current.category)
  }

  /** The details update keeps identity and history and overwrites only the descriptive fields. */
  lemma WithDetailsFields(
    current: Extension, title: string, description: string, homepage: string,
    tags: Option<seq<string>>, category: Option<string>)
    ensures var e := WithDetails(current, title, description, homepage, tags, category);
      && e.name == current.name
      && e.versions == current.versions
      && e.latestVersion == current.latestVersion
      && e.title == title && e.description == description && e.homepage == homepage
      && (tags.None? ==> e.tags == []) && (tags.Some? ==> e.tags == tags.value)
      && (Given(category) ==> e.category == category)
      && (!Given(category) ==> e.category == current.category)
  {
  }

  function DetailsUpdated(
    xs: seq<Extension>, name: string, title: string, description: string, homepage: string,
    tags: Option<seq<string>>, category: Option<string>): Change
  {
    match FindIndex(xs, name)
    case None => (xs, Fail(UpdateTargetMissing(name)))
    case Some(i) => Updated(xs, name, WithDetails(xs[i], title, description, homepage, tags, category))
  }

  /** Updating the details keeps the registry's invariant. */
  lemma DetailsUpdatedKeepsInvariant(
    xs: seq<Extension>, name: string, title: string, description: string, homepage: string,
    tags: Option<seq<string>>, category: Option<string>)
    requires Invariant(xs)
    ensures Invariant(DetailsUpdated(xs, name, title, description, homepage, tags, category).0)
  {
    if FindIndex(xs, name).Some? {
      var i := FindIndex(xs, name).value;
      var e := WithDetails(xs[i], title, description, homepage, tags, category);
      assert WellFormed(xs[i]);
      ReplaceKeepsInvariant(xs, i, e);
    }
  }

  // ---------------------------------------------------------------------------
  // addExtensionVersion
  // ---------------------------------------------------------------------------

  /**
    `versions.some(v => semverEq(v.version, version))` for a valid `version`:
    the scan stops at the first stored version equal to it, and semver throws
    on the first stored version it cannot parse.
  */
  function SomeSemverEqual(vs: seq<ExtensionVersion>, version: Semver.Version): (r: Result<bool, RegistryError>)
    ensures r == Ok(false) <==> forall w :: w in vs ==> SemverOf(w).Some? && SemverOf(w).value != version
    ensures r == Ok(true) ==> exists w :: w in vs && SemverOf(w) == Some(version)
    ensures r.Err? ==> exists w :: w in vs && SemverOf(w).None? && r.error == StoredVersionInvalid(w.version)
    ensures (forall w :: w in vs ==> SemverOf(w).Some?) ==>
              r == Ok(exists w :: w in vs && SemverOf(w) == Some(version))
  {
    if |vs| == 0 then Ok(false)
    else
      assert forall w :: w in vs <==> w == vs[0] || w in vs[1..] by {
        assert vs == [vs[0]] + vs[1..];
      }
      match SemverOf(vs[0])
      case None => Err(StoredVersionInvalid(vs[0].version))
      case Some(w) => if w == version then Ok(true) else SomeSemverEqual(vs[1..], version)
  }

  /** The extension after `addExtensionVersion`'s checks, push, sort and `latestVersion` update. */
  function AddVersion(e: Extension, version: ExtensionVersion): Result<Extension, RegistryError> {
    match SemverOf(version)
    case None => Err(InvalidVersion(version.version))
    case Some(v) =>
      match SomeSemverEqual(e.versions, v)
      case Err(err) => Err(err)
      case Ok(true) => Err(VersionExists(version.version))
      case Ok(false) =>
        var versions := SortVersions(e.versions + [version]);
        Ok(e.(versions := versions, latestVersion := versions[0]))
  }

  /** When addExtensionVersion throws, on an extension whose stored versions are all valid. */
  lemma AddVersionErrors(e: Extension, version: ExtensionVersion)
    ensures AddVersion(e, version) == Err(InvalidVersion(version.version)) <==> !Semver.IsValid(version.version)
    ensures Semver.IsValid(version.version) && (forall w :: w in e.versions ==> SemverOf(w).Some?) ==>
              (AddVersion(e, version).Err? <==> exists w :: w in e.versions && SemverOf(w) == SemverOf(version))
    ensures AddVersion(e, version).Err? && Semver.IsValid(version.version) ==>
              AddVersion(e, version).error == VersionExists(version.version)
              || exists w :: w in e.versions && AddVersion(e, version).error == StoredVersionInvalid(w.version)
  {
  }

  /**
    After a successful addExtensionVersion the history is the old one plus
    exactly the new version, in descending semver order, every version
    valid, headed by the greatest; nothing else about the extension changes.
  */
  lemma AddVersionResult(e: Extension, version: ExtensionVersion)
    requires AddVersion(e, version).Ok?
    ensures var e2 := AddVersion(e, version).value;
      && multiset(e2.versions) == multiset(e.versions) + multiset{version}
      && Sequences.Sorted(e2.versions, Descending())
      && e2.latestVersion == e2.versions[0]
      && (forall w :: w in e2.versions ==>
            SemverOf(w).Some? && Semver.Le(SemverOf(w).value, SemverOf(e2.latestVersion).value))
      && e2 == e.(versions := e2.versions, latestVersion := e2.latestVersion)
  {
    var e2 := AddVersion(e, version).value;
    DescendingIsTotalPreorder();
    Sequences.SortSorted(e.versions + [version], Descending());
    forall w | w in e2.versions
      ensures SemverOf(w).Some? && Semver.Le(SemverOf(w).value, SemverOf(e2.latestVersion).value)
    {
      assert w in multiset(e.versions + [version]);
      assert w in e.versions + [version];
      var j :| 0 <= j < |e2.versions| && e2.versions[j] == w;
      if j > 0 {
        assert NewerOrSame(e2.versions[0], e2.versions[j]);
      } else {
        Semver.LeTotalOrder(SemverOf(w).value, SemverOf(w).value, SemverOf(w).value);
      }
    }
  }

  /** A sorted, duplicate-free history of valid versions is strictly descending. */
  lemma SortedDistinctIsStrict(vs: seq<ExtensionVersion>)
    requires Sequences.Sorted(vs, Descending())
    requires Sequences.DistinctBy(vs, SemverOf)
    requires forall w :: w in vs ==> SemverOf(w).Some?
    ensures StrictlyDescending(vs)
  {
    forall i | 0 <= i < |vs| ensures SemverOf(vs[i]).Some? {
      assert vs[i] in vs;
    }
    forall i, j | 0 <= i < j < |vs|
      ensures Semver.Le(SemverOf(vs[j]).value, SemverOf(vs[i]).value) && SemverOf(vs[j]) != SemverOf(vs[i])
    {
      assert Descending()(vs[i], vs[j]);
    }
  }

  /** A history free of semver duplicates stays strictly descending and well formed after a successful add. */
  lemma AddVersionStrict(e: Extension, version: ExtensionVersion)
    requires Sequences.DistinctBy(e.versions, SemverOf)
    requires AddVersion(e, version).Ok?
    ensures WellFormed(AddVersion(e, version).value)
  {
    var e2 := AddVersion(e, version).value;
    var all := e.versions + [version];
    AddVersionResult(e, version);
    forall i, j | 0 <= i < j < |all| ensures SemverOf(all[i]) != SemverOf(all[j]) {
      if j == |all| - 1 {
        assert all[i] in e.versions;
      } else {
        assert all[i] == e.versions[i] && all[j] == e.versions[j];
      }
    }
    Sequences.SortDistinctBy(all, Descending(), SemverOf);
    SortedDistinctIsStrict(e2.versions);
  }

  function VersionAdded(xs: seq<Extension>, name: string, version: ExtensionVersion): Change {
    match FindIndex(xs, name)
    case None => (xs, Fail(ExtensionMissing(name)))
    case Some(i) =>
      match AddVersion(xs[i], version)
      case Err(err) => (xs, Fail(err))
      case Ok(e) => Updated(xs, e.name, e)
  }

  /**
    addExtensionVersion fails with "does not exist" exactly when no entry has
    the name; any other failure is the one adding the version to that entry
    raises; a failure leaves the list as it was.
  */
  lemma VersionAddedErrors(xs: seq<Extension>, name: string, version: ExtensionVersion)
    ensures VersionAdded(xs, name, version).1 == Fail(ExtensionMissing(name))
            <==> forall e :: e in xs ==> e.name != name
    ensures VersionAdded(xs, name, version).1.Fail? ==> VersionAdded(xs, name, version).0 == xs
    ensures FindIndex(xs, name).Some? ==>
              var i := FindIndex(xs, name).value;
              (VersionAdded(xs, name, version).1.Pass? <==> AddVersion(xs[i], version).Ok?)
              && (AddVersion(xs[i], version).Err? ==>
                    VersionAdded(xs, name, version).1 == Fail(AddVersion(xs[i], version).error))
  {
    if FindIndex(xs, name).Some? {
      var i := FindIndex(xs, name).value;
      assert xs[i] in xs;
      if AddVersion(xs[i], version).Ok? {
        var e := AddVersion(xs[i], version).value;
        assert e.name == name;
        assert FindIndex(xs, e.name).Some?;
      }
    } else {
      forall e | e in xs ensures e.name != name {
        var k :| 0 <= k < |xs| && xs[k] == e;
      }
    }
  }

  /** Adding a version keeps the registry's invariant, and changes the list only by that extension. */
  lemma VersionAddedKeepsInvariant(xs: seq<Extension>, name: string, version: ExtensionVersion)
    requires Invariant(xs)
    ensures Invariant(VersionAdded(xs, name, version).0)
    ensures VersionAdded(xs, name, version).1.Pass? ==>
      var i := FindIndex(xs, name).value;
      VersionAdded(xs, name, version).0 == xs[i := AddVersion(xs[i], version).value]
  {
    if FindIndex(xs, name).Some? {
      var i := FindIndex(xs, name).value;
      if AddVersion(xs[i], version).Ok? {
        var e := AddVersion(xs[i], version).value;
        assert WellFormed(xs[i]);
        AddVersionStrict(xs[i], version);
        assert e.name == name;
        assert VersionAdded(xs, name, version) == (xs[i := e], Pass);
        ReplaceKeepsInvariant(xs, i, e);
      }
    }
  }

  // ---------------------------------------------------------------------------
  // addNewExtension
  // ---------------------------------------------------------------------------

  /** The entry addNewExtension appends: one version, which is also the latest. */
  function NewExtension(
    name: string, title: string, description: string, homepage: string,
    initialVersion: ExtensionVersion, tags: Option<seq<string>>, category: Option<string>): Extension
  {
    Extension(
      name, title, description, homepage, initialVersion, [initialVersion],
      tags.GetOr([]), if Given(category) then category else None)
  }

  function NewAdded(
    xs: seq<Extension>, name: string, title: string, description: string, homepage: string,
    initialVersion: ExtensionVersion, tags: Option<seq<string>>, category: Option<string>): Change
  {
    if FindIndex(xs, name).Some? then (xs, Fail(ExtensionExists(name)))
    else (SortByName(xs + [NewExtension(name, title, description, homepage, initialVersion, tags, category)]), Pass)
  }

  /**
    addNewExtension fails exactly on a name already present; otherwise the
    list is the old entries plus the new one, sorted by name.
  */
  lemma NewAddedResult(
    xs: seq<Extension>, name: string, title: string, description: string, homepage: string,
    initialVersion: ExtensionVersion, tags: Option<seq<string>>, category: Option<string>)
    ensures var ys := NewAdded(xs, name, title, description, homepage, initialVersion, tags, category).0;
      var outcome := NewAdded(xs, name, title, description, homepage, initialVersion, tags, category).1;
      && (outcome.Fail? <==> exists e :: e in xs && e.name == name)
      && (outcome.Fail? ==> ys == xs && outcome.error == ExtensionExists(name))
      && (outcome.Pass? ==>
            && multiset(ys) == multiset(xs) + multiset{NewExtension(name, title, description, homepage, initialVersion, tags, category)}
            && Sequences.Sorted(ys, ByName()))
  {
    if FindIndex(xs, name).Some? {
      assert xs[FindIndex(xs, name).value] in xs;
    } else {
      ByNameIsTotalPreorder();
      Sequences.SortSorted(xs + [NewExtension(name, title, description, homepage, initialVersion, tags, category)], ByName());
      forall e | e in xs ensures e.name != name {
        var k :| 0 <= k < |xs| && xs[k] == e;
      }
    }
  }

  /** Adding an entry with a fresh name to a list with strictly sorted names keeps the names strictly sorted. */
  lemma NewAddedNamesSorted(xs: seq<Extension>, n: Extension)
    requires NamesStrictlySorted(xs)
    requires forall e :: e in xs ==> e.name != n.name
    ensures NamesStrictlySorted(SortByName(xs + [n]))
  {
    var all := xs + [n];
    var ys := SortByName(all);
    forall i, j | 0 <= i < j < |all| ensures NameOf(all[i]) != NameOf(all[j]) {
      if j < |xs| {
        assert all[i] == xs[i] && all[j] == xs[j];
        Text.LessIrreflexive(xs[i].name);
      } else {
        assert all[i] in xs;
      }
    }
    ByNameIsTotalPreorder();
    Sequences.SortSorted(all, ByName());
    Sequences.SortDistinctBy(all, ByName(), NameOf);
    forall i, j | 0 <= i < j < |ys| ensures Text.Less(ys[i].name, ys[j].name) {
      assert ByName()(ys[i], ys[j]);
      assert NameOf(ys[i]) != NameOf(ys[j]);
    }
  }

  /** In a permutation of well-formed entries plus `n`, every entry is well formed exactly when `n` is. */
  lemma AddedEntryWellFormed(xs: seq<Extension>, n: Extension, ys: seq<Extension>)
    requires forall i :: 0 <= i < |xs| ==> WellFormed(xs[i])
    requires multiset(ys) == multiset(xs + [n])
    ensures (forall i :: 0 <= i < |ys| ==> WellFormed(ys[i])) <==> WellFormed(n)
  {
    assert n in multiset(ys);
    forall i | 0 <= i < |ys| && ys[i] != n ensures WellFormed(ys[i]) {
      assert ys[i] in multiset(xs + [n]);
      assert ys[i] in xs;
    }
  }

  /**
    On a registry that keeps its invariant, adding a new extension keeps the
    names unique and sorted; the whole invariant survives exactly when the
    initial version is valid, which addNewExtension does not check.
  */
  lemma NewAddedInvariant(
    xs: seq<Extension>, name: string, title: string, description: string, homepage: string,
    initialVersion: ExtensionVersion, tags: Option<seq<string>>, category: Option<string>)
    requires Invariant(xs)
    requires FindIndex(xs, name).None?
    ensures NamesStrictlySorted(NewAdded(xs, name, title, description, homepage, initialVersion, tags, category).0)
    ensures Invariant(NewAdded(xs, name, title, description, homepage, initialVersion, tags, category).0)
            <==> Semver.IsValid(initialVersion.version)
  {
    var n := NewExtension(name, title, description, homepage, initialVersion, tags, category);
    var all := xs + [n];
    var ys := SortByName(all);
    forall e | e in xs ensures e.name != n.name {
      var k :| 0 <= k < |xs| && xs[k] == e;
    }
    NewAddedNamesSorted(xs, n);
    assert ys == NewAdded(xs, name, title, description, homepage, initialVersion, tags, category).0;
    assert WellFormed(n) <==> Semver.IsValid(initialVersion.version);
    AddedEntryWellFormed(xs, n, ys);
  }

  // ---------------------------------------------------------------------------
  // addRelease
  // ---------------------------------------------------------------------------

  /** The name of the asset addRelease downloads: "<name>.tar.gz". */
  function ArchiveName(name: string): string {
    name + ".tar.gz"
  }

  /**
    `addRelease(manifest, release)`. On a known name the details are written
    first and the version added second, so a rejected version leaves the
    new details in place; on a new name the extension is created without
    any check of its version.
  */
  function ReleaseAdded(xs: seq<Extension>, manifest: ExtensionManifest, release: Release): Change {
    var m := manifest.extension;
    match FindAsset(release.assets, ArchiveName(m.name))
    case None => (xs, Fail(AssetMissing(ArchiveName(m.name))))
    case Some(asset) =>
      var version := NewVersion(manifest, release, asset.browserDownloadUrl);
      if FindIndex(xs, m.name).Some? then
        var detailed := DetailsUpdated(xs, m.name, m.title, m.description, m.homepage, m.tags, m.category);
        if detailed.1.Fail? then detailed else VersionAdded(detailed.0, m.name, version)
      else NewAdded(xs, m.name, m.title, m.description, m.homepage, version, m.tags, m.category)
  }

  /**
    For a known extension, addRelease leaves the manifest's details in the
    entry whether or not the version is accepted, and its outcome is that of
    adding the version to the entry with the new details.
  */
  lemma ReleaseUpdatesKnownExtension(xs: seq<Extension>, manifest: ExtensionManifest, release: Release)
    requires FindAsset(release.assets, ArchiveName(manifest.extension.name)).Some?
    requires FindIndex(xs, manifest.extension.name).Some?
    ensures var m := manifest.extension;
      var i := FindIndex(xs, m.name).value;
      var ys := ReleaseAdded(xs, manifest, release).0;
      var outcome := ReleaseAdded(xs, manifest, release).1;
      var url := FindAsset(release.assets, ArchiveName(m.name)).value.browserDownloadUrl;
      var detailed := WithDetails(xs[i], m.title, m.description, m.homepage, m.tags, m.category);
      && |ys| == |xs|
      && ys[i].title == m.title && ys[i].description == m.description && ys[i].homepage == m.homepage
      && ys[i].tags == m.tags.GetOr([])
      && (forall j :: 0 <= j < |xs| && j != i ==> ys[j] == xs[j])
      && (match AddVersion(detailed, NewVersion(manifest, release, url))
          case Err(err) => outcome == Fail(err) && ys[i] == detailed
          case Ok(e) => outcome == Pass && ys[i] == e)
  {
    var m := manifest.extension;
    var i := FindIndex(xs, m.name).value;
    var detailed := WithDetails(xs[i], m.title, m.description, m.homepage, m.tags, m.category);
    FindIndexAfterReplace(xs, m.name, detailed);
  }

  /**
    For a new name with its archive attached, addRelease always succeeds and
    stores the manifest's version as it is, valid or not.
  */
  lemma ReleaseCreatesUnchecked(xs: seq<Extension>, manifest: ExtensionManifest, release: Release)
    requires FindAsset(release.assets, ArchiveName(manifest.extension.name)).Some?
    requires FindIndex(xs, manifest.extension.name).None?
    ensures ReleaseAdded(xs, manifest, release).1 == Pass
    ensures exists e :: e in ReleaseAdded(xs, manifest, release).0 && e.name == manifest.extension.name
                        && e.versions == [e.latestVersion] && e.latestVersion.version == manifest.extension.version
  {
    var m := manifest.extension;
    var url := FindAsset(release.assets, ArchiveName(m.name)).value.browserDownloadUrl;
    var n := NewExtension(m.name, m.title, m.description, m.homepage, NewVersion(manifest, release, url), m.tags, m.category);
    NewAddedResult(xs, m.name, m.title, m.description, m.homepage, NewVersion(manifest, release, url), m.tags, m.category);
    assert n in multiset(ReleaseAdded(xs, manifest, release).0);
  }

  /** A release whose manifest version is valid keeps the registry's invariant, whatever its outcome. */
  lemma ReleaseAddedKeepsInvariant(xs: seq<Extension>, manifest: ExtensionManifest, release: Release)
    requires Invariant(xs)
    requires Semver.IsValid(manifest.extension.version)
    ensures Invariant(ReleaseAdded(xs, manifest, release).0)
  {
    var m := manifest.extension;
    if FindAsset(release.assets, ArchiveName(m.name)).Some? {
      var url := FindAsset(release.assets, ArchiveName(m.name)).value.browserDownloadUrl;
      if FindIndex(xs, m.name).Some? {
        DetailsUpdatedKeepsInvariant(xs, m.name, m.title, m.description, m.homepage, m.tags, m.category);
        var ys := DetailsUpdated(xs, m.name, m.title, m.description, m.homepage, m.tags, m.category).0;
        VersionAddedKeepsInvariant(ys, m.name, NewVersion(manifest, release, url));
      } else {
        NewAddedInvariant(xs, m.name, m.title, m.description, m.homepage, NewVersion(manifest, release, url), m.tags, m.category);
      }
    }
  }

  // ---------------------------------------------------------------------------
  // The list, updated in place
  // ---------------------------------------------------------------------------

  class ExtensionList {
    var categories: seq<Category>
    var tags: seq<string>
    var requiredFeatures: seq<RequiredFeature>
    var extensions: seq<Extension>

    constructor(categories: seq<Category>, tags: seq<string>, requiredFeatures: seq<RequiredFeature>, extensions: seq<Extension>)
      ensures this.categories == categories && this.tags == tags
      ensures this.requiredFeatures == requiredFeatures && this.extensions == extensions
    {
      this.categories := categories;
      this.tags := tags;
      this.requiredFeatures := requiredFeatures;
      this.extensions := extensions;
    }

    /** `getExtension`: the first extension with the name, if any. */
    function GetExtension(name: string): (r: Option<Extension>)
      reads this
      ensures r.None? <==> forall e :: e in extensions ==> e.name != name
      ensures r.Some? ==> r.value in extensions && r.value.name == name
      ensures r.Some? ==> exists i :: 0 <= i < |extensions| && r.value == extensions[i]
                            && forall j :: 0 <= j < i ==> extensions[j].name != name
    {
      match FindIndex(extensions, name)
      case None =>
        assert forall e :: e in extensions ==> e.name != name by {
          forall e | e in extensions ensures e.name != name {
            var k :| 0 <= k < |extensions| && extensions[k] == e;
          }
        }
        None
      case Some(i) => Some(extensions[i])
    }

    method UpdateExtension(name: string, data: Extension) returns (r: Outcome<RegistryError>)
      modifies this`extensions
      ensures (extensions, r) == Updated(old(extensions), name, data)
    {
      var index := FindIndex(extensions, name);
      if index.None? {
        return Fail(UpdateTargetMissing(name));
      }
      extensions := extensions[index.value := data];
      r := Pass;
    }

    method UpdateExtensionDetails(
      name: string, title: string, description: string, homepage: string,
      tags: Option<seq<string>>, category: Option<string>) returns (r: Outcome<RegistryError>)
      modifies this`extensions
      ensures (extensions, r) == DetailsUpdated(old(extensions), name, title, description, homepage, tags, category)
      ensures old(Invariant(extensions)) ==> Invariant(extensions)
    {
      if Invariant(extensions) {
        DetailsUpdatedKeepsInvariant(extensions, name, title, description, homepage, tags, category);
      }
      var current := GetExtension(name);
      if current.None? {
        return Fail(UpdateTargetMissing(name));
      }
      r := UpdateExtension(name, WithDetails(current.value, title, description, homepage, tags, category));
    }

    method AddExtensionVersion(name: string, version: ExtensionVersion) returns (r: Outcome<RegistryError>)
      modifies this`extensions
      ensures (extensions, r) == VersionAdded(old(extensions), name, version)
      ensures old(Invariant(extensions)) ==> Invariant(extensions)
    {
      if Invariant(extensions) {
        VersionAddedKeepsInvariant(extensions, name, version);
      }
      var found := GetExtension(name);
      if found.None? {
        return Fail(ExtensionMissing(name));
      }
      var extension := found.value;
      var parsed := SemverOf(version);
      if parsed.None? {
        return Fail(InvalidVersion(version.version));
      }
      var duplicate := SomeSemverEqual(extension.versions, parsed.value);
      if duplicate.Err? {
        return Fail(duplicate.error);
      }
      if duplicate.value {
        return Fail(VersionExists(version.version));
      }
      var versions := extension.versions + [version];
      versions := SortVersions(versions);
      extension := extension.(versions := versions, latestVersion := versions[0]);
      r := UpdateExtension(extension.name, extension);
    }

    method SortExtensions()
      modifies this`extensions
      ensures extensions == SortByName(old(extensions))
    {
      extensions := SortByName(extensions);
    }

    method AddNewExtension(
      name: string, title: string, description: string, homepage: string,
      initialVersion: ExtensionVersion, tags: Option<seq<string>>, category: Option<string>)
      returns (r: Outcome<RegistryError>)
      modifies this`extensions
      ensures (extensions, r) == NewAdded(old(extensions), name, title, description, homepage, initialVersion, tags, category)
    {
      if GetExtension(name).Some? {
        return Fail(ExtensionExists(name));
      }
      extensions := extensions + [NewExtension(name, title, description, homepage, initialVersion, tags, category)];
      SortExtensions();
      r := Pass;
    }

    method AddRelease(manifest: ExtensionManifest, release: Release) returns (r: Outcome<RegistryError>)
      modifies this`extensions
      ensures (extensions, r) == ReleaseAdded(old(extensions), manifest, release)
      ensures old(Invariant(extensions)) && Semver.IsValid(manifest.extension.version) ==> Invariant(extensions)
    {
      if Invariant(extensions) && Semver.IsValid(manifest.extension.version) {
        ReleaseAddedKeepsInvariant(extensions, manifest, release);
      }
      var m := manifest.extension;
      var asset := FindAsset(release.assets, ArchiveName(m.name));
      if asset.None? {
        return Fail(AssetMissing(ArchiveName(m.name)));
      }
      var version := NewVersion(manifest, release, asset.value.browserDownloadUrl);
      if GetExtension(m.name).Some? {
        r := UpdateExtensionDetails(m.name, m.title, m.description, m.homepage, m.tags, m.category);
        if r.Pass? {
          r := AddExtensionVersion(m.name, version);
        }
      } else {
        r := AddNewExtension(m.name, m.title, m.description, m.homepage, version, m.tags, m.category);
      }
    }
  }
}
