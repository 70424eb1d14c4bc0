# Connect staging extensions: a verified model of the core logic

This Dafny project models the core decision and data-handling logic of the
Posit Connect staging extensions repository. It covers four pieces:

- **Champion dashboard** (`champion_dashboard.dfy`). This part turns one
  parsed Prometheus snapshot into typed summaries:
  - active users per time window;
  - content counts by type and by runtime version;
  - the OAuth integration matrix (template × auth type) and how one of its
    cells is read and shown.

  It also covers the pure part of the system-information card: license tier,
  entitlement, execution type and version lists.
- **Extension registry script** (`extension_list.dfy`, `semver.dfy`). This is
  the gallery's list of extensions. Each extension has a release history kept
  in descending semantic-version order, and the list itself is kept sorted by
  name. A GitHub release either adds a version to a known extension or creates
  a new one. `ExtensionList` is a class whose methods update its `extensions`
  field in place. Each method is proved equal to a list-level function, and
  the lemmas about those functions state:
  - which error each operation raises;
  - what the new list is;
  - that the registry invariant is kept (names unique and sorted; every
    history non-empty, strictly descending and headed by `latestVersion`).
- **Language badges** (`languages.dfy`). `getLanguages` of the publisher
  command center derives a content item's language labels from its app mode,
  its content category and its recorded runtime versions.
- **Publisher command center API** (`publisher_api.dfy`). This part models:
  - the telemetry resource attributes taken from `CONNECT_*` environment
    variables;
  - the visitor-authorization check;
  - the choice of OAuth integration;
  - the owner/editor content filter and the active-job filters;
  - the lock toggle.

Three support modules are shared by the others:

- `basics.dfy`: `Option`, `Result` and `Outcome`, and `Given`, the one
  definition of a truthy optional string.
- `sequences.dfy`: filter, a stable insertion sort under a total preorder, and
  duplicate-freedom by key.
- `text.dfy`: code-point string order (Python's `sorted`), join/split, decimal numerals, ASCII
  lower-casing and substring removal.

Python and JavaScript truthiness is written out. A label, field or argument
counts as given when it is present and is not the empty string. Each
"store into a dictionary slot, sample after sample" loop is specified by
`LastValue`: the value of the last sample that goes to that slot.

The model follows the code in three places worth noting:

- The content `total` is the value of the last sample that carries neither a
  content type nor a runtime language. It is 0 when there is no such sample.
  It is never a sum of the other buckets.
- Content counts have no access-type dimension.
- Registering a release for a new extension never checks its version.

## Model

| member | source | states |
|---|---|---|
| ChampionDashboard.GetUserActivityMetrics | extensions/champion-dashboard/app.py:291-301 | the result has exactly the keys 24h, 7d, 30d and 1y; each holds the value of the last `users_active` sample whose `window` label is that key, or None |
| ChampionDashboard.LastValueNone | extensions/champion-dashboard/app.py:296-299 | a slot filled sample by sample stays empty exactly when no sample is sent to it |
| ChampionDashboard.LastValueSome | extensions/champion-dashboard/app.py:296-299 | a slot holds v exactly when the last sample sent to it has value v |
| ChampionDashboard.WindowValue | extensions/champion-dashboard/app.py:296-299 | a window is None iff no sample carries it; otherwise it holds the last such sample's value, whatever other samples follow |
| ChampionDashboard.GetContentStats | extensions/champion-dashboard/app.py:303-330 | total is the last sample with neither content type nor runtime language (0 if none); by_type and runtime_versions hold, per key, the last sample routed there and nothing else |
| ChampionDashboard.RouteConditions | extensions/champion-dashboard/app.py:318-328 | which labels send a sample to the total, the type map or the runtime map, and that it is dropped iff it names a runtime language without a version |
| ChampionDashboard.MixedSampleIsRuntime | extensions/champion-dashboard/app.py:318-328 | a sample with a content type and a full runtime is counted under its runtime key, never under its type |
| ChampionDashboard.OtherBucket | extensions/champion-dashboard/app.py:321-324 | the "Other" key collects both "unknown" and "Other" content types; every other type is its own key |
| ChampionDashboard.UnknownIsNeverAKey | extensions/champion-dashboard/app.py:323 | no snapshot yields a by-type entry named "unknown" |
| ChampionDashboard.TotalIgnoresParts | extensions/champion-dashboard/app.py:313-319 | appending samples that carry a type or a runtime never changes the total |
| ChampionDashboard.GetIntegrationMetrics | extensions/champion-dashboard/app.py:332-361 | each matrix cell holds the last sample carrying that template and auth type, and only such cells exist; no row is empty; templates and auth_types are strictly sorted and list exactly the row keys and the auth types in the rows |
| ChampionDashboard.RecordCell | extensions/champion-dashboard/app.py:349-355 | storing one count changes exactly that cell, adds its template row and its auth type, and keeps every row non-empty |
| ChampionDashboard.CellDisplay | extensions/champion-dashboard/app.py:667 | a count is shown as "." exactly when it is 0, otherwise as its decimal numeral |
| ChampionDashboard.CellLookup | extensions/champion-dashboard/app.py:666-667 | a cell no sample recorded reads as 0 and is shown as "."; a recorded cell reads as its last sample's value |
| ChampionDashboard.EntitlementPrecedence | extensions/champion-dashboard/app.py:376-385 | "Unrestricted" iff unrestricted servers; "Public Access" iff anonymous servers only; "None" iff neither, with missing flags counting as false |
| ChampionDashboard.VersionStrings | extensions/champion-dashboard/app.py:408 | one string per installation, in order: its version, or "" when it has none |
| ChampionDashboard.ExtractVersionsAppend | extensions/champion-dashboard/app.py:406-409 | an empty list shows "None"; a single installation shows its version alone; one more installation appends ", " and its version |
| ChampionDashboard.GetSystemInfo | extensions/champion-dashboard/app.py:371-427 | product is "Posit Connect"; version and build default to "Unknown"; execution type is "Kubernetes" iff the launcher flag is set, else "Local"; tier defaults to "N/A"; the entitlement is the precedence rule applied to the license (an empty one when missing), so "None" without a license; each of the four version fields is `extract_versions` of its installation list, a missing list counting as empty |
| Text.SortedElements | extensions/champion-dashboard/app.py:359-360 | `sorted` of a set of strings: strictly increasing, with exactly the set's elements |
| Text.IntToDecimalRoundTrip | extensions/champion-dashboard/app.py:667 | `str(count)` is never "." and reads back as count |
| Semver.Parse | scripts/extension-list.ts:125 | `semverValid`: a string denotes a version only when its components fit JavaScript's safe integers (with ParseFormat and FormatParse: exactly the canonical strings of such versions, optionally preceded by "v", are valid) |
| Semver.Compare | scripts/extension-list.ts:36 | the comparison the version sort uses (`rcompare(a, b)` is `compare(b, a)`): 0 iff the versions are equal, and its sign agrees with precedence |
| Semver.LeTotalOrder | scripts/extension-list.ts:36 | precedence (major, then minor, then patch) is reflexive, total, antisymmetric and transitive |
| Semver.ParseFormat | scripts/extension-list.ts:125 | every version with safe components is valid, and its canonical string parses back to it |
| Semver.FormatParse | scripts/extension-list.ts:125 | a valid version string is its version's canonical string, possibly preceded by "v" |
| Semver.LeadingV | scripts/extension-list.ts:125 | a leading "v" does not change the version denoted |
| ExtensionRegistry.ExtensionNameFromRelease | scripts/extension-list.ts:16-19 | the name has no "@", is a prefix of the tag, and is followed by "@" when shorter than the tag; a tag without "@" is returned whole |
| ExtensionRegistry.FindAsset | scripts/extension-list.ts:76-78 | None iff no asset has the file name; otherwise the first asset with that name |
| ExtensionRegistry.NewVersion | scripts/extension-list.ts:80-87 | the version record carries the manifest's version, minimum Connect version, required features and environment, the release date and the asset URL; the optional fields are present iff the manifest has them |
| ExtensionRegistry.FindIndex | scripts/extension-list.ts:169-170 | None iff no entry has the name; otherwise the index of the first entry with it |
| ExtensionRegistry.FindIndexAfterReplace | scripts/extension-list.ts:168-174 | replacing the first entry with a name by one of the same name keeps it the first |
| ExtensionRegistry.DescendingIsTotalPreorder | scripts/extension-list.ts:35-37 | the descending semver comparison is total and transitive, so the sort is well defined |
| ExtensionRegistry.SortVersionsResult | scripts/extension-list.ts:35-37 | sorting the versions gives a permutation of them in descending semver order |
| ExtensionRegistry.ByNameIsTotalPreorder | scripts/extension-list.ts:186-188 | the name comparison is total and transitive |
| ExtensionRegistry.SortByNameResult | scripts/extension-list.ts:186-188 | sorting the extensions gives a permutation of them in ascending name order |
| ExtensionRegistry.UpdatedReplacesOneEntry | scripts/extension-list.ts:168-174 | updateExtension fails iff the name is absent, leaving the list unchanged; otherwise only the first entry with the name is replaced by the data |
| ExtensionRegistry.WithDetailsFields | scripts/extension-list.ts:109-116 | the details update keeps name and history, overwrites title, description, homepage and tags (default []), and replaces the category only when one is given |
| ExtensionRegistry.DetailsUpdatedKeepsInvariant | scripts/extension-list.ts:101-117 | updating the details keeps the registry invariant |
| ExtensionRegistry.SomeSemverEqual | scripts/extension-list.ts:129 | false iff every stored version is valid and different; true only if an equal one is stored; an error names a stored version semver cannot parse |
| ExtensionRegistry.AddVersionErrors | scripts/extension-list.ts:119-131 | "Invalid version" iff the new version is invalid; over valid stored versions, the add fails iff an equal version is stored; any other failure is a duplicate or an unparsable stored version |
| ExtensionRegistry.AddVersionResult | scripts/extension-list.ts:133-138 | after a successful add the history is the old one plus exactly the new version, in descending order, headed by its maximum, which is latestVersion; nothing else changes |
| ExtensionRegistry.SortedDistinctIsStrict | scripts/extension-list.ts:128-135 | a sorted, duplicate-free history of valid versions is strictly descending |
| ExtensionRegistry.AddVersionStrict | scripts/extension-list.ts:128-138 | a successful add to a duplicate-free history yields a well-formed extension |
| ExtensionRegistry.VersionAddedErrors | scripts/extension-list.ts:119-141 | fails with "does not exist" iff no entry has the name; for a present name it succeeds iff adding the version to the entry does, and otherwise fails with that error; every failure leaves the list unchanged |
| ExtensionRegistry.VersionAddedKeepsInvariant | scripts/extension-list.ts:119-141 | adding a version keeps the registry invariant; on success only that extension's entry changes, to the added result |
| ExtensionRegistry.NewAddedResult | scripts/extension-list.ts:143-166 | addNewExtension fails iff the name is present, leaving the list unchanged; otherwise the list is the old entries plus the new one, sorted by name |
| ExtensionRegistry.NewAddedNamesSorted | scripts/extension-list.ts:155-165 | adding an entry with a fresh name keeps the names strictly increasing |
| ExtensionRegistry.AddedEntryWellFormed | scripts/extension-list.ts:155-165 | after adding one entry to well-formed entries, all are well formed iff the added one is |
| ExtensionRegistry.NewAddedInvariant | scripts/extension-list.ts:143-166 | adding a new extension keeps the names unique and sorted; the whole invariant survives iff the initial version is valid |
| ExtensionRegistry.ReleaseUpdatesKnownExtension | scripts/extension-list.ts:89-91 | for a known extension the manifest's details are stored whether or not the version is accepted, other entries are unchanged, and the outcome is that of adding the version |
| ExtensionRegistry.ReleaseCreatesUnchecked | scripts/extension-list.ts:92-94 | for a new name the release always succeeds and stores the manifest's version as its only and latest version, valid or not |
| ExtensionRegistry.ReleaseAddedKeepsInvariant | scripts/extension-list.ts:62-95 | a release whose manifest version is valid keeps the registry invariant, whatever its outcome |
| ExtensionRegistry.ExtensionList.constructor | scripts/extension-list.ts:40-50 | the four fields hold the given lists |
| ExtensionRegistry.ExtensionList.GetExtension | scripts/extension-list.ts:97-99 | None iff no extension has the name; otherwise the first extension with that name |
| ExtensionRegistry.ExtensionList.UpdateExtension | scripts/extension-list.ts:168-174 | the new list and the outcome are those of the list-level update |
| ExtensionRegistry.ExtensionList.UpdateExtensionDetails | scripts/extension-list.ts:101-117 | the new list and outcome are those of the details update, and the invariant is kept |
| ExtensionRegistry.ExtensionList.AddExtensionVersion | scripts/extension-list.ts:119-141 | the new list and outcome are those of adding the version, and the invariant is kept |
| ExtensionRegistry.ExtensionList.SortExtensions | scripts/extension-list.ts:186-188 | the list becomes its stable sort by name |
| ExtensionRegistry.ExtensionList.AddNewExtension | scripts/extension-list.ts:143-166 | the new list and outcome are those of adding a new extension |
| ExtensionRegistry.ExtensionList.AddRelease | scripts/extension-list.ts:62-95 | the new list and outcome are those of registering the release; the invariant is kept when the manifest version is valid |
| Languages.ModeCasesDisjoint | extensions/publisher-command-center/src/components/Languages.js:10-37 | no app mode falls under two cases of the first switch |
| Languages.NamesDistinct | extensions/publisher-command-center/src/components/Languages.js:21-66 | the seven labels are distinct strings |
| Languages.CollectLanguages | extensions/publisher-command-center/src/components/Languages.js:8-67 | each label is in the set iff one of the rules that adds it applies: the app-mode case, the category case, or a non-null, non-empty runtime version |
| Languages.GetLanguages | extensions/publisher-command-center/src/components/Languages.js:7-70 | the labels are strictly ascending; each appears iff a rule adds it; all are among the seven; the list is empty iff no rule applies |
| PublisherApi.ConnectAttrsKeys | extensions/publisher-command-center-otel/app.py:19-23 | an attribute exists iff some CONNECT_* variable maps to its name |
| PublisherApi.ConnectAttrsLastWins | extensions/publisher-command-center-otel/app.py:19-23 | among variables mapping to the same attribute, the last one in the environment gives its value |
| PublisherApi.ConnectAttrsPrefix | extensions/publisher-command-center-otel/app.py:20 | every attribute name starts with "connect." |
| PublisherApi.AttrNameOfVariable | extensions/publisher-command-center-otel/app.py:20 | the variable's own CONNECT_ prefix becomes "connect."; the rest is lower-cased with every further "connect_" removed |
| PublisherApi.AttrNameWithoutInnerPrefix | extensions/publisher-command-center-otel/app.py:20 | a rest that holds no "connect_" after lower-casing is kept whole |
| PublisherApi.IntegrationStatus | extensions/publisher-command-center-otel/app.py:48-65 | authorized off Connect or with a token whose visitor client builds; unauthorized on Connect without a token or on error 212; any other ClientError is re-raised |
| PublisherApi.IntegrationPriority | extensions/publisher-command-center-otel/app.py:83-97 | the first Admin "connect" integration wins; failing that, the first Publisher one; None iff there is neither |
| PublisherApi.ActiveJobsExactly | extensions/publisher-command-center-otel/app.py:121 | the active jobs are exactly the jobs with status 0, each as often as it occurs, in order |
| PublisherApi.Contents | extensions/publisher-command-center-otel/app.py:109-123 | the result is the owned or edited items in order; each kept item's active_jobs is set to its running jobs; other items and every lock are untouched |
| PublisherApi.GetContentProcesses | extensions/publisher-command-center-otel/app.py:157-167 | the result is the item's active jobs, so with ActiveJobsExactly: the status-0 jobs in order, each as often as it occurs; a job is returned iff it belongs to the item and has status 0 |
| PublisherApi.LockContent | extensions/publisher-command-center-otel/app.py:133-143 | the item's lock flips and its other state is unchanged |

## Left out

- Fetching and parsing the metrics endpoint (HTTP and Prometheus text parsing) are I/O. A snapshot is a parameter, with every value already an integer.
- ChampionDashboard.GetContentStats: `by_type` and `runtime_versions` are Python dicts, which keep their keys in the order each key was first stored, and the content card lists them in that order. The model's maps do not record that order.
- The HTTP calls of `get_system_info` are network I/O. Their responses are parameters.
- The access-control, OAuth-usage, running-content and schedule statistics return constants and are not part of this model.
- The Shiny user interface is left out, apart from the matrix cell lookup.
- OpenTelemetry setup, the TTL client cache and the process-destroy call are left out. So are the other endpoints: set_integration, rename, delete, author, releases, metrics and single content.
- Reading manifests and the registry file, serialising the list, and the command-line driver of the registry script are file I/O.
- Semver.Parse: treats versions with prerelease or build identifiers (`1.0.0-beta.1`, `1.2.3+b`) as invalid, where node-semver accepts and orders them. So `AddVersion` rejects such a version with `InvalidVersion` where the script would add it. Surrounding whitespace, which node-semver trims, and loose mode are not modelled either.
- ExtensionRegistry.ByName: code-point order stands in for the `localeCompare` collation of `sortExtensions`. The two agree on names made only of lower-case ASCII letters, digits and "-". They differ on letter case (collation puts "alpha" before "Zeta"), on other punctuation (collation puts "_" before digits) and on accented letters.
- Languages.GetLanguages: JavaScript's default `sort()` compares UTF-16 code units; the model compares code points. The two agree on the seven ASCII labels it sorts. For Python's `sorted`, code-point order is exact.
- PublisherApi.AttrName: `lower()` is modelled on ASCII letters only.
- JSON values of unexpected types (a non-boolean flag, a non-string label, a non-integer sample value) are left out. So is the KeyError a missing `config` or `status` key raises.
- PublisherApi.IntegrationStatus: exceptions other than ClientError from building the visitor client are not modelled.
- PublisherApi.Contents: the content items are objects passed in. Fetching them through the visitor's client is left out.
- ExtensionRegistry.NewerOrSame: the placement of invalid version strings in the sort is arbitrary (they go last). semver would throw there, but the script sorts only after every stored version has been parsed.
