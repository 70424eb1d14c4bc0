/**
  The aggregation layer of the champion dashboard: typed summaries computed
  from one parsed metrics snapshot (a family name mapped to its samples, each a
  label set and a value), and the formatting rules of the system-information
  card.
*/
module ChampionDashboard {
  import opened Basics
  import Text
  import Sequences

  type Labels = map<string, string>

  /** One sample: its label set and its value, already narrowed to an integer. */
  type Sample = (Labels, int)

  /** A parsed metrics payload: each family name with its samples in payload order. */
  type Snapshot = map<string, seq<Sample>>

  /** `metrics.get(name, [])`. */
  function Family(metrics: Snapshot, name: string): seq<Sample> {
    if name in metrics then metrics[name] else []
  }

  /** `labels.get(name)` is truthy: the label exists and is not the empty string. */
  predicate Present(labels: Labels, name: string) {
    Given(Get(labels, name))
  }

  // ---------------------------------------------------------------------------
  // "The last sample wins"
  // ---------------------------------------------------------------------------

  /**
    The value of the last sample whose labels `key` sends to `k`, or None when
    there is no such sample. Each aggregator stores into a dictionary slot
    sample after sample, so the slot ends up holding exactly this.
  */
  function LastValue<K(==)>(samples: seq<Sample>, key: Labels -> K, k: K): Option<int> {
    if |samples| == 0 then None
    else if key(samples[|samples| - 1].0) == k then Some(samples[|samples| - 1].1)
    else LastValue(samples[..|samples| - 1], key, k)
  }

  lemma LastValueStep<K>(samples: seq<Sample>, i: nat, key: Labels -> K, k: K)
    requires i < |samples|
    ensures LastValue(samples[..i + 1], key, k)
         == if key(samples[i].0) == k then Some(samples[i].1) else LastValue(samples[..i], key, k)
  {
    assert samples[..i + 1][..i] == samples[..i];
  }

  /** A slot is empty exactly when no sample is sent to it. */
  lemma {:induction false} LastValueNone<K>(samples: seq<Sample>, key: Labels -> K, k: K)
    ensures LastValue(samples, key, k).None? <==> forall i :: 0 <= i < |samples| ==> key(samples[i].0) != k
  {
    if |samples| > 0 {
      var init := samples[..|samples| - 1];
      LastValueNone(init, key, k);
      assert forall i :: 0 <= i < |init| ==> init[i] == samples[i];
    }
  }

  /** A slot holds `v` exactly when the last sample sent to it has value `v`. */
  lemma {:induction false} LastValueSome<K>(samples: seq<Sample>, key: Labels -> K, k: K, v: int)
    ensures LastValue(samples, key, k) == Some(v) <==>
      exists i :: 0 <= i < |samples| && key(samples[i].0) == k && samples[i].1 == v &&
        forall j :: i < j < |samples| ==> key(samples[j].0) != k
  {
    var n := |samples|;
    if n > 0 {
      var init := samples[..n - 1];
      LastValueSome(init, key, k, v);
      assert forall i :: 0 <= i < |init| ==> init[i] == samples[i];
      if key(samples[n - 1].0) == k {
        if samples[n - 1].1 == v {
          assert 0 <= n - 1 < n && key(samples[n - 1].0) == k && samples[n - 1].1 == v;
        } else {
          forall i | 0 <= i < n && key(samples[i].0) == k && samples[i].1 == v
            ensures exists j :: i < j < n && key(samples[j].0) == k
          {
            assert i < n - 1;
          }
        }
      }
    }
  }

  // ---------------------------------------------------------------------------
  // User activity windows (get_user_activity_metrics)
  // ---------------------------------------------------------------------------

  const Windows: set<string> := {"24h", "7d", "30d", "1y"}

  /** The window a sample reports, when its `window` label is one of the four recognised keys. */
  function WindowKey(labels: Labels): Option<string> {
    if "window" in labels && labels["window"] in Windows then Some(labels["window"]) else None
  }

  /**
    Active users per window. The result always has exactly the four window
    keys; each holds the value of the last `users_active` sample reporting that
    window, or None when none does.
  */
  method GetUserActivityMetrics(metrics: Snapshot) returns (result: map<string, Option<int>>)
    ensures result.Keys == Windows
    ensures forall w :: w in Windows ==>
      result[w] == LastValue(Family(metrics, "users_active"), WindowKey, Some(w))
  {
    var usersActive := Family(metrics, "users_active");
    result := map["24h" := None, "7d" := None, "30d" := None, "1y" := None];
    for i := 0 to |usersActive|
      invariant result.Keys == Windows
      invariant forall w :: w in Windows ==> result[w] == LastValue(usersActive[..i], WindowKey, Some(w))
    {
      var (labels, value) := usersActive[i];
      var window := Get(labels, "window");
      if window.Some? && window.value in result {
        result := result[window.value := Some(value)];
      }
      forall w | w in Windows
        ensures result[w] == LastValue(usersActive[..i + 1], WindowKey, Some(w))
      {
        LastValueStep(usersActive, i, WindowKey, Some(w));
      }
    }
    assert usersActive[..|usersActive|] == usersActive;
  }

  /**
    A window is None exactly when no sample carries it; otherwise it holds the
    value of the last sample that does, whatever other windows or unrecognised
    samples come after it.
  */
  lemma WindowValue(samples: seq<Sample>, w: string, v: int)
    requires w in Windows
    ensures LastValue(samples, WindowKey, Some(w)).None? <==>
      forall i :: 0 <= i < |samples| ==> !("window" in samples[i].0 && samples[i].0["window"] == w)
    ensures LastValue(samples, WindowKey, Some(w)) == Some(v) <==>
      exists i :: 0 <= i < |samples| && "window" in samples[i].0 && samples[i].0["window"] == w &&
        samples[i].1 == v &&
        forall j :: i < j < |samples| ==> !("window" in samples[j].0 && samples[j].0["window"] == w)
  {
    LastValueNone(samples, WindowKey, Some(w));
    LastValueSome(samples, WindowKey, Some(w), v);
  }

  // ---------------------------------------------------------------------------
  // Content counts (get_content_stats)
  // ---------------------------------------------------------------------------

  /** Where the if/elif chain of get_content_stats puts a `content_count` sample. */
  datatype Bucket = Total | ByType(displayType: string) | RuntimeVersion(runtimeKey: string) | Dropped

  /** The display label of a content type: "unknown" is shown as "Other". */
  function DisplayType(contentType: string): string {
    if contentType == "unknown" then "Other" else contentType
  }

  function Route(labels: Labels): Bucket {
    if !Present(labels, "content_type") && !Present(labels, "runtime_language") then Total
    else if Present(labels, "content_type") && !Present(labels, "runtime_language") then
      ByType(DisplayType(labels["content_type"]))
    else if Present(labels, "runtime_language") && Present(labels, "runtime_version") then
      RuntimeVersion(labels["runtime_language"] + " " + labels["runtime_version"])
    else Dropped
  }

  datatype ContentStats = ContentStats(total: int, byType: map<string, int>, runtimeVersions: map<string, int>)

  /**
    Content counts. `total` is the last sample with neither a content type nor
    a runtime language (0 if there is none); `byType` and `runtimeVersions`
    hold, per key, the last sample routed there.
  */
  method GetContentStats(metrics: Snapshot) returns (stats: ContentStats)
    ensures stats.total == LastValue(Family(metrics, "content_count"), Route, Total).GetOr(0)
    ensures forall t :: Get(stats.byType, t) == LastValue(Family(metrics, "content_count"), Route, ByType(t))
    ensures forall k :: Get(stats.runtimeVersions, k)
                     == LastValue(Family(metrics, "content_count"), Route, RuntimeVersion(k))
  {
    var contentCount := Family(metrics, "content_count");
    stats := ContentStats(0, map[], map[]);
    for i := 0 to |contentCount|
      invariant stats.total == LastValue(contentCount[..i], Route, Total).GetOr(0)
      invariant forall t :: Get(stats.byType, t) == LastValue(contentCount[..i], Route, ByType(t))
      invariant forall k :: Get(stats.runtimeVersions, k) == LastValue(contentCount[..i], Route, RuntimeVersion(k))
    {
      var (labels, value) := contentCount[i];
      var contentType := Get(labels, "content_type");
      var runtimeLang := Get(labels, "runtime_language");
      var runtimeVer := Get(labels, "runtime_version");
      var hasType := Given(contentType);
      var hasLang := Given(runtimeLang);
      var hasVer := Given(runtimeVer);
      if !hasType && !hasLang {
        stats := stats.(total := value);
      } else if hasType && !hasLang {
        var displayType := if contentType.value == "unknown" then "Other" else contentType.value;
        stats := stats.(byType := stats.byType[displayType := value]);
      } else if hasLang && hasVer {
        var runtimeKey := runtimeLang.value + " " + runtimeVer.value;
        stats := stats.(runtimeVersions := stats.runtimeVersions[runtimeKey := value]);
      }
      LastValueStep(contentCount, i, Route, Total);
      forall t ensures Get(stats.byType, t) == LastValue(contentCount[..i + 1], Route, ByType(t)) {
        LastValueStep(contentCount, i, Route, ByType(t));
      }
      forall k ensures Get(stats.runtimeVersions, k) == LastValue(contentCount[..i + 1], Route, RuntimeVersion(k)) {
        LastValueStep(contentCount, i, Route, RuntimeVersion(k));
      }
    }
    assert contentCount[..|contentCount|] == contentCount;
  }

  /**
    The routing rules: the four buckets are told apart by which labels are
    present; a sample lands in exactly one of them, and it is dropped exactly
    when it names a runtime language without a runtime version.
  */
  lemma RouteConditions(labels: Labels)
    ensures Route(labels) == Total <==>
      !Present(labels, "content_type") && !Present(labels, "runtime_language")
    ensures Route(labels).ByType? <==>
      Present(labels, "content_type") && !Present(labels, "runtime_language")
    ensures Route(labels).RuntimeVersion? <==>
      Present(labels, "runtime_language") && Present(labels, "runtime_version")
    ensures Route(labels) == Dropped <==>
      Present(labels, "runtime_language") && !Present(labels, "runtime_version")
  {
  }

  /** A sample that carries a content type and a full runtime counts as a runtime version, never as a type. */
  lemma MixedSampleIsRuntime(labels: Labels)
    requires Present(labels, "content_type")
    requires Present(labels, "runtime_language") && Present(labels, "runtime_version")
    ensures Route(labels) == RuntimeVersion(labels["runtime_language"] + " " + labels["runtime_version"])
  {
  }

  /**
    The "Other" bucket collects the content types "unknown" and "Other";
    every other content type is its own key.
  */
  lemma OtherBucket(labels: Labels, t: string)
    ensures Route(labels) == ByType(t) <==>
      Present(labels, "content_type") && !Present(labels, "runtime_language") &&
      (if t == "Other" then labels["content_type"] in {"unknown", "Other"}
       else labels["content_type"] == t && t != "unknown")
  {
  }

  /** No snapshot ever produces a by-type entry under the key "unknown". */
  lemma UnknownIsNeverAKey(samples: seq<Sample>)
    ensures LastValue(samples, Route, ByType("unknown")) == None
  {
    LastValueNone(samples, Route, ByType("unknown"));
  }

  /**
    The total is taken from the unlabelled sample only: appending samples that
    go to a type or runtime bucket (or are dropped) never changes it.
  */
  lemma {:induction false} TotalIgnoresParts(samples: seq<Sample>, parts: seq<Sample>)
    requires forall i :: 0 <= i < |parts| ==> Route(parts[i].0) != Total
    ensures LastValue(samples + parts, Route, Total) == LastValue(samples, Route, Total)
  {
    if |parts| > 0 {
      var init := parts[..|parts| - 1];
      assert (samples + parts)[..|samples + parts| - 1] == samples + init;
      TotalIgnoresParts(samples, init);
    } else {
      assert samples + parts == samples;
    }
  }

  // ---------------------------------------------------------------------------
  // OAuth integration matrix (get_integration_metrics)
  // ---------------------------------------------------------------------------

  /** The (template, auth type) cell a sample is recorded in, when both labels are present. */
  function CellKey(labels: Labels): Option<(string, string)> {
    if Present(labels, "integration_template") && Present(labels, "integration_auth_type") then
      Some((labels["integration_template"], labels["integration_auth_type"]))
    else None
  }

  datatype IntegrationMetrics = IntegrationMetrics(
    matrix: map<string, map<string, int>>,  // template -> auth type -> count
    templates: seq<string>,
    authTypes: seq<string>)

  /** `matrix.get(template, {}).get(auth_type)`. */
  function MatrixGet(matrix: map<string, map<string, int>>, template: string, authType: string): Option<int> {
    if template in matrix && authType in matrix[template] then Some(matrix[template][authType]) else None
  }

  /** Every cell of `matrix` holds the last recorded sample for it, and only recorded cells exist. */
  ghost predicate MatrixMatches(matrix: map<string, map<string, int>>, samples: seq<Sample>) {
    forall t, a :: MatrixGet(matrix, t, a) == LastValue(samples, CellKey, Some((t, a)))
  }

  /** The auth types appearing in some row of the matrix. */
  ghost function AuthTypesOf(matrix: map<string, map<string, int>>): set<string> {
    set t, a | t in matrix && a in matrix[t] :: a
  }

  /**
    The integration matrix: each (template, auth type) cell holds the last
    sample carrying both labels; `templates` and `authTypes` are the sorted,
    duplicate-free lists of the row keys and of the auth types in the rows.
  */
  method GetIntegrationMetrics(metrics: Snapshot) returns (r: IntegrationMetrics)
    ensures MatrixMatches(r.matrix, Family(metrics, "integrations_count"))
    ensures forall t :: t in r.matrix ==> |r.matrix[t]| > 0
    ensures Text.StrictlySorted(r.templates) && forall t :: t in r.templates <==> t in r.matrix
    ensures Text.StrictlySorted(r.authTypes) && forall a :: a in r.authTypes <==> a in AuthTypesOf(r.matrix)
  {
    var integrationsCount := Family(metrics, "integrations_count");
    var matrix: map<string, map<string, int>> := map[];
    var templates: set<string> := {};
    var authTypes: set<string> := {};
    for i := 0 to |integrationsCount|
      invariant MatrixMatches(matrix, integrationsCount[..i])
      invariant forall t :: t in matrix ==> |matrix[t]| > 0
      invariant templates == matrix.Keys
      invariant authTypes == AuthTypesOf(matrix)
    {
      var (labels, count) := integrationsCount[i];
      var template := Get(labels, "integration_template");
      var authType := Get(labels, "integration_auth_type");
      if Given(template) && Given(authType) {
        var t, a := template.value, authType.value;
        ghost var before := matrix;
        templates := templates + {t};
        authTypes := authTypes + {a};
        if t !in matrix {
          matrix := matrix[t := map[]];
        }
        matrix := matrix[t := matrix[t][a := count]];
        assert matrix == before[t := Row(before, t)[a := count]];
        RecordCell(before, t, a, count);
      }
      forall t', a' ensures MatrixGet(matrix, t', a') == LastValue(integrationsCount[..i + 1], CellKey, Some((t', a'))) {
        LastValueStep(integrationsCount, i, CellKey, Some((t', a')));
      }
    }
    assert integrationsCount[..|integrationsCount|] == integrationsCount;
    var sortedTemplates := Text.SortedElements(templates);
    var sortedAuthTypes := Text.SortedElements(authTypes);
    r := IntegrationMetrics(matrix, sortedTemplates, sortedAuthTypes);
  }

  /** `matrix.get(template, {})`. */
  function Row(matrix: map<string, map<string, int>>, template: string): map<string, int> {
    if template in matrix then matrix[template] else map[]
  }

  /** Storing one count in the matrix: that cell changes, its row exists, and its auth type is now listed. */
  lemma RecordCell(before: map<string, map<string, int>>, t: string, a: string, count: int)
    ensures var after := before[t := Row(before, t)[a := count]];
      && (forall t', a' :: MatrixGet(after, t', a') == if (t', a') == (t, a) then Some(count) else MatrixGet(before, t', a'))
      && after.Keys == before.Keys + {t}
      && AuthTypesOf(after) == AuthTypesOf(before) + {a}
      && ((forall t' :: t' in before ==> |before[t']| > 0) ==> forall t' :: t' in after ==> |after[t']| > 0)
  {
    var after := before[t := Row(before, t)[a := count]];
    assert a in after[t];
    forall x | x in AuthTypesOf(after) ensures x in AuthTypesOf(before) + {a} {
      var t', a' :| t' in after && a' in after[t'] && a' == x;
      if t' != t {
        assert x in before[t'];
      } else if x != a {
        assert x in before[t];
      }
    }
    forall x | x in AuthTypesOf(before) ensures x in AuthTypesOf(after) {
      var t', a' :| t' in before && a' in before[t'] && a' == x;
      assert x in after[t'];
    }
  }

  /** The count the table shows for a cell: `matrix.get(template, {}).get(auth_type, 0)`. */
  function CellCount(matrix: map<string, map<string, int>>, template: string, authType: string): int {
    MatrixGet(matrix, template, authType).GetOr(0)
  }

  /** A cell is shown as "." when its count is 0, otherwise as the decimal count. */
  function CellDisplay(count: int): (shown: string)
    ensures shown == "." <==> count == 0
    ensures count != 0 ==> shown == Text.IntToDecimal(count)
  {
    Text.IntToDecimalRoundTrip(count);
    if count == 0 then "." else Text.IntToDecimal(count)
  }

  /**
    Reading the matrix: a cell no sample recorded reads as 0, a recorded cell
    reads as its last sample's value, and both a missing cell and a recorded 0
    are displayed as ".".
  */
  lemma CellLookup(matrix: map<string, map<string, int>>, samples: seq<Sample>, t: string, a: string)
    requires MatrixMatches(matrix, samples)
    ensures (forall i :: 0 <= i < |samples| ==> CellKey(samples[i].0) != Some((t, a))) ==>
      CellCount(matrix, t, a) == 0 && CellDisplay(CellCount(matrix, t, a)) == "."
    ensures CellCount(matrix, t, a) == LastValue(samples, CellKey, Some((t, a))).GetOr(0)
  {
    LastValueNone(samples, CellKey, Some((t, a)));
  }

  // ---------------------------------------------------------------------------
  // System information (the pure parts of get_system_info)
  // ---------------------------------------------------------------------------

  /** The `license` object of the server settings; each field may be missing. */
  datatype License = License(tier: Option<string>, anonymousServers: Option<bool>, unrestrictedServers: Option<bool>)

  /** The server settings fields the card reads; `launcherKubernetes` is `Launcher.Kubernetes`. */
  datatype ServerSettings = ServerSettings(
    version: Option<string>,
    build: Option<string>,
    launcherKubernetes: Option<bool>,
    license: Option<License>)

  /** One runtime installation; only its version is read. */
  datatype Installation = Installation(version: Option<string>)

  datatype SystemInfo = SystemInfo(
    product: string,
    version: string,
    build: string,
    executionType: string,
    licenseTier: string,
    licenseEntitlement: string,
    rVersions: string,
    pythonVersions: string,
    quartoVersions: string,
    tensorflowVersions: string)

  /** A flag that is missing counts as False. */
  predicate Flag(b: Option<bool>) {
    b == Some(true)
  }

  function Entitlement(license: License): string {
    if Flag(license.unrestrictedServers) then "Unrestricted"
    else if Flag(license.anonymousServers) then "Public Access"
    else "None"
  }

  /** Unrestricted servers take precedence over anonymous servers; with neither flag the entitlement is "None". */
  lemma EntitlementPrecedence(license: License)
    ensures Entitlement(license) == "Unrestricted" <==> Flag(license.unrestrictedServers)
    ensures Entitlement(license) == "Public Access" <==>
      !Flag(license.unrestrictedServers) && Flag(license.anonymousServers)
    ensures Entitlement(license) == "None" <==>
      !Flag(license.unrestrictedServers) && !Flag(license.anonymousServers)
  {
  }

  /** Each installation's version, or '' when it has none, in list order. */
  function VersionStrings(installations: seq<Installation>): (vs: seq<string>)
    ensures |vs| == |installations|
    ensures forall i :: 0 <= i < |installations| ==> vs[i] == installations[i].version.GetOr("")
  {
    if |installations| == 0 then []
    else VersionStrings(installations[..|installations| - 1]) + [installations[|installations| - 1].version.GetOr("")]
  }

  /** `extract_versions`: the versions joined with ", ", or "None" for an empty list. */
  function ExtractVersions(installations: seq<Installation>): string {
    if |installations| == 0 then "None" else Text.Join(VersionStrings(installations), ", ")
  }

  /**
    One more installation appends ", " and its version to a non-empty list's
    string; a single installation shows just its version.
  */
  lemma ExtractVersionsAppend(installations: seq<Installation>, last: Installation)
    ensures ExtractVersions([]) == "None"
    ensures ExtractVersions([last]) == last.version.GetOr("")
    ensures |installations| > 0 ==>
      ExtractVersions(installations + [last])
      == ExtractVersions(installations) + ", " + last.version.GetOr("")
  {
    if |installations| > 0 {
      var vs := VersionStrings(installations + [last]);
      assert vs == VersionStrings(installations) + [last.version.GetOr("")];
      Text.JoinSnoc(VersionStrings(installations), last.version.GetOr(""), ", ");
    }
  }

  /**
    The system-information record built from the administrative responses.
    `installations` lists that are missing from a response count as empty.
  */
  function GetSystemInfo(
    settings: ServerSettings,
    rInstallations: Option<seq<Installation>>,
    pythonInstallations: Option<seq<Installation>>,
    quartoInstallations: Option<seq<Installation>>,
    tensorflowInstallations: Option<seq<Installation>>): (info: SystemInfo)
    ensures info.product == "Posit Connect"
    ensures info.version == settings.version.GetOr("Unknown")
    ensures info.build == settings.build.GetOr("Unknown")
    ensures info.executionType == "Kubernetes" <==> Flag(settings.launcherKubernetes)
    ensures info.executionType in {"Kubernetes", "Local"}
    ensures info.licenseTier == (if settings.license.Some? then settings.license.value.tier.GetOr("N/A") else "N/A")
    ensures info.licenseEntitlement == Entitlement(settings.license.GetOr(License(None, None, None)))
    ensures info.licenseEntitlement in {"Unrestricted", "Public Access", "None"}
    ensures settings.license.None? ==> info.licenseEntitlement == "None"
    ensures info.rVersions == ExtractVersions(rInstallations.GetOr([]))
    ensures info.pythonVersions == ExtractVersions(pythonInstallations.GetOr([]))
    ensures info.quartoVersions == ExtractVersions(quartoInstallations.GetOr([]))
    ensures info.tensorflowVersions == ExtractVersions(tensorflowInstallations.GetOr([]))
    ensures rInstallations.None? ==> info.rVersions == "None"
  {
    var license := settings.license.GetOr(License(None, None, None));
    SystemInfo(
      "Posit Connect",
      settings.version.GetOr("Unknown"),
      settings.build.GetOr("Unknown"),
      if Flag(settings.launcherKubernetes) then "Kubernetes" else "Local",
      license.tier.GetOr("N/A"),
      Entitlement(license),
      ExtractVersions(rInstallations.GetOr([])),
      ExtractVersions(pythonInstallations.GetOr([])),
      ExtractVersions(quartoInstallations.GetOr([])),
      ExtractVersions(tensorflowInstallations.GetOr([])))
  }
}
