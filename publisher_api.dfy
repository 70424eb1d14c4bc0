/**
  The decision and filter rules of the publisher command center's API
  server: the telemetry resource attributes taken from `CONNECT_*`
  environment variables, the visitor-authorization check, the choice of
  OAuth integration, the owner/editor and active-job filters, and the lock
  toggle. Calls into the Connect SDK appear as their results: lists and
  records passed in, and a raised `ClientError` as an outcome.
*/
module PublisherApi {
  import opened Basics
  import Text
  import Sequences

  // ---------------------------------------------------------------------------
  // Telemetry resource attributes
  // ---------------------------------------------------------------------------

  const EnvPrefix: string := "CONNECT_"

  /** The attribute a `CONNECT_*` variable becomes: lower-cased, every "connect_" removed, under "connect.". */
  function AttrName(key: string): string {
    "connect." + Text.RemoveAll(Text.Lower(key), "connect_")
  }

  /**
    The `connect_attrs` comprehension over the environment's items in order:
    a later variable whose attribute name coincides with an earlier one's
    overwrites it.
  */
  function ConnectAttrs(env: seq<(string, string)>): map<string, string> {
    if |env| == 0 then map[]
    else
      var attrs := ConnectAttrs(env[..|env| - 1]);
      var (key, value) := env[|env| - 1];
      if Text.StartsWith(key, EnvPrefix) then attrs[AttrName(key) := value] else attrs
  }

  /** The environment entry is a `CONNECT_*` variable whose attribute name is `attr`. */
  predicate NamesAttr(entry: (string, string), attr: string) {
    Text.StartsWith(entry.0, EnvPrefix) && AttrName(entry.0) == attr
  }

  /** An attribute exists exactly when some `CONNECT_*` variable is named to it. */
  lemma {:induction false} ConnectAttrsKeys(env: seq<(string, string)>, attr: string)
    ensures attr in ConnectAttrs(env) <==> exists i :: 0 <= i < |env| && NamesAttr(env[i], attr)
  {
    if |env| > 0 {
      var init := env[..|env| - 1];
      ConnectAttrsKeys(init, attr);
      assert forall i :: 0 <= i < |init| ==> env[i] == init[i];
      if exists i :: 0 <= i < |env| && NamesAttr(env[i], attr) {
        var i :| 0 <= i < |env| && NamesAttr(env[i], attr);
        if i < |init| {
          assert NamesAttr(init[i], attr);
        }
      }
    }
  }

  /** Among variables named to the same attribute, the last one in the environment gives its value. */
  lemma {:induction false} ConnectAttrsLastWins(env: seq<(string, string)>, attr: string, i: nat)
    requires i < |env| && NamesAttr(env[i], attr)
    requires forall j :: i < j < |env| ==> !NamesAttr(env[j], attr)
    ensures attr in ConnectAttrs(env) && ConnectAttrs(env)[attr] == env[i].1
  {
    if i < |env| - 1 {
      var init := env[..|env| - 1];
      assert forall j :: 0 <= j < |init| ==> env[j] == init[j];
      ConnectAttrsLastWins(init, attr, i);
      assert !NamesAttr(env[|env| - 1], attr);
    }
  }

  /** Every attribute name carries the "connect." prefix. */
  lemma ConnectAttrsPrefix(env: seq<(string, string)>)
    ensures forall attr :: attr in ConnectAttrs(env) ==> Text.StartsWith(attr, "connect.")
  {
    forall attr | attr in ConnectAttrs(env) ensures Text.StartsWith(attr, "connect.") {
      ConnectAttrsKeys(env, attr);
      var i :| 0 <= i < |env| && NamesAttr(env[i], attr);
      assert attr[..8] == "connect.";
    }
  }

  /**
    The variable's own "CONNECT_" prefix is what becomes "connect.": the rest
    of the key is lower-cased with every further "connect_" removed too.
  */
  lemma AttrNameOfVariable(rest: string)
    ensures AttrName(EnvPrefix + rest) == "connect." + Text.RemoveAll(Text.Lower(rest), "connect_")
  {
    Text.LowerConcat(EnvPrefix, rest);
    assert Text.Lower(EnvPrefix) == "connect_";
    Text.RemoveAllLeading("connect_", Text.Lower(rest));
  }

  /** A rest of the key that does not contain "connect_" after lower-casing is kept whole. */
  lemma AttrNameWithoutInnerPrefix(rest: string)
    requires !Text.Contains(Text.Lower(rest), "connect_")
    ensures AttrName(EnvPrefix + rest) == "connect." + Text.Lower(rest)
  {
    AttrNameOfVariable(rest);
    Text.RemoveAllWithoutOccurrence(Text.Lower(rest), "connect_");
  }

  // ---------------------------------------------------------------------------
  // Visitor authorization
  // ---------------------------------------------------------------------------

  /** The SDK's ClientError: an error code and a message. */
  datatype ClientError = ClientError(errorCode: int, message: string)

  /** The error code Connect reports when the visitor has no OAuth integration. */
  const NoIntegrationCode: int := 212

  /**
    `integration_status`: `product` is RSTUDIO_PRODUCT, `token` the session
    token header, `visitorClient` whether building the visitor's client
    raised a ClientError. The result is `authorized`, or the error re-raised.
  */
  function IntegrationStatus(product: Option<string>, token: Option<string>, visitorClient: Outcome<ClientError>)
    : (r: Result<bool, ClientError>)
    ensures r == Ok(true) <==>
              product != Some("CONNECT") || (token.Some? && token.value != "" && visitorClient.Pass?)
    ensures r == Ok(false) <==>
              product == Some("CONNECT")
              && (token.None? || token.value == ""
                  || (visitorClient.Fail? && visitorClient.error.errorCode == NoIntegrationCode))
    ensures r.Err? <==>
              product == Some("CONNECT") && token.Some? && token.value != ""
              && visitorClient.Fail? && visitorClient.error.errorCode != NoIntegrationCode
    ensures r.Err? ==> r.error == visitorClient.error
  {
    if product == Some("CONNECT") then
      if token.None? || token.value == "" then Ok(false)
      else match visitorClient
        case Pass => Ok(true)
        case Fail(err) => if err.errorCode == NoIntegrationCode then Ok(false) else Err(err)
    else Ok(true)
  }

  // ---------------------------------------------------------------------------
  // OAuth integrations
  // ---------------------------------------------------------------------------

  /** An OAuth integration: its template and the `max_role` of its configuration. */
  datatype Integration = Integration(guid: string, template: string, maxRole: string)

  predicate IsAdminIntegration(i: Integration) {
    i.template == "connect" && i.maxRole == "Admin"
  }

  predicate IsPublisherIntegration(i: Integration) {
    i.template == "connect" && i.maxRole == "Publisher"
  }

  /** `get_integrations`: the first of the Admin integrations followed by the Publisher ones. */
  function GetIntegrations(integrations: seq<Integration>): Option<Integration> {
    var eligible := Sequences.Filter(integrations, IsAdminIntegration)
                    + Sequences.Filter(integrations, IsPublisherIntegration);
    if |eligible| > 0 then Some(eligible[0]) else None
  }

  /**
    The first Admin "connect" integration wins; failing that, the first
    Publisher one; failing that, none.
  */
  lemma IntegrationPriority(integrations: seq<Integration>)
    ensures var r := GetIntegrations(integrations);
      && ((exists i :: 0 <= i < |integrations| && IsAdminIntegration(integrations[i])) ==>
            exists i :: 0 <= i < |integrations| && IsAdminIntegration(integrations[i]) && r == Some(integrations[i])
              && forall j :: 0 <= j < i ==> !IsAdminIntegration(integrations[j]))
      && ((forall i :: 0 <= i < |integrations| ==> !IsAdminIntegration(integrations[i]))
          && (exists i :: 0 <= i < |integrations| && IsPublisherIntegration(integrations[i])) ==>
            exists i :: 0 <= i < |integrations| && IsPublisherIntegration(integrations[i]) && r == Some(integrations[i])
              && forall j :: 0 <= j < i ==> !IsPublisherIntegration(integrations[j]))
      && (r.None? <==>
            forall i :: 0 <= i < |integrations| ==>
              !IsAdminIntegration(integrations[i]) && !IsPublisherIntegration(integrations[i]))
  {
    Sequences.FilterHead(integrations, IsAdminIntegration);
    Sequences.FilterHead(integrations, IsPublisherIntegration);
  }

  // ---------------------------------------------------------------------------
  // Content items and their jobs
  // ---------------------------------------------------------------------------

  /** A job (process) of a content item; status 0 means it is running. */
  datatype Job = Job(key: string, status: int)

  predicate IsActive(job: Job) {
    job.status == 0
  }

  /** `[job for job in jobs if job["status"] == 0]`. */
  function ActiveJobs(jobs: seq<Job>): seq<Job> {
    Sequences.Filter(jobs, IsActive)
  }

  /**
    The active jobs are exactly the jobs with status 0, each as often as it
    occurs, in their original order.
  */
  lemma ActiveJobsExactly(jobs: seq<Job>, more: seq<Job>, job: Job)
    ensures job in ActiveJobs(jobs) <==> job in jobs && job.status == 0
    ensures multiset(ActiveJobs(jobs))[job] == if job.status == 0 then multiset(jobs)[job] else 0
    ensures ActiveJobs(jobs + more) == ActiveJobs(jobs) + ActiveJobs(more)
  {
    Sequences.FilterMembers(jobs, IsActive);
    Sequences.FilterCount(jobs, IsActive, job);
    Sequences.FilterConcat(jobs, more, IsActive);
  }

  /** A content item as the SDK returns it; `activeJobs` and `locked` are written by the handlers. */
  class Content {
    const guid: string
    const appRole: string
    const jobs: seq<Job>
    var activeJobs: Option<seq<Job>>
    var locked: bool

    constructor(guid: string, appRole: string, jobs: seq<Job>, locked: bool)
      ensures this.guid == guid && this.appRole == appRole && this.jobs == jobs
      ensures this.activeJobs == None && this.locked == locked
    {
      this.guid := guid;
      this.appRole := appRole;
      this.jobs := jobs;
      this.activeJobs := None;
      this.locked := locked;
    }
  }

  predicate OwnedOrEdited(c: Content) {
    c.appRole in ["owner", "editor"]
  }

  /**
    `contents`: keeps the items the visitor owns or edits, in order, and
    writes each kept item's active jobs into it.
  */
  method Contents(all: seq<Content>) returns (owned: seq<Content>)
    modifies set c | c in all
    ensures owned == Sequences.Filter(all, OwnedOrEdited)
    ensures forall c :: c in all ==> (c in owned <==> OwnedOrEdited(c))
    ensures forall c :: c in owned ==> c.activeJobs == Some(ActiveJobs(c.jobs))
    ensures forall c :: c in all && c !in owned ==> c.activeJobs == old(c.activeJobs)
    ensures forall c :: c in all ==> c.locked == old(c.locked)
  {
    owned := Sequences.Filter(all, OwnedOrEdited);
    Sequences.FilterMembers(all, OwnedOrEdited);
    var i := 0;
    while i < |owned|
      invariant 0 <= i <= |owned|
      invariant forall k :: 0 <= k < i ==> owned[k].activeJobs == Some(ActiveJobs(owned[k].jobs))
      invariant forall c :: c in all && c !in owned[..i] ==> c.activeJobs == old(c.activeJobs)
      invariant forall c :: c in all ==> c.locked == old(c.locked)
    {
      owned[i].activeJobs := Some(ActiveJobs(owned[i].jobs));
      assert owned[..i + 1] == owned[..i] + [owned[i]];
      i := i + 1;
    }
    assert owned[..i] == owned;
    forall c | c in owned ensures c.activeJobs == Some(ActiveJobs(c.jobs)) {
      var k :| 0 <= k < |owned| && owned[k] == c;
    }
  }

  /** `get_content_processes`: the item's running jobs, in order. */
  function GetContentProcesses(content: Content): (processes: seq<Job>)
    ensures processes == ActiveJobs(content.jobs)
    ensures forall job :: job in processes <==> job in content.jobs && job.status == 0
  {
    Sequences.FilterMembers(content.jobs, IsActive);
    ActiveJobs(content.jobs)
  }

  /** `lock_content`: flips the item's lock and nothing else. */
  method LockContent(content: Content)
    modifies content
    ensures content.locked == !old(content.locked)
    ensures content.activeJobs == old(content.activeJobs)
  {
    var isLocked := content.locked;
    content.locked := !isLocked;
  }
}
