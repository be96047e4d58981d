/** `LastReplyHealthCheck`: classifies a snapshot of the last-reply state
    as a health-check result. The `ToString("O")` round-trip formatting of a
    timestamp is the `format` argument. */
module HealthCheck {
  import opened Text
  import opened LastReply

  /** `HealthStatus`, in the order of its enum values. */
  datatype HealthStatus = Unhealthy | Degraded | Healthy

  /** A value of the result's data dictionary. */
  datatype DataValue = BoolValue(b: bool) | IntValue(i: int) | StringValue(s: string)

  /** `HealthCheckResult`: status, description and data. */
  datatype HealthCheckResult = HealthCheckResult(status: HealthStatus, description: string, data: map<string, DataValue>)

  const NoRepliesDescription: string := "No replies have been recorded yet."
  const SucceededDescription: string := "Last client reply was successful."
  const FailedDescription: string := "Last client reply failed."

  /** The six keys every result's data carries. */
  const DataKeys: set<string> :=
    {"hasReported", "lastSuccess", "lastSuccessAt", "lastFailureAt", "lastExitCode", "lastError"}

  /** A nullable timestamp as the data shows it: formatted, or empty when null. */
  function TimeText(t: Option<Timestamp>, format: Timestamp -> string): string {
    match t
    case Some(at) => format(at)
    case None => ""
  }

  /** The data dictionary built from a snapshot, with its null defaults. */
  function SnapshotData(s: LastReplySnapshot, format: Timestamp -> string): (d: map<string, DataValue>)
    ensures d.Keys == DataKeys
    ensures d["hasReported"] == BoolValue(s.HasReported) && d["lastSuccess"] == BoolValue(s.LastSuccess)
    ensures d["lastExitCode"] == IntValue(if s.LastExitCode.Some? then s.LastExitCode.value else -1)
    ensures d["lastError"] == StringValue(if s.LastError.Some? then s.LastError.value else "")
    ensures d["lastSuccessAt"] == StringValue(if s.LastSuccessAt.Some? then format(s.LastSuccessAt.value) else "")
    ensures d["lastFailureAt"] == StringValue(if s.LastFailureAt.Some? then format(s.LastFailureAt.value) else "")
  {
    map[
      "hasReported" := BoolValue(s.HasReported),
      "lastSuccess" := BoolValue(s.LastSuccess),
      "lastSuccessAt" := StringValue(TimeText(s.LastSuccessAt, format)),
      "lastFailureAt" := StringValue(TimeText(s.LastFailureAt, format)),
      "lastExitCode" := IntValue(match s.LastExitCode case Some(c) => c case None => -1),
      "lastError" := StringValue(match s.LastError case Some(e) => e case None => "")
    ]
  }

  /** `CheckHealthAsync` on one snapshot. */
  function CheckHealth(s: LastReplySnapshot, format: Timestamp -> string): (r: HealthCheckResult)
    ensures r.status != Unhealthy
    ensures r.status == Healthy <==> !s.HasReported || s.LastSuccess
    ensures !s.HasReported ==> r.description == NoRepliesDescription
    ensures s.HasReported && s.LastSuccess ==> r.description == SucceededDescription
    ensures s.HasReported && !s.LastSuccess ==> r.description == FailedDescription
    ensures r.data.Keys == DataKeys
    ensures r.data["hasReported"] == BoolValue(s.HasReported)
    ensures r.data["lastSuccess"] == BoolValue(s.LastSuccess)
    ensures s.LastExitCode.None? ==> r.data["lastExitCode"] == IntValue(-1)
    ensures s.LastExitCode.Some? ==> r.data["lastExitCode"] == IntValue(s.LastExitCode.value)
    ensures s.LastError.None? ==> r.data["lastError"] == StringValue("")
    ensures s.LastError.Some? ==> r.data["lastError"] == StringValue(s.LastError.value)
    ensures s.LastSuccessAt.None? ==> r.data["lastSuccessAt"] == StringValue("")
    ensures s.LastSuccessAt.Some? ==> r.data["lastSuccessAt"] == StringValue(format(s.LastSuccessAt.value))
    ensures s.LastFailureAt.None? ==> r.data["lastFailureAt"] == StringValue("")
    ensures s.LastFailureAt.Some? ==> r.data["lastFailureAt"] == StringValue(format(s.LastFailureAt.value))
  {
    if !s.HasReported then
      HealthCheckResult(Healthy, NoRepliesDescription, SnapshotData(s, format))
    else
      var data := SnapshotData(s, format);
      if s.LastSuccess then HealthCheckResult(Healthy, SucceededDescription, data)
      else HealthCheckResult(Degraded, FailedDescription, data)
  }

  /** The check itself: one snapshot of the state, which it never changes. */
  method CheckHealthAsync(state: LastReplyState, format: Timestamp -> string) returns (r: HealthCheckResult)
    ensures r == CheckHealth(state.GetSnapshot(), format)
  {
    var snapshot := state.GetSnapshot();
    r := CheckHealth(snapshot, format);
  }

  /** Composed with the state: after any sequence of reports on a fresh state
      the check is Healthy exactly when nothing was reported or the last
      report was a success, and Degraded otherwise. */
  lemma HealthAfterReports(log: seq<Report>, format: Timestamp -> string)
    ensures var r := CheckHealth(RecordAll(NothingReported, log), format);
      && (log == [] ==> r.status == Healthy && r.description == NoRepliesDescription)
      && (log != [] && log[|log| - 1].Success? ==> r.status == Healthy && r.description == SucceededDescription)
      && (log != [] && log[|log| - 1].Failure? ==> r.status == Degraded && r.description == FailedDescription)
      && r.data.Keys == DataKeys
      && (log != [] ==> r.data["lastExitCode"] == IntValue(log[|log| - 1].exitCode))
  {
    HasReportedMonotone(NothingReported, log);
    if log != [] {
      LastReportDecides(NothingReported, log);
    }
  }

  /** First case of LastReplyHealthCheckTests: a fresh state. */
  method NoRepliesIsHealthy(format: Timestamp -> string) returns (r: HealthCheckResult)
    ensures r.data.Keys == DataKeys
    ensures r.status == Healthy && r.description == NoRepliesDescription
    ensures r.data["hasReported"] == BoolValue(false) && r.data["lastSuccess"] == BoolValue(false)
    ensures r.data["lastExitCode"] == IntValue(-1) && r.data["lastError"] == StringValue("")
  {
    var state := new LastReplyState();
    r := CheckHealthAsync(state, format);
  }

  /** Second case of LastReplyHealthCheckTests: one success without an error. */
  method SuccessIsHealthy(now: Timestamp, format: Timestamp -> string) returns (r: HealthCheckResult)
    ensures r.data.Keys == DataKeys
    ensures r.status == Healthy && r.description == SucceededDescription
    ensures r.data["hasReported"] == BoolValue(true) && r.data["lastSuccess"] == BoolValue(true)
    ensures r.data["lastExitCode"] == IntValue(0) && r.data["lastFailureAt"] == StringValue("")
  {
    var state := new LastReplyState();
    state.ReportSuccess(0, None, now);
    r := CheckHealthAsync(state, format);
  }

  /** Third case of LastReplyHealthCheckTests: one failure. */
  method FailureIsDegraded(now: Timestamp, format: Timestamp -> string) returns (r: HealthCheckResult)
    ensures r.data.Keys == DataKeys
    ensures r.status == Degraded && r.description == FailedDescription
    ensures r.data["hasReported"] == BoolValue(true) && r.data["lastSuccess"] == BoolValue(false)
    ensures r.data["lastExitCode"] == IntValue(2) && r.data["lastError"] == StringValue("failure")
  {
    var state := new LastReplyState();
    state.ReportFailure(2, Some("failure"), now);
    r := CheckHealthAsync(state, format);
  }
}
