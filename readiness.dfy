/** The readiness endpoint's mapping from health status to HTTP status code. */
module Readiness {
  import opened LastReply
  import opened HealthCheck

  const Status200OK: int := 200
  const Status503ServiceUnavailable: int := 503

  /** The endpoint's `ResultStatusCodes` table. */
  const ResultStatusCodes: map<HealthStatus, int> :=
    map[Healthy := Status200OK, Degraded := Status503ServiceUnavailable, Unhealthy := Status503ServiceUnavailable]

  /** The code the endpoint answers with: every status has an entry, and
      only `Healthy` is answered with 200. */
  function ReadinessStatusCode(status: HealthStatus): (code: int)
    ensures code == Status200OK <==> status == Healthy
    ensures code == Status503ServiceUnavailable <==> status != Healthy
  {
    assert status in ResultStatusCodes by {
      assert status == Healthy || status == Degraded || status == Unhealthy;
    }
    ResultStatusCodes[status]
  }

  /** Composed with the check: the endpoint answers 200 exactly when nothing
      was reported yet or the last reply was a success, and 503 otherwise. */
  lemma ReadyIffLastReplyOk(s: LastReplySnapshot, format: Timestamp -> string)
    ensures ReadinessStatusCode(CheckHealth(s, format).status) == Status200OK <==> !s.HasReported || s.LastSuccess
    ensures ReadinessStatusCode(CheckHealth(s, format).status) == Status503ServiceUnavailable <==> s.HasReported && !s.LastSuccess
  {
  }

  /** After any sequence of reports on a fresh state, the endpoint is ready
      exactly when the log is empty or its last report is a success. */
  lemma {:induction false} ReadyAfterReports(log: seq<Report>, format: Timestamp -> string)
    ensures ReadinessStatusCode(CheckHealth(RecordAll(NothingReported, log), format).status) == Status200OK
      <==> log == [] || log[|log| - 1].Success?
  {
    HasReportedMonotone(NothingReported, log);
    if log != [] {
      LastReportDecides(NothingReported, log);
    }
  }
}
