/** The worker's record of the last reply of the external client
    (`LastReplyState` and `LastReplySnapshot`). The lock that makes the
    source thread-safe is not modelled: the state is used sequentially, and
    the wall clock is the `now` argument of each report. */
module LastReply {
  import opened Text

  /** A `DateTimeOffset`, kept as UTC ticks. */
  datatype Timestamp = Timestamp(utcTicks: int)

  /** `LastReplySnapshot`: an immutable copy of the six fields. */
  datatype LastReplySnapshot = LastReplySnapshot(
    HasReported: bool,
    LastSuccess: bool,
    LastSuccessAt: Option<Timestamp>,
    LastFailureAt: Option<Timestamp>,
    LastExitCode: Option<int>,
    LastError: Option<string>)

  /** The state of a freshly constructed `LastReplyState`. */
  const NothingReported: LastReplySnapshot :=
    LastReplySnapshot(false, false, None, None, None, None)

  /** One call of `ReportSuccess` or `ReportFailure`, with the time it was made. */
  datatype Report =
    | Success(exitCode: int, error: Option<string>, at: Timestamp)
    | Failure(exitCode: int, error: Option<string>, at: Timestamp)

  /** The error a report leaves behind: a success clears a blank error,
      a failure keeps whatever it was given. */
  function KeptError(r: Report): (e: Option<string>)
    ensures r.Failure? ==> e == r.error
    ensures r.Success? && !IsNullOrWhiteSpace(r.error) ==> e == r.error
    ensures r.Success? && IsNullOrWhiteSpace(r.error) ==> e.None?
  {
    if r.Success? && IsNullOrWhiteSpace(r.error) then None else r.error
  }

  /** The snapshot after one report. */
  function Record(s: LastReplySnapshot, r: Report): (t: LastReplySnapshot)
    ensures t.HasReported && t.LastSuccess == r.Success?
    ensures t.LastExitCode == Some(r.exitCode) && t.LastError == KeptError(r)
    ensures r.Success? ==> t.LastSuccessAt == Some(r.at) && t.LastFailureAt == s.LastFailureAt
    ensures r.Failure? ==> t.LastFailureAt == Some(r.at) && t.LastSuccessAt == s.LastSuccessAt
  {
    match r
    case Success(code, _, at) =>
      s.(HasReported := true, LastSuccess := true, LastExitCode := Some(code),
         LastSuccessAt := Some(at), LastError := KeptError(r))
    case Failure(code, _, at) =>
      s.(HasReported := true, LastSuccess := false, LastExitCode := Some(code),
         LastFailureAt := Some(at), LastError := KeptError(r))
  }

  /** The snapshot after a sequence of reports, oldest first. */
  function RecordAll(s: LastReplySnapshot, log: seq<Report>): (t: LastReplySnapshot)
    ensures log == [] ==> t == s
    ensures log != [] ==> t.HasReported
  {
    if log == [] then s else Record(RecordAll(s, log[..|log| - 1]), log[|log| - 1])
  }

  /** The time of the latest report of the given kind in `log`, or
      `otherwise` when the log has none. */
  function LatestTime(log: seq<Report>, successes: bool, otherwise: Option<Timestamp>): Option<Timestamp> {
    if log == [] then otherwise
    else if log[|log| - 1].Success? == successes then Some(log[|log| - 1].at)
    else LatestTime(log[..|log| - 1], successes, otherwise)
  }

  /** `HasReported` never reverts: it holds after a sequence of reports
      exactly when it held before or some report was made. */
  lemma HasReportedMonotone(s: LastReplySnapshot, log: seq<Report>)
    ensures RecordAll(s, log).HasReported <==> s.HasReported || log != []
  {
  }

  /** After any non-empty sequence of reports, the outcome, the exit code and
      the error are those of the last report alone. */
  lemma LastReportDecides(s: LastReplySnapshot, log: seq<Report>)
    requires log != []
    ensures var t := RecordAll(s, log); var last := log[|log| - 1];
      && t.HasReported
      && t.LastSuccess == last.Success?
      && t.LastExitCode == Some(last.exitCode)
      && t.LastError == KeptError(last)
  {
  }

  /** `LastSuccessAt` is the time of the latest success and `LastFailureAt`
      that of the latest failure; a kind of report never touches the other's
      timestamp. */
  lemma {:induction false} TimestampsTrackLatest(s: LastReplySnapshot, log: seq<Report>)
    ensures RecordAll(s, log).LastSuccessAt == LatestTime(log, true, s.LastSuccessAt)
    ensures RecordAll(s, log).LastFailureAt == LatestTime(log, false, s.LastFailureAt)
  {
    if log != [] {
      TimestampsTrackLatest(s, log[..|log| - 1]);
    }
  }

  /** `LastReplyState`: the six properties that the two report methods
      overwrite one by one. */
  class LastReplyState {
    var HasReported: bool
    var LastSuccess: bool
    var LastSuccessAt: Option<Timestamp>
    var LastFailureAt: Option<Timestamp>
    var LastExitCode: Option<int>
    var LastError: Option<string>

    constructor ()
      ensures !HasReported && !LastSuccess
      ensures LastSuccessAt == None && LastFailureAt == None
      ensures LastExitCode == None && LastError == None
      ensures GetSnapshot() == NothingReported
    {
      HasReported := false;
      LastSuccess := false;
      LastSuccessAt := None;
      LastFailureAt := None;
      LastExitCode := None;
      LastError := None;
    }

    /** `GetSnapshot`: a copy of exactly the six current values. */
    function GetSnapshot(): (s: LastReplySnapshot)
      reads this
      ensures s.HasReported == HasReported && s.LastSuccess == LastSuccess
      ensures s.LastSuccessAt == LastSuccessAt && s.LastFailureAt == LastFailureAt
      ensures s.LastExitCode == LastExitCode && s.LastError == LastError
    {
      LastReplySnapshot(HasReported, LastSuccess, LastSuccessAt, LastFailureAt, LastExitCode, LastError)
    }

    method ReportSuccess(exitCode: int, error: Option<string>, now: Timestamp)
      modifies this
      ensures HasReported && LastSuccess
      ensures LastExitCode == Some(exitCode) && LastSuccessAt == Some(now)
      ensures IsNullOrWhiteSpace(error) ==> LastError == None
      ensures !IsNullOrWhiteSpace(error) ==> LastError == error
      ensures LastFailureAt == old(LastFailureAt)
      ensures GetSnapshot() == Record(old(GetSnapshot()), Success(exitCode, error, now))
    {
      HasReported := true;
      LastSuccess := true;
      LastExitCode := Some(exitCode);
      LastSuccessAt := Some(now);
      // Kept for diagnostics even on success, cleared when blank.
      LastError := if IsNullOrWhiteSpace(error) then None else error;
    }

    method ReportFailure(exitCode: int, error: Option<string>, now: Timestamp)
      modifies this
      ensures HasReported && !LastSuccess
      ensures LastExitCode == Some(exitCode) && LastFailureAt == Some(now)
      ensures LastError == error
      ensures LastSuccessAt == old(LastSuccessAt)
      ensures GetSnapshot() == Record(old(GetSnapshot()), Failure(exitCode, error, now))
    {
      HasReported := true;
      LastSuccess := false;
      LastExitCode := Some(exitCode);
      LastFailureAt := Some(now);
      LastError := error;
    }
  }

  /** Two snapshots with no report in between are equal, and taking one
      changes nothing. */
  method SnapshotTwice(state: LastReplyState) returns (first: LastReplySnapshot, second: LastReplySnapshot)
    ensures first == second == state.GetSnapshot()
  {
    first := state.GetSnapshot();
    second := state.GetSnapshot();
  }

  /** A blank error is cleared by a success (first case of LastReplyStateTests). */
  method SuccessClearsBlankError(now: Timestamp) returns (s: LastReplySnapshot)
    ensures s.HasReported && s.LastSuccess
    ensures s.LastExitCode == Some(0) && s.LastSuccessAt.Some? && s.LastError == None
  {
    var state := new LastReplyState();
    state.ReportSuccess(0, Some("   "), now);
    s := state.GetSnapshot();
  }

  /** A non-blank error survives a success (second case of LastReplyStateTests). */
  method SuccessKeepsError(now: Timestamp) returns (s: LastReplySnapshot)
    ensures s.HasReported && s.LastSuccess
    ensures s.LastExitCode == Some(0) && s.LastSuccessAt.Some? && s.LastError == Some("warning")
  {
    var state := new LastReplyState();
    assert "warning"[0] == 'w';
    state.ReportSuccess(0, Some("warning"), now);
    s := state.GetSnapshot();
  }

  /** A failure records its code, time and error (third case of LastReplyStateTests). */
  method FailureRecorded(now: Timestamp) returns (s: LastReplySnapshot)
    ensures s.HasReported && !s.LastSuccess
    ensures s.LastExitCode == Some(7) && s.LastFailureAt.Some? && s.LastError == Some("boom")
  {
    var state := new LastReplyState();
    state.ReportFailure(7, Some("boom"), now);
    s := state.GetSnapshot();
  }
}
