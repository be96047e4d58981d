# vcontrol-dotnet worker: last-reply health and configuration overrides

This project is a Dafny model of the parts of the `Vcontrol.Worker` service whose
behaviour can be stated precisely:

- **Last-reply state** (`LastReplyState`, `LastReplySnapshot`). The worker records
  the outcome of the external client's last reply in six properties. Two report
  methods overwrite them and a snapshot copies them. The model is a class with
  those six fields. `ReportSuccess` and `ReportFailure` are methods that state
  their whole new state, and `GetSnapshot` is a function. Beside the class, a pure
  transition `Record` folded over a log of reports (`RecordAll`) describes any
  sequence of reports. Lemmas about that fold prove that `HasReported` never
  reverts, that the last report alone decides the outcome, exit code and error,
  and that each timestamp is the time of the latest report of its kind.
- **Health-check classification** (`LastReplyHealthCheck.CheckHealthAsync`). This is
  a pure function from a snapshot to a status, a description and a six-key data
  dictionary with its null defaults. It is composed with the state, as the
  repository's tests do, and with the readiness endpoint's status-code table.
- **Configuration overrides in `Program.cs`**:
  - the `LOG_LEVEL` resolution, with `Enum.TryParse` and the alias switch;
  - the two `PostConfigure` lambdas for `MqttOptions` and `VcontrolOptions`. They
    are methods on option classes. They use the pure rules for `COMMANDS`
    (split, trim, drop blank entries, replace only when non-empty), `POLL_SECONDS`
    (positive values only) and `PUBLISH_VALUE_ONLY` (a tri-state flag);
  - the readiness status-code map.

The .NET primitives the overrides rely on are modelled in two support modules:

- `Text`: `string.IsNullOrWhiteSpace`, `Trim`, `Split`, `ToLowerInvariant` and
  ordinal case-insensitive comparison.
- `Numbers`: `int.TryParse` for the invariant culture and a 32-bit range.

The program itself calls neither `string.Join` nor `int.ToString`. `Text.Join`
and `Numbers.FormatInt` are modelled only as the inverses that the round-trip
lemmas `JoinSplit`, `SplitJoin` and `ParseFormat` are stated with.

The pure rules are proved against these primitives:

- round trips such as `Split` after `Join` and `int.TryParse` after the decimal form `FormatInt`;
- order preservation of the `COMMANDS` parse;
- that white space around the `PUBLISH_VALUE_ONLY` flag or the `LOG_LEVEL` value makes no difference.

Modules: `Text` (text.dfy), `Numbers` (numbers.dfy), `LastReply`
(last_reply_state.dfy), `HealthCheck` (last_reply_health_check.dfy), `Logging`
(logging.dfy), `Configuration` (configuration.dfy), `Readiness` (readiness.dfy).

Environment variables are a `map<string, string>` argument; a missing name reads as
null. The wall clock is the `now` argument of each report. The `ToString("O")`
formatting of a timestamp is a `format` function argument.

## Model

| member | source | states |
|---|---|---|
| LastReply.LastReplyState.constructor | src/Vcontrol.Worker/LastReplyState.cs:9-14 | a fresh state has not reported, is not successful, and has null timestamps, exit code and error; its snapshot is `NothingReported` |
| LastReply.LastReplyState.GetSnapshot | src/Vcontrol.Worker/LastReplyState.cs:42-55 | the snapshot holds exactly the six current field values |
| LastReply.LastReplyState.ReportSuccess | src/Vcontrol.Worker/LastReplyState.cs:16-28 | sets HasReported, LastSuccess, the exit code and LastSuccessAt = now; a null or blank error becomes null and any other error is kept; LastFailureAt is unchanged; the new snapshot is `Record` of the old one with this success |
| LastReply.LastReplyState.ReportFailure | src/Vcontrol.Worker/LastReplyState.cs:30-40 | sets HasReported, clears LastSuccess, sets the exit code and LastFailureAt = now, and stores the error verbatim even when null or blank; LastSuccessAt is unchanged; the new snapshot is `Record` of the old one with this failure |
| LastReply.KeptError | src/Vcontrol.Worker/LastReplyState.cs:26 | the error a report leaves: a failure keeps its error verbatim, a success keeps a non-blank error, and a success clears a null or blank error |
| LastReply.Record | src/Vcontrol.Worker/LastReplyState.cs:16-40 | one report sets HasReported, sets LastSuccess to whether it was a success, sets the exit code and the kept error, stamps its own kind's timestamp and keeps the other kind's |
| LastReply.RecordAll | src/Vcontrol.Worker/LastReplyState.cs:16-40 | reports applied oldest first: an empty log leaves the snapshot as it was, and a non-empty one leaves it reported |
| LastReply.HasReportedMonotone | src/Vcontrol.Worker/LastReplyState.cs:16-40 | after a sequence of reports HasReported holds exactly when it held before or the sequence is non-empty, so once true it never reverts |
| LastReply.LastReportDecides | src/Vcontrol.Worker/LastReplyState.cs:16-40 | after a non-empty sequence of reports, LastSuccess, LastExitCode and LastError are those of the last report alone |
| LastReply.TimestampsTrackLatest | src/Vcontrol.Worker/LastReplyState.cs:16-40 | LastSuccessAt is the time of the latest success and LastFailureAt that of the latest failure (or the prior value when there is none), so one kind of report never touches the other's timestamp |
| LastReply.SnapshotTwice | src/Vcontrol.Worker/LastReplyState.cs:42-55 | a usage example: two snapshots with no report in between are equal; this holds because `GetSnapshot` only reads the state |
| LastReply.SuccessClearsBlankError | tests/Vcontrol.Worker.Tests/LastReplyStateTests.cs:8-24 | after `ReportSuccess(0, "   ")` the snapshot has reported, succeeded, exit code 0, a success time and a null error |
| LastReply.SuccessKeepsError | tests/Vcontrol.Worker.Tests/LastReplyStateTests.cs:26-42 | after `ReportSuccess(0, "warning")` the error "warning" is kept |
| LastReply.FailureRecorded | tests/Vcontrol.Worker.Tests/LastReplyStateTests.cs:44-60 | after `ReportFailure(7, "boom")` the snapshot has reported, failed, exit code 7, a failure time and the error "boom" |
| HealthCheck.SnapshotData | src/Vcontrol.Worker/LastReplyHealthCheck.cs:28-35 | the data dictionary has exactly the six keys; the two flags are copied; a null exit code gives -1, a null error "", and a null timestamp ""; other timestamps are formatted |
| HealthCheck.CheckHealth | src/Vcontrol.Worker/LastReplyHealthCheck.cs:7-48 | never Unhealthy; Healthy exactly when nothing was reported or the last reply succeeded, Degraded otherwise; the fixed description of each branch; the same six data keys in every branch; hasReported and lastSuccess copied verbatim; a null exit code gives -1, and a null error or timestamp gives "" |
| HealthCheck.CheckHealthAsync | src/Vcontrol.Worker/LastReplyHealthCheck.cs:11 | the result is the classification of the single snapshot the check takes, and the state is left unchanged |
| HealthCheck.HealthAfterReports | src/Vcontrol.Worker/LastReplyHealthCheck.cs:13-47 | on a fresh state followed by any sequence of reports: Healthy with the no-replies text for none, Healthy after a final success, Degraded after a final failure, and lastExitCode is the last report's code |
| HealthCheck.NoRepliesIsHealthy | tests/Vcontrol.Worker.Tests/LastReplyHealthCheckTests.cs:8-26 | a fresh state is Healthy with "No replies have been recorded yet.", false flags, lastExitCode -1 and lastError "" |
| HealthCheck.SuccessIsHealthy | tests/Vcontrol.Worker.Tests/LastReplyHealthCheckTests.cs:28-47 | after `ReportSuccess(0, null)` the check is Healthy with the success text, true flags, lastExitCode 0 and lastFailureAt "" |
| HealthCheck.FailureIsDegraded | tests/Vcontrol.Worker.Tests/LastReplyHealthCheckTests.cs:49-68 | after `ReportFailure(2, "failure")` the check is Degraded with the failure text, lastExitCode 2 and lastError "failure" |
| Readiness.ReadinessStatusCode | src/Vcontrol.Worker/Program.cs:123-128 | every status has an entry; the code is 200 exactly for Healthy and 503 exactly for Degraded and Unhealthy |
| Readiness.ReadyIffLastReplyOk | src/Vcontrol.Worker/Program.cs:121-128 | composed with the health check, readiness answers 200 exactly when nothing was reported or the last reply succeeded, and 503 exactly when the last reply failed |
| Readiness.ReadyAfterReports | src/Vcontrol.Worker/Program.cs:121-128 | after any sequence of reports on a fresh state, readiness answers 200 exactly when the sequence is empty or ends in a success |
| Logging.EnumTryParse | src/Vcontrol.Worker/Program.cs:15 | a success means the value equals the returned member's name ignoring case; a failure means it equals no member name and yields `Trace` |
| Logging.NamesDistinct | src/Vcontrol.Worker/Program.cs:15 | a value matches at most one member name ignoring case |
| Logging.AliasesAreNotNames | src/Vcontrol.Worker/Program.cs:15-31 | no alias matches a member name, so each alias reaches the switch |
| Logging.LevelPadded | src/Vcontrol.Worker/Program.cs:12-14 | white space around a level name or alias does not change the level it resolves to |
| Logging.ResolveMinimumLevel | src/Vcontrol.Worker/Program.cs:10-33 | unset or blank gives Information; a trimmed member name in any case gives that member; failing that, "info", "warn", "err" and "fatal" in any case give Information, Warning, Error and Critical; any other value gives Trace, the failed parse's output |
| Text.WhiteSpaceListed | src/Vcontrol.Worker/Program.cs:12 | `Char.IsWhiteSpace`, which decides every blank test, holds for exactly 25 listed characters: U+0009 to U+000D, the space, U+0085, U+00A0, U+1680, U+2000 to U+200A, U+2028, U+2029, U+202F, U+205F and U+3000 |
| Text.NullOrWhiteSpaceTrims | src/Vcontrol.Worker/LastReplyState.cs:26 | `string.IsNullOrWhiteSpace` holds exactly for null and for text that trims to nothing |
| Text.EqualsIgnoreCaseCharwise | src/Vcontrol.Worker/Program.cs:91-97 | `string.Equals(a, b, OrdinalIgnoreCase)` holds exactly when the lengths are equal and each pair of characters is equal once lowered |
| Text.ToLowerIdempotent | src/Vcontrol.Worker/Program.cs:17 | lowering a lowered string changes nothing |
| Text.Trim | src/Vcontrol.Worker/Program.cs:14 | the result has no white space at either end, is no longer than the input, and is empty exactly when the input is blank |
| Text.TrimKeepsOut | src/Vcontrol.Worker/Program.cs:75-76 | trimming adds no character, so a comma-free piece stays comma-free |
| Text.TrimTrimmed | src/Vcontrol.Worker/Program.cs:14 | Trim leaves a string without surrounding white space unchanged, so Trim is idempotent |
| Text.TrimPadded | src/Vcontrol.Worker/Program.cs:90 | white space around a trimmed non-empty text is removed exactly |
| Text.ToLower | src/Vcontrol.Worker/Program.cs:17 | same length, each character lowered on its own, and no upper-case ASCII letter left in the result |
| Text.IndexOf | src/Vcontrol.Worker/Program.cs:75-76 | the index of the first occurrence, or the length when there is none |
| Text.Split | src/Vcontrol.Worker/Program.cs:75-76 | at least one piece, none containing the separator |
| Text.JoinSplit | src/Vcontrol.Worker/Program.cs:75-76 | joining the pieces of a split with the separator gives the text back |
| Text.SplitConcat | src/Vcontrol.Worker/Program.cs:75-76 | splitting `a + sep + b` gives the pieces of `a` followed by those of `b` |
| Text.SplitJoin | src/Vcontrol.Worker/Program.cs:75-76 | splitting a join of separator-free strings gives the strings back |
| Numbers.TryParseInt32 | src/Vcontrol.Worker/Program.cs:72 | a successful parse has a non-null input and a 32-bit result |
| Numbers.Digits | src/Vcontrol.Worker/Program.cs:72 | the source never formats a number here; `Digits` and `FormatInt` are the inverse that `ParseFormat` uses to pin down the parse at this line. The digits of a natural number are non-empty, their value is that number, and there is no leading zero except in "0" |
| Numbers.ParseFormat | src/Vcontrol.Worker/Program.cs:72 | `int.TryParse` reads back every 32-bit value that `ToString` writes |
| Configuration.GetEnvironmentVariable | src/Vcontrol.Worker/Program.cs:53-57 | a variable reads as its value when it is set and as null when it is not |
| Configuration.MqttOptions.constructor | src/Vcontrol.Worker/MqttOptions.cs:3-10 | the declared defaults: null host, user, password and topic, port 1883 |
| Configuration.VcontrolOptions.constructor | src/Vcontrol.Worker/VcontrolOptions.cs:3-8 | the declared defaults: host "127.0.0.1", port 3002, no commands |
| Configuration.TrimEntries | src/Vcontrol.Worker/Program.cs:76 | every kept piece is non-empty with no surrounding white space |
| Configuration.WhereNotBlank | src/Vcontrol.Worker/Program.cs:77 | every kept entry was an input entry and is not blank |
| Configuration.ParseCommands | src/Vcontrol.Worker/Program.cs:75-78 | every parsed entry is a command name: non-empty, no surrounding white space, no comma |
| Configuration.TrimEntriesKeepsOut | src/Vcontrol.Worker/Program.cs:75-76 | trimming the pieces adds no separator |
| Configuration.TrimEntriesAppend | src/Vcontrol.Worker/Program.cs:76 | trimming entries distributes over concatenation, so order is kept |
| Configuration.WhereNotBlankAppend | src/Vcontrol.Worker/Program.cs:77 | the blank filter distributes over concatenation, so order is kept |
| Configuration.WhereAfterTrimKeepsAll | src/Vcontrol.Worker/Program.cs:75-78 | after trimming with empty entries removed, the blank filter drops nothing |
| Configuration.ParseCommandsConcat | src/Vcontrol.Worker/Program.cs:75-78 | the entries of `a + "," + b` are those of `a` followed by those of `b` |
| Configuration.ParseCommandsPiece | src/Vcontrol.Worker/Program.cs:75-78 | a comma-free text yields its trimmed form, or nothing when it is blank |
| Configuration.ParseCommandsJoin | src/Vcontrol.Worker/Program.cs:75-78 | parsing a comma-joined list of command names gives the list back |
| Configuration.TrimEntriesOfNames | src/Vcontrol.Worker/Program.cs:76 | trimming leaves a list of command names unchanged |
| Configuration.ParseBlank | src/Vcontrol.Worker/Program.cs:73-83 | a blank text has no entries |
| Configuration.CommandsOverride | src/Vcontrol.Worker/Program.cs:73-83 | a null or blank variable keeps the list; otherwise the parsed list replaces it exactly when the parse is non-empty; a non-empty list stays non-empty; any replacement consists of command names |
| Configuration.CommandsOverrideJoin | src/Vcontrol.Worker/Program.cs:73-83 | any non-empty list of command names can be set by its comma-joined text |
| Configuration.PortOverride | src/Vcontrol.Worker/Program.cs:72 | a port value that parses replaces the port, and anything else keeps it |
| Configuration.PollOverride | src/Vcontrol.Worker/Program.cs:84-87 | the interval changes only to a parsed positive value, every parsed positive value is taken, and a positive interval stays positive |
| Configuration.PollOverrideFormat | src/Vcontrol.Worker/Program.cs:84-87 | the written form of a 32-bit value sets the interval exactly when the value is positive |
| Configuration.PublishFlag | src/Vcontrol.Worker/Program.cs:88-101 | true exactly when the trimmed, lowered value is "1" or "true"; false exactly when it is "0" or "false"; no change otherwise, including null and blank |
| Configuration.PublishFlagPadded | src/Vcontrol.Worker/Program.cs:88-101 | white space around the flag does not change how it is read |
| Configuration.PostConfigureMqtt | src/Vcontrol.Worker/Program.cs:51-63 | host, user, password and topic are replaced only by non-blank variables, and the port only by a value that parses; otherwise each keeps its prior value |
| Configuration.ApplyCommands | src/Vcontrol.Worker/Program.cs:73-83 | the commands become `CommandsOverride` of the old list; no other field changes |
| Configuration.ApplyPublishValueOnly | src/Vcontrol.Worker/Program.cs:88-101 | the flag becomes the parsed tri-state value when there is one and is kept otherwise; no other field changes |
| Configuration.PostConfigureVcontrol | src/Vcontrol.Worker/Program.cs:64-102 | the host is replaced only by a non-blank variable and the port only by one that parses; the commands, poll interval and flag follow their override rules; a non-empty command list stays non-empty and a positive interval stays positive |
| Configuration.DefaultsWithoutEnvironment | src/Vcontrol.Worker/Program.cs:51-102 | with no variables set, every default survives both overrides: null host, user, password and topic and port 1883 for MQTT; "127.0.0.1", 3002, no commands, a 60-second poll and a false value-only flag for vcontrol |

## Left out

- The lock in `LastReplyState` and the async, `Task` and cancellation machinery of the health check are concurrency. The model is sequential.
- `DateTimeOffset.UtcNow` is the `now` argument of each report, and `DateTimeOffset.ToString("O")` is an opaque `format` argument.
- The logging-provider setup, dependency-injection registrations, section binding, liveness endpoint, JSON readiness response writer and `app.Run` in `Program.cs` are hosting plumbing. Section binding gives the options their state before the overrides run; the model takes that state as given.
- `VclientService`, `MqttService`, `Worker`, `CommandsSubscriber` and the reading and result records are not part of this model. They are process I/O, an MQTT client and hosted-service wiring.
- Logging.ResolveMinimumLevel: `Enum.TryParse` also accepts numeric and comma-separated forms. The model matches member names only.
- Logging.EnumTryParse: matches member names only; numeric and comma-separated forms are not modelled.
- Text.ToLower: lowers ASCII letters only. Culture-invariant case mapping of other letters is not modelled, and the same holds for `EqualsIgnoreCase`.
- Numbers.TryParseInt32: models `NumberStyles.Integer` under the invariant culture (surrounding white space, one leading `+` or `-`, decimal digits). Trailing NUL characters and culture-specific sign symbols are not modelled.
- Configuration.VcontrolOptions.constructor: `VcontrolOptions.cs` does not declare `PollSeconds` and `PublishValueOnly`, which the overrides assign. The model gives them the one-minute interval the worker waits between polls (src/Vcontrol.Worker/Worker.cs:38, `Task.Delay(TimeSpan.FromMinutes(1))`, and the "every 60s" message at Worker.cs:10) and the C# default `false`.
