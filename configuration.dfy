/** The environment-variable overrides that Program.cs applies after the
    option classes are bound from configuration (the two `PostConfigure`
    lambdas): a text setting is replaced only by a non-blank value, a number
    only by one that parses, the command list only by a non-empty parse. */
module Configuration {
  import opened Text
  import opened Numbers

  /** The process environment: a missing name reads as null. */
  type Environment = map<string, string>

  /** `Environment.GetEnvironmentVariable`. */
  function GetEnvironmentVariable(env: Environment, name: string): (v: Option<string>)
    ensures v.Some? <==> name in env
    ensures v.Some? ==> v.value == env[name]
  {
    if name in env then Some(env[name]) else None
  }

  /** `MqttOptions`, with its declared defaults. */
  class MqttOptions {
    var Host: Option<string>
    var Port: int
    var User: Option<string>
    var Password: Option<string>
    var Topic: Option<string>

    constructor ()
      ensures Host == None && Port == 1883 && User == None && Password == None && Topic == None
    {
      Host := None;
      Port := 1883;
      User := None;
      Password := None;
      Topic := None;
    }
  }

  /** `VcontrolOptions`, with its declared defaults. `PollSeconds` and
      `PublishValueOnly` are assigned by the overrides but not declared by
      the class; they are given the poll interval of one minute and the
      C# default `false`. */
  class VcontrolOptions {
    var Host: string
    var Port: int
    var Commands: seq<string>
    var PollSeconds: int
    var PublishValueOnly: bool

    constructor ()
      ensures Host == "127.0.0.1" && Port == 3002 && Commands == []
      ensures PollSeconds == 60 && !PublishValueOnly
    {
      Host := "127.0.0.1";
      Port := 3002;
      Commands := [];
      PollSeconds := 60;
      PublishValueOnly := false;
    }
  }

  /** A command name as the `COMMANDS` parse produces it: not empty, no
      surrounding white space, no comma. */
  predicate IsCommandName(c: string) {
    c != [] && IsTrimmed(c) && ',' !in c
  }

  /** The `TrimEntries | RemoveEmptyEntries` options of `Split`: each piece
      trimmed, the empty ones dropped, the order kept. */
  function TrimEntries(pieces: seq<string>): (r: seq<string>)
    ensures forall c :: c in r ==> c != [] && IsTrimmed(c)
  {
    if pieces == [] then []
    else TrimEntry(pieces[0]) + TrimEntries(pieces[1..])
  }

  /** What TrimEntries keeps of one piece: its trimmed form, unless empty. */
  function TrimEntry(piece: string): (r: seq<string>)
    ensures forall c :: c in r ==> c != [] && IsTrimmed(c)
  {
    var t := Trim(piece);
    if t == [] then [] else [t]
  }

  /** `.Where(s => !string.IsNullOrWhiteSpace(s))`. */
  function WhereNotBlank(xs: seq<string>): (r: seq<string>)
    ensures forall c :: c in r ==> c in xs && !IsBlank(c)
  {
    if xs == [] then []
    else NotBlankEntry(xs[0]) + WhereNotBlank(xs[1..])
  }

  /** What WhereNotBlank keeps of one entry: the entry, unless blank. */
  function NotBlankEntry(x: string): (r: seq<string>)
    ensures forall c :: c in r ==> c == x && !IsBlank(c)
  {
    if IsBlank(x) then [] else [x]
  }

  /** The `COMMANDS` pipeline: split on ',', trim, drop empty and blank entries. */
  function ParseCommands(s: string): (r: seq<string>)
    ensures forall c :: c in r ==> IsCommandName(c)
  {
    var pieces := Split(s, ',');
    TrimEntriesKeepsOut(pieces, ',');
    WhereNotBlank(TrimEntries(pieces))
  }

  lemma {:induction false} TrimEntriesKeepsOut(pieces: seq<string>, ch: char)
    requires forall p :: p in pieces ==> ch !in p
    ensures forall c :: c in TrimEntries(pieces) ==> ch !in c
  {
    if pieces != [] {
      assert pieces[0] in pieces;
      TrimKeepsOut(pieces[0], ch);
      TrimEntriesKeepsOut(pieces[1..], ch);
    }
  }

  /** TrimEntries handles the first piece on its own. */
  lemma {:induction false} TrimEntriesCons(x: string, rest: seq<string>)
    ensures TrimEntries([x] + rest) == TrimEntry(x) + TrimEntries(rest)
  {
    assert ([x] + rest)[0] == x && ([x] + rest)[1..] == rest;
  }

  /** TrimEntries works piece by piece, so it distributes over concatenation. */
  lemma {:induction false} TrimEntriesAppend(xs: seq<string>, ys: seq<string>)
    ensures TrimEntries(xs + ys) == TrimEntries(xs) + TrimEntries(ys)
  {
    if xs == [] {
      assert xs + ys == ys;
    } else {
      var x := xs[0];
      ConsTail(xs, ys);
      TrimEntriesAppend(xs[1..], ys);
      TrimEntriesCons(x, xs[1..] + ys);
      TrimEntriesCons(x, xs[1..]);
      AppendAssoc(TrimEntry(x), TrimEntries(xs[1..]), TrimEntries(ys));
    }
  }

  /** WhereNotBlank handles the first entry on its own. */
  lemma {:induction false} WhereNotBlankCons(x: string, rest: seq<string>)
    ensures WhereNotBlank([x] + rest) == NotBlankEntry(x) + WhereNotBlank(rest)
  {
    assert ([x] + rest)[0] == x && ([x] + rest)[1..] == rest;
  }

  /** WhereNotBlank works entry by entry, so it distributes over concatenation. */
  lemma {:induction false} WhereNotBlankAppend(xs: seq<string>, ys: seq<string>)
    ensures WhereNotBlank(xs + ys) == WhereNotBlank(xs) + WhereNotBlank(ys)
  {
    if xs == [] {
      assert xs + ys == ys;
    } else {
      var x := xs[0];
      ConsTail(xs, ys);
      WhereNotBlankAppend(xs[1..], ys);
      WhereNotBlankCons(x, xs[1..] + ys);
      WhereNotBlankCons(x, xs[1..]);
      AppendAssoc(NotBlankEntry(x), WhereNotBlank(xs[1..]), WhereNotBlank(ys));
    }
  }

  /** The `Where` step after `TrimEntries` removes nothing: a trimmed,
      non-empty entry is never blank. */
  lemma {:induction false} WhereAfterTrimKeepsAll(pieces: seq<string>)
    ensures WhereNotBlank(TrimEntries(pieces)) == TrimEntries(pieces)
  {
    if pieces != [] {
      WhereAfterTrimKeepsAll(pieces[1..]);
      var t := Trim(pieces[0]);
      var rest := TrimEntries(pieces[1..]);
      if t != [] {
        assert TrimEntries(pieces) == [t] + rest;
        assert !IsBlank(t) by { assert !IsWhiteSpace(t[0]); }
        var single: seq<string> := [t];
        assert WhereNotBlank(single) == single by { assert single[1..] == []; }
        WhereNotBlankAppend([t], rest);
      } else {
        assert TrimEntries(pieces) == rest;
      }
    }
  }

  /** The parse keeps order: the entries of two comma-joined texts are the
      entries of the first followed by those of the second. */
  lemma ParseCommandsConcat(a: string, b: string)
    ensures ParseCommands(a + "," + b) == ParseCommands(a) + ParseCommands(b)
  {
    SplitConcat(a, b, ',');
    TrimEntriesAppend(Split(a, ','), Split(b, ','));
    WhereNotBlankAppend(TrimEntries(Split(a, ',')), TrimEntries(Split(b, ',')));
  }

  /** A comma-free text is one entry: its trimmed form, or none when blank. */
  lemma ParseCommandsPiece(a: string)
    requires ',' !in a
    ensures ParseCommands(a) == if IsBlank(a) then [] else [Trim(a)]
  {
    assert forall k :: 0 <= k < |a| ==> a[k] != ',';
    assert a[..IndexOf(a, ',')] == a;
    assert Split(a, ',') == [a];
    WhereAfterTrimKeepsAll([a]);
  }

  /** Parsing a comma-joined list of command names gives the list back. */
  lemma ParseCommandsJoin(xs: seq<string>)
    requires forall c :: c in xs ==> IsCommandName(c)
    ensures ParseCommands(Join(xs, ",")) == xs
  {
    if xs == [] {
      ParseCommandsPiece("");
    } else {
      SplitJoin(xs, ',');
      assert Split(Join(xs, ","), ',') == xs;
      TrimEntriesOfNames(xs);
      WhereAfterTrimKeepsAll(xs);
    }
  }

  lemma {:induction false} TrimEntriesOfNames(xs: seq<string>)
    requires forall c :: c in xs ==> IsCommandName(c)
    ensures TrimEntries(xs) == xs
  {
    if xs != [] {
      assert xs[0] in xs;
      TrimTrimmed(xs[0]);
      TrimEntriesOfNames(xs[1..]);
      assert [xs[0]] + xs[1..] == xs;
    }
  }

  /** A blank text has no entries. */
  lemma ParseBlank(s: string)
    requires IsBlank(s)
    ensures ParseCommands(s) == []
  {
    assert forall k :: 0 <= k < |s| ==> s[k] != ',';
    ParseCommandsPiece(s);
  }

  /** The command-list override: a non-blank `COMMANDS` replaces the list
      only when it yields at least one entry. */
  function CommandsOverride(current: seq<string>, commandsEnv: Option<string>): (r: seq<string>)
    ensures IsNullOrWhiteSpace(commandsEnv) ==> r == current
    ensures commandsEnv.Some? && ParseCommands(commandsEnv.value) != [] ==> r == ParseCommands(commandsEnv.value)
    ensures commandsEnv.Some? && ParseCommands(commandsEnv.value) == [] ==> r == current
    ensures current != [] ==> r != []
    ensures r != current ==> r != [] && forall c :: c in r ==> IsCommandName(c)
  {
    if IsNullOrWhiteSpace(commandsEnv) then
      if commandsEnv.Some? then
        ParseBlank(commandsEnv.value);
        current
      else current
    else
      var list := ParseCommands(commandsEnv.value);
      if |list| > 0 then list else current
  }

  /** Any non-empty list of command names can be set through `COMMANDS`. */
  lemma CommandsOverrideJoin(current: seq<string>, xs: seq<string>)
    requires xs != [] && forall c :: c in xs ==> IsCommandName(c)
    ensures CommandsOverride(current, Some(Join(xs, ","))) == xs
  {
    ParseCommandsJoin(xs);
  }

  /** A port variable: any value `int.TryParse` accepts replaces the port. */
  function PortOverride(current: int, portEnv: Option<string>): (r: int)
    ensures r == current || TryParseInt32(portEnv) == Some(r)
    ensures TryParseInt32(portEnv).Some? ==> r == TryParseInt32(portEnv).value
    ensures TryParseInt32(portEnv).None? ==> r == current
  {
    match TryParseInt32(portEnv)
    case Some(port) => port
    case None => current
  }

  /** The poll-interval override: only a value that parses and is positive
      replaces the current one. */
  function PollOverride(current: int, pollEnv: Option<string>): (r: int)
    ensures r == current || (TryParseInt32(pollEnv) == Some(r) && r > 0)
    ensures TryParseInt32(pollEnv).Some? && TryParseInt32(pollEnv).value > 0 ==> r == TryParseInt32(pollEnv).value
    ensures current > 0 ==> r > 0
  {
    match TryParseInt32(pollEnv)
    case Some(poll) => if poll > 0 then poll else current
    case None => current
  }

  /** Every positive 32-bit interval can be set through `POLL_SECONDS`, and
      no other value ever is. */
  lemma PollOverrideFormat(current: int, n: int)
    requires IsInt32(n)
    ensures PollOverride(current, Some(FormatInt(n))) == if n > 0 then n else current
  {
    ParseFormat(n);
  }

  /** `PUBLISH_VALUE_ONLY` read as a tri-state: after trimming and ignoring
      case, "1" and "true" set the flag, "0" and "false" clear it, anything
      else (blank included) leaves it. */
  function PublishFlag(env: Option<string>): (r: Option<bool>)
    ensures r == Some(true) <==> env.Some? && ToLower(Trim(env.value)) in {"1", "true"}
    ensures r == Some(false) <==> env.Some? && ToLower(Trim(env.value)) in {"0", "false"}
  {
    LowerFlags();
    if IsNullOrWhiteSpace(env) then None
    else
      var val := Trim(env.value);
      if EqualsIgnoreCase(val, "1") || EqualsIgnoreCase(val, "true") then Some(true)
      else if EqualsIgnoreCase(val, "0") || EqualsIgnoreCase(val, "false") then Some(false)
      else None
  }

  lemma LowerFlags()
    ensures ToLower("1") == "1" && ToLower("true") == "true"
    ensures ToLower("0") == "0" && ToLower("false") == "false"
    ensures ToLower("") == ""
  {
  }

  /** White space around the flag does not change how it is read. */
  lemma PublishFlagPadded(p: string, w: string, q: string)
    requires IsBlank(p) && IsBlank(q) && IsTrimmed(w) && w != []
    ensures PublishFlag(Some(p + w + q)) == PublishFlag(Some(w))
  {
    TrimPadded(p, w, q);
    TrimTrimmed(w);
  }

  /** The `MqttOptions` override lambda. */
  method PostConfigureMqtt(opts: MqttOptions, env: Environment)
    modifies opts
    ensures var hostEnv := GetEnvironmentVariable(env, "MQTT_HOST");
      opts.Host == if IsNullOrWhiteSpace(hostEnv) then old(opts.Host) else hostEnv
    ensures opts.Port == PortOverride(old(opts.Port), GetEnvironmentVariable(env, "MQTT_PORT"))
    ensures var userEnv := GetEnvironmentVariable(env, "MQTT_USER");
      opts.User == if IsNullOrWhiteSpace(userEnv) then old(opts.User) else userEnv
    ensures var passEnv := GetEnvironmentVariable(env, "MQTT_PASSWORD");
      opts.Password == if IsNullOrWhiteSpace(passEnv) then old(opts.Password) else passEnv
    ensures var topicEnv := GetEnvironmentVariable(env, "MQTT_TOPIC");
      opts.Topic == if IsNullOrWhiteSpace(topicEnv) then old(opts.Topic) else topicEnv
  {
    var hostEnv := GetEnvironmentVariable(env, "MQTT_HOST");
    var portEnv := GetEnvironmentVariable(env, "MQTT_PORT");
    var userEnv := GetEnvironmentVariable(env, "MQTT_USER");
    var passEnv := GetEnvironmentVariable(env, "MQTT_PASSWORD");
    var topicEnv := GetEnvironmentVariable(env, "MQTT_TOPIC");
    if !IsNullOrWhiteSpace(hostEnv) { opts.Host := hostEnv; }
    var p := TryParseInt32(portEnv);
    if p.Some? { opts.Port := p.value; }
    if !IsNullOrWhiteSpace(userEnv) { opts.User := userEnv; }
    if !IsNullOrWhiteSpace(passEnv) { opts.Password := passEnv; }
    if !IsNullOrWhiteSpace(topicEnv) { opts.Topic := topicEnv; }
  }

  /** The `COMMANDS` step of the `VcontrolOptions` lambda: a list that is
      empty after splitting leaves the configured one. */
  method ApplyCommands(opts: VcontrolOptions, commandsEnv: Option<string>)
    modifies opts`Commands
    ensures opts.Commands == CommandsOverride(old(opts.Commands), commandsEnv)
  {
    if !IsNullOrWhiteSpace(commandsEnv) {
      var list := ParseCommands(commandsEnv.value);
      if |list| > 0 {
        opts.Commands := list;
      }
    }
  }

  /** The `PUBLISH_VALUE_ONLY` step of the `VcontrolOptions` lambda. */
  method ApplyPublishValueOnly(opts: VcontrolOptions, publishValueOnlyEnv: Option<string>)
    modifies opts`PublishValueOnly
    ensures var flag := PublishFlag(publishValueOnlyEnv);
      opts.PublishValueOnly == if flag.Some? then flag.value else old(opts.PublishValueOnly)
  {
    var publishValueOnly := PublishFlag(publishValueOnlyEnv);
    if publishValueOnly.Some? {
      opts.PublishValueOnly := publishValueOnly.value;
    }
  }

  /** The `VcontrolOptions` override lambda. */
  method PostConfigureVcontrol(opts: VcontrolOptions, env: Environment)
    modifies opts
    ensures var hostEnv := GetEnvironmentVariable(env, "VCONTROLD_HOST");
      opts.Host == if IsNullOrWhiteSpace(hostEnv) then old(opts.Host) else hostEnv.value
    ensures opts.Port == PortOverride(old(opts.Port), GetEnvironmentVariable(env, "VCONTROLD_PORT"))
    ensures opts.Commands == CommandsOverride(old(opts.Commands), GetEnvironmentVariable(env, "COMMANDS"))
    ensures opts.PollSeconds == PollOverride(old(opts.PollSeconds), GetEnvironmentVariable(env, "POLL_SECONDS"))
    ensures var flag := PublishFlag(GetEnvironmentVariable(env, "PUBLISH_VALUE_ONLY"));
      opts.PublishValueOnly == if flag.Some? then flag.value else old(opts.PublishValueOnly)
    ensures old(opts.Commands) != [] ==> opts.Commands != []
    ensures old(opts.PollSeconds) > 0 ==> opts.PollSeconds > 0
  {
    var hostEnv := GetEnvironmentVariable(env, "VCONTROLD_HOST");
    var portEnv := GetEnvironmentVariable(env, "VCONTROLD_PORT");
    var commandsEnv := GetEnvironmentVariable(env, "COMMANDS");
    var pollEnv := GetEnvironmentVariable(env, "POLL_SECONDS");
    var publishValueOnlyEnv := GetEnvironmentVariable(env, "PUBLISH_VALUE_ONLY");
    if !IsNullOrWhiteSpace(hostEnv) { opts.Host := hostEnv.value; }
    var p := TryParseInt32(portEnv);
    if p.Some? { opts.Port := p.value; }
    assert opts.Port == PortOverride(old(opts.Port), portEnv);
    ApplyCommands(opts, commandsEnv);
    var poll := TryParseInt32(pollEnv);
    if poll.Some? && poll.value > 0 {
      opts.PollSeconds := poll.value;
    }
    assert opts.PollSeconds == PollOverride(old(opts.PollSeconds), pollEnv);
    ApplyPublishValueOnly(opts, publishValueOnlyEnv);
  }

  /** With no override variables set, both option objects keep their defaults. */
  method DefaultsWithoutEnvironment() returns (mqtt: MqttOptions, vcontrol: VcontrolOptions)
    ensures mqtt.Host == None && mqtt.Port == 1883 && mqtt.Topic == None
    ensures mqtt.User == None && mqtt.Password == None
    ensures vcontrol.Host == "127.0.0.1" && vcontrol.Port == 3002 && vcontrol.Commands == []
    ensures vcontrol.PollSeconds == 60 && !vcontrol.PublishValueOnly
  {
    mqtt := new MqttOptions();
    vcontrol := new VcontrolOptions();
    PostConfigureMqtt(mqtt, map[]);
    PostConfigureVcontrol(vcontrol, map[]);
  }
}
