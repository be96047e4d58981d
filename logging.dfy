/** The minimum log level the worker takes from the `LOG_LEVEL` environment
    variable (the top of Program.cs). */
module Logging {
  import Text

  /** `Microsoft.Extensions.Logging.LogLevel`, in the order of its values;
      `Trace` is the enum's default value. */
  datatype LogLevel = Trace | Debug | Information | Warning | Error | Critical | None

  /** The enum member names. */
  function Name(l: LogLevel): string {
    match l
    case Trace => "Trace"
    case Debug => "Debug"
    case Information => "Information"
    case Warning => "Warning"
    case Error => "Error"
    case Critical => "Critical"
    case None => "None"
  }

  /** The short spellings the switch accepts after a failed parse, lower case. */
  const Aliases: map<string, LogLevel> :=
    map["info" := Information, "warn" := Warning, "err" := Error, "fatal" := Critical]

  /** `Enum.TryParse<LogLevel>(value, ignoreCase: true, out level)` over the
      member names: the flag says whether it matched, and on failure the out
      value is the default, `Trace`. */
  function EnumTryParse(value: string): (r: (bool, LogLevel))
    ensures r.0 ==> Text.EqualsIgnoreCase(value, Name(r.1))
    ensures !r.0 ==> r.1 == Trace && forall l :: !Text.EqualsIgnoreCase(value, Name(l))
  {
    if Text.EqualsIgnoreCase(value, "Trace") then (true, Trace)
    else if Text.EqualsIgnoreCase(value, "Debug") then (true, Debug)
    else if Text.EqualsIgnoreCase(value, "Information") then (true, Information)
    else if Text.EqualsIgnoreCase(value, "Warning") then (true, Warning)
    else if Text.EqualsIgnoreCase(value, "Error") then (true, Error)
    else if Text.EqualsIgnoreCase(value, "Critical") then (true, Critical)
    else if Text.EqualsIgnoreCase(value, "None") then (true, None)
    else (false, Trace)
  }

  /** Distinct members have names that differ in more than case, so a
      case-insensitive name picks out one member. */
  lemma NamesDistinct(value: string, l: LogLevel, m: LogLevel)
    requires Text.EqualsIgnoreCase(value, Name(l)) && Text.EqualsIgnoreCase(value, Name(m))
    ensures l == m
  {
    LowerNames();
  }

  /** No alias is a member name in any case, so the switch is reached for each. */
  lemma AliasesAreNotNames(value: string, l: LogLevel)
    requires Text.ToLower(value) in Aliases
    ensures !Text.EqualsIgnoreCase(value, Name(l))
  {
    LowerNames();
  }

  lemma LowerNames()
    ensures Text.ToLower("Trace") == "trace" && Text.ToLower("Debug") == "debug"
    ensures Text.ToLower("Information") == "information" && Text.ToLower("Warning") == "warning"
    ensures Text.ToLower("Error") == "error" && Text.ToLower("Critical") == "critical"
    ensures Text.ToLower("None") == "none"
  {
  }

  /** The level block of the program: unset or blank gives `Information`; a
      member name in any case, around which white space is ignored, gives that
      member; failing that an alias gives its level; anything else leaves the
      failed parse's `Trace`. */
  method ResolveMinimumLevel(levelEnv: Text.Option<string>) returns (minLevel: LogLevel)
    ensures Text.IsNullOrWhiteSpace(levelEnv) ==> minLevel == Information
    ensures forall l :: levelEnv.Some? && Text.EqualsIgnoreCase(Text.Trim(levelEnv.value), Name(l)) ==> minLevel == l
    ensures !Text.IsNullOrWhiteSpace(levelEnv) && Text.ToLower(Text.Trim(levelEnv.value)) in Aliases ==>
              minLevel == Aliases[Text.ToLower(Text.Trim(levelEnv.value))]
    ensures !Text.IsNullOrWhiteSpace(levelEnv)
              && (forall l :: !Text.EqualsIgnoreCase(Text.Trim(levelEnv.value), Name(l)))
              && Text.ToLower(Text.Trim(levelEnv.value)) !in Aliases ==>
              minLevel == Trace
  {
    minLevel := Information;
    if !Text.IsNullOrWhiteSpace(levelEnv) {
      var val := Text.Trim(levelEnv.value);
      var parsed := EnumTryParse(val);
      minLevel := parsed.1;
      if !parsed.0 {
        var lower := Text.ToLower(val);
        if lower == "info" {
          minLevel := Information;
        } else if lower == "warn" {
          minLevel := Warning;
        } else if lower == "err" {
          minLevel := Error;
        } else if lower == "fatal" {
          minLevel := Critical;
        }
      } else {
        forall l | Text.EqualsIgnoreCase(val, Name(l))
          ensures minLevel == l
        {
          NamesDistinct(val, l, minLevel);
        }
        if Text.ToLower(val) in Aliases {
          AliasesAreNotNames(val, minLevel);
        }
      }
    } else if levelEnv.Some? {
      assert Text.Trim(levelEnv.value) == "";
      LowerNames();
    }
  }

  /** White space around a level name or alias makes no difference: a
      padded value resolves to the same level as the bare one. */
  method LevelPadded(p: string, w: string, q: string) returns (padded: LogLevel, bare: LogLevel)
    requires Text.IsBlank(p) && Text.IsBlank(q) && Text.IsTrimmed(w) && w != []
    ensures padded == bare
  {
    Text.TrimPadded(p, w, q);
    Text.TrimTrimmed(w);
    assert !Text.IsBlank(w) by { assert !Text.IsWhiteSpace(w[0]); }
    assert !Text.IsBlank(p + w + q) by { assert (p + w + q)[|p|] == w[0]; }
    padded := ResolveMinimumLevel(Text.Some(p + w + q));
    bare := ResolveMinimumLevel(Text.Some(w));
    if l :| Text.EqualsIgnoreCase(w, Name(l)) {
      assert padded == l && bare == l;
    } else if Text.ToLower(w) in Aliases {
      assert padded == Aliases[Text.ToLower(w)] == bare;
    } else {
      assert padded == Trace == bare;
    }
  }
}
