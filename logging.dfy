/**
 * The logger of the intro module: numbered levels, a threshold fixed by the
 * build flags, a level-name table and a routing table from level to console
 * channel. A console write is modelled as a returned line.
 */
module Logging {
  import opened Wrappers

  // LOG_LEVEL
  const NONE: int := 0
  const ERROR: int := 1
  const WARN: int := 2
  const INFO: int := 3
  const DEBUG: int := 4
  const ALL: int := 5

  /** The two build-time flags DEBUG_MODE and OVERRIDE_INFO. */
  datatype Config = Config(debugMode: bool, overrideInfo: bool)

  /** The flags as the module ships them: both off. */
  const Shipped: Config := Config(false, false)

  /** The console methods a message can be written with. */
  datatype Channel = ConsoleError | ConsoleWarn | ConsoleInfo | ConsoleDebug | ConsoleTrace | ConsoleLog

  datatype ConsoleLine = ConsoleLine(channel: Channel, text: string)

  lemma LevelsTotallyOrdered()
    ensures NONE < ERROR < WARN < INFO < DEBUG < ALL
  {
  }

  /** currentLogLevel: everything in debug mode, up to INFO otherwise. */
  function CurrentLogLevel(cfg: Config): (threshold: int)
    ensures threshold == INFO || threshold == ALL
    ensures threshold == ALL <==> cfg.debugMode
  {
    if cfg.debugMode then ALL else INFO
  }

  // ---------------------------------------------------------------------
  // Decimal rendering of a level, as a template literal prints an integer

  predicate IsDigit(c: char) { '0' <= c <= '9' }

  function DigitChar(d: nat): (c: char)
    requires d < 10
    ensures IsDigit(c) && c as int - '0' as int == d
  {
    ('0' as int + d) as char
  }

  function NatToDecimal(n: nat): (s: string)
    ensures |s| >= 1
    ensures forall i | 0 <= i < |s| :: IsDigit(s[i])
    decreases n
  {
    if n < 10 then [DigitChar(n)] else NatToDecimal(n / 10) + [DigitChar(n % 10)]
  }

  function DigitValue(c: char): (d: nat)
    requires IsDigit(c)
    ensures d < 10
  {
    c as int - '0' as int
  }

  /** The value of a string of decimal digits, most significant first. */
  function DecimalValue(s: string): nat
    requires forall i | 0 <= i < |s| :: IsDigit(s[i])
  {
    if s == [] then 0
    else 10 * DecimalValue(s[..|s| - 1]) + DigitValue(s[|s| - 1])
  }

  lemma {:induction false} DecimalRoundTrip(n: nat)
    ensures DecimalValue(NatToDecimal(n)) == n
    decreases n
  {
    if n >= 10 {
      var s := NatToDecimal(n);
      assert s[..|s| - 1] == NatToDecimal(n / 10);
      DecimalRoundTrip(n / 10);
    }
  }

  /**
   * An integer in decimal notation: an optional minus sign, then digits.
   * JavaScript prints a level this way when it is a safe integer (magnitude below 2^53).
   */
  function NumberToString(n: int): (s: string)
    ensures |s| >= 1
    ensures s[0] == '-' <==> n < 0
    ensures forall i | 0 < i < |s| :: IsDigit(s[i])
  {
    if n < 0 then "-" + NatToDecimal(-n) else NatToDecimal(n)
  }

  lemma NumberToStringInjective(a: int, b: int)
    ensures NumberToString(a) == NumberToString(b) ==> a == b
  {
    if NumberToString(a) == NumberToString(b) {
      if a < 0 {
        assert NatToDecimal(-a) == NumberToString(a)[1..];
        assert NatToDecimal(-b) == NumberToString(b)[1..];
        DecimalRoundTrip(-a);
        DecimalRoundTrip(-b);
      } else {
        DecimalRoundTrip(a);
        DecimalRoundTrip(b);
      }
    }
  }

  // ---------------------------------------------------------------------
  // getLevelName

  const KnownNames: seq<string> := ["ERROR", "WARN", "INFO", "DEBUG", "TRACE"]

  function LevelName(level: int): (name: string)
    ensures ERROR <= level <= ALL ==> name == KnownNames[level - 1]
    ensures !(ERROR <= level <= ALL) ==> name == "UNKNOWN(" + NumberToString(level) + ")"
  {
    if level == ERROR then "ERROR"
    else if level == WARN then "WARN"
    else if level == INFO then "INFO"
    else if level == DEBUG then "DEBUG"
    else if level == ALL then "TRACE"
    else "UNKNOWN(" + NumberToString(level) + ")"
  }

  /** No two levels share a name, so the bracketed name identifies the level. */
  lemma LevelNameInjective(a: int, b: int)
    ensures LevelName(a) == LevelName(b) ==> a == b
  {
    if a != b {
      if ERROR <= a <= ALL && ERROR <= b <= ALL {
      } else if ERROR <= a <= ALL {
        assert LevelName(b)[0] == 'U' != LevelName(a)[0];
      } else if ERROR <= b <= ALL {
        assert LevelName(a)[0] == 'U' != LevelName(b)[0];
      } else {
        var sa, sb := NumberToString(a), NumberToString(b);
        assert ("UNKNOWN(" + sa + ")")[8..8 + |sa|] == sa;
        assert ("UNKNOWN(" + sb + ")")[8..8 + |sb|] == sb;
        NumberToStringInjective(a, b);
        if |sa| == |sb| {
          assert LevelName(a)[8..8 + |sa|] != LevelName(b)[8..8 + |sb|];
        } else {
          assert |LevelName(a)| != |LevelName(b)|;
        }
      }
    }
  }

  // ---------------------------------------------------------------------
  // log and its wrappers

  /** The text every emitted line starts with. */
  function Prefix(levelName: string): string
  {
    "Dynamic-Actor-Intros | [" + levelName + "] | "
  }

  /** The prefix names the level: two lines with the same prefix were written at the same level. */
  lemma PrefixNamesLevel(a: int, b: int)
    ensures Prefix(LevelName(a)) == Prefix(LevelName(b)) ==> a == b
  {
    var na, nb := LevelName(a), LevelName(b);
    if Prefix(na) == Prefix(nb) {
      assert Prefix(na)[24..|Prefix(na)| - 4] == na;
      assert Prefix(nb)[24..|Prefix(nb)| - 4] == nb;
      LevelNameInjective(a, b);
    }
  }

  /** The console method the switch in log selects for a level. */
  function Route(cfg: Config, level: int): (ch: Channel)
    ensures level == ERROR ==> ch == ConsoleError
    ensures level == WARN ==> ch == ConsoleWarn
    ensures level == DEBUG ==> ch == (if cfg.overrideInfo && cfg.debugMode then ConsoleInfo else ConsoleDebug)
    ensures level == ALL ==> ch == (if cfg.overrideInfo && cfg.debugMode then ConsoleInfo else ConsoleTrace)
    ensures !(ERROR <= level <= ALL) || level == INFO ==> ch == ConsoleLog
  {
    match level
    case 1 => ConsoleError
    case 2 => ConsoleWarn
    case 4 => if cfg.overrideInfo && cfg.debugMode then ConsoleInfo else ConsoleDebug
    case 5 => if cfg.overrideInfo && cfg.debugMode then ConsoleInfo else ConsoleTrace
    case _ => ConsoleLog
  }

  predicate IsUnknownName(name: string)
  {
    |name| >= 8 && name[..8] == "UNKNOWN("
  }

  /** The channel always agrees with the name printed in brackets. */
  lemma RouteAgreesWithName(cfg: Config, level: int)
    ensures Route(cfg, level) == ConsoleError <==> LevelName(level) == "ERROR"
    ensures Route(cfg, level) == ConsoleWarn <==> LevelName(level) == "WARN"
    ensures Route(cfg, level) == ConsoleLog <==> LevelName(level) == "INFO" || IsUnknownName(LevelName(level))
  {
    if !(ERROR <= level <= ALL) {
      assert LevelName(level)[0] == 'U';
      assert LevelName(level)[..8] == "UNKNOWN(";
    } else {
      assert LevelName(level)[0] != 'U';
    }
  }

  function Log(cfg: Config, level: int, message: string): (r: Option<ConsoleLine>)
    ensures r.Some? <==> level <= CurrentLogLevel(cfg)
    ensures r.Some? ==> r.value == ConsoleLine(Route(cfg, level), Prefix(LevelName(level)) + message)
  {
    if level <= CurrentLogLevel(cfg) then
      Some(ConsoleLine(Route(cfg, level), Prefix(LevelName(level)) + message))
    else
      None
  }

  function LogError(cfg: Config, message: string): (r: Option<ConsoleLine>)
    ensures r == Some(ConsoleLine(ConsoleError, Prefix("ERROR") + message))
  {
    Log(cfg, ERROR, message)
  }

  function LogWarning(cfg: Config, message: string): (r: Option<ConsoleLine>)
    ensures r == Some(ConsoleLine(ConsoleWarn, Prefix("WARN") + message))
  {
    Log(cfg, WARN, message)
  }

  function LogInfo(cfg: Config, message: string): (r: Option<ConsoleLine>)
    ensures r == Some(ConsoleLine(ConsoleLog, Prefix("INFO") + message))
  {
    Log(cfg, INFO, message)
  }

  function LogDebug(cfg: Config, message: string): (r: Option<ConsoleLine>)
    ensures r.Some? <==> cfg.debugMode
    ensures r.Some? ==> r.value.text == Prefix("DEBUG") + message
    ensures r.Some? ==> r.value.channel == (if cfg.overrideInfo then ConsoleInfo else ConsoleDebug)
  {
    Log(cfg, DEBUG, message)
  }

  /** Outside debug mode exactly ERROR, WARN, INFO and the unnamed levels print, whatever OVERRIDE_INFO says. */
  lemma NonDebugThreshold(cfg: Config, level: int, message: string)
    requires !cfg.debugMode
    ensures Log(cfg, level, message).Some? <==> level <= INFO
    ensures Log(cfg, DEBUG, message) == None && Log(cfg, ALL, message) == None
  {
  }

  /** With the shipped flags exactly ERROR, WARN, INFO and the unnamed levels print. */
  lemma ShippedThreshold(level: int, message: string)
    ensures Log(Shipped, level, message).Some? <==> level <= INFO
    ensures Log(Shipped, DEBUG, message) == None && Log(Shipped, ALL, message) == None
  {
    NonDebugThreshold(Shipped, level, message);
  }

  /** NONE, and every level below it, passes the filter and prints as unknown through console.log. */
  lemma NoneLevelPrintsUnknown(cfg: Config, level: int, message: string)
    requires level <= NONE
    ensures Log(cfg, level, message).Some?
    ensures Log(cfg, level, message).value.channel == ConsoleLog
    ensures Log(cfg, level, message).value.text[..32] == "Dynamic-Actor-Intros | [UNKNOWN("
  {
    var line := Log(cfg, level, message).value;
    assert line.text == "Dynamic-Actor-Intros | [" + ("UNKNOWN(" + NumberToString(level) + ")") + "] | " + message;
  }

  lemma NoneLevelName()
    ensures LevelName(NONE) == "UNKNOWN(0)"
  {
    assert NatToDecimal(0) == "0";
  }
}
