/**
 * The level filter and the logger facade of src/utils/logger.ts.
 *
 * The console is an output trace: each enabled call appends one event
 * (severity and argument list), and the trace also records every value
 * handed to `safeLogValue`, so that "a disabled call never serializes"
 * is a statement about the trace. The global override
 * (`globalThis.__POELINK_LOG_LEVEL`) and the DEV build flag are parameters.
 */
module Logging {
  import opened Wrappers
  import opened JsValues
  import opened Serializer

  /** A level name. Any other text is `Unrecognized`. */
  datatype Level = Debug | Info | Warn | Error | Silent | Unrecognized(name: string)

  /** The text a level stands for: its `LogLevel` name, or the unrecognized text itself. */
  function Name(l: Level): string {
    match l
    case Debug => "debug"
    case Info => "info"
    case Warn => "warn"
    case Error => "error"
    case Silent => "silent"
    case Unrecognized(name) => name
  }

  /** Reading a level setting: each of the five names gives its level, and nothing of the text is lost. */
  function ParseLevel(s: string): (l: Level)
    ensures Name(l) == s
    ensures l.Unrecognized? <==> s !in {"debug", "info", "warn", "error", "silent"}
  {
    if s == "debug" then Debug
    else if s == "info" then Info
    else if s == "warn" then Warn
    else if s == "error" then Error
    else if s == "silent" then Silent
    else Unrecognized(s)
  }

  /** Parsing the name of a recognised level gives that level back. */
  lemma ParseName(l: Level)
    requires l.Unrecognized? ==> l.name !in {"debug", "info", "warn", "error", "silent"}
    ensures ParseLevel(Name(l)) == l
  {
  }

  /**
   * `levelRank`: debug 10, info 20, warn 30, error 40, silent 100, anything
   * else 20. Silent alone reaches 100, and an unrecognized level ranks as info.
   */
  function LevelRank(l: Level): (r: int)
    ensures r == 100 <==> l.Silent?
    ensures !l.Silent? ==> 10 <= r <= 40
    ensures l.Debug? ==> r == 10
    ensures l.Info? ==> r == 20
    ensures l.Warn? ==> r == 30
    ensures l.Error? ==> r == 40
    ensures l.Unrecognized? ==> r == 20
  {
    match l
    case Debug => 10
    case Info => 20
    case Warn => 30
    case Error => 40
    case Silent => 100
    case Unrecognized(_) => 20
  }

  /** The four severities a logger writes at, one per method and console channel. */
  datatype Severity = DebugCall | InfoCall | WarnCall | ErrorCall

  function SeverityLevel(s: Severity): Level {
    match s
    case DebugCall => Debug
    case InfoCall => Info
    case WarnCall => Warn
    case ErrorCall => Error
  }

  /**
   * `isEnabled(want)` for a logger configured at `level`: silent lets nothing
   * through, debug everything; error calls pass at every other level, and
   * debug calls only at debug.
   */
  function IsEnabled(level: Level, want: Severity): (b: bool)
    ensures level.Silent? ==> !b
    ensures level.Debug? ==> b
    ensures want == ErrorCall ==> (b <==> !level.Silent?)
    ensures want == DebugCall ==> (b <==> level.Debug?)
  {
    LevelRank(SeverityLevel(want)) >= LevelRank(level) && level != Silent
  }

  /**
   * `getDefaultLevel`: a truthy global override is taken as it is, without
   * checking that it names a level; otherwise DEV builds log at debug and
   * others at info. `global` is None when the slot is unset or non-string falsy.
   */
  function DefaultLevel(global: Option<string>, dev: bool): (l: Level)
    ensures global.Some? && global.value != "" ==> l == ParseLevel(global.value)
    ensures (global.None? || global.value == "") ==> (l == Debug <==> dev) && (l == Info <==> !dev)
  {
    if global.Some? && global.value != "" then ParseLevel(global.value)
    else if dev then Debug else Info
  }

  datatype Logger = Logger(prefix: string, level: Level, serialize: Overrides)

  /**
   * `createLogger(node, options)`: an explicit level wins whenever it is given
   * (even an empty string, since `??` only skips null and undefined); the
   * prefix is "[PoeLink][node]".
   */
  function CreateLogger(node: string, level: Option<string>, serialize: Option<Overrides>,
                        global: Option<string>, dev: bool): (lg: Logger)
    ensures lg.prefix == "[PoeLink][" + node + "]"
    ensures level.Some? ==> lg.level == ParseLevel(level.value)
    ensures level.None? ==> lg.level == DefaultLevel(global, dev)
    ensures serialize.None? ==> lg.serialize == NoOverrides
    ensures serialize.Some? ==> lg.serialize == serialize.value
  {
    Logger("[PoeLink][" + node + "]",
           if level.Some? then ParseLevel(level.value) else DefaultLevel(global, dev),
           serialize.GetOr(NoOverrides))
  }

  /** A console argument: a string the logger supplies, a walked value, or a caller's value as given. */
  datatype Arg = Text(s: string) | Walked(w: Out) | Passed(v: Value)

  datatype Event = Event(severity: Severity, args: seq<Arg>)

  /** What happened so far: console events, and the values given to safeLogValue. */
  datatype Trace = Trace(console: seq<Event>, serialized: seq<Value>)

  function PassAll(rest: seq<Value>): (r: seq<Arg>)
    ensures |r| == |rest| && forall i :: 0 <= i < |rest| ==> r[i] == Passed(rest[i])
  {
    seq(|rest|, i requires 0 <= i < |rest| => Passed(rest[i]))
  }

  /**
   * One call `logger.<sev>(msg, data, ...rest)`. Disabled: nothing happens.
   * Enabled: one event `prefix, msg[, walked data], ...rest` on the matching
   * channel, and `data` is serialized exactly when it is not undefined.
   */
  function Log(lg: Logger, heap: Heap, sev: Severity, msg: string, data: Value, rest: seq<Value>, t: Trace): (t': Trace)
    ensures !IsEnabled(lg.level, sev) ==> t' == t
    ensures IsEnabled(lg.level, sev) ==>
      && |t'.console| == |t.console| + 1
      && t'.console[..|t.console|] == t.console
      && t'.console[|t.console|].severity == sev
      && |t'.console[|t.console|].args| == 2 + |rest| + (if data == Undefined then 0 else 1)
      && t'.console[|t.console|].args[..2] == [Text(lg.prefix), Text(msg)]
    ensures IsEnabled(lg.level, sev) && data == Undefined ==>
      t'.serialized == t.serialized && t'.console[|t.console|].args == [Text(lg.prefix), Text(msg)] + PassAll(rest)
    ensures IsEnabled(lg.level, sev) && data != Undefined ==>
      && t'.serialized == t.serialized + [data]
      && t'.console[|t.console|].args
         == [Text(lg.prefix), Text(msg), Walked(SafeLogValue(heap, data, lg.serialize))] + PassAll(rest)
  {
    if !IsEnabled(lg.level, sev) then t
    else if data == Undefined then
      Trace(t.console + [Event(sev, [Text(lg.prefix), Text(msg)] + PassAll(rest))], t.serialized)
    else
      var walked := SafeLogValue(heap, data, lg.serialize);
      Trace(t.console + [Event(sev, [Text(lg.prefix), Text(msg), Walked(walked)] + PassAll(rest))],
            t.serialized + [data])
  }

  datatype Call = Call(sev: Severity, msg: string, data: Value, rest: seq<Value>)

  /** A run of calls on one logger, in order. */
  function Replay(lg: Logger, heap: Heap, calls: seq<Call>, t: Trace): Trace
    decreases |calls|
  {
    if |calls| == 0 then t
    else Replay(lg, heap, calls[1..], Log(lg, heap, calls[0].sev, calls[0].msg, calls[0].data, calls[0].rest, t))
  }

  // ---------------------------------------------------------------------
  // Properties of the filter

  /** The recognised levels are strictly ordered debug < info < warn < error < silent. */
  lemma RanksAreOrdered()
    ensures LevelRank(Debug) < LevelRank(Info) < LevelRank(Warn) < LevelRank(Error) < LevelRank(Silent)
  {
  }

  /** silent disables every method, error included. */
  lemma SilentDisablesAll(sev: Severity)
    ensures !IsEnabled(Silent, sev)
  {
  }

  /** An unrecognized configured level filters exactly like info. */
  lemma UnrecognizedActsAsInfo(name: string, sev: Severity)
    ensures IsEnabled(Unrecognized(name), sev) <==> IsEnabled(Info, sev)
  {
  }

  /** Enabling is upward closed: a level that lets a severity through lets every higher one through. */
  lemma EnabledIsUpwardClosed(level: Level, lo: Severity, hi: Severity)
    requires LevelRank(SeverityLevel(lo)) <= LevelRank(SeverityLevel(hi))
    ensures IsEnabled(level, lo) ==> IsEnabled(level, hi)
  {
  }

  /** For each non-silent configured level, a severity is enabled exactly when it ranks at or above it. */
  lemma EnabledIffAtLeast(level: Level, sev: Severity)
    requires level != Silent
    ensures IsEnabled(level, sev) <==> LevelRank(SeverityLevel(sev)) >= LevelRank(level)
  {
  }

  /**
   * A logger at warn: debug and info calls leave the trace as it was (so
   * nothing is serialized); warn and error calls with data serialize it once.
   */
  lemma WarnLoggerGating(lg: Logger, heap: Heap, msg: string, data: Value, rest: seq<Value>, t: Trace)
    requires lg.level == Warn && data != Undefined
    ensures Log(lg, heap, DebugCall, msg, data, rest, t) == t
    ensures Log(lg, heap, InfoCall, msg, data, rest, t) == t
    ensures Log(lg, heap, WarnCall, msg, data, rest, t).serialized == t.serialized + [data]
    ensures Log(lg, heap, ErrorCall, msg, data, rest, t).serialized == t.serialized + [data]
  {
  }

  /** A disabled severity leaves the whole trace untouched over any run of calls. */
  lemma {:induction false} DisabledCallsLeaveNoTrace(lg: Logger, heap: Heap, calls: seq<Call>, t: Trace)
    requires forall i :: 0 <= i < |calls| ==> !IsEnabled(lg.level, calls[i].sev)
    ensures Replay(lg, heap, calls, t) == t
    decreases |calls|
  {
    if |calls| > 0 {
      DisabledCallsLeaveNoTrace(lg, heap, calls[1..], t);
    }
  }

  /** Over any run of calls, a silent logger writes nothing and serializes nothing. */
  lemma SilentLoggerIsInert(lg: Logger, heap: Heap, calls: seq<Call>, t: Trace)
    requires lg.level == Silent
    ensures Replay(lg, heap, calls, t) == t
  {
    DisabledCallsLeaveNoTrace(lg, heap, calls, t);
  }

  /** Every enabled call adds exactly one console event; the serialized values are those with data. */
  lemma {:induction false} ReplayCounts(lg: Logger, heap: Heap, calls: seq<Call>, t: Trace)
    ensures |Replay(lg, heap, calls, t).console| == |t.console| + EnabledCount(lg, calls)
    ensures |Replay(lg, heap, calls, t).serialized| == |t.serialized| + SerializingCount(lg, calls)
    decreases |calls|
  {
    if |calls| > 0 {
      var c := calls[0];
      ReplayCounts(lg, heap, calls[1..], Log(lg, heap, c.sev, c.msg, c.data, c.rest, t));
    }
  }

  // ---------------------------------------------------------------------
  // Loggers as created

  /**
   * With no level option and no global override, a created logger writes
   * debug calls exactly in DEV builds, and info, warn and error calls always.
   */
  lemma DefaultLoggerGating(node: string, serialize: Option<Overrides>, dev: bool)
    ensures var lg := CreateLogger(node, None, serialize, None, dev);
            && (IsEnabled(lg.level, DebugCall) <==> dev)
            && IsEnabled(lg.level, InfoCall)
            && IsEnabled(lg.level, WarnCall)
            && IsEnabled(lg.level, ErrorCall)
  {
  }

  /** A global override "silent" makes a logger created without a level option write and serialize nothing. */
  lemma SilentOverrideIsInert(node: string, serialize: Option<Overrides>, dev: bool,
                              heap: Heap, calls: seq<Call>, t: Trace)
    ensures Replay(CreateLogger(node, None, serialize, Some("silent"), dev), heap, calls, t) == t
  {
    SilentLoggerIsInert(CreateLogger(node, None, serialize, Some("silent"), dev), heap, calls, t);
  }

  /** An explicit level "warn" gates like a warn logger, whatever the global override and build. */
  lemma ExplicitWarnGating(node: string, serialize: Option<Overrides>, global: Option<string>, dev: bool,
                           heap: Heap, msg: string, data: Value, rest: seq<Value>, t: Trace)
    requires data != Undefined
    ensures var lg := CreateLogger(node, Some("warn"), serialize, global, dev);
            && Log(lg, heap, DebugCall, msg, data, rest, t) == t
            && Log(lg, heap, InfoCall, msg, data, rest, t) == t
            && Log(lg, heap, WarnCall, msg, data, rest, t).serialized == t.serialized + [data]
            && Log(lg, heap, ErrorCall, msg, data, rest, t).serialized == t.serialized + [data]
  {
    WarnLoggerGating(CreateLogger(node, Some("warn"), serialize, global, dev), heap, msg, data, rest, t);
  }

  /** An override that names no level (say "verbose") is taken as is and filters like info. */
  lemma UnknownOverrideActsAsInfo(node: string, serialize: Option<Overrides>, name: string, dev: bool, sev: Severity)
    requires name != "" && name !in {"debug", "info", "warn", "error", "silent"}
    ensures var lg := CreateLogger(node, None, serialize, Some(name), dev);
            && lg.level == Unrecognized(name)
            && (IsEnabled(lg.level, sev) <==> sev != DebugCall)
  {
  }

  /** The serialize options given to createLogger are the ones every call hands to safeLogValue. */
  lemma CallsUseGivenOptions(node: string, level: Option<string>, u: Overrides, global: Option<string>, dev: bool,
                             heap: Heap, sev: Severity, msg: string, data: Value, rest: seq<Value>, t: Trace)
    requires data != Undefined
    ensures var lg := CreateLogger(node, level, Some(u), global, dev);
            IsEnabled(lg.level, sev) ==>
              Log(lg, heap, sev, msg, data, rest, t).console[|t.console|].args[2] == Walked(SafeLogValue(heap, data, u))
  {
  }

  function EnabledCount(lg: Logger, calls: seq<Call>): nat {
    if |calls| == 0 then 0
    else (if IsEnabled(lg.level, calls[0].sev) then 1 else 0) + EnabledCount(lg, calls[1..])
  }

  function SerializingCount(lg: Logger, calls: seq<Call>): nat {
    if |calls| == 0 then 0
    else (if IsEnabled(lg.level, calls[0].sev) && calls[0].data != Undefined then 1 else 0)
         + SerializingCount(lg, calls[1..])
  }
}
