/** The `--log-level` option and its translation into the logger's filter (src/cli.rs:177-201). */
module Logging {
  import opened Wrappers

  /** The levels the command line accepts. */
  datatype LogLevel = None | Error | Warn | Info | Debug

  /** The logger's filter levels, from quietest to most verbose. */
  datatype LevelFilter = Off | Error | Warn | Info | Debug | Trace

  /** Position of a level in the option's declaration order, quietest first. */
  function LogLevelRank(l: LogLevel): nat {
    match l
    case None => 0
    case Error => 1
    case Warn => 2
    case Info => 3
    case Debug => 4
  }

  /** Position of a filter in the logger's own order, `Off` lowest. */
  function LevelFilterRank(f: LevelFilter): nat {
    match f
    case Off => 0
    case Error => 1
    case Warn => 2
    case Info => 3
    case Debug => 4
    case Trace => 5
  }

  /** `From<LogLevel> for LevelFilter`: each level keeps its name, `None` turns
      logging off, and the most verbose filter is never chosen. */
  function ToLevelFilter(l: LogLevel): (f: LevelFilter)
    ensures f != LevelFilter.Trace
    ensures f == LevelFilter.Off <==> l == LogLevel.None
    ensures LevelFilterRank(f) == LogLevelRank(l)
  {
    match l
    case None => LevelFilter.Off
    case Error => LevelFilter.Error
    case Warn => LevelFilter.Warn
    case Info => LevelFilter.Info
    case Debug => LevelFilter.Debug
  }

  /** The inverse translation, defined on every filter the option can reach. */
  function FromLevelFilter(f: LevelFilter): (r: Option<LogLevel>)
    ensures r.None? <==> f == LevelFilter.Trace
  {
    match f
    case Off => Some(LogLevel.None)
    case Error => Some(LogLevel.Error)
    case Warn => Some(LogLevel.Warn)
    case Info => Some(LogLevel.Info)
    case Debug => Some(LogLevel.Debug)
    case Trace => Option.None
  }

  /** Translating a level and back gives the level: the mapping is injective. */
  lemma LevelFilterRoundTrip(l: LogLevel)
    ensures FromLevelFilter(ToLevelFilter(l)) == Some(l)
  {
  }

  /** Distinct levels give distinct filters, and a more verbose level never
      gives a quieter filter. */
  lemma ToLevelFilterInjectiveMonotone(a: LogLevel, b: LogLevel)
    ensures ToLevelFilter(a) == ToLevelFilter(b) ==> a == b
    ensures LogLevelRank(a) <= LogLevelRank(b) ==> LevelFilterRank(ToLevelFilter(a)) <= LevelFilterRank(ToLevelFilter(b))
  {
  }
}
