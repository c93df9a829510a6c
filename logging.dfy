/**
 * Log-level selection of `MyLogging::init_logger`: the command-line flags
 * pick a level, and when the logger falls back to the built-in
 * configuration an unset level becomes the configured default.
 */
module Logging {
  type u64 = x: int | 0 <= x < 0x1_0000_0000_0000_0000

  datatype LevelFilter = Off | Error | Warn | Info | Debug | Trace

  const DEFAULT_FILE_NAME: string := "my_logging.log"
  const DEFAULT_MAX_SIZE: u64 := 10 * 1024 * 1024

  /**
   * The level the arguments ask for: "--debug" beats "--info", which beats
   * "--warning"; without any of them the level is Off ("not set"). Only an
   * argument equal to the flag counts.
   */
  function ArgsLevel(args: seq<string>): LevelFilter
  {
    if "--debug" in args then Debug
    else if "--info" in args then Info
    else if "--warning" in args then Warn
    else Off
  }

  /** Each outcome of the flag precedence, both directions. */
  lemma ArgsLevelIff(args: seq<string>)
    ensures ArgsLevel(args) == Debug <==> "--debug" in args
    ensures ArgsLevel(args) == Info <==> "--debug" !in args && "--info" in args
    ensures ArgsLevel(args) == Warn <==> "--debug" !in args && "--info" !in args && "--warning" in args
    ensures ArgsLevel(args) == Off <==> "--debug" !in args && "--info" !in args && "--warning" !in args
    ensures ArgsLevel(args) in {Off, Warn, Info, Debug}
  {
  }

  /** Arguments that are none of the three flags never change the choice, wherever they appear. */
  lemma ArgsLevelIgnoresOthers(args: seq<string>, extra: seq<string>, before: bool)
    requires forall k :: 0 <= k < |extra| ==> extra[k] != "--debug" && extra[k] != "--info" && extra[k] != "--warning"
    ensures ArgsLevel(if before then extra + args else args + extra) == ArgsLevel(args)
  {
    if before {
      assert forall f :: f in extra + args <==> f in extra || f in args;
    } else {
      assert forall f :: f in args + extra <==> f in args || f in extra;
    }
  }

  /** Whether `log4rs.yml` exists and, if so, whether `log4rs::init_file` accepts it. */
  datatype YmlConfig = YmlAbsent | YmlLoads | YmlFails

  /** How the logger ends up configured: by the YAML file, or by the built-in configuration at a root level. */
  datatype LoggerSetup = FromYml | DefaultConfig(rootLevel: LevelFilter)

  /** The `MyLogging` settings; none of its fields is ever updated. */
  datatype MyLogging = MyLogging(logFileName: string, logFileMaxsize: u64, logDefaultLevel: LevelFilter)
  {
    /** `Default::default`: "my_logging.log", 10 MiB, Info. */
    static function Default(): (l: MyLogging)
      ensures l.logFileName == DEFAULT_FILE_NAME && l.logFileMaxsize == 10485760 && l.logDefaultLevel == Info
    {
      MyLogging(DEFAULT_FILE_NAME, DEFAULT_MAX_SIZE, Info)
    }

    /** `new`: built from its three arguments alone; the receiver plays no part. */
    function New(name: string, size: u64, level: LevelFilter): (l: MyLogging)
      ensures l.logFileName == name && l.logFileMaxsize == size && l.logDefaultLevel == level
    {
      MyLogging(name, size, level)
    }

    /** On the built-in configuration an unset (Off) level becomes the default level; any other is kept. */
    function FallbackLevel(level: LevelFilter): (r: LevelFilter)
      ensures level != Off ==> r == level
      ensures level == Off ==> r == logDefaultLevel
    {
      if level == Off then logDefaultLevel else level
    }

    /**
     * `init_logger` with the arguments and the YAML outcome as parameters:
     * a YAML file that loads wins (the flags are then only reported); an
     * absent or failing file leads to the built-in configuration.
     */
    method InitLogger(args: seq<string>, yml: YmlConfig) returns (setup: LoggerSetup)
      ensures yml == YmlLoads ==> setup == FromYml
      ensures yml != YmlLoads ==> setup == DefaultConfig(FallbackLevel(ArgsLevel(args)))
    {
      var logLevel := ArgsLevel(args);
      if yml != YmlAbsent {
        match yml
        case YmlLoads =>
          setup := FromYml;
        case _ =>
          if logLevel == Off {
            logLevel := logDefaultLevel;
          }
          setup := DefaultConfig(logLevel);
      } else {
        if logLevel == Off {
          logLevel := logDefaultLevel;
        }
        setup := DefaultConfig(logLevel);
      }
    }
  }

  /** The root level of the built-in configuration: a flag's level if one is given, the default level otherwise. */
  lemma FallbackRootLevel(l: MyLogging, args: seq<string>)
    ensures l.FallbackLevel(ArgsLevel(args)) ==
      if "--debug" in args then Debug
      else if "--info" in args then Info
      else if "--warning" in args then Warn
      else l.logDefaultLevel
    ensures l.logDefaultLevel != Off ==> l.FallbackLevel(ArgsLevel(args)) != Off
  {
  }

  /** With the defaults and no flag, the built-in configuration logs at Info. */
  lemma DefaultLoggerLevel(args: seq<string>)
    requires "--debug" !in args && "--info" !in args && "--warning" !in args
    ensures MyLogging.Default().FallbackLevel(ArgsLevel(args)) == Info
  {
  }
}
