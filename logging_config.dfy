/**
 * heimdall's logging configuration (`get_config` in src/heimdall/logging_config.py):
 * a nested dictionary for `logging.config.dictConfig`, built from a log level,
 * the name of the console formatter and a switch for the HTTP traffic logger.
 */
module LoggingConfig {
  import opened Wrappers

  /** A value of the nested dictionary: strings, integers, booleans, lists and dicts. */
  datatype Value =
    | Str(s: string)
    | Int(i: int)
    | Bool(b: bool)
    | List(items: seq<Value>)
    | Dict(entries: map<string, Value>)

  /** `cfg[k1][k2]...`, or `None` where a key is missing or a value is not a dict. */
  function Lookup(v: Value, path: seq<string>): Option<Value>
    decreases |path|
  {
    if |path| == 0 then Some(v)
    else if v.Dict? && path[0] in v.entries then Lookup(v.entries[path[0]], path[1..])
    else None
  }

  /** The names under `formatters`. */
  const FormatterNames: set<string> := {"verbose", "simple", "json", "http"}

  /** The names under `loggers`: the HTTP traffic logger, Django's and the root logger. */
  const LoggerNames: set<string> := {"_http", "django", ""}

  const StreamHandlerClass: string := "logging.StreamHandler"

  /** The `formatters` section, which no argument changes. */
  const Formatters: Value := Dict(map[
    "verbose" := Dict(map[
      "format" := Str("[%(asctime)s] %(levelname)s [%(name)s: %(funcName)s: %(lineno)s] %(message)s"),
      "datefmt" := Str("%Y-%m-%dT%H:%M:%S%z")
    ]),
    "simple" := Dict(map[
      "format" := Str("%(levelname)s %(message)s")
    ]),
    "json" := Dict(map[
      "()" := Str("baazaar.logging_config.CustomJsonFormatter"),
      "fmt" := Str("%(levelname)s %(asctime)s %(name)s %(funcName)s %(lineno)s %(message)s")
    ]),
    "http" := Dict(map[
      "format" := Str("[%(asctime)s] %(levelname)s [http:log] %(message)s"),
      "()" := Str("baazaar.utils.logger.RequestResponseFormatter")
    ])
  ])

  /** The `handlers` section. */
  function Handlers(logFormatter: string): Value
  {
    Dict(map[
      "console" := Dict(map[
        "level" := Str("INFO"),
        "class" := Str(StreamHandlerClass),
        "formatter" := Str(logFormatter)
      ]),
      "json" := Dict(map[
        "formatter" := Str("json"),
        "class" := Str(StreamHandlerClass)
      ]),
      "http" := Dict(map[
        "formatter" := Str("http"),
        "class" := Str(StreamHandlerClass)
      ])
    ])
  }

  /** The `loggers` section. */
  function Loggers(logLevel: string, logHttp: bool): Value
  {
    Dict(map[
      "_http" := Dict(map[
        "handlers" := List(if logHttp then [Str("http")] else []),
        "level" := Str(logLevel),
        "propagate" := Bool(false)
      ]),
      "django" := Dict(map[
        "handlers" := List([Str("console")]),
        "level" := Str(logLevel),
        "propagate" := Bool(false)
      ]),
      "" := Dict(map[
        "handlers" := List([Str("console")]),
        "level" := Str(logLevel),
        "propagate" := Bool(false)
      ])
    ])
  }

  /** `get_config(log_level="WARNING", log_formatter="verbose", log_http=False)` */
  function GetConfig(logLevel: string := "WARNING", logFormatter: string := "verbose", logHttp: bool := false): (r: Value)
    ensures r.Dict? && r.entries.Keys == {"version", "disable_existing_loggers", "formatters", "handlers", "loggers"}
  {
    Dict(map[
      "version" := Int(1),
      "disable_existing_loggers" := Bool(false),
      "formatters" := Formatters,
      "handlers" := Handlers(logFormatter),
      "loggers" := Loggers(logLevel, logHttp)
    ])
  }

  /** The schema version, the existing-loggers switch and the formatter names never vary. */
  lemma GetConfigFixedEntries(logLevel: string, logFormatter: string, logHttp: bool)
    ensures var cfg := GetConfig(logLevel, logFormatter, logHttp);
            Lookup(cfg, ["version"]) == Some(Int(1)) &&
            Lookup(cfg, ["disable_existing_loggers"]) == Some(Bool(false)) &&
            Lookup(cfg, ["formatters"]) == Some(Formatters) &&
            Formatters.entries.Keys == FormatterNames
  {
  }

  /** The HTTP traffic logger writes to the `http` handler exactly when `log_http` is set, and to nothing otherwise. */
  lemma HttpLoggerToggle(logLevel: string, logFormatter: string, logHttp: bool)
    ensures var handlers := Lookup(GetConfig(logLevel, logFormatter, logHttp), ["loggers", "_http", "handlers"]);
            (handlers == Some(List([Str("http")])) <==> logHttp) &&
            (handlers == Some(List([])) <==> !logHttp)
  {
  }

  /** A three-key lookup goes one dict at a time. */
  lemma {:induction false} LookupThree(v: Value, a: string, b: string, c: string)
    ensures Lookup(v, [a, b, c]) ==
      if v.Dict? && a in v.entries then Lookup(v.entries[a], [b, c]) else None
    ensures Lookup(v, [b, c]) ==
      if v.Dict? && b in v.entries then Lookup(v.entries[b], [c]) else None
  {
    assert [a, b, c][1..] == [b, c];
    assert [b, c][1..] == [c];
  }

  /** All three loggers take `log_level` and none of them propagates. */
  lemma LoggersFollowLevel(logLevel: string, logFormatter: string, logHttp: bool, name: string)
    requires name in LoggerNames
    ensures var cfg := GetConfig(logLevel, logFormatter, logHttp);
            Lookup(cfg, ["loggers", name, "level"]) == Some(Str(logLevel)) &&
            Lookup(cfg, ["loggers", name, "propagate"]) == Some(Bool(false))
  {
    var cfg := GetConfig(logLevel, logFormatter, logHttp);
    var loggers := Loggers(logLevel, logHttp);
    assert cfg.entries["loggers"] == loggers;
    LookupThree(cfg, "loggers", name, "level");
    LookupThree(loggers, name, name, "level");
    LookupThree(cfg, "loggers", name, "propagate");
    LookupThree(loggers, name, name, "propagate");
    var logger := loggers.entries[name];
    assert logger.entries["level"] == Str(logLevel) && logger.entries["propagate"] == Bool(false) by {
      if name == "_http" {
      } else if name == "django" {
      } else {
        assert name == "";
      }
    }
  }

  /** The console handler uses the chosen formatter, at level INFO whatever `log_level` is. */
  lemma ConsoleHandlerSettings(logLevel: string, logFormatter: string, logHttp: bool)
    ensures var cfg := GetConfig(logLevel, logFormatter, logHttp);
            Lookup(cfg, ["handlers", "console", "formatter"]) == Some(Str(logFormatter)) &&
            Lookup(cfg, ["handlers", "console", "level"]) == Some(Str("INFO"))
  {
  }

  /** With no arguments: level WARNING, the verbose console formatter, the HTTP logger silent. */
  lemma GetConfigDefaults()
    ensures Lookup(GetConfig(), ["loggers", "", "level"]) == Some(Str("WARNING"))
    ensures Lookup(GetConfig(), ["handlers", "console", "formatter"]) == Some(Str("verbose"))
    ensures Lookup(GetConfig(), ["loggers", "_http", "handlers"]) == Some(List([]))
  {
    LoggersFollowLevel("WARNING", "verbose", false, "");
    ConsoleHandlerSettings("WARNING", "verbose", false);
    HttpLoggerToggle("WARNING", "verbose", false);
  }

  /** Different arguments give different configurations: each argument is visible in the result. */
  lemma GetConfigInjective(l1: string, f1: string, h1: bool, l2: string, f2: string, h2: bool)
    requires GetConfig(l1, f1, h1) == GetConfig(l2, f2, h2)
    ensures l1 == l2 && f1 == f2 && h1 == h2
  {
    LoggersFollowLevel(l1, f1, h1, "");
    LoggersFollowLevel(l2, f2, h2, "");
    ConsoleHandlerSettings(l1, f1, h1);
    ConsoleHandlerSettings(l2, f2, h2);
    HttpLoggerToggle(l1, f1, h1);
    HttpLoggerToggle(l2, f2, h2);
  }

  /** `v` is a string naming an entry of the dict `section`. */
  predicate NamesEntryOf(v: Value, section: Value)
  {
    v.Str? && section.Dict? && v.s in section.entries
  }

  /** Every handler a logger lists is declared under `handlers`. */
  predicate HandlersDeclared(logger: Value, handlers: Value)
  {
    match Lookup(logger, ["handlers"])
    case Some(List(names)) => forall k :: 0 <= k < |names| ==> NamesEntryOf(names[k], handlers)
    case _ => false
  }

  /** The formatter a handler names, if any, is declared under `formatters`. */
  predicate FormatterDeclared(handler: Value, formatters: Value)
  {
    match Lookup(handler, ["formatter"])
    case Some(name) => NamesEntryOf(name, formatters)
    case None => true
  }

  /** Every name the configuration refers to is declared in it, as `dictConfig` needs. */
  predicate ReferencesResolve(cfg: Value)
  {
    var loggers := Lookup(cfg, ["loggers"]);
    var handlers := Lookup(cfg, ["handlers"]);
    var formatters := Lookup(cfg, ["formatters"]);
    loggers.Some? && loggers.value.Dict? && handlers.Some? && handlers.value.Dict? && formatters.Some? &&
    (forall name | name in loggers.value.entries :: HandlersDeclared(loggers.value.entries[name], handlers.value)) &&
    (forall name | name in handlers.value.entries :: FormatterDeclared(handlers.value.entries[name], formatters.value))
  }

  /** Every logger lists only handlers declared in the `handlers` section, whatever the arguments. */
  lemma LoggersUseDeclaredHandlers(logLevel: string, logFormatter: string, logHttp: bool)
    ensures var loggers := Loggers(logLevel, logHttp);
            loggers.Dict? &&
            forall name | name in loggers.entries :: HandlersDeclared(loggers.entries[name], Handlers(logFormatter))
  {
    var loggers := Loggers(logLevel, logHttp);
    var handlers := Handlers(logFormatter);
    assert handlers.entries.Keys == {"console", "json", "http"};
    forall name | name in loggers.entries
      ensures HandlersDeclared(loggers.entries[name], handlers)
    {
      assert name in LoggerNames;
    }
  }

  /** The configuration is self-consistent exactly when `log_formatter` names one of the four formatters. */
  lemma ReferencesResolveIff(logLevel: string, logFormatter: string, logHttp: bool)
    ensures ReferencesResolve(GetConfig(logLevel, logFormatter, logHttp)) <==> logFormatter in FormatterNames
  {
    var cfg := GetConfig(logLevel, logFormatter, logHttp);
    var handlers := Handlers(logFormatter);
    assert Lookup(cfg, ["loggers"]) == Some(Loggers(logLevel, logHttp));
    assert Lookup(cfg, ["handlers"]) == Some(handlers);
    assert Lookup(cfg, ["formatters"]) == Some(Formatters);
    assert handlers.entries.Keys == {"console", "json", "http"};
    assert Lookup(handlers.entries["console"], ["formatter"]) == Some(Str(logFormatter));
    if logFormatter in FormatterNames {
      LoggersUseDeclaredHandlers(logLevel, logFormatter, logHttp);
      forall name | name in handlers.entries
        ensures FormatterDeclared(handlers.entries[name], Formatters)
      {
      }
    }
  }
}
