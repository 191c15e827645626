/**
 * The command line front end's `buildConfig` (src/main.js): the optional
 * JSON input file, the command line options with their undefined entries
 * removed, the merge defaults < input file < command line, and the mode
 * checks. Reading and parsing the file are outside the model: their outcome
 * is a parameter.
 */
module MainConfig {
  import opened Wrappers
  import opened JsValue
  import opened ConfigRules

  /**
   * What looking up, reading and parsing the file named by `--input` gives:
   * no such path, a path `readFileSync` cannot read (a directory, no
   * permission), text that is not JSON, or the parsed object.
   */
  datatype InputFile = NotFound | Unreadable | NotJson | Parsed(config: Config)

  /**
   * Why `buildConfig` throws: its own two messages, the error `readFileSync`
   * throws and `buildConfig` lets through, or a failed mode check.
   */
  datatype ConfigError = InputNotFound | InputUnreadable | InputNotJson | Mode(problem: ModeProblem)

  /** The options copied from the command line, in the order the object literal lists them. */
  const CliKeys: seq<string> :=
    ["mode", "channelUrl", "keyword", "maxVideos", "includeTranscript", "headless", "language"]

  /** The `cliConfig` object: each listed option read from `argv`, undefined when not given. */
  function CliConfig(argv: Config): (r: Config)
    ensures forall k :: k in r <==> k in CliKeys
    ensures forall k :: k in r ==> r[k] == Get(argv, k)
  {
    map k | k in CliKeys :: Get(argv, k)
  }

  /** The entries of `cfg` whose value is not undefined. */
  function Defined(cfg: Config): (r: Config)
    ensures forall k :: k in r <==> k in cfg && cfg[k] != Undefined
    ensures forall k :: k in r ==> r[k] == cfg[k]
  {
    map k | k in cfg && cfg[k] != Undefined :: cfg[k]
  }

  /**
   * Lines 41-45: walk the object's keys and delete each one whose value is
   * undefined.
   */
  method RemoveUndefined(cli: Config, keys: seq<string>) returns (r: Config)
    requires forall k :: k in cli <==> k in keys
    ensures r == Defined(cli)
  {
    r := cli;
    for i := 0 to |keys|
      invariant forall k :: k in r ==> k in cli && r[k] == cli[k]
      invariant forall k :: k in cli ==> (k in r <==> cli[k] != Undefined || k !in keys[..i])
    {
      var key := keys[i];
      if key in r && r[key] == Undefined {
        r := r - {key};
      }
      assert forall k :: k in keys[..i + 1] <==> k in keys[..i] || k == key;
    }
    assert keys[..|keys|] == keys;
    assert forall k :: k in r <==> k in Defined(cli);
  }

  /** The configuration read from the input file: none without `--input`. */
  function FileConfig(argv: Config, file: InputFile): (r: Result<Config, ConfigError>)
    ensures !Truthy(Get(argv, "input")) ==> r == Success(map[])
    ensures Truthy(Get(argv, "input")) && file.Parsed? ==> r == Success(file.config)
    ensures r.Failure? ==> Truthy(Get(argv, "input")) && !file.Parsed?
    ensures r.Failure? ==>
      r.error == (if file.NotFound? then InputNotFound else if file.Unreadable? then InputUnreadable else InputNotJson)
  {
    if !Truthy(Get(argv, "input")) then Success(map[])
    else match file
      case NotFound => Failure(InputNotFound)
      case Unreadable => Failure(InputUnreadable)
      case NotJson => Failure(InputNotJson)
      case Parsed(c) => Success(c)
  }

  /** Lines 47-51: defaults, then the input file, then the defined command line options. */
  function Merged(argv: Config, defaults: Config, fileConfig: Config): Config {
    Spread(Spread(defaults, fileConfig), Defined(CliConfig(argv)))
  }

  /**
   * `buildConfig`: a missing or unparsable input file first, then the
   * merge, then the mode checks; on success the merged configuration is
   * runnable.
   */
  method BuildConfig(argv: Config, defaults: Config, file: InputFile) returns (r: Result<Config, ConfigError>)
    ensures FileConfig(argv, file).Failure? ==> r == Failure(FileConfig(argv, file).error)
    ensures FileConfig(argv, file).Success? ==>
      var merged := Merged(argv, defaults, FileConfig(argv, file).value);
      && (r.Success? <==> Runnable(merged))
      && (r.Success? ==> r.value == merged)
      && (r.Failure? ==> r.error == Mode(CheckMode(merged).value))
  {
    var fileConfig: Config := map[];
    if Truthy(Get(argv, "input")) {
      match file
      case NotFound => return Failure(InputNotFound);
      case Unreadable => return Failure(InputUnreadable);
      case NotJson => return Failure(InputNotJson);
      case Parsed(c) => fileConfig := c;
    }
    var cli := CliConfig(argv);
    cli := RemoveUndefined(cli, CliKeys);
    var merged := Spread(Spread(defaults, fileConfig), cli);
    var problem := CheckMode(merged);
    if problem.Some? {
      return Failure(Mode(problem.value));
    }
    r := Success(merged);
  }

  /**
   * Key by key, a command line option that was given wins, then the input
   * file, then the defaults.
   */
  lemma MergePrecedence(argv: Config, defaults: Config, fileConfig: Config, k: string)
    ensures Get(Merged(argv, defaults, fileConfig), k)
      == if k in CliKeys && Get(argv, k) != Undefined then Get(argv, k)
         else if k in fileConfig then fileConfig[k]
         else Get(defaults, k)
  {
  }

  /** An option left undefined on the command line never hides the file's or the default's value. */
  lemma UndefinedNeverOverrides(argv: Config, defaults: Config, fileConfig: Config, k: string)
    requires Get(argv, k) == Undefined
    ensures Get(Merged(argv, defaults, fileConfig), k) == Get(Spread(defaults, fileConfig), k)
  {
    MergePrecedence(argv, defaults, fileConfig, k);
  }

  /** Arguments other than the seven options (`--input`, `--output`) never reach the configuration. */
  lemma OnlyListedOptionsMerge(argv: Config, defaults: Config, fileConfig: Config, k: string)
    requires k !in CliKeys
    ensures Get(Merged(argv, defaults, fileConfig), k) == Get(Spread(defaults, fileConfig), k)
  {
    MergePrecedence(argv, defaults, fileConfig, k);
  }

  /** Without `--input`, the file is never consulted. */
  lemma InputIgnoredWithoutFlag(argv: Config, defaults: Config, a: InputFile, b: InputFile)
    requires !Truthy(Get(argv, "input"))
    ensures FileConfig(argv, a) == FileConfig(argv, b) == Success(map[])
  {
  }
}
