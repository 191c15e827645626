/**
 * Configuration objects of the scraper and the mode rules that both the
 * command line front end (src/main.js) and the library entry point
 * (src/scraper/youtube_parser.js) apply to a merged configuration.
 *
 * A configuration is a plain object whose key order does not matter, so it
 * is a map; a key that is present may still hold `undefined`.
 */
module ConfigRules {
  import opened Wrappers
  import opened JsValue

  type Config = map<string, Value>

  /** `cfg[key]`: an absent key reads as undefined. */
  function Get(cfg: Config, key: string): (r: Value)
    ensures key !in cfg ==> r == Undefined
  {
    if key in cfg then cfg[key] else Undefined
  }

  /** `{ ...low, ...high }`: every own key of `high` wins, `undefined` values included. */
  function Spread(low: Config, high: Config): (r: Config)
    ensures forall k :: Get(r, k) == (if k in high then high[k] else Get(low, k))
    ensures r.Keys == low.Keys + high.Keys
  {
    low + high
  }

  const Channel: Value := Str("channel")
  const Keyword: Value := Str("keyword")

  /** Why a merged configuration cannot run. */
  datatype ModeProblem = InvalidMode | MissingChannelUrl | MissingKeyword

  /** A configuration that can run: a known mode and the field that mode needs. */
  predicate Runnable(cfg: Config) {
    || (Get(cfg, "mode") == Channel && Truthy(Get(cfg, "channelUrl")))
    || (Get(cfg, "mode") == Keyword && Truthy(Get(cfg, "keyword")))
  }

  /**
   * The three guards, in order: the mode must be "channel" or "keyword",
   * channel mode needs a truthy `channelUrl`, keyword mode a truthy
   * `keyword`.
   */
  function CheckMode(cfg: Config): (r: Option<ModeProblem>)
    ensures r.None? <==> Runnable(cfg)
    ensures r == Some(InvalidMode) <==> Get(cfg, "mode") != Channel && Get(cfg, "mode") != Keyword
    ensures r == Some(MissingChannelUrl) <==> Get(cfg, "mode") == Channel && !Truthy(Get(cfg, "channelUrl"))
    ensures r == Some(MissingKeyword) <==> Get(cfg, "mode") == Keyword && !Truthy(Get(cfg, "keyword"))
  {
    var mode := Get(cfg, "mode");
    if mode != Channel && mode != Keyword then Some(InvalidMode)
    else if mode == Channel && !Truthy(Get(cfg, "channelUrl")) then Some(MissingChannelUrl)
    else if mode == Keyword && !Truthy(Get(cfg, "keyword")) then Some(MissingKeyword)
    else None
  }

  /** The guards read only `mode`, `channelUrl` and `keyword`. */
  lemma CheckModeReadsThreeKeys(a: Config, b: Config)
    requires Get(a, "mode") == Get(b, "mode")
    requires Get(a, "channelUrl") == Get(b, "channelUrl")
    requires Get(a, "keyword") == Get(b, "keyword")
    ensures CheckMode(a) == CheckMode(b)
  {
  }
}
