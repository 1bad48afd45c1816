/**
 * Start-up configuration (config.py): six required settings and the number
 * of feed entries to take, read from the environment.
 */
module Config {
  import opened Wrappers
  import opened Text

  /** The `ValueError`s raised while the configuration is loaded. */
  datatype ConfigError =
    | CountNotInteger   // `int()` of the count fails
    | MissingRequired   // some required value is unset or empty
    | CountOutOfRange   // the count is outside 1..10

  datatype Settings = Settings(
    botToken: string, apiKey: string, rssFeeds: string,
    previewChannel: string, publishChannel: string, telegraphToken: string,
    articlesCount: int)

  const CountName: string := "RSS_ARTICLES_COUNT"

  /** The required variables, in the order config.py lists them. */
  const RequiredNames: seq<string> := [
    "TELEGRAM_BOT_TOKEN", "OPENAI_API_KEY", "RSS_FEEDS",
    "PREVIEW_NEWS_CHANNEL_ID", "PUBLISH_NEWS_CHANNEL_ID", "TELEGRAPH_ACCESS_TOKEN"]

  /** `os.getenv(name)` is truthy: set and non-empty. */
  predicate IsSet(env: map<string, string>, name: string) {
    name in env && env[name] != ""
  }

  /** `os.getenv(name, default)` */
  function GetEnv(env: map<string, string>, name: string, default: string): string {
    if name in env then env[name] else default
  }

  /** `int(os.getenv("RSS_ARTICLES_COUNT", "5"))` */
  function ArticlesCount(env: map<string, string>): Option<int> {
    ParseInt(GetEnv(env, CountName, "5"))
  }

  /** Loading config.py: the count is parsed first, then the required values and the range are checked. */
  function LoadConfig(env: map<string, string>): Result<Settings, ConfigError> {
    match ArticlesCount(env)
    case None => Err(CountNotInteger)
    case Some(n) =>
      if !(forall k :: 0 <= k < |RequiredNames| ==> IsSet(env, RequiredNames[k])) then Err(MissingRequired)
      else if n < 1 || n > 10 then Err(CountOutOfRange)
      else Ok(Settings(
        env[RequiredNames[0]], env[RequiredNames[1]], env[RequiredNames[2]],
        env[RequiredNames[3]], env[RequiredNames[4]], env[RequiredNames[5]], n))
  }

  /**
   * The configuration loads exactly when the count is an integer in 1..10 and
   * every required value is set; the settings are then the environment's values.
   */
  lemma LoadConfigOkIff(env: map<string, string>)
    ensures LoadConfig(env).Ok? <==>
      (ArticlesCount(env).Some? && 1 <= ArticlesCount(env).value <= 10 &&
       forall k :: 0 <= k < |RequiredNames| ==> IsSet(env, RequiredNames[k]))
    ensures LoadConfig(env).Ok? ==>
      LoadConfig(env).value.articlesCount == ArticlesCount(env).value &&
      LoadConfig(env).value.rssFeeds == env["RSS_FEEDS"] &&
      LoadConfig(env).value.botToken == env["TELEGRAM_BOT_TOKEN"] &&
      LoadConfig(env).value.telegraphToken == env["TELEGRAPH_ACCESS_TOKEN"]
  {
  }

  /** A malformed count is reported first, whatever else is missing. */
  lemma CountParsedFirst(env: map<string, string>)
    requires ArticlesCount(env).None?
    ensures LoadConfig(env) == Err(CountNotInteger)
  {
  }

  /** A missing or empty required value is reported before the range of the count. */
  lemma MissingBeforeRange(env: map<string, string>, k: nat)
    requires k < |RequiredNames| && !IsSet(env, RequiredNames[k])
    requires ArticlesCount(env).Some?
    ensures LoadConfig(env) == Err(MissingRequired)
  {
  }

  /** Without `RSS_ARTICLES_COUNT` the count is 5. */
  lemma DefaultCount(env: map<string, string>)
    requires CountName !in env
    ensures ArticlesCount(env) == Some(5)
  {
    ParseIntOfIntToString(5);
    assert IntToString(5) == "5";
  }

  /** Any integer written out by `str` is accepted as the count; outside 1..10 it is rejected. */
  lemma CountRange(env: map<string, string>, n: int)
    requires GetEnv(env, CountName, "5") == IntToString(n)
    requires forall k :: 0 <= k < |RequiredNames| ==> IsSet(env, RequiredNames[k])
    ensures LoadConfig(env).Ok? <==> 1 <= n <= 10
    ensures !(1 <= n <= 10) ==> LoadConfig(env) == Err(CountOutOfRange)
  {
    ParseIntOfIntToString(n);
  }
}
