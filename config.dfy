/** Configuration rules (internal/config/config.go over the records of
    internal/models/config.go): validation, defaults, and their order in `Load`.
    Reading the file and parsing YAML are outside the model: `Load` receives
    their outcome. */
module Config {
  import opened Wrappers
  import Fetcher

  datatype StockConfig = StockConfig(code: string, name: string, threshold: real)
  datatype WeChatConfig = WeChatConfig(webhookURL: string)
  /** `interval` is a `time.Duration`: a count of nanoseconds. */
  datatype MonitorConfig = MonitorConfig(interval: int)
  datatype Config = Config(stock: StockConfig, wechat: WeChatConfig, monitor: MonitorConfig)

  /** The first rule a configuration breaks. */
  datatype ConfigError = EmptyCode | EmptyWebhookURL | NonPositiveInterval

  /** Why `Load` returned no configuration. */
  datatype LoadError =
    | TemplateCreated       // no file: a template was written for the operator to fill in
    | TemplateWriteFailed   // no file, and the template could not be written
    | ReadFailed
    | YamlFailed
    | Invalid(reason: ConfigError)

  const Second: int := 1_000_000_000
  const DefaultThreshold: real := 0.8
  const DefaultInterval: int := 30 * Second

  /** The name table `setDefaults` consults for a configuration without a name. */
  const DefaultNames: map<string, string> :=
    map["sh000001" := "上证指数", "sz399001" := "深证成指", "sz399006" := "创业板指"]

  /** The configuration's table and the fetcher's table are the same three entries,
      so a defaulted name is the name `getStockName` would show. */
  lemma DefaultNamesMatchFetcher()
    ensures DefaultNames == Fetcher.KnownNames
    ensures forall code :: code in DefaultNames ==> DefaultNames[code] == Fetcher.GetStockName(code)
  {
  }

  /** `validateConfig`: the code, then the webhook URL, then the interval;
      the first rule that fails is reported. */
  function ValidateConfig(c: Config): (err: Option<ConfigError>)
    ensures err.None? <==> c.stock.code != "" && c.wechat.webhookURL != "" && c.monitor.interval > 0
    ensures err == Some(EmptyCode) <==> c.stock.code == ""
    ensures err == Some(EmptyWebhookURL) <==> c.stock.code != "" && c.wechat.webhookURL == ""
    ensures err == Some(NonPositiveInterval) <==>
      c.stock.code != "" && c.wechat.webhookURL != "" && c.monitor.interval <= 0
  {
    if c.stock.code == "" then Some(EmptyCode)
    else if c.wechat.webhookURL == "" then Some(EmptyWebhookURL)
    else if c.monitor.interval <= 0 then Some(NonPositiveInterval)
    else None
  }

  /** The configuration `setDefaults` leaves behind. Only the name, the
      threshold and the interval can change. An empty name becomes the table
      name of a known code and stays empty otherwise (where `getStockName`
      would fall back to the code); a zero threshold becomes 0.8 and any other,
      negative ones included, is kept; a zero interval becomes 30 s. */
  function Defaulted(c: Config): (d: Config)
    ensures d.stock.code == c.stock.code && d.wechat == c.wechat
    ensures c.stock.name != "" ==> d.stock.name == c.stock.name
    ensures c.stock.name == "" && c.stock.code in DefaultNames ==>
      d.stock.name == DefaultNames[c.stock.code] == Fetcher.GetStockName(c.stock.code)
    ensures c.stock.name == "" && c.stock.code !in DefaultNames ==>
      d.stock.name == "" && (c.stock.code != "" ==> d.stock.name != Fetcher.GetStockName(c.stock.code))
    ensures d.stock.threshold == if c.stock.threshold == 0.0 then DefaultThreshold else c.stock.threshold
    ensures d.monitor.interval == if c.monitor.interval == 0 then DefaultInterval else c.monitor.interval
    ensures d.stock.threshold != 0.0 && d.monitor.interval != 0
  {
    var name := if c.stock.name == "" && c.stock.code in DefaultNames then DefaultNames[c.stock.code] else c.stock.name;
    var threshold := if c.stock.threshold == 0.0 then DefaultThreshold else c.stock.threshold;
    var interval := if c.monitor.interval == 0 then DefaultInterval else c.monitor.interval;
    Config(StockConfig(c.stock.code, name, threshold), c.wechat, MonitorConfig(interval))
  }

  /** Applying the defaults twice is applying them once. */
  lemma DefaultedIdempotent(c: Config)
    ensures Defaulted(Defaulted(c)) == Defaulted(c)
  {
  }

  /** `setDefaults`: fills the three defaulted fields in place. */
  method SetDefaults(c: Config) returns (d: Config)
    ensures d == Defaulted(c)
  {
    d := c;
    if d.stock.name == "" {
      if d.stock.code in DefaultNames {
        d := d.(stock := d.stock.(name := DefaultNames[d.stock.code]));
      }
    }
    if d.stock.threshold == 0.0 {
      d := d.(stock := d.stock.(threshold := DefaultThreshold));
    }
    if d.monitor.interval == 0 {
      d := d.(monitor := d.monitor.(interval := DefaultInterval));
    }
  }

  /** `Load`, given the outcome of reading and parsing the file: validation
      runs before the defaults, so a loaded configuration always has a positive
      interval of its own and the 30 s default is never used. */
  method Load(document: Result<Config, LoadError>) returns (r: Result<Config, LoadError>)
    ensures document.Err? ==> r == document
    ensures document.Ok? && ValidateConfig(document.value).Some? ==>
      r == Err(Invalid(ValidateConfig(document.value).value))
    ensures r.Ok? <==> document.Ok? && ValidateConfig(document.value).None?
    ensures r.Ok? ==> r.value == Defaulted(document.value)
    ensures r.Ok? ==> r.value.monitor.interval == document.value.monitor.interval > 0
    ensures r.Ok? ==> r.value.stock.code != "" && r.value.wechat.webhookURL != "" && r.value.stock.threshold != 0.0
  {
    if document.Err? {
      return document;
    }
    var config := document.value;
    var err := ValidateConfig(config);
    if err.Some? {
      return Err(Invalid(err.value));
    }
    var defaulted := SetDefaults(config);
    return Ok(defaulted);
  }
}
