/**
 * The plugin configuration: a YAML file read once per request. Nested keys are
 * flattened to dotted strings (`galette_app.options`), and every value is a string.
 */
module Config {
  import opened Strings

  type Yaml = map<string, string>

  /**
   * `Config::get($name, $default)`: the configured value when the key is set,
   * otherwise the default, trimmed in both cases. A call without a default
   * passes `""` here (PHP's `null ?? ''`).
   */
  function Get(cfg: Yaml, key: string, default: string): (r: string)
    ensures key in cfg ==> r == Trim(cfg[key])
    ensures key !in cfg ==> r == Trim(default)
    ensures r == [] || (!IsTrimChar(r[0]) && !IsTrimChar(r[|r| - 1]))
  {
    Trim(if key in cfg then cfg[key] else default)
  }
}
