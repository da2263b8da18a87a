/** The values of a tagListConfig array injected through di.xml, and the two PHP operations the
    code applies to them: the null-coalescing lookup `$config[$key] ?? $default` and the
    (string) and (bool) casts. */
module PhpConfig {

  /** The kinds of argument di.xml can give an item here: a string, a boolean, or null. */
  datatype Mixed = Null | Bool(b: bool) | Str(s: string)

  /** `$config[$key] ?? $default`: the default when the key is missing or holds null. */
  function Coalesce(config: map<string, Mixed>, key: string, default: Mixed): Mixed
  {
    if key in config && config[key] != Null then config[key] else default
  }

  /** PHP's (string) cast. */
  function ToStr(m: Mixed): string
  {
    match m
    case Null => ""
    case Bool(b) => if b then "1" else ""
    case Str(s) => s
  }

  /** PHP's (bool) cast: the empty string and "0" are false. */
  function ToBool(m: Mixed): bool
  {
    match m
    case Null => false
    case Bool(b) => b
    case Str(s) => s != "" && s != "0"
  }
}
