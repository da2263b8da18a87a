/** The configuration the tag-list field block hands to its template and to the browser
    widget: every option with its default filled in and the separator's escapes expanded. */
module TagListField {
  import opened Wrappers
  import opened PhpConfig
  import Separator
  import TagListBackend

  const DefaultPlaceholder := "Type value and press Enter..."

  /** The default validation pattern (the PHP single-quoted literal, unescaped). */
  const DefaultValidation := "^[a-zA-Z0-9.!#$%&'*+\\/=?^_`\"{|}~-]+$"

  /** The resolved options. The options the block only passes through are kept as given. */
  datatype FieldConfig = FieldConfig(
    placeholder: Mixed,
    validation: Mixed,
    validationMessage: Mixed,
    uppercase: bool,
    separator: string,
    saveType: Mixed)

  /** The file declares strict_types, so handing a boolean separator to unescapeSeparator's
      string parameter throws a TypeError. */
  datatype ConfigError = SeparatorNotString

  /** getTagListConfig. */
  function GetTagListConfig(config: map<string, Mixed>): (r: Result<FieldConfig, ConfigError>)
    ensures r.Err? <==> Coalesce(config, "separator", Str("\n")).Bool?
  {
    var separator := Coalesce(config, "separator", Str("\n"));
    if separator.Bool? then Err(SeparatorNotString)
    else
      Ok(FieldConfig(
        placeholder := Coalesce(config, "placeholder", Str(DefaultPlaceholder)),
        validation := Coalesce(config, "validation", Str(DefaultValidation)),
        validationMessage := Coalesce(config, "validation_message", Str("")),
        uppercase := ToBool(Coalesce(config, "uppercase", Bool(true))),
        separator := Separator.Unescape(separator.s),
        saveType := Coalesce(config, "save_type", Str("separator"))))
  }

  /** The empty configuration resolves to the defaults the code applies. */
  lemma Defaults()
    ensures GetTagListConfig(map[]) ==
      Ok(FieldConfig(Str(DefaultPlaceholder), Str(DefaultValidation), Str(""), true, "\n", Str("separator")))
  {
    Separator.UnescapePlain("\n");
  }

  /** Upper-casing is switched off only by a false-like "uppercase" option: false, "" or "0". */
  lemma UppercaseOff(config: map<string, Mixed>)
    requires GetTagListConfig(config).Ok?
    ensures !GetTagListConfig(config).value.uppercase <==>
      "uppercase" in config && config["uppercase"] in {Bool(false), Str(""), Str("0")}
  {
  }

  /** The widget and the backend model see the same separator for every configuration the
      block accepts: both expand it with the one Separator.Unescape. */
  lemma SameSeparatorAsBackend(config: map<string, Mixed>)
    requires GetTagListConfig(config).Ok?
    ensures GetTagListConfig(config).value.separator == TagListBackend.SeparatorOf(config)
  {
  }

  /** The save type is passed through unchecked, with the same default as the backend. */
  lemma SameSaveTypeAsBackend(config: map<string, Mixed>)
    requires GetTagListConfig(config).Ok?
    requires GetTagListConfig(config).value.saveType.Str?
    ensures GetTagListConfig(config).value.saveType.s == TagListBackend.SaveTypeOf(config)
  {
  }
}
