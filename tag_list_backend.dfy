/** The backend model of a tag-list configuration field: before the configuration value is
    saved it is parsed from the separator-joined text the form sends and rewritten in the
    configured storage format. */
module TagListBackend {
  import opened Wrappers
  import opened PhpConfig
  import Separator
  import opened TagListCodec

  /** getSaveType: the "save_type" option cast to a string, "separator" by default. It is not
      checked; unknown values end up in the separator format. */
  function SaveTypeOf(config: map<string, Mixed>): string
  {
    ToStr(Coalesce(config, "save_type", Str(SaveTypeSeparator)))
  }

  /** getSeparator: the "separator" option cast to a string, a line feed by default, with its
      escape sequences expanded. */
  function SeparatorOf(config: map<string, Mixed>): string
  {
    Separator.Unescape(ToStr(Coalesce(config, "separator", Str("\n"))))
  }

  /** Without options the tags are stored one per line. */
  lemma Defaults(config: map<string, Mixed>)
    requires "save_type" !in config || config["save_type"] == Null
    requires "separator" !in config || config["separator"] == Null
    ensures SaveTypeOf(config) == SaveTypeSeparator
    ensures SeparatorOf(config) == "\n"
  {
    Separator.UnescapePlain("\n");
  }

  /** A configuration value handled by the tag-list backend model. `value` is null (None) or
      the text the form posted. */
  class TagListValue {
    const tagListConfig: map<string, Mixed>
    var value: Option<string>

    constructor(tagListConfig: map<string, Mixed>, value: Option<string>)
      ensures this.tagListConfig == tagListConfig && this.value == value
    {
      this.tagListConfig := tagListConfig;
      this.value := value;
    }

    /** beforeSave: null and the empty string are saved as they are; anything else is parsed
        and stored in the configured format. A separator that expands to the empty string would
        make explode throw, so callers must not configure one. */
    method BeforeSave()
      requires value.Some? && value.value != "" ==> |SeparatorOf(tagListConfig)| > 0
      modifies this
      ensures old(value) == None || old(value) == Some("") ==> value == old(value)
      ensures old(value).Some? && old(value).value != "" ==>
        value == Some(Convert(old(value).value, SaveTypeOf(tagListConfig), SeparatorOf(tagListConfig)))
    {
      if value == None || value == Some("") {
        return;
      }
      var saveType := SaveTypeOf(tagListConfig);
      var separator := SeparatorOf(tagListConfig);
      var values := Parse(value.value, separator);
      value := Some(Format(values, saveType, separator));
    }
  }
}
