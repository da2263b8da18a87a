/** How the two halves of the tag-list field fit together: the options the block resolves are
    handed to the browser widget, the widget posts its hidden value, and the backend model parses
    that value with its own reading of the same options. */
module TagListWiring {
  import opened Wrappers
  import opened PhpConfig
  import opened Text
  import opened TagListCodec
  import opened TagListEditor
  import Separator
  import TagListBackend
  import TagListField

  /** The template that renders the widget passes the block's upper-casing flag and expanded
      separator through to the widget's config unchanged. */
  predicate HandsOver(c: TagListField.FieldConfig, w: WidgetConfig)
  {
    w.uppercase == Some(c.uppercase) && w.separator == c.separator
  }

  /** The widget works with the block's upper-casing flag, and with the backend's separator
      whenever that separator is non-empty. An empty one is where the two sides part: the
      widget joins its tags with a line feed, while the backend is left with the empty
      separator that explode refuses. */
  lemma ResolvedMatchesBackend(config: map<string, Mixed>, w: WidgetConfig)
    requires TagListField.GetTagListConfig(config).Ok?
    requires HandsOver(TagListField.GetTagListConfig(config).value, w)
    ensures Resolve(w).uppercase == TagListField.GetTagListConfig(config).value.uppercase
    ensures TagListBackend.SeparatorOf(config) != "" ==>
      Resolve(w).separator == TagListBackend.SeparatorOf(config)
    ensures TagListBackend.SeparatorOf(config) == "" ==> Resolve(w).separator == "\n"
  {
    TagListField.SameSeparatorAsBackend(config);
  }

  /** A configured separator of "" is accepted by the block; the widget then joins with a line
      feed, and the backend's separator is empty. */
  lemma EmptySeparatorMismatch(w: WidgetConfig)
    requires HandsOver(TagListField.GetTagListConfig(map["separator" := Str("")]).value, w)
    ensures TagListField.GetTagListConfig(map["separator" := Str("")]).Ok?
    ensures Resolve(w).separator == "\n"
    ensures TagListBackend.SeparatorOf(map["separator" := Str("")]) == ""
  {
    Separator.UnescapePlain("");
  }

  /** The settings of a widget configured with nothing: upper-casing on, a line feed as the
      separator and the default pattern. */
  function DefaultSettings(): Settings
  {
    Resolve(WidgetConfig(None, "", None, ""))
  }

  /** As written, "0" is lost on save: the default widget accepts it (upper-casing and trimming
      leave it alone and /^[A-Za-z0-9]+$/ matches it), so its hidden value is "0"; the backend's
      array_filter then drops it as falsy and nothing is stored. The corrected filter keeps it. */
  lemma ZeroLost()
    ensures Check(DefaultSettings(), [], "0") == None
    ensures Added(DefaultSettings(), [], "0") == ["0"]
    ensures Join(["0"], DefaultSettings().separator) == "0"
    ensures Parse("0", DefaultSettings().separator) == []
    ensures ParseKeepingZero("0", DefaultSettings().separator) == ["0"]
  {
    var s := DefaultSettings();
    assert Upper("0") == [UpperChar('0')] + Upper("");
    TrimSingle('0', IsJsSpace);
    assert Normalize(s, "0") == "0";
    assert DefaultPattern("0");
    TrimSingle('0', IsPhpSpace);
    ParseJoin(["0"], '\n');
    assert TrimEach(["0"]) == ["0"];
    assert DropFalsy(["0"]) == DropFalsy([]);
    CorrectedSeparatorRoundTrip(["0"], '\n');
  }

  /** As written, a list of tags the widget accepted survives the save whenever no tag is "0",
      contains the separator or has PHP-only blanks (a NUL) at its ends: parsing the hidden
      value gives the tags back, and the separator format stores the hidden value unchanged. */
  lemma WidgetTagsSurviveSave(s: Settings, tags: seq<string>, c: char)
    requires s.separator == [c]
    requires forall i :: 0 <= i < |tags| ==>
      Acceptable(s, tags[i]) && tags[i] != "0" && c !in tags[i] && PhpTrim(tags[i]) == tags[i]
    ensures Parse(Join(tags, s.separator), s.separator) == tags
    ensures Convert(Join(tags, s.separator), SaveTypeSeparator, s.separator) == Join(tags, s.separator)
  {
    SeparatorRoundTrip(tags, c);
  }

  /** With the corrected filter the same holds for every list of tags the widget accepted,
      "0" included. */
  lemma WidgetTagsSurviveCorrectedSave(s: Settings, tags: seq<string>, c: char)
    requires s.separator == [c]
    requires forall i :: 0 <= i < |tags| ==>
      Acceptable(s, tags[i]) && c !in tags[i] && PhpTrim(tags[i]) == tags[i]
    ensures ParseKeepingZero(Join(tags, s.separator), s.separator) == tags
  {
    CorrectedSeparatorRoundTrip(tags, c);
  }
}
