# Configuration fields: tag list and cron editor

This project is a Dafny model of the logic in a Magento 2 admin module that offers extra
configuration field types. It covers four parts.

- **Tag-list backend model** (`Model/Config/Backend/TagList.php`). The browser posts a list of
  tags as one text joined by a separator. Before the configuration value is saved, `beforeSave`
  cuts that text into tags, trims each tag and drops the falsy ones (`''` and `"0"`). It then
  stores the list in the configured format:
  - a JSON array (`json_encode` with `JSON_UNESCAPED_UNICODE`);
  - a PHP serialized array (`serialize`);
  - the tags joined by the separator (the `separator` save type, and also any unknown save type).

  The separator and save type come from a di.xml `tagListConfig` array. In the separator, the
  two-character sequences `\n`, `\t` and `\r` are expanded.
- **Tag-list field block** (`Block/Adminhtml/System/Config/Form/Field/TagList.php`).
  `getTagListConfig` fills the widget options with their defaults and expands the separator
  with the same function the backend uses.
- **Tag-list widget** (`view/adminhtml/web/js/tag-list.js`). An ordered list of tags with a
  text input, and a hidden form field that mirrors the list. Tags are added by Enter or by
  paste; each new tag is upper-cased (by default), trimmed, matched against a pattern and
  checked for duplicates. Tags are removed by their × button or by Backspace. When the
  "use system value" (inherit) checkbox is checked, the input is disabled.
- **Cron editor widget** (`view/adminhtml/web/js/cron-editor.js`). Five inputs (minute, hour,
  day of month, month, day of week) are filled from the stored expression. Each input is
  validated against a fixed pattern. The trimmed inputs, with `*` for a blank one, are joined
  into the hidden value. The widget keeps an error flag and a summary.

Layout:

| file | module | contents |
|---|---|---|
| wrappers.dfy | Wrappers | `Option`, `Result` |
| text.dfy | Text | join, explode/split, `str_replace`, PHP and JavaScript `trim`, ASCII upper-casing, split on runs of delimiters |
| decimal.dfy | Decimal | decimal numerals |
| separator.dfy | Separator | `unescapeSeparator` and a one-pass reference scanner |
| json.dfy | Json | `json_encode` of a list of strings, with a reference decoder |
| php_serialize.dfy | PhpSerialize | `serialize` of a list of strings, with a reference decoder |
| php_config.dfy | PhpConfig | di.xml argument values, `??`, `(string)` and `(bool)` |
| tag_list_codec.dfy | TagListCodec | `parseIncomingValue`, `formatValues` |
| tag_list_backend.dfy | TagListBackend | the backend model class and `beforeSave` |
| tag_list_field.dfy | TagListField | `getTagListConfig` |
| tag_list_wiring.dfy | TagListWiring | how the block's options, the widget's hidden value and the backend's parsing fit together |
| tag_list_editor.dfy | TagListEditor | the tag-list widget as a class |
| cron_editor.dfy | CronEditor | the field patterns, composition, initial split and the cron widget as a class |

Strings are `seq<char>`. Lengths in `serialize` output are UTF-8 byte counts computed from the
characters.

Behaviour of the source worth knowing:
- The initial tags of the widget (view/adminhtml/web/js/tag-list.js:169-177) are inserted
  without the pattern check and without the duplicate check. Only empty values are skipped.
- The × button (view/adminhtml/web/js/tag-list.js:96-103) removes the tag it belongs to, that
  is, a position in the list, whatever value other tags hold.
- The block's docblock (Block/Adminhtml/System/Config/Form/Field/TagList.php:49) gives the
  validation default as `^[A-Za-z0-9]+$`. The code (line 117) uses the wider
  `^[a-zA-Z0-9.!#$%&'*+\/=?^_`"{|}~-]+$`, and the model follows the code.
- A configured separator of `""` is accepted by the block. The widget then joins its tags with a line feed (`config.separator || '\n'`), while the backend explodes on the empty separator (TagListWiring.EmptySeparatorMismatch).
- A cron input holding an inner space is joined as it is. The hidden value then has more than
  five space-separated fields. The input is still flagged invalid, because no pattern admits
  a space.

## Model

| member | source | states |
|---|---|---|
| TagListBackend.TagListValue.BeforeSave | Model/Config/Backend/TagList.php:78-96 | A null or empty value is left as it is. Any other value is replaced by the conversion of that text with the configured save type and separator. |
| TagListBackend.Defaults | Model/Config/Backend/TagList.php:103-118 | With neither option set, the save type is `separator` and the separator is a line feed. |
| Separator.UnescapeIsScan | Model/Config/Backend/TagList.php:126-133 | The three `str_replace` passes equal one left-to-right scan. The scan turns backslash-n, backslash-t and backslash-r into LF, TAB and CR, and copies every other character. |
| Separator.UnescapePlain | Model/Config/Backend/TagList.php:126-133 | A separator without a backslash is unchanged. |
| Separator.UnescapeNewline | Model/Config/Backend/TagList.php:129-130 | The two-character text backslash-n becomes a line feed. |
| TagListCodec.TrimEach | Model/Config/Backend/TagList.php:146 | Each entry is the PHP `trim` of the piece at the same position, and trimming it again changes nothing. |
| TagListCodec.DropFalsy | Model/Config/Backend/TagList.php:146 | Every kept entry is truthy. A string is kept exactly when it was present and is neither `''` nor `"0"`. |
| TagListCodec.DropFalsyAppend | Model/Config/Backend/TagList.php:146 | Filtering keeps the order: filtering a concatenation is the concatenation of the filtered parts. |
| TagListCodec.DropFalsyKeepsTruthy | Model/Config/Backend/TagList.php:146 | A list of truthy entries passes the filter unchanged. |
| TagListCodec.Parse | Model/Config/Backend/TagList.php:142-147 | Every parsed tag is truthy and already trimmed. |
| TagListCodec.ParseKeepsPieces | Model/Config/Backend/TagList.php:142-147 | When every piece is truthy and trimmed, the parse is exactly the list of pieces. |
| TagListCodec.ParseJoin | Model/Config/Backend/TagList.php:144-146 | Parsing tags joined by a one-character separator they do not contain is trimming then filtering them. |
| TagListCodec.ParseAvoidsSeparator | Model/Config/Backend/TagList.php:142-147 | No parsed tag contains the one-character separator. |
| TagListCodec.Format | Model/Config/Backend/TagList.php:157-161 | An empty list is stored as `''` for every save type. |
| TagListCodec.SeparatorRoundTrip | Model/Config/Backend/TagList.php:142-172 | Joining trimmed, truthy tags that avoid a one-character separator, then parsing, gives the tags back. |
| TagListCodec.ConvertIdempotent | Model/Config/Backend/TagList.php:142-172 | For a one-character separator and the separator (or an unknown) save type, converting the stored text again gives the same text. |
| TagListCodec.JsonFormatDecodes | Model/Config/Backend/TagList.php:164-165 | The JSON stored for a non-empty list decodes to that list, in order. |
| TagListCodec.SerializedFormatDecodes | Model/Config/Backend/TagList.php:167-168 | The serialized text stored for a non-empty list unserializes to that list, in order. |
| Json.EscapeChar | Model/Config/Backend/TagList.php:165 | An escape never starts with a quote. Non-ASCII characters other than U+2028 and U+2029 are written as they are. Printable ASCII other than `"`, `\` and `/` is written as it is. |
| Json.RoundTrip | Model/Config/Backend/TagList.php:165 | The reference decoder reads back every encoded array of strings. |
| Json.StringRoundTrip | Model/Config/Backend/TagList.php:165 | One escaped string followed by its closing quote decodes to the string and the text after it. |
| Json.Example | Model/Config/Backend/TagList.php:165 | `["A","B","C"]` is the encoding of the list A, B, C. |
| PhpSerialize.RoundTrip | Model/Config/Backend/TagList.php:168 | The reference decoder reads back every serialized list of strings. |
| PhpSerialize.TakeBytesRoundTrip | Model/Config/Backend/TagList.php:168 | The byte length written before a string selects exactly that string. |
| PhpSerialize.Example | Model/Config/Backend/TagList.php:25 | The list value1, value2 serializes to `a:2:{i:0;s:6:"value1";i:1;s:6:"value2";}`. |
| TagListField.GetTagListConfig | Block/Adminhtml/System/Config/Form/Field/TagList.php:110-123 | The resolution fails (a TypeError under strict types) exactly when the separator option is a boolean. |
| TagListField.Defaults | Block/Adminhtml/System/Config/Form/Field/TagList.php:112-121 | The empty configuration gives the placeholder text, the default pattern, an empty message, upper-casing on, a line feed separator and the `separator` save type. |
| TagListField.UppercaseOff | Block/Adminhtml/System/Config/Form/Field/TagList.php:119 | Upper-casing is off exactly when the option is false, `''` or `"0"`. |
| TagListField.SameSeparatorAsBackend | Block/Adminhtml/System/Config/Form/Field/TagList.php:112-113 | For the same tagListConfig, the widget receives the same expanded separator the backend model uses. |
| TagListField.SameSaveTypeAsBackend | Block/Adminhtml/System/Config/Form/Field/TagList.php:121 | A string save type is passed through unchecked, with the backend's default. |
| TagListWiring.ResolvedMatchesBackend | Block/Adminhtml/System/Config/Form/Field/TagList.php:110-123 | When the block's options reach the widget, the widget upper-cases exactly when the block says so. It uses the backend's separator whenever that is non-empty, and a line feed when it is empty. |
| TagListWiring.EmptySeparatorMismatch | view/adminhtml/web/js/tag-list.js:20 | For a configured separator of "", the block accepts the option, the widget joins with a line feed and the backend's separator is empty. |
| TagListWiring.ZeroLost | Model/Config/Backend/TagList.php:146 | The default widget accepts the tag "0" and posts "0". The as-written parse then returns no tags, while the corrected parse returns ["0"]. |
| TagListWiring.WidgetTagsSurviveSave | Model/Config/Backend/TagList.php:142-147 | With a one-character separator, tags the widget accepted parse back from the hidden value, provided none of them is "0", holds the separator or has a NUL at an end. The separator format then stores that value unchanged. |
| TagListWiring.WidgetTagsSurviveCorrectedSave | Model/Config/Backend/TagList.php:142-147 | With the corrected filter and a one-character separator, accepted tags that do not hold the separator and have no NUL at an end parse back from the hidden value, "0" included. |
| TagListCodec.CorrectedSeparatorRoundTrip | Model/Config/Backend/TagList.php:142-147 | With only empty entries filtered, parsing a one-character separator encoding of trimmed, non-empty, separator-free tags gives the tags back. |
| TagListEditor.Resolve | view/adminhtml/web/js/tag-list.js:17-20 | The separator the widget works with is never empty, and a non-empty configured one is kept as given. Upper-casing is off only for an explicit false. Without a pattern, the default /^[A-Za-z0-9]+$/ applies. |
| TagListEditor.ErrorMessage | view/adminhtml/web/js/tag-list.js:184-195 | Every error has a non-empty message. A pattern failure shows the configured validation message exactly when one is configured. |
| TagListEditor.PasteJoined | view/adminhtml/web/js/tag-list.js:231-241 | Pasting values joined by a comma, CR or LF adds exactly those values, in order, as if each were entered on its own. |
| TagListEditor.AddOutcome | view/adminhtml/web/js/tag-list.js:125-160 | addTag reports empty exactly for a blank normalised value, then invalid exactly for a pattern mismatch, then duplicate exactly for an existing tag. Success appends the normalised value; an error leaves the list unchanged. |
| TagListEditor.AddedKeepsNoDuplicates | view/adminhtml/web/js/tag-list.js:141-159 | Adding keeps a duplicate-free list duplicate-free. The appended tag is non-empty, trimmed and accepted by the pattern. |
| TagListEditor.AddTwice | view/adminhtml/web/js/tag-list.js:141-152 | Adding the same input a second time reports duplicate and changes nothing. |
| TagListEditor.PastedExtends | view/adminhtml/web/js/tag-list.js:231-241 | Pasting only appends, and every appended tag is acceptable. |
| TagListEditor.PastedKeepsNoDuplicates | view/adminhtml/web/js/tag-list.js:236-238 | Pasting keeps the list duplicate-free, because each piece is checked against the tags added before it. |
| TagListEditor.NormalizeExample | view/adminhtml/web/js/tag-list.js:126-129 | With upper-casing on, x is normalised to X. |
| TagListEditor.AddedExample | view/adminhtml/web/js/tag-list.js:125-160 | X goes into an empty list. A second X is reported as a duplicate and is not added. Y goes in after X. |
| TagListEditor.SplitThree | view/adminhtml/web/js/tag-list.js:234 | Three characters separated by single delimiters split into three one-character pieces. |
| TagListEditor.PasteExample | view/adminhtml/web/js/tag-list.js:231-241 | Pasting the text X, LF, X, LF, Y into an empty list gives X, Y. |
| TagListEditor.NonEmptyAppend | view/adminhtml/web/js/tag-list.js:169-177 | Skipping empty initial values works piece by piece, so the kept values stay in their order. |
| TagListEditor.NonEmptyMembers | view/adminhtml/web/js/tag-list.js:169-177 | A value becomes an initial tag exactly when it is one of the initial values and is not empty. |
| TagListEditor.InitialValuesExample | view/adminhtml/web/js/tag-list.js:169-177 | The initial values a, empty, a give the tags a, a: duplicates are kept. |
| TagListEditor.TagList.constructor | view/adminhtml/web/js/tag-list.js:163-177 | The input is disabled exactly when the checkbox exists and is checked. The tags are the initial values without the empty ones. The hidden field is rewritten only when initial values were given. |
| TagListEditor.TagList.Contains | view/adminhtml/web/js/tag-list.js:142-148 | The early-exit scan finds the value exactly when it is one of the tags. |
| TagListEditor.TagList.UpdateHidden | view/adminhtml/web/js/tag-list.js:112-118 | The hidden field becomes the tags joined by the separator, in order. |
| TagListEditor.TagList.SetInherit | view/adminhtml/web/js/tag-list.js:69-73 | The input is disabled exactly when the checkbox is checked. |
| TagListEditor.TagList.UncheckInherit | view/adminhtml/web/js/tag-list.js:78-83 | After a user change, the checkbox is unchecked and the input is enabled. |
| TagListEditor.TagList.ShowError | view/adminhtml/web/js/tag-list.js:34-52 | The message is shown. |
| TagListEditor.TagList.ClearError | view/adminhtml/web/js/tag-list.js:57-64 | No message is shown. |
| TagListEditor.TagList.AddTag | view/adminhtml/web/js/tag-list.js:125-160 | Returns the result of the checks. On an error, the list, hidden field, checkbox and message are unchanged. On success, the value is appended, the hidden field is rewritten, the checkbox is unchecked and the message is cleared. |
| TagListEditor.TagList.RemoveTag | view/adminhtml/web/js/tag-list.js:96-103 | The clicked tag is removed from its position, the hidden field is rewritten and the checkbox is unchecked. |
| TagListEditor.TagList.KeyEnter | view/adminhtml/web/js/tag-list.js:198-211 | On success the input is cleared. An empty value is ignored silently. Any other error shows its message and keeps the input. |
| TagListEditor.TagList.KeyBackspace | view/adminhtml/web/js/tag-list.js:214-222 | With an empty input and at least one tag, the last tag is removed. Otherwise nothing changes. |
| TagListEditor.TagList.InputChanged | view/adminhtml/web/js/tag-list.js:226-228 | Typing clears the message. |
| TagListEditor.TagList.Paste | view/adminhtml/web/js/tag-list.js:231-241 | The tags become the result of adding each piece in order. Errors are dropped and the input is emptied. The hidden field and checkbox change only when a tag was added. |
| Text.SplitRuns | view/adminhtml/web/js/tag-list.js:234 | No piece of a split on /[\r\n,]+/ contains a delimiter. |
| Text.SplitRunsJoin | view/adminhtml/web/js/tag-list.js:234 | Splitting non-empty, delimiter-free pieces joined by one delimiter gives back exactly those pieces. |
| Text.SplitRunsKeeps | view/adminhtml/web/js/tag-list.js:234 | The pieces, concatenated, are the pasted text with its delimiters removed. |
| Text.Upper | view/adminhtml/web/js/tag-list.js:126-128 | Upper-casing keeps the length and maps each ASCII letter to its capital. |
| Text.TrimIdempotent | view/adminhtml/web/js/tag-list.js:129 | Trimming a trimmed text changes nothing. |
| Text.TrimIsCore | Model/Config/Backend/TagList.php:146 | The trimmed text is a piece of the original that neither starts nor ends with a blank, and everything cut off before and after it is blank. |
| Text.JoinSplit | Model/Config/Backend/TagList.php:144 | Exploding and joining again with the same separator gives the original text. |
| Text.SplitJoin | Model/Config/Backend/TagList.php:144-172 | Joining pieces that avoid a one-character separator, then exploding, gives the pieces back. |
| CronEditor.AtomIsRangeValue | view/adminhtml/web/js/cron-editor.js:19-23 | A field value admitted by a pattern is exactly the numeral, without leading zero, of a number in the field's range: 0–59, 0–23, 1–31, 1–12 or 0–6. |
| CronEditor.ValidateField | view/adminhtml/web/js/cron-editor.js:54-57 | An accepted value is never empty and contains no space. |
| CronEditor.MatchesHasNoSpace | view/adminhtml/web/js/cron-editor.js:19-23 | No pattern admits a space. |
| CronEditor.PlainValue | view/adminhtml/web/js/cron-editor.js:19-23 | A value without star, comma or dash is accepted exactly when it is one of the field's values. |
| CronEditor.StepValue | view/adminhtml/web/js/cron-editor.js:19-23 | A step `*/v` is accepted exactly when v is one of the field's values. |
| CronEditor.RangeValue | view/adminhtml/web/js/cron-editor.js:19-23 | A range is accepted exactly when both ends are values of the field, in either order. |
| CronEditor.StarInList | view/adminhtml/web/js/cron-editor.js:19-23 | A comma list of two or more items, any one of which is `*`, is rejected. |
| CronEditor.StarFirst | view/adminhtml/web/js/cron-editor.js:19-23 | A list starting with `*,` is rejected, whatever follows the comma. |
| CronEditor.RangeExamples | view/adminhtml/web/js/cron-editor.js:19-23 | Minute 60 and day of week 7 fail. Minute 59, `*/15` and `0-30` pass. |
| CronEditor.ShapeRejected | view/adminhtml/web/js/cron-editor.js:19 | `05`, `*,5` and `0-30/5` are rejected for minute. |
| CronEditor.ShapeAccepted | view/adminhtml/web/js/cron-editor.js:19 | `*/0` and the descending range `30-0` are accepted for minute. |
| CronEditor.Cell | view/adminhtml/web/js/cron-editor.js:59 | A composed cell is never empty. |
| CronEditor.Cells | view/adminhtml/web/js/cron-editor.js:59 | There is one cell per input, in order, each the trimmed input or `*`. |
| CronEditor.InitialFields | view/adminhtml/web/js/cron-editor.js:29-32 | There are always five inputs, and none is empty. |
| CronEditor.InitialDefault | view/adminhtml/web/js/cron-editor.js:11-32 | A missing or empty stored value fills every input with `*`. |
| CronEditor.ComposeRoundTrip | view/adminhtml/web/js/cron-editor.js:29-61 | When no cell holds a space, the hidden value has exactly five fields, and reading it back gives the cells. |
| CronEditor.ValidRoundTrip | view/adminhtml/web/js/cron-editor.js:29-61 | When all five inputs are valid, reading back the hidden value gives the trimmed inputs. |
| CronEditor.BlankFieldInvalid | view/adminhtml/web/js/cron-editor.js:55-64 | A blank input is composed as `*` but is reported invalid, so the expression is flagged. |
| CronEditor.MarkFields | view/adminhtml/web/js/cron-editor.js:62-68 | Each input is marked invalid exactly when its trimmed value fails validation. The accumulated flag is set exactly when some input fails. |
| CronEditor.Editor.constructor | view/adminhtml/web/js/cron-editor.js:29-52 | The inputs are the initial split of the stored value. The row is greyed out exactly when the checkbox exists and is checked. The widget starts consistent. |
| CronEditor.Editor.UpdateCronExpression | view/adminhtml/web/js/cron-editor.js:58-83 | The hidden value becomes the composition and every input gets its mark. The error flag is set exactly when some input is invalid. The summary is the field error, the description, or the generic error when the description fails. |
| CronEditor.Editor.Input | view/adminhtml/web/js/cron-editor.js:108-109 | Editing an input updates that input and recomposes everything. |
| CronEditor.Editor.InheritChanged | view/adminhtml/web/js/cron-editor.js:38-52 | The row is greyed out exactly when the checkbox is checked. Nothing else changes. |
| CronEditor.Editor.ValidateRule | view/adminhtml/web/js/cron-editor.js:121-129 | The rule holds exactly when all five inputs validate. When the widget is in sync, that is exactly when its error flag is clear. |

## Left out

- The CodeMirror field element and the CodeMirror, CSS and SQL editor blocks: they load assets and configure a third-party editor. Their only logic is a table lookup with a fallback.
- `view/adminhtml/requirejs-config.js`: it only declares module aliases.
- `_getElementHtml` and the templates: HTML assembly through framework calls. The mapping of the block's `validation_message` key to the widget's `validationMessage` option happens there, so the model takes the widget options as given.
- `parent::beforeSave()` and the rest of the framework's configuration value class: not part of this model.
- Timers and animation: the three-second auto-hide of the tag-list error, the reflow that restarts the shake animation, focus handling, the container click, and showing or hiding the cron table sections.
- cronstrue: the description is a parameter of the cron widget (`describe`). It returns None where cronstrue throws.
- The jQuery validator registration: global framework state. Only the rule body is modelled (`CronEditor.Editor.ValidateRule`).
- The user-supplied tag pattern: regular expressions are not modelled, so the compiled pattern is an opaque predicate. A pattern that fails to compile and throws is not modelled. An empty `validation` string counts as no pattern, the same as a missing one.
- Text.Upper: JavaScript `toUpperCase` is modelled on ASCII letters only (for example, ß to SS is not modelled).
- Json.EscapeChar: the `json_encode` failure on invalid UTF-8, which stores `''`, is not modelled. Strings here are sequences of Unicode scalar values, so that failure cannot occur.
- TagListEditor.ErrorMessage: the `'Invalid value.'` default of getErrorMessage is not modelled. The error kinds are exactly the three addTag returns, so no caller reaches it.
- TagListWiring.HandsOver: the template that turns the block's options into the widget's config is not part of this model. The model assumes the upper-casing flag and the separator pass through unchanged.
- TagListBackend.TagListValue.BeforeSave: an empty separator is excluded by a precondition. In PHP 8, `explode` would throw a ValueError for one.
- Values that are not strings: the posted value is a string or null (`(string)` of other types is not modelled). The di.xml options are null, a boolean or a string.
- TagListWiring.WidgetTagsSurviveSave, TagListWiring.WidgetTagsSurviveCorrectedSave: stated only for one-character separators. With a longer separator the tags can form it: with separator `aa` and the tags `a`, `a` the hidden value is `aaaa`, explode gives three empty pieces, and nothing is stored.
- TagListCodec.ConvertIdempotent: stated only for one-character separators. With a longer separator, the text between two tags can combine with a tag into a new occurrence of the separator, and the property is not claimed.
- TagListEditor.TagList: disabled inputs receive no key or paste events in the browser. The model does not add that as a precondition of KeyEnter, KeyBackspace and Paste.
- TagListEditor.TagList.Contains: tags are compared by their stored value. The DOM attribute round trip of `data-value` is taken to keep the value.

## Findings

| source | as written | input that shows it | evidently intended | confidence | as-written member | corrected member |
|---|---|---|---|---|---|---|
| Model/Config/Backend/TagList.php:146 | `array_filter` without a callback drops every falsy string, so `"0"` is dropped as well as `""` | the tag `"0"`, which the default widget pattern /^[A-Za-z0-9]+$/ accepts and posts as the hidden value `"0"`; nothing is stored | only empty pieces are dropped, so every tag the widget accepted is stored | medium, not executed | TagListWiring.ZeroLost | TagListWiring.WidgetTagsSurviveCorrectedSave |

The backend class keeps the filter as written, because it models what the module stores today.
The corrected filter is `TagListCodec.ParseKeepingZero`, and its round trip is
`TagListCodec.CorrectedSeparatorRoundTrip`.
