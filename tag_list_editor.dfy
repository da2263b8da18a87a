/** The browser side of the tag-list field: an ordered list of tags (shown as elements before
    the text input), a hidden form field that mirrors the list joined by the separator, the
    text input, a transient error message and the "use system value" (inherit) checkbox that
    disables the input while it is checked. */
module TagListEditor {
  import opened Wrappers
  import opened Text

  /** The error kinds addTag returns instead of null. */
  datatype TagError = Empty | Invalid | Duplicate

  /** The options the widget reads from its config object. `validation` is the compiled
      user pattern when config.validation is set and non-empty; regular expressions are not
      modelled, so it is an opaque predicate. */
  datatype WidgetConfig = WidgetConfig(
    uppercase: Option<bool>,
    separator: string,
    validation: Option<string -> bool>,
    validationMessage: string)

  /** The settings the widget works with once its config is read. */
  datatype Settings = Settings(
    uppercase: bool,
    separator: string,
    accepts: string -> bool,
    validationMessage: string)

  /** The default pattern /^[A-Za-z0-9]+$/. */
  predicate DefaultPattern(v: string)
  {
    |v| > 0 && forall i :: 0 <= i < |v| ==> ('A' <= v[i] <= 'Z' || 'a' <= v[i] <= 'z' || '0' <= v[i] <= '9')
  }

  /** Reading the config. The separator the widget joins and splits with is never empty: a
      given one is used as it is, and an empty one falls back to a line feed. Upper-casing is
      switched off only by an explicit false, and without a pattern the default one applies. */
  function Resolve(config: WidgetConfig): (s: Settings)
    ensures |s.separator| > 0
    ensures config.separator != "" ==> s.separator == config.separator
    ensures !s.uppercase <==> config.uppercase == Some(false)
    ensures config.validation.None? ==> s.accepts == DefaultPattern
  {
    Settings(
      uppercase := config.uppercase != Some(false),
      separator := if config.separator == "" then "\n" else config.separator,
      accepts := if config.validation.Some? then config.validation.value else DefaultPattern,
      validationMessage := config.validationMessage)
  }

  /** addTag's normalisation: upper-case when configured, then trim. */
  function Normalize(s: Settings, raw: string): string
  {
    JsTrim(if s.uppercase then Upper(raw) else raw)
  }

  /** addTag's checks, in the order it makes them: empty, then the pattern, then an existing
      tag with exactly that value. None means the tag is added. */
  function Check(s: Settings, tags: seq<string>, raw: string): Option<TagError>
  {
    var v := Normalize(s, raw);
    if v == "" then Some(Empty)
    else if !s.accepts(v) then Some(Invalid)
    else if v in tags then Some(Duplicate)
    else None
  }

  /** The tag list after addTag(raw). */
  function Added(s: Settings, tags: seq<string>, raw: string): seq<string>
  {
    if Check(s, tags, raw) == None then tags + [Normalize(s, raw)] else tags
  }

  /** The tag list after addTag has been called on each piece in turn. */
  function Pasted(s: Settings, tags: seq<string>, pieces: seq<string>): seq<string>
  {
    if |pieces| == 0 then tags
    else Added(s, Pasted(s, tags, pieces[..|pieces| - 1]), pieces[|pieces| - 1])
  }

  /** The characters the paste handler splits on: /[\r\n,]+/. */
  predicate IsPasteDelimiter(c: char)
  {
    c == '\r' || c == '\n' || c == ','
  }

  /** The initial values, each inserted as given, skipping only the empty ones. */
  function NonEmpty(values: seq<string>): seq<string>
  {
    if |values| == 0 then []
    else NonEmpty(values[..|values| - 1]) + (if values[|values| - 1] == "" then [] else [values[|values| - 1]])
  }

  /** getErrorMessage. Every message is non-empty, and the configured validation message is
      shown for a pattern failure exactly when one is configured. */
  function ErrorMessage(s: Settings, e: TagError): (r: string)
    ensures |r| > 0
    ensures e == Invalid ==> (r == s.validationMessage <==> s.validationMessage != "")
  {
    match e
    case Empty => "Please enter a value."
    case Invalid =>
      if s.validationMessage != "" then s.validationMessage
      else "Invalid format. Please use only letters and numbers."
    case Duplicate => "This value already exists."
  }

  predicate NoDuplicates(tags: seq<string>)
  {
    forall i, j :: 0 <= i < j < |tags| ==> tags[i] != tags[j]
  }

  /** A tag that addTag accepted: normalised, non-empty and matching the pattern. */
  predicate Acceptable(s: Settings, v: string)
  {
    v != "" && s.accepts(v) && JsTrim(v) == v
  }

  /** The checks report Empty exactly for blank input, Invalid exactly for a non-blank value
      the pattern rejects, Duplicate exactly for an accepted value already present, and
      success otherwise; a success appends the normalised value and nothing else. */
  lemma AddOutcome(s: Settings, tags: seq<string>, raw: string)
    ensures var v := Normalize(s, raw);
      (Check(s, tags, raw) == Some(Empty) <==> v == "") &&
      (Check(s, tags, raw) == Some(Invalid) <==> v != "" && !s.accepts(v)) &&
      (Check(s, tags, raw) == Some(Duplicate) <==> v != "" && s.accepts(v) && v in tags) &&
      (Check(s, tags, raw) == None <==> Added(s, tags, raw) == tags + [v]) &&
      (Check(s, tags, raw) != None <==> Added(s, tags, raw) == tags)
  {
  }

  /** A successful add never introduces a duplicate, and what it appends is acceptable. */
  lemma AddedKeepsNoDuplicates(s: Settings, tags: seq<string>, raw: string)
    requires NoDuplicates(tags)
    ensures NoDuplicates(Added(s, tags, raw))
    ensures Check(s, tags, raw) == None ==> Acceptable(s, Added(s, tags, raw)[|tags|])
  {
    if Check(s, tags, raw) == None {
      TrimIdempotent(if s.uppercase then Upper(raw) else raw, IsJsSpace);
    }
  }

  /** Adding the same input twice: the second attempt reports Duplicate and changes nothing. */
  lemma AddTwice(s: Settings, tags: seq<string>, raw: string)
    requires Check(s, tags, raw) == None
    ensures Check(s, Added(s, tags, raw), raw) == Some(Duplicate)
    ensures Added(s, Added(s, tags, raw), raw) == Added(s, tags, raw)
  {
    assert Normalize(s, raw) in Added(s, tags, raw);
  }

  /** addTag either leaves the list alone or appends one acceptable tag. */
  lemma AddedShape(s: Settings, tags: seq<string>, raw: string)
    ensures Added(s, tags, raw) == tags ||
      (Added(s, tags, raw) == tags + [Normalize(s, raw)] && Acceptable(s, Normalize(s, raw)))
  {
    if Check(s, tags, raw) == None {
      TrimIdempotent(if s.uppercase then Upper(raw) else raw, IsJsSpace);
    }
  }

  /** `r` is `tags` followed by acceptable tags only. */
  predicate ExtendsWithAcceptable(s: Settings, tags: seq<string>, r: seq<string>)
  {
    |r| >= |tags| && r[..|tags|] == tags && forall k :: |tags| <= k < |r| ==> Acceptable(s, r[k])
  }

  /** One more addTag keeps the list an extension by acceptable tags. */
  lemma AddedExtends(s: Settings, tags: seq<string>, before: seq<string>, raw: string)
    requires ExtendsWithAcceptable(s, tags, before)
    ensures ExtendsWithAcceptable(s, tags, Added(s, before, raw))
  {
    var after := Added(s, before, raw);
    AddedShape(s, before, raw);
    if after != before {
      assert after[..|before|] == before;
      assert after[..|tags|] == before[..|tags|];
      forall k | |tags| <= k < |after| ensures Acceptable(s, after[k]) {
        if k < |before| {
          assert after[k] == before[k];
        }
      }
    }
  }

  /** Pasting only appends, and everything it appends is acceptable. */
  lemma {:induction false} PastedExtends(s: Settings, tags: seq<string>, pieces: seq<string>)
    ensures |Pasted(s, tags, pieces)| >= |tags|
    ensures Pasted(s, tags, pieces)[..|tags|] == tags
    ensures forall k :: |tags| <= k < |Pasted(s, tags, pieces)| ==> Acceptable(s, Pasted(s, tags, pieces)[k])
    decreases |pieces|
  {
    var r := Pasted(s, tags, pieces);
    if |pieces| == 0 {
      assert r[..|tags|] == tags;
    } else {
      var init, raw := pieces[..|pieces| - 1], pieces[|pieces| - 1];
      PastedExtends(s, tags, init);
      assert ExtendsWithAcceptable(s, tags, Pasted(s, tags, init));
      AddedExtends(s, tags, Pasted(s, tags, init), raw);
      assert r == Added(s, Pasted(s, tags, init), raw);
    }
    assert ExtendsWithAcceptable(s, tags, r);
  }

  /** Pasting never introduces a duplicate: each piece is checked against the tags added by the
      pieces before it. */
  lemma {:induction false} PastedKeepsNoDuplicates(s: Settings, tags: seq<string>, pieces: seq<string>)
    requires NoDuplicates(tags)
    ensures NoDuplicates(Pasted(s, tags, pieces))
    decreases |pieces|
  {
    if |pieces| > 0 {
      PastedKeepsNoDuplicates(s, tags, pieces[..|pieces| - 1]);
      AddedKeepsNoDuplicates(s, Pasted(s, tags, pieces[..|pieces| - 1]), pieces[|pieces| - 1]);
    }
  }

  /** Pasting values joined by one of the paste delimiters adds them as separate pieces, in
      order, exactly as if each had been entered on its own. */
  lemma PasteJoined(s: Settings, tags: seq<string>, xs: seq<string>, d: char)
    requires IsPasteDelimiter(d) && |xs| >= 1
    requires forall i :: 0 <= i < |xs| ==> |xs[i]| > 0
    requires forall i, k :: 0 <= i < |xs| && 0 <= k < |xs[i]| ==> !IsPasteDelimiter(xs[i][k])
    ensures Pasted(s, tags, SplitRuns(Join(xs, [d]), IsPasteDelimiter)) == Pasted(s, tags, xs)
  {
    SplitRunsJoin(xs, d, IsPasteDelimiter);
  }

  /** /^[A-Z]+$/. */
  predicate UpperLetters(v: string)
  {
    |v| > 0 && forall i :: 0 <= i < |v| ==> 'A' <= v[i] <= 'Z'
  }

  /** Three single characters separated by single delimiters split into three pieces. */
  lemma SplitThree(x: char, d: char, y: char, e: char, z: char, delim: char -> bool)
    requires !delim(x) && !delim(y) && !delim(z) && delim(d) && delim(e)
    ensures SplitRuns([x, d, y, e, z], delim) == [[x], [y], [z]]
  {
    SplitTwo(y, e, z, delim);
    SplitRunsDelimiter(d, [y, e, z], delim);
    assert [d] + [y, e, z] == [d, y, e, z];
    SplitRunsPlain(x, [d, y, e, z], delim);
    assert [x] + [d, y, e, z] == [x, d, y, e, z];
    var r := SplitRuns([d, y, e, z], delim);
    assert r[0] == "" && r[1..] == [[y], [z]];
    assert [x] + r[0] == [x];
  }

  /** Two characters separated by a single delimiter split into two one-character pieces. */
  lemma SplitTwo(y: char, e: char, z: char, delim: char -> bool)
    requires !delim(y) && !delim(z) && delim(e)
    ensures SplitRuns([y, e, z], delim) == [[y], [z]]
  {
    SplitRunsPlain(z, "", delim);
    assert [z] + "" == [z];
    SplitRunsDelimiter(e, [z], delim);
    assert [e] + [z] == [e, z];
    SplitRunsPlain(y, [e, z], delim);
    assert [y] + [e, z] == [y, e, z];
    var r := SplitRuns([e, z], delim);
    assert r[0] == "" && r[1..] == [[z]];
    assert [y] + r[0] == [y];
  }

  /** Upper-casing and trimming turn a one-letter lower-case value into its capital. */
  lemma NormalizeLetter(s: Settings, c: char)
    requires s.uppercase && 'a' <= c <= 'z'
    ensures Normalize(s, [c]) == [UpperChar(c)]
  {
    assert Upper([c]) == [UpperChar(c)];
    TrimSingle(UpperChar(c), IsJsSpace);
  }

  /** With upper-casing on, a typed x is normalized to X. */
  lemma NormalizeExample()
    ensures Normalize(Settings(true, "\n", UpperLetters, ""), "x") == "X"
  {
    NormalizeLetter(Settings(true, "\n", UpperLetters, ""), 'x');
    assert UpperChar('x') == 'X';
  }

  /** A value that normalizes to a non-empty text the pattern accepts is added unless it is
      already a tag. */
  lemma CheckAccepted(s: Settings, tags: seq<string>, raw: string, v: string)
    requires Normalize(s, raw) == v && v != "" && s.accepts(v)
    ensures Check(s, tags, raw) == if v in tags then Some(Duplicate) else None
    ensures Added(s, tags, raw) == if v in tags then tags else tags + [v]
  {
  }

  /** Pasting three pieces is three addTag calls in order. */
  lemma PastedThree(s: Settings, tags: seq<string>, a: string, b: string, c: string)
    ensures Pasted(s, tags, [a, b, c]) == Added(s, Added(s, Added(s, tags, a), b), c)
  {
    var pieces := [a, b, c];
    PastedStep(s, tags, pieces, 0);
    PastedStep(s, tags, pieces, 1);
    PastedStep(s, tags, pieces, 2);
    assert pieces[..0] == [] && pieces[..3] == pieces;
  }

  /** With upper-casing off and a pattern that accepts X and Y, X goes into an empty list, a
      second X is a duplicate, and Y goes in beside X. */
  lemma AddedExample(s: Settings)
    requires !s.uppercase && s.accepts("X") && s.accepts("Y")
    ensures Added(s, [], "X") == ["X"]
    ensures Check(s, ["X"], "X") == Some(Duplicate) && Added(s, ["X"], "X") == ["X"]
    ensures Added(s, ["X"], "Y") == ["X", "Y"]
  {
    TrimSingle('X', IsJsSpace);
    TrimSingle('Y', IsJsSpace);
    assert "Y" !in ["X"] by {
      assert "Y"[0] != "X"[0];
    }
    CheckAccepted(s, [], "X", "X");
    CheckAccepted(s, ["X"], "X", "X");
    CheckAccepted(s, ["X"], "Y", "Y");
  }

  /** With upper-casing off and the pattern /^[A-Z]+$/, pasting "X\nX\nY" into an empty list
      adds X and Y: the second X is reported as a duplicate and skipped. */
  lemma PasteExample()
    ensures Pasted(Settings(false, "\n", UpperLetters, ""), [], SplitRuns("X\nX\nY", IsPasteDelimiter))
      == ["X", "Y"]
  {
    var s := Settings(false, "\n", UpperLetters, "");
    SplitThree('X', '\n', 'X', '\n', 'Y', IsPasteDelimiter);
    assert ['X', '\n', 'X', '\n', 'Y'] == "X\nX\nY";
    assert UpperLetters("X") && UpperLetters("Y");
    AddedExample(s);
    PastedThree(s, [], "X", "X", "Y");
  }

  /** The initial values keep duplicates and values the pattern would reject; only empty
      values are skipped. */
  lemma InitialValuesExample()
    ensures NonEmpty(["a", "", "a"]) == ["a", "a"]
  {
    assert ["a", "", "a"][..2] == ["a", ""];
    assert ["a", "", "a"][..2][..1] == ["a"];
  }

  /** The initial values keep their order: skipping the empty ones works piece by piece. */
  lemma {:induction false} NonEmptyAppend(a: seq<string>, b: seq<string>)
    ensures NonEmpty(a + b) == NonEmpty(a) + NonEmpty(b)
    decreases |b|
  {
    if |b| == 0 {
      assert a + b == a;
    } else {
      var init, last := b[..|b| - 1], b[|b| - 1];
      NonEmptyAppend(a, init);
      assert (a + b)[..|a + b| - 1] == a + init;
      assert (a + b)[|a + b| - 1] == last;
      Assoc(NonEmpty(a), NonEmpty(init), if last == "" then [] else [last]);
    }
  }

  /** Exactly the non-empty initial values become tags. */
  lemma {:induction false} NonEmptyMembers(values: seq<string>)
    ensures forall x :: x in NonEmpty(values) <==> x in values && x != ""
    decreases |values|
  {
    if |values| > 0 {
      var init, last := values[..|values| - 1], values[|values| - 1];
      NonEmptyMembers(init);
      assert values == init + [last];
    }
  }

  lemma PastedStep(s: Settings, tags: seq<string>, pieces: seq<string>, i: nat)
    requires i < |pieces|
    ensures Pasted(s, tags, pieces[..i + 1]) == Added(s, Pasted(s, tags, pieces[..i]), pieces[i])
  {
    assert pieces[..i + 1][..i] == pieces[..i];
  }

  /** An editable tag list. */
  class TagList {
    const settings: Settings
    const hasInheritBox: bool
    var tags: seq<string>
    var hidden: string
    var inheritChecked: bool
    var inputDisabled: bool
    var input: string
    var error: Option<string>

    /** The input (and the container's disabled look) follow the inherit checkbox, and
        without a checkbox nothing is inherited. */
    predicate Valid()
      reads this
    {
      inputDisabled == inheritChecked && (!hasInheritBox ==> !inheritChecked)
    }

    /** The hidden field mirrors the tag list. */
    predicate Synced()
      reads this
    {
      hidden == Join(tags, settings.separator)
    }

    /** Widget start-up: read the config, apply the checkbox state, insert the initial values
        (not validated, not deduplicated) and, when there were any, fill the hidden field. */
    constructor(config: WidgetConfig, values: seq<string>, hiddenValue: string,
                hasInheritBox: bool, inheritChecked: bool)
      ensures Valid()
      ensures settings == Resolve(config) && this.hasInheritBox == hasInheritBox
      ensures this.inheritChecked == (hasInheritBox && inheritChecked)
      ensures tags == NonEmpty(values)
      ensures hidden == if |values| > 0 then Join(tags, settings.separator) else hiddenValue
      ensures input == "" && error == None
    {
      settings := Resolve(config);
      this.hasInheritBox := hasInheritBox;
      this.inheritChecked := hasInheritBox && inheritChecked;
      inputDisabled := hasInheritBox && inheritChecked;
      input := "";
      error := None;
      hidden := hiddenValue;
      var initial: seq<string> := [];
      var i := 0;
      while i < |values|
        invariant 0 <= i <= |values|
        invariant initial == NonEmpty(values[..i])
      {
        assert values[..i + 1][..i] == values[..i];
        if values[i] != "" {
          initial := initial + [values[i]];
        }
        i := i + 1;
      }
      assert values[..|values|] == values;
      tags := initial;
      new;
      if |values| > 0 {
        UpdateHidden();
      }
    }

    /** The duplicate check: an early-exit scan of the tag elements. */
    method Contains(v: string) returns (found: bool)
      ensures found <==> v in tags
    {
      found := false;
      var i := 0;
      while i < |tags|
        invariant 0 <= i <= |tags|
        invariant !found && v !in tags[..i]
      {
        if tags[i] == v {
          found := true;
          return;
        }
        assert tags[..i + 1] == tags[..i] + [tags[i]];
        i := i + 1;
      }
      assert tags[..i] == tags;
    }

    /** updateHidden: collect the tag values in order and join them with the separator. */
    method UpdateHidden()
      modifies this`hidden
      ensures Synced()
    {
      var tagValues: seq<string> := [];
      var i := 0;
      while i < |tags|
        invariant 0 <= i <= |tags|
        invariant tagValues == tags[..i]
      {
        tagValues := tagValues + [tags[i]];
        i := i + 1;
      }
      assert tagValues == tags;
      hidden := Join(tagValues, settings.separator);
    }

    /** updateInheritState, run on the checkbox's change event. */
    method SetInherit(checked: bool)
      requires Valid() && hasInheritBox
      modifies this`inheritChecked, this`inputDisabled
      ensures Valid() && inheritChecked == checked
    {
      inheritChecked := checked;
      inputDisabled := checked;
    }

    /** uncheckInherit: a change by the user stops inheriting and enables the input. */
    method UncheckInherit()
      requires Valid()
      modifies this`inheritChecked, this`inputDisabled
      ensures Valid() && !inheritChecked && !inputDisabled
    {
      if inheritChecked {
        inheritChecked := false;
        inputDisabled := false;
      }
    }

    /** showError; the automatic hiding after three seconds is not modelled. */
    method ShowError(message: string)
      modifies this`error
      ensures error == Some(message)
    {
      error := Some(message);
    }

    /** clearError. */
    method ClearError()
      modifies this`error
      ensures error == None
    {
      error := None;
    }

    /** addTag: on an error nothing changes; on success the normalised value is appended, the
        hidden field is rewritten, inheriting stops and the error message is cleared. */
    method AddTag(raw: string) returns (err: Option<TagError>)
      requires Valid()
      modifies this
      ensures Valid()
      ensures err == Check(settings, old(tags), raw)
      ensures tags == Added(settings, old(tags), raw)
      ensures err == None ==> Synced() && !inheritChecked && error == None
      ensures err != None ==> hidden == old(hidden) && inheritChecked == old(inheritChecked) && error == old(error)
      ensures input == old(input)
    {
      var v := raw;
      if settings.uppercase {
        v := Upper(v);
      }
      v := JsTrim(v);
      if v == "" {
        return Some(Empty);
      }
      if !settings.accepts(v) {
        return Some(Invalid);
      }
      var found := Contains(v);
      if found {
        return Some(Duplicate);
      }
      UncheckInherit();
      tags := tags + [v];
      UpdateHidden();
      ClearError();
      return None;
    }

    /** The remove button of the tag at position i. */
    method RemoveTag(i: nat)
      requires Valid() && i < |tags|
      modifies this
      ensures Valid()
      ensures tags == old(tags)[..i] + old(tags)[i + 1..]
      ensures Synced() && !inheritChecked
      ensures input == old(input) && error == old(error)
    {
      UncheckInherit();
      tags := tags[..i] + tags[i + 1..];
      UpdateHidden();
    }

    /** Enter: try to add what is in the input. On success the input is cleared; an empty
        value is ignored silently; any other error is shown and the input kept. */
    method KeyEnter()
      requires Valid()
      modifies this
      ensures Valid()
      ensures tags == Added(settings, old(tags), old(input))
      ensures var e := Check(settings, old(tags), old(input));
        && (e == None ==> input == "" && error == None && Synced() && !inheritChecked)
        && (e == Some(Empty) ==> input == old(input) && error == old(error))
        && (e.Some? && e != Some(Empty) ==> input == old(input) && error == Some(ErrorMessage(settings, e.value)))
        && (e.Some? ==> hidden == old(hidden) && inheritChecked == old(inheritChecked))
    {
      var err := AddTag(input);
      if err == None {
        input := "";
      } else if err != Some(Empty) {
        ShowError(ErrorMessage(settings, err.value));
      }
    }

    /** Backspace in an empty input removes the last tag; with no tags, or with text in the
        input, nothing happens. */
    method KeyBackspace()
      requires Valid()
      modifies this
      ensures Valid()
      ensures input == old(input)
      ensures if old(input) == "" && |old(tags)| > 0 then
          tags == old(tags)[..|old(tags)| - 1] && Synced() && !inheritChecked && error == None
        else
          tags == old(tags) && hidden == old(hidden) && inheritChecked == old(inheritChecked) && error == old(error)
    {
      if input == "" && |tags| > 0 {
        UncheckInherit();
        tags := tags[..|tags| - 1];
        UpdateHidden();
        ClearError();
      }
    }

    /** Typing in the input clears the error message. */
    method InputChanged(text: string)
      modifies this`input, this`error
      ensures input == text && error == None
    {
      input := text;
      ClearError();
    }

    /** Paste: the text is cut at runs of CR, LF and commas and each piece goes through addTag
        in order; errors are dropped and the input is emptied. */
    method Paste(text: string)
      requires Valid()
      modifies this
      ensures Valid()
      ensures tags == Pasted(settings, old(tags), SplitRuns(text, IsPasteDelimiter))
      ensures input == ""
      ensures tags == old(tags) ==> hidden == old(hidden) && inheritChecked == old(inheritChecked) && error == old(error)
      ensures tags != old(tags) ==> Synced() && !inheritChecked && error == None
    {
      var pieces := SplitRuns(text, IsPasteDelimiter);
      var i := 0;
      while i < |pieces|
        invariant 0 <= i <= |pieces|
        invariant Valid()
        invariant tags == Pasted(settings, old(tags), pieces[..i])
        invariant |tags| >= |old(tags)| && tags[..|old(tags)|] == old(tags)
        invariant tags == old(tags) ==> hidden == old(hidden) && inheritChecked == old(inheritChecked) && error == old(error)
        invariant tags != old(tags) ==> Synced() && !inheritChecked && error == None
        invariant input == old(input)
      {
        PastedStep(settings, old(tags), pieces, i);
        var before := tags;
        var err := AddTag(pieces[i]);
        if err == None {
          assert tags == before + [Normalize(settings, pieces[i])];
          assert tags[..|old(tags)|] == before[..|old(tags)|];
          assert |tags| > |old(tags)|;
        } else {
          assert tags == before;
        }
        i := i + 1;
      }
      assert pieces[..|pieces|] == pieces;
      input := "";
    }
  }
}
