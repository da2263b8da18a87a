/** The conversion the tag-list backend model applies before a value is saved: the
    separator-joined text sent by the browser is cut into tags, and the tags are stored in one
    of three formats. */
module TagListCodec {
  import opened Text
  import opened Wrappers
  import Json
  import PhpSerialize

  const SaveTypeJson := "json"
  const SaveTypeSerialized := "serialized"
  const SaveTypeSeparator := "separator"

  /** PHP truthiness of a string: only "" and "0" are falsy. */
  predicate Truthy(s: string)
  {
    s != "" && s != "0"
  }

  /** array_map('trim', ...). */
  function TrimEach(xs: seq<string>): (r: seq<string>)
    ensures |r| == |xs|
    ensures forall i :: 0 <= i < |r| ==> r[i] == PhpTrim(xs[i]) && PhpTrim(r[i]) == r[i]
  {
    if |xs| == 0 then []
    else
      TrimIdempotent(xs[0], IsPhpSpace);
      [PhpTrim(xs[0])] + TrimEach(xs[1..])
  }

  /** array_values(array_filter(...)): the truthy entries, in order, renumbered from 0. */
  function DropFalsy(xs: seq<string>): (r: seq<string>)
    ensures |r| <= |xs|
    ensures forall i :: 0 <= i < |r| ==> Truthy(r[i])
    ensures forall x :: x in r <==> x in xs && Truthy(x)
  {
    if |xs| == 0 then []
    else if Truthy(xs[0]) then [xs[0]] + DropFalsy(xs[1..])
    else DropFalsy(xs[1..])
  }

  /** parseIncomingValue: explode on the separator, trim every piece, drop the falsy ones. */
  function Parse(value: string, sep: string): (r: seq<string>)
    requires |sep| > 0
    ensures forall i :: 0 <= i < |r| ==> Truthy(r[i]) && PhpTrim(r[i]) == r[i]
  {
    var trimmed := TrimEach(Split(value, sep));
    DropFalsyKeepsTrimmed(trimmed);
    DropFalsy(trimmed)
  }

  /** Filtering a list of trimmed strings leaves only trimmed strings. */
  lemma DropFalsyKeepsTrimmed(xs: seq<string>)
    requires forall i :: 0 <= i < |xs| ==> PhpTrim(xs[i]) == xs[i]
    ensures forall i :: 0 <= i < |DropFalsy(xs)| ==> PhpTrim(DropFalsy(xs)[i]) == DropFalsy(xs)[i]
  {
    var r := DropFalsy(xs);
    forall i | 0 <= i < |r| ensures PhpTrim(r[i]) == r[i] {
      assert r[i] in xs;
      var j :| 0 <= j < |xs| && xs[j] == r[i];
    }
  }

  /** formatValues: nothing to store is stored as the empty string whatever the save type;
      otherwise a JSON array, a serialized array, or (for "separator" and any other save type)
      the tags joined by the separator. */
  function Format(values: seq<string>, saveType: string, sep: string): (r: string)
    ensures |values| == 0 ==> r == ""
  {
    if |values| == 0 then ""
    else if saveType == SaveTypeJson then Json.EncodeArray(values)
    else if saveType == SaveTypeSerialized then PhpSerialize.Serialize(values)
    else Join(values, sep)
  }

  /** What beforeSave stores for a non-empty incoming value. */
  function Convert(value: string, saveType: string, sep: string): string
    requires |sep| > 0
  {
    Format(Parse(value, sep), saveType, sep)
  }

  /** Dropping falsy entries from a list of truthy ones changes nothing. */
  lemma {:induction false} DropFalsyKeepsTruthy(xs: seq<string>)
    requires forall i :: 0 <= i < |xs| ==> Truthy(xs[i])
    ensures DropFalsy(xs) == xs
  {
    if |xs| > 0 {
      DropFalsyKeepsTruthy(xs[1..]);
      assert [xs[0]] + xs[1..] == xs;
    }
  }

  /** Trimming a list of trimmed entries changes nothing. */
  lemma TrimEachKeepsTrimmed(xs: seq<string>)
    requires forall i :: 0 <= i < |xs| ==> PhpTrim(xs[i]) == xs[i]
    ensures TrimEach(xs) == xs
  {
  }

  /** Parsing keeps the entries in order: the kept entries are exactly the trimmed truthy
      pieces, so an input whose pieces are all trimmed and truthy parses to its pieces. */
  lemma ParseKeepsPieces(value: string, sep: string)
    requires |sep| > 0
    requires forall i :: 0 <= i < |Split(value, sep)| ==>
      Truthy(Split(value, sep)[i]) && PhpTrim(Split(value, sep)[i]) == Split(value, sep)[i]
    ensures Parse(value, sep) == Split(value, sep)
  {
    TrimEachKeepsTrimmed(Split(value, sep));
    DropFalsyKeepsTruthy(Split(value, sep));
  }

  /** With a one-character separator, no parsed tag contains the separator. */
  lemma ParseAvoidsSeparator(value: string, c: char)
    ensures forall i :: 0 <= i < |Parse(value, [c])| ==> c !in Parse(value, [c])[i]
  {
    var pieces := Split(value, [c]);
    SplitPiecesAvoid(value, c);
    var trimmed := TrimEach(pieces);
    forall i | 0 <= i < |trimmed| ensures c !in trimmed[i] {
      if c in trimmed[i] {
        TrimChars(pieces[i], IsPhpSpace, c);
      }
    }
    var r := Parse(value, [c]);
    forall i | 0 <= i < |r| ensures c !in r[i] {
      assert r[i] in trimmed;
    }
  }

  /** Decoding the separator encoding of a tag list gives the list back, when the separator is
      one character and the tags are trimmed, truthy and free of it. */
  lemma {:induction false} SeparatorRoundTrip(xs: seq<string>, c: char)
    requires forall i :: 0 <= i < |xs| ==> Truthy(xs[i]) && PhpTrim(xs[i]) == xs[i] && c !in xs[i]
    ensures Parse(Join(xs, [c]), [c]) == xs
  {
    if |xs| == 0 {
      assert Split("", [c]) == [""];
      assert TrimEach([""]) == [""];
    } else {
      SplitJoin(xs, c);
      ParseKeepsPieces(Join(xs, [c]), [c]);
    }
  }

  /** For a one-character separator and the separator format (or any unknown save type)
      the conversion is idempotent: converting its own output again gives the same text. */
  lemma ConvertIdempotent(value: string, saveType: string, c: char)
    requires saveType != SaveTypeJson && saveType != SaveTypeSerialized
    ensures Convert(Convert(value, saveType, [c]), saveType, [c]) == Convert(value, saveType, [c])
  {
    var xs := Parse(value, [c]);
    ParseAvoidsSeparator(value, c);
    SeparatorRoundTrip(xs, c);
  }

  /** A stored JSON value decodes to the tag list. */
  lemma JsonFormatDecodes(xs: seq<string>, sep: string)
    requires |xs| > 0
    ensures Json.DecodeArray(Format(xs, SaveTypeJson, sep)) == Some(xs)
  {
    Json.RoundTrip(xs);
  }

  /** A stored serialized value unserializes to the tag list. */
  lemma SerializedFormatDecodes(xs: seq<string>, sep: string)
    requires |xs| > 0
    ensures PhpSerialize.Unserialize(Format(xs, SaveTypeSerialized, sep)) == Some(xs)
  {
    PhpSerialize.RoundTrip(xs);
  }

  /** Filtering a concatenation filters each part: the kept entries stay in their order. */
  lemma {:induction false} DropFalsyAppend(a: seq<string>, b: seq<string>)
    ensures DropFalsy(a + b) == DropFalsy(a) + DropFalsy(b)
    decreases |a|
  {
    if |a| == 0 {
      assert a + b == b;
    } else {
      DropFalsyAppend(a[1..], b);
      TailOfAppend(a, b);
      if Truthy(a[0]) {
        Assoc([a[0]], DropFalsy(a[1..]), DropFalsy(b));
      }
    }
  }

  /** The pieces of a one-character separator encoding are trimmed and filtered. */
  lemma ParseJoin(xs: seq<string>, c: char)
    requires |xs| >= 1 && forall i :: 0 <= i < |xs| ==> c !in xs[i]
    ensures Parse(Join(xs, [c]), [c]) == DropFalsy(TrimEach(xs))
  {
    SplitJoin(xs, c);
  }
  /** The filter the tag list needs so that every tag the widget can hold survives a save:
      only the empty entries are dropped, and "0" is kept. */
  function DropEmpty(xs: seq<string>): (r: seq<string>)
    ensures forall i :: 0 <= i < |r| ==> r[i] != ""
    ensures forall x :: x in r <==> x in xs && x != ""
  {
    if |xs| == 0 then []
    else if xs[0] != "" then [xs[0]] + DropEmpty(xs[1..])
    else DropEmpty(xs[1..])
  }

  /** parseIncomingValue with the corrected filter. */
  function ParseKeepingZero(value: string, sep: string): seq<string>
    requires |sep| > 0
  {
    DropEmpty(TrimEach(Split(value, sep)))
  }

  /** Dropping empty entries from a list of non-empty ones changes nothing. */
  lemma {:induction false} DropEmptyKeepsNonEmpty(xs: seq<string>)
    requires forall i :: 0 <= i < |xs| ==> xs[i] != ""
    ensures DropEmpty(xs) == xs
  {
    if |xs| > 0 {
      DropEmptyKeepsNonEmpty(xs[1..]);
      HeadTail(xs);
    }
  }

  /** With the corrected filter, decoding the separator encoding gives back every list of
      trimmed, non-empty, separator-free tags, "0" included. */
  lemma {:induction false} CorrectedSeparatorRoundTrip(xs: seq<string>, c: char)
    requires forall i :: 0 <= i < |xs| ==> xs[i] != "" && PhpTrim(xs[i]) == xs[i] && c !in xs[i]
    ensures ParseKeepingZero(Join(xs, [c]), [c]) == xs
  {
    if |xs| == 0 {
      assert Split("", [c]) == [""];
      assert TrimEach([""]) == [""];
    } else {
      SplitJoin(xs, c);
      TrimEachKeepsTrimmed(xs);
      DropEmptyKeepsNonEmpty(xs);
    }
  }
}
