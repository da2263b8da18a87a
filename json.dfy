/** PHP json_encode of a list of strings with the JSON_UNESCAPED_UNICODE flag, which is how the
    backend model stores a tag list when the save type is "json". A reference decoder for the
    arrays it produces states what the encoding means. */
module Json {
  import opened Wrappers
  import Text

  /** Lower-case hexadecimal digit, as PHP writes \u escapes. */
  function HexDigit(d: nat): char
    requires d < 16
  {
    "0123456789abcdef"[d]
  }

  /** The value of a hexadecimal digit of either case. */
  function HexValue(c: char): Option<nat>
  {
    if '0' <= c <= '9' then Some(c as int - '0' as int)
    else if 'a' <= c <= 'f' then Some(c as int - 'a' as int + 10)
    else if 'A' <= c <= 'F' then Some(c as int - 'A' as int + 10)
    else None
  }

  lemma HexRoundTrip(d: nat)
    requires d < 16
    ensures HexValue(HexDigit(d)) == Some(d)
  {
  }

  /** How json_encode writes one character of a string: the quote, the backslash and the slash
      get a backslash; backspace, form feed, line feed, carriage return and tab their short
      escapes; the other control characters \u00XX; U+2028 and U+2029 are escaped because
      JSON_UNESCAPED_LINE_TERMINATORS is not given; every other character, non-ASCII included,
      is written as it is. */
  function EscapeChar(c: char): (r: string)
    ensures |r| >= 1 && r[0] != '"'
    ensures r[0] == '\\' || r == [c]
    ensures (c >= '\U{80}' && c != '\U{2028}' && c != '\U{2029}') ==> r == [c]
    ensures (' ' <= c <= '~' && c != '"' && c != '\\' && c != '/') ==> r == [c]
  {
    if c == '"' then "\\\""
    else if c == '\\' then "\\\\"
    else if c == '/' then "\\/"
    else if c == '\U{8}' then "\\b"
    else if c == '\U{C}' then "\\f"
    else if c == '\n' then "\\n"
    else if c == '\r' then "\\r"
    else if c == '\t' then "\\t"
    else if c < ' ' then "\\u00" + [HexDigit(c as int / 16), HexDigit(c as int % 16)]
    else if c == '\U{2028}' then "\\u2028"
    else if c == '\U{2029}' then "\\u2029"
    else [c]
  }

  function Escape(s: string): string
  {
    if |s| == 0 then "" else EscapeChar(s[0]) + Escape(s[1..])
  }

  /** A JSON string literal. */
  function Quote(s: string): string
  {
    "\"" + Escape(s) + "\""
  }

  /** The comma-separated string literals of a list. */
  function Items(xs: seq<string>): string
  {
    if |xs| == 0 then ""
    else if |xs| == 1 then Quote(xs[0])
    else Quote(xs[0]) + "," + Items(xs[1..])
  }

  /** json_encode of a list (keys 0..n-1), so always an array, without insignificant spaces. */
  function EncodeArray(xs: seq<string>): string
  {
    "[" + Items(xs) + "]"
  }

  /** The value of four hexadecimal digits. */
  function Hex4(h: string): Option<nat>
    requires |h| == 4
  {
    match (HexValue(h[0]), HexValue(h[1]), HexValue(h[2]), HexValue(h[3]))
    case (Some(a), Some(b), Some(c), Some(d)) => Some(((a * 16 + b) * 16 + c) * 16 + d)
    case _ => None
  }

  /** Reads one character of a string literal body that does not start with the closing quote:
      an escape sequence or a plain character. Returns the character and how many characters of
      text it took. Surrogate escapes are not accepted. */
  function DecodeUnit(s: string): (r: Option<(char, nat)>)
    requires |s| > 0
    ensures r.Some? ==> 1 <= r.value.1 <= |s|
  {
    if s[0] == '\\' then
      if |s| < 2 then None
      else if s[1] == '"' then Some(('"', 2))
      else if s[1] == '\\' then Some(('\\', 2))
      else if s[1] == '/' then Some(('/', 2))
      else if s[1] == 'b' then Some(('\U{8}', 2))
      else if s[1] == 'f' then Some(('\U{C}', 2))
      else if s[1] == 'n' then Some(('\n', 2))
      else if s[1] == 'r' then Some(('\r', 2))
      else if s[1] == 't' then Some(('\t', 2))
      else if s[1] == 'u' && |s| >= 6 then
        match Hex4(s[2..6])
        case Some(v) => if v < 0xD800 || 0xE000 <= v < 0x11_0000 then Some((v as char, 6)) else None
        case None => None
      else None
    else if s[0] < ' ' then None
    else Some((s[0], 1))
  }

  /** Reads a string literal body up to and including its closing quote; returns the decoded
      string and the text after the quote. */
  function DecodeString(s: string): (r: Option<(string, string)>)
    ensures r.Some? ==> |r.value.1| < |s|
    decreases |s|
  {
    if |s| == 0 then None
    else if s[0] == '"' then Some(("", s[1..]))
    else
      match DecodeUnit(s)
      case None => None
      case Some((c, k)) =>
        match DecodeString(s[k..])
        case None => None
        case Some((v, rest)) => Some(([c] + v, rest))
  }

  /** Reads `"..."` followed by `,` and more elements, or by the closing `]` at the very end. */
  function DecodeElements(s: string): Option<seq<string>>
    decreases |s|
  {
    if |s| == 0 || s[0] != '"' then None
    else
      match DecodeString(s[1..])
      case None => None
      case Some((v, rest)) =>
        if rest == "]" then Some([v])
        else if |rest| > 0 && rest[0] == ',' then
          match DecodeElements(rest[1..])
          case None => None
          case Some(vs) => Some([v] + vs)
        else None
  }

  /** Reference decoder for a JSON array of strings written without insignificant spaces. */
  function DecodeArray(s: string): Option<seq<string>>
  {
    if |s| < 2 || s[0] != '[' then None
    else if s == "[]" then Some([])
    else DecodeElements(s[1..])
  }

  /** Each escape written by EscapeChar reads back as the character it was written for. */
  lemma UnitRoundTrip(c: char, t: string)
    ensures DecodeUnit(EscapeChar(c) + t) == Some((c, |EscapeChar(c)|))
  {
    if IsHexEscaped(c) {
      HexUnitRoundTrip(c, t);
    } else {
      ShortUnitRoundTrip(c, t);
    }
  }

  /** The control characters json_encode writes as \u00XX. */
  predicate IsHexEscaped(c: char)
  {
    c < ' ' && c != '\U{8}' && c != '\U{C}' && c != '\n' && c != '\r' && c != '\t'
  }

  lemma HexUnitRoundTrip(c: char, t: string)
    requires IsHexEscaped(c)
    ensures DecodeUnit(EscapeChar(c) + t) == Some((c, |EscapeChar(c)|))
  {
    var hi, lo := c as int / 16, c as int % 16;
    var e := EscapeChar(c);
    assert e == "\\u00" + [HexDigit(hi), HexDigit(lo)];
    var s := e + t;
    assert s[..6] == e;
    assert s[2..6] == "00" + [HexDigit(hi), HexDigit(lo)];
    HexRoundTrip(hi);
    HexRoundTrip(lo);
    assert Hex4(s[2..6]) == Some(c as int);
  }

  lemma ShortUnitRoundTrip(c: char, t: string)
    requires !IsHexEscaped(c)
    ensures DecodeUnit(EscapeChar(c) + t) == Some((c, |EscapeChar(c)|))
  {
    var e := EscapeChar(c);
    var s := e + t;
    assert s[..|e|] == e;
    if c == '\U{2028}' || c == '\U{2029}' {
      assert s[2..6] == e[2..6];
    }
  }

  /** An escaped string followed by the closing quote decodes to the string. */
  lemma {:induction false} StringRoundTrip(v: string, rest: string)
    ensures DecodeString(Escape(v) + "\"" + rest) == Some((v, rest))
    decreases |v|
  {
    var s := Escape(v) + "\"" + rest;
    if |v| == 0 {
      assert s == "\"" + rest;
    } else {
      var e := EscapeChar(v[0]);
      var tail := Escape(v[1..]) + "\"" + rest;
      Text.Assoc(e, Escape(v[1..]), "\"");
      Text.Assoc(e, Escape(v[1..]) + "\"", rest);
      assert s == e + tail;
      UnitRoundTrip(v[0], tail);
      Text.DropPrefix(e, tail);
      StringRoundTrip(v[1..], rest);
      Text.HeadTail(v);
    }
  }

  /** What follows the first literal of Items(xs) + "]". */
  function ItemsTail(xs: seq<string>): string
    requires |xs| >= 1
  {
    if |xs| == 1 then "]" else "," + Items(xs[1..]) + "]"
  }

  lemma ItemsSplit(xs: seq<string>)
    requires |xs| >= 1
    ensures Items(xs) + "]" == Quote(xs[0]) + ItemsTail(xs)
  {
    if |xs| > 1 {
      CommaAssoc(Quote(xs[0]), Items(xs[1..]));
    }
  }

  lemma CommaAssoc(q: string, t: string)
    ensures q + "," + t + "]" == q + ("," + t + "]")
  {
  }

  /** One step of the decoder over the first literal. */
  lemma ElementsStep(v: string, tail: string)
    ensures DecodeElements(Quote(v) + tail) ==
      if tail == "]" then Some([v])
      else if |tail| > 0 && tail[0] == ',' then
        match DecodeElements(tail[1..])
        case None => None
        case Some(vs) => Some([v] + vs)
      else None
  {
    var s := Quote(v) + tail;
    QuotedSlice(Escape(v), tail);
    StringRoundTrip(v, tail);
  }

  lemma QuotedSlice(e: string, tail: string)
    ensures ("\"" + e + "\"" + tail)[0] == '"'
    ensures ("\"" + e + "\"" + tail)[1..] == e + "\"" + tail
  {
  }

  lemma {:induction false} ElementsRoundTrip(xs: seq<string>)
    requires |xs| >= 1
    ensures DecodeElements(Items(xs) + "]") == Some(xs)
    decreases |xs|
  {
    ItemsSplit(xs);
    var tail := ItemsTail(xs);
    ElementsStep(xs[0], tail);
    if |xs| == 1 {
      assert tail == "]";
      assert DecodeElements(Items(xs) + "]") == Some([xs[0]]);
      Text.Single(xs);
    } else {
      assert tail[0] == ',' && tail != "]";
      assert tail[1..] == Items(xs[1..]) + "]";
      ElementsRoundTrip(xs[1..]);
      assert DecodeElements(Items(xs) + "]") == Some([xs[0]] + xs[1..]);
      Text.HeadTail(xs);
    }
  }

  /** Decoding the encoding of any list of strings gives the list back, in order. */
  lemma RoundTrip(xs: seq<string>)
    ensures DecodeArray(EncodeArray(xs)) == Some(xs)
  {
    if |xs| > 0 {
      var s := EncodeArray(xs);
      assert s[1..] == Items(xs) + "]";
      assert s != "[]" by { assert s[1] == '"'; }
      ElementsRoundTrip(xs);
    }
  }

  /** A concrete encoding: three one-letter tags. */
  lemma Example()
    ensures EncodeArray(["A", "B", "C"]) == "[\"A\",\"B\",\"C\"]"
  {
  }
}
