/** PHP serialize() of a list of strings, which is how the backend model stores a tag list when
    the save type is "serialized": a:N:{i:0;s:L0:"v0";i:1;s:L1:"v1";...} where N is the number
    of entries and each Li is the length of vi in bytes. A reference unserialize for that shape
    states what the format means. */
module PhpSerialize {
  import opened Wrappers
  import opened Decimal
  import Text

  /** The number of bytes of the UTF-8 encoding of a character (PHP strings are bytes). */
  function CharBytes(c: char): (n: nat)
    ensures 1 <= n <= 4
  {
    if c < '\U{80}' then 1 else if c < '\U{800}' then 2 else if c < '\U{10000}' then 3 else 4
  }

  /** strlen() of the UTF-8 encoding of `s`. */
  function ByteLength(s: string): nat
  {
    if |s| == 0 then 0 else CharBytes(s[0]) + ByteLength(s[1..])
  }

  /** One entry, `i:<index>;s:<bytes>:"<value>";`. */
  function Entry(i: nat, v: string): string
  {
    "i:" + Dec(i) + ";s:" + Dec(ByteLength(v)) + ":\"" + v + "\";"
  }

  /** The entries of `xs`, numbered from `i`. */
  function Entries(xs: seq<string>, i: nat): string
  {
    if |xs| == 0 then "" else Entry(i, xs[0]) + Entries(xs[1..], i + 1)
  }

  /** serialize() of the list `xs` (keys 0..n-1). */
  function Serialize(xs: seq<string>): string
  {
    "a:" + Dec(|xs|) + ":{" + Entries(xs, 0) + "}"
  }

  /** The rest of `s` after the literal `p`, if `s` starts with it. */
  function Expect(p: string, s: string): (r: Option<string>)
    ensures r.Some? ==> |r.value| <= |s|
  {
    if |p| <= |s| && s[..|p|] == p then Some(s[|p|..]) else None
  }

  /** Reads characters until exactly `n` bytes are taken. */
  function TakeBytes(s: string, n: nat): Option<(string, string)>
    decreases |s|
  {
    if n == 0 then Some(("", s))
    else if |s| == 0 || CharBytes(s[0]) > n then None
    else
      var (v, rest) :- TakeBytes(s[1..], n - CharBytes(s[0]));
      Some(([s[0]] + v, rest))
  }

  /** Reads `n` entries numbered from `i`; returns them with the text after them. */
  function DecodeEntries(s: string, i: nat, n: nat): Option<(seq<string>, string)>
    decreases n
  {
    if n == 0 then Some(([], s))
    else
      var r1 :- Expect("i:", s);
      var (j, r2) :- ParseNat(r1);
      if j != i then None
      else
        var r3 :- Expect(";s:", r2);
        var (len, r4) :- ParseNat(r3);
        var r5 :- Expect(":\"", r4);
        var (v, r6) :- TakeBytes(r5, len);
        var r7 :- Expect("\";", r6);
        var (vs, r8) :- DecodeEntries(r7, i + 1, n - 1);
        Some(([v] + vs, r8))
  }

  /** Reference unserialize() for a serialized list of strings. */
  function Unserialize(s: string): Option<seq<string>>
  {
    var r1 :- Expect("a:", s);
    var (n, r2) :- ParseNat(r1);
    var r3 :- Expect(":{", r2);
    var (vs, r4) :- DecodeEntries(r3, 0, n);
    if r4 == "}" then Some(vs) else None
  }

  lemma ExpectHit(p: string, t: string)
    ensures Expect(p, p + t) == Some(t)
  {
    assert (p + t)[..|p|] == p && (p + t)[|p|..] == t;
  }

  /** Taking the byte length of `v` from `v + rest` gives `v` back. */
  lemma {:induction false} TakeBytesRoundTrip(v: string, rest: string)
    ensures TakeBytes(v + rest, ByteLength(v)) == Some((v, rest))
    decreases |v|
  {
    if |v| == 0 {
      assert v + rest == rest;
    } else {
      var s := v + rest;
      assert s[0] == v[0] && s[1..] == v[1..] + rest;
      TakeBytesRoundTrip(v[1..], rest);
      assert [v[0]] + v[1..] == v;
    }
  }

  lemma EntryShape(i: nat, v: string, t: string)
    ensures Entry(i, v) + t ==
      "i:" + (Dec(i) + (";s:" + (Dec(ByteLength(v)) + (":\"" + (v + ("\";" + t))))))
  {
  }

  /** One entry followed by anything decodes to its value, then the rest is read on. */
  lemma EntryStep(i: nat, v: string, t: string, n: nat)
    ensures DecodeEntries(Entry(i, v) + t, i, n + 1) ==
      match DecodeEntries(t, i + 1, n)
      case None => None
      case Some((vs, r)) => Some(([v] + vs, r))
  {
    var len := ByteLength(v);
    var e5 := v + ("\";" + t);
    var e4 := ":\"" + e5;
    var e3 := Dec(len) + e4;
    var e2 := ";s:" + e3;
    var e1 := Dec(i) + e2;
    EntryShape(i, v, t);
    ExpectHit("i:", e1);
    ParseNatDec(i, e2);
    ExpectHit(";s:", e3);
    ParseNatDec(len, e4);
    ExpectHit(":\"", e5);
    TakeBytesRoundTrip(v, "\";" + t);
    ExpectHit("\";", t);
  }

  lemma {:induction false} EntriesRoundTrip(xs: seq<string>, i: nat, rest: string)
    ensures DecodeEntries(Entries(xs, i) + rest, i, |xs|) == Some((xs, rest))
    decreases |xs|
  {
    if |xs| == 0 {
      assert Entries(xs, i) + rest == rest;
    } else {
      var t := Entries(xs[1..], i + 1) + rest;
      Text.Assoc(Entry(i, xs[0]), Entries(xs[1..], i + 1), rest);
      EntryStep(i, xs[0], t, |xs| - 1);
      EntriesRoundTrip(xs[1..], i + 1, rest);
      Text.HeadTail(xs);
    }
  }

  /** Unserializing the serialization of any list of strings gives the list back: the count,
      the indices 0..n-1 and the byte lengths are exactly what the reader needs. */
  lemma RoundTrip(xs: seq<string>)
    ensures Unserialize(Serialize(xs)) == Some(xs)
  {
    var body := Entries(xs, 0) + "}";
    var r2 := ":{" + body;
    var r1 := Dec(|xs|) + r2;
    assert Serialize(xs) == "a:" + r1;
    ExpectHit("a:", r1);
    ParseNatDec(|xs|, r2);
    ExpectHit(":{", body);
    EntriesRoundTrip(xs, 0, "}");
  }

  /** The example from the class documentation. */
  lemma Example()
    ensures Serialize(["value1", "value2"]) ==
      "a:2:{" + "i:0;s:6:\"value1\";" + "i:1;s:6:\"value2\";" + "}"
  {
    EntriesPair("value1", "value2");
    EntryOfSix(0, "value1");
    EntryOfSix(1, "value2");
    assert Dec(0) == "0" && Dec(1) == "1" && Dec(2) == "2";
    EntryLiterals();
    assert "a:" + "2" + ":{" == "a:2:{";
    Text.Assoc("a:2:{", "i:0;s:6:\"value1\";", "i:1;s:6:\"value2\";");
  }

  lemma EntriesPair(a: string, b: string)
    ensures Entries([a, b], 0) == Entry(0, a) + Entry(1, b)
  {
    assert [a, b][1..] == [b] && [b][1..] == [];
    assert Entries([b], 1) == Entry(1, b) + "";
    assert Entry(1, b) + "" == Entry(1, b);
  }

  /** An entry whose value is six ASCII characters. */
  lemma EntryOfSix(i: nat, v: string)
    requires |v| == 6 && forall k :: 0 <= k < 6 ==> v[k] < '\U{80}'
    ensures Entry(i, v) == "i:" + Dec(i) + ";s:" + "6" + ":\"" + v + "\";"
  {
    AsciiLength(v);
    assert Dec(6) == "6";
  }

  lemma EntryLiterals()
    ensures "i:" + "0" + ";s:" + "6" + ":\"" + "value1" + "\";" == "i:0;s:6:\"value1\";"
    ensures "i:" + "1" + ";s:" + "6" + ":\"" + "value2" + "\";" == "i:1;s:6:\"value2\";"
  {
  }

  /** An ASCII text takes one byte per character. */
  lemma {:induction false} AsciiLength(s: string)
    requires forall i :: 0 <= i < |s| ==> s[i] < '\U{80}'
    ensures ByteLength(s) == |s|
    decreases |s|
  {
    if |s| > 0 {
      AsciiLength(s[1..]);
    }
  }
}
