/** The separator option of the tag list, as both the field block and the backend model read
    it: the two-character sequences backslash-n, backslash-t and backslash-r written in the
    configuration (for instance in di.xml) stand for a line feed, a tab and a carriage return. */
module Separator {
  import opened Text

  /** PHP str_replace(['\n', '\t', '\r'], ["\n", "\t", "\r"], s) with single-quoted search
      strings: three replacements, each applied to the whole result of the one before. */
  function Unescape(s: string): string
  {
    ReplaceAll(ReplaceAll(ReplaceAll(s, "\\n", "\n"), "\\t", "\t"), "\\r", "\r")
  }

  /** The control character a backslash escape stands for. */
  predicate IsEscapeLetter(c: char)
  {
    c == 'n' || c == 't' || c == 'r'
  }

  function Control(c: char): char
    requires IsEscapeLetter(c)
  {
    if c == 'n' then '\n' else if c == 't' then '\t' else '\r'
  }

  /** Reference reading: one left-to-right pass in which every backslash followed by n, t or r
      becomes the control character and every other character is copied. */
  function ScanUnescape(s: string): string
    decreases |s|
  {
    if |s| == 0 then ""
    else if |s| >= 2 && s[0] == '\\' && IsEscapeLetter(s[1]) then [Control(s[1])] + ScanUnescape(s[2..])
    else [s[0]] + ScanUnescape(s[1..])
  }

  /** A character that cannot start an occurrence of the two-character pattern is copied. */
  lemma ReplaceCons(c: char, t: string, pat: string, rep: string)
    requires |pat| == 2
    requires c != pat[0] || |t| == 0 || t[0] != pat[1]
    ensures ReplaceAll([c] + t, pat, rep) == [c] + ReplaceAll(t, pat, rep)
  {
    var s := [c] + t;
    assert s[1..] == t;
    if |s| >= 2 {
      assert s[..2] != pat by { assert s[..2][0] == c && s[..2][1] == t[0]; }
    }
  }

  /** An occurrence of the pattern at the front is replaced. */
  lemma ReplaceHit(t: string, pat: string, rep: string)
    requires |pat| == 2
    ensures ReplaceAll(pat + t, pat, rep) == rep + ReplaceAll(t, pat, rep)
  {
    var s := pat + t;
    assert s[..2] == pat && s[2..] == t;
  }

  /** Replacing by one character keeps a non-empty text non-empty, and its first character is
      either the original first character or the replacement. */
  lemma ReplaceHead(t: string, pat: string, rep: string)
    requires |pat| == 2 && |rep| == 1 && |t| > 0
    ensures |ReplaceAll(t, pat, rep)| > 0
    ensures ReplaceAll(t, pat, rep)[0] == t[0] || ReplaceAll(t, pat, rep)[0] == rep[0]
  {
  }

  /** The three sequential replacements PHP performs are the single-pass scan. */
  lemma {:induction false} UnescapeIsScan(s: string)
    ensures Unescape(s) == ScanUnescape(s)
    decreases |s|
  {
    if |s| == 0 {
    } else if |s| >= 2 && s[0] == '\\' && IsEscapeLetter(s[1]) {
      var t := s[2..];
      UnescapeIsScan(t);
      assert s == [s[0], s[1]] + t;
      if s[1] == 'n' {
        UnescapeNewlineStep(t);
      } else if s[1] == 't' {
        UnescapeTabStep(t);
      } else {
        UnescapeReturnStep(t);
      }
    } else {
      var t := s[1..];
      UnescapeIsScan(t);
      assert s == [s[0]] + t;
      UnescapePlainStep(s[0], t);
    }
  }

  lemma UnescapeNewlineStep(t: string)
    ensures Unescape("\\n" + t) == "\n" + Unescape(t)
  {
    var r1 := ReplaceAll(t, "\\n", "\n");
    var r2 := ReplaceAll(r1, "\\t", "\t");
    ReplaceHit(t, "\\n", "\n");
    ReplaceCons('\n', r1, "\\t", "\t");
    ReplaceCons('\n', r2, "\\r", "\r");
  }

  lemma UnescapeTabStep(t: string)
    ensures Unescape("\\t" + t) == "\t" + Unescape(t)
  {
    var r1 := ReplaceAll(t, "\\n", "\n");
    var r2 := ReplaceAll(r1, "\\t", "\t");
    assert "\\t" == ['\\'] + "t";
    Assoc(['\\'], "t", t);
    ReplaceCons('\\', "t" + t, "\\n", "\n");
    ReplaceCons('t', t, "\\n", "\n");
    Assoc(['\\'], "t", r1);
    ReplaceHit(r1, "\\t", "\t");
    ReplaceCons('\t', r2, "\\r", "\r");
  }

  lemma UnescapeReturnStep(t: string)
    ensures Unescape("\\r" + t) == "\r" + Unescape(t)
  {
    var r1 := ReplaceAll(t, "\\n", "\n");
    var r2 := ReplaceAll(r1, "\\t", "\t");
    assert "\\r" == ['\\'] + "r";
    Assoc(['\\'], "r", t);
    ReplaceCons('\\', "r" + t, "\\n", "\n");
    ReplaceCons('r', t, "\\n", "\n");
    Assoc(['\\'], "r", r1);
    ReplaceCons('\\', "r" + r1, "\\t", "\t");
    ReplaceCons('r', r1, "\\t", "\t");
    Assoc(['\\'], "r", r2);
    ReplaceHit(r2, "\\r", "\r");
  }

  /** A character that does not start an escape is copied by all three replacements. */
  lemma UnescapePlainStep(c: char, t: string)
    requires !(c == '\\' && |t| > 0 && IsEscapeLetter(t[0]))
    ensures Unescape([c] + t) == [c] + Unescape(t)
  {
    var r1 := ReplaceAll(t, "\\n", "\n");
    var r2 := ReplaceAll(r1, "\\t", "\t");
    ReplaceCons(c, t, "\\n", "\n");
    if |t| > 0 {
      ReplaceHead(t, "\\n", "\n");
      ReplaceHead(r1, "\\t", "\t");
    }
    ReplaceCons(c, r1, "\\t", "\t");
    ReplaceCons(c, r2, "\\r", "\r");
  }

  /** Text without a backslash passes through unchanged. */
  lemma {:induction false} UnescapePlain(s: string)
    requires '\\' !in s
    ensures Unescape(s) == s
    decreases |s|
  {
    UnescapeIsScan(s);
    ScanPlain(s);
  }

  lemma {:induction false} ScanPlain(s: string)
    requires '\\' !in s
    ensures ScanUnescape(s) == s
    decreases |s|
  {
    if |s| > 0 {
      ScanPlain(s[1..]);
      assert [s[0]] + s[1..] == s;
    }
  }

  /** The escaped default written in configuration files becomes a real line feed. */
  lemma UnescapeNewline()
    ensures Unescape("\\n") == "\n"
  {
    UnescapeIsScan("\\n");
    assert ScanUnescape("\\n") == [Control('n')] + ScanUnescape("");
  }
}
