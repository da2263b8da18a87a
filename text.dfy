/** String helpers shared by the PHP backend model and the two JavaScript widgets:
    joining, splitting on a separator string, replacing a substring, trimming and
    ASCII upper-casing. */
module Text {

  /** Joins the pieces with `sep` between neighbours (PHP implode, JavaScript Array.join). */
  function Join(xs: seq<string>, sep: string): string
  {
    if |xs| == 0 then ""
    else if |xs| == 1 then xs[0]
    else xs[0] + sep + Join(xs[1..], sep)
  }

  /** Splits `s` at every occurrence of `sep`, scanning left to right and never letting two
      occurrences overlap (PHP explode, JavaScript String.split with a string argument). */
  function Split(s: string, sep: string): (r: seq<string>)
    requires |sep| > 0
    ensures |r| >= 1
    decreases |s|
  {
    if |s| < |sep| then [s]
    else if s[..|sep|] == sep then [""] + Split(s[|sep|..], sep)
    else
      var rest := Split(s[1..], sep);
      [[s[0]] + rest[0]] + rest[1..]
  }

  /** Splitting and joining again with the same separator gives back the original text. */
  lemma {:induction false} JoinSplit(s: string, sep: string)
    requires |sep| > 0
    ensures Join(Split(s, sep), sep) == s
    decreases |s|
  {
    if |s| < |sep| {
    } else if s[..|sep|] == sep {
      var rest := Split(s[|sep|..], sep);
      JoinSplit(s[|sep|..], sep);
      assert s == sep + s[|sep|..];
      if |rest| == 1 {
        assert Join([""] + rest, sep) == "" + sep + rest[0];
      } else {
        assert ([""] + rest)[1..] == rest;
        assert Join([""] + rest, sep) == "" + sep + Join(rest, sep);
      }
    } else {
      var rest := Split(s[1..], sep);
      JoinSplit(s[1..], sep);
      JoinConsHead(s[0], rest, sep);
      assert s == [s[0]] + s[1..];
    }
  }

  /** Glueing a character to the first piece glues it to the front of the joined text. */
  lemma JoinConsHead(c: char, xs: seq<string>, sep: string)
    requires |xs| >= 1
    ensures Join([[c] + xs[0]] + xs[1..], sep) == [c] + Join(xs, sep)
  {
    var ys := [[c] + xs[0]] + xs[1..];
    assert ys[1..] == xs[1..];
    if |xs| > 1 {
      assert Join(ys, sep) == ys[0] + sep + Join(ys[1..], sep);
      assert Join(xs, sep) == xs[0] + sep + Join(xs[1..], sep);
    }
  }

  /** With a one-character separator, no piece of the split contains that character. */
  lemma {:induction false} SplitPiecesAvoid(s: string, c: char)
    ensures forall i :: 0 <= i < |Split(s, [c])| ==> c !in Split(s, [c])[i]
    decreases |s|
  {
    var r := Split(s, [c]);
    if |s| < 1 {
    } else if s[..1] == [c] {
      SplitPiecesAvoid(s[1..], c);
      assert r == [""] + Split(s[1..], [c]);
    } else {
      var rest := Split(s[1..], [c]);
      SplitPiecesAvoid(s[1..], c);
      assert s[0] != c by { assert s[..1] == [s[0]]; }
      assert r == [[s[0]] + rest[0]] + rest[1..];
      forall i | 0 <= i < |r| ensures c !in r[i] {
        if i == 0 {
          assert c !in rest[0];
        } else {
          assert r[i] == rest[i];
        }
      }
    }
  }

  /** A text free of the one-character separator splits into itself alone. */
  lemma {:induction false} SplitFree(s: string, c: char)
    requires c !in s
    ensures Split(s, [c]) == [s]
    decreases |s|
  {
    if |s| >= 1 {
      assert s[..1] == [s[0]];
      SplitFree(s[1..], c);
      assert [s[0]] + s[1..] == s;
    }
  }

  /** A text that splits into two or more pieces holds the separator. */
  lemma SplitHasSeparator(s: string, c: char)
    requires |Split(s, [c])| >= 2
    ensures c in s
  {
    if c !in s {
      SplitFree(s, c);
    }
  }

  /** Splitting `a + [c] + t` on `c` cuts off `a` when `a` is free of `c`. */
  lemma {:induction false} SplitAfterFree(a: string, c: char, t: string)
    requires c !in a
    ensures Split(a + [c] + t, [c]) == [a] + Split(t, [c])
    decreases |a|
  {
    var s := a + [c] + t;
    if |a| == 0 {
      assert s == [c] + t;
      assert s[..1] == [c] && s[1..] == t;
    } else {
      assert s[..1] == [a[0]];
      assert s[1..] == a[1..] + [c] + t;
      SplitAfterFree(a[1..], c, t);
      assert [a[0]] + a[1..] == a;
    }
  }

  /** With a one-character separator, splitting undoes joining, provided that no piece contains
      the separator and there is at least one piece. */
  lemma {:induction false} SplitJoin(xs: seq<string>, c: char)
    requires |xs| >= 1
    requires forall i :: 0 <= i < |xs| ==> c !in xs[i]
    ensures Split(Join(xs, [c]), [c]) == xs
    decreases |xs|
  {
    if |xs| == 1 {
      SplitFree(xs[0], c);
    } else {
      SplitJoin(xs[1..], c);
      SplitAfterFree(xs[0], c, Join(xs[1..], [c]));
      assert [xs[0]] + xs[1..] == xs;
    }
  }

  /** A character of a joined text comes from one of the pieces or from the separator. */
  lemma {:induction false} JoinChars(xs: seq<string>, sep: string, ch: char)
    requires ch in Join(xs, sep)
    ensures ch in sep || exists i :: 0 <= i < |xs| && ch in xs[i]
    decreases |xs|
  {
    if |xs| > 1 {
      if ch !in xs[0] && ch !in sep {
        assert ch in Join(xs[1..], sep);
        JoinChars(xs[1..], sep, ch);
        var i :| 0 <= i < |xs[1..]| && ch in xs[1..][i];
        assert ch in xs[i + 1];
      }
    }
  }

  /** PHP str_replace with a single search string: every occurrence of `pat`, found left to
      right without overlaps, is replaced by `rep`. */
  function ReplaceAll(s: string, pat: string, rep: string): string
    requires |pat| > 0
    decreases |s|
  {
    if |s| < |pat| then s
    else if s[..|pat|] == pat then rep + ReplaceAll(s[|pat|..], pat, rep)
    else [s[0]] + ReplaceAll(s[1..], pat, rep)
  }

  /** Removes characters satisfying `ws` from the front. */
  function TrimStart(s: string, ws: char -> bool): string
    decreases |s|
  {
    if |s| > 0 && ws(s[0]) then TrimStart(s[1..], ws) else s
  }

  /** Removes characters satisfying `ws` from the back. */
  function TrimEnd(s: string, ws: char -> bool): string
    decreases |s|
  {
    if |s| > 0 && ws(s[|s| - 1]) then TrimEnd(s[..|s| - 1], ws) else s
  }

  /** Trimming the front removes blanks only and leaves a suffix that does not start with
      one. */
  lemma {:induction false} TrimStartShape(s: string, ws: char -> bool)
    ensures var r := TrimStart(s, ws);
      (|r| == 0 || !ws(r[0])) && |r| <= |s| && r == s[|s| - |r|..]
    ensures forall k :: 0 <= k < |s| - |TrimStart(s, ws)| ==> ws(s[k])
    decreases |s|
  {
    if |s| > 0 && ws(s[0]) {
      TrimStartShape(s[1..], ws);
      var r := TrimStart(s[1..], ws);
      assert s[|s| - |r|..] == s[1..][|s| - 1 - |r|..];
    }
  }

  /** Trimming the back removes blanks only and leaves a prefix that does not end with one. */
  lemma {:induction false} TrimEndShape(s: string, ws: char -> bool)
    ensures var r := TrimEnd(s, ws);
      (|r| == 0 || !ws(r[|r| - 1])) && |r| <= |s| && r == s[..|r|]
    ensures forall k :: |TrimEnd(s, ws)| <= k < |s| ==> ws(s[k])
    decreases |s|
  {
    if |s| > 0 && ws(s[|s| - 1]) {
      TrimEndShape(s[..|s| - 1], ws);
      var r := TrimEnd(s[..|s| - 1], ws);
      assert s[..|r|] == s[..|s| - 1][..|r|];
    }
  }

  /** Removes characters satisfying `ws` from both ends. */
  function Trim(s: string, ws: char -> bool): (r: string)
  {
    TrimEnd(TrimStart(s, ws), ws)
  }

  /** The trimmed text is a piece of the original: what is cut off on either side is blank,
      and the piece starts and ends with a non-blank character. */
  lemma TrimIsCore(s: string, ws: char -> bool)
    ensures var r := Trim(s, ws);
      var i := |s| - |TrimStart(s, ws)|;
      (|r| == 0 || (!ws(r[0]) && !ws(r[|r| - 1]))) &&
      0 <= i && i + |r| <= |s| && r == s[i..i + |r|]
    ensures forall k :: 0 <= k < |s| - |TrimStart(s, ws)| ==> ws(s[k])
    ensures forall k :: |s| - |TrimStart(s, ws)| + |Trim(s, ws)| <= k < |s| ==> ws(s[k])
  {
    var a := TrimStart(s, ws);
    var r := TrimEnd(a, ws);
    var i := |s| - |a|;
    TrimStartShape(s, ws);
    TrimEndShape(a, ws);
    assert r == a[..|r|];
    assert a == s[i..];
    if |r| > 0 {
      assert r[0] == a[0];
    }
  }

  /** Every character of the trimmed text appears in the original. */
  lemma TrimChars(s: string, ws: char -> bool, ch: char)
    requires ch in Trim(s, ws)
    ensures ch in s
  {
    TrimIsCore(s, ws);
    var r := Trim(s, ws);
    var i := |s| - |TrimStart(s, ws)|;
    var k :| 0 <= k < |r| && r[k] == ch;
    assert s[i + k] == ch;
  }

  /** Trimming an already trimmed text changes nothing. */
  lemma TrimIdempotent(s: string, ws: char -> bool)
    ensures Trim(Trim(s, ws), ws) == Trim(s, ws)
  {
    TrimIsCore(s, ws);
    var r := Trim(s, ws);
    assert TrimStart(r, ws) == r;
    assert TrimEnd(r, ws) == r;
  }

  /** The characters PHP's trim() strips by default: space, tab, line feed, carriage return,
      NUL and vertical tab. */
  predicate IsPhpSpace(c: char)
  {
    c == ' ' || c == '\t' || c == '\n' || c == '\r' || c == '\0' || c == '\U{B}'
  }

  /** PHP trim() with its default character list. */
  function PhpTrim(s: string): string
  {
    Trim(s, IsPhpSpace)
  }

  /** The characters JavaScript's String.prototype.trim strips: the ECMAScript WhiteSpace
      (tab, vertical tab, form feed, the byte order mark and the Unicode space separators)
      and LineTerminator (line feed, carriage return, U+2028, U+2029) productions. */
  predicate IsJsSpace(c: char)
  {
    c == '\t' || c == '\n' || c == '\U{B}' || c == '\U{C}' || c == '\r' || c == ' ' ||
    c == '\U{A0}' || c == '\U{1680}' || ('\U{2000}' <= c <= '\U{200A}') ||
    c == '\U{2028}' || c == '\U{2029}' || c == '\U{202F}' || c == '\U{205F}' ||
    c == '\U{3000}' || c == '\U{FEFF}'
  }

  /** A single character that is not blank is its own trim. */
  lemma TrimSingle(c: char, ws: char -> bool)
    requires !ws(c)
    ensures Trim([c], ws) == [c]
  {
    assert TrimStart([c], ws) == [c];
    assert TrimEnd([c], ws) == [c];
  }

  /** JavaScript String.prototype.trim. */
  function JsTrim(s: string): string
  {
    Trim(s, IsJsSpace)
  }

  /** Upper-cases an ASCII letter; every other character is left as it is. */
  function UpperChar(c: char): (r: char)
    ensures !('a' <= r <= 'z')
    ensures 'a' <= c <= 'z' ==> r as int == c as int - 32
    ensures !('a' <= c <= 'z') ==> r == c
  {
    if 'a' <= c <= 'z' then (c as int - 32) as char else c
  }

  /** String.prototype.toUpperCase restricted to the ASCII letters. */
  function Upper(s: string): (r: string)
    ensures |r| == |s|
    ensures forall i :: 0 <= i < |s| ==> r[i] == UpperChar(s[i])
    decreases |s|
  {
    if |s| == 0 then "" else [UpperChar(s[0])] + Upper(s[1..])
  }

  /** JavaScript String.split with a regular expression of the shape /[...]+/: the text is cut at
      every maximal run of delimiter characters. A leading or trailing run leaves an empty piece
      at that end, and the empty text gives a single empty piece. */
  function SplitRuns(s: string, delim: char -> bool): (r: seq<string>)
    ensures |r| >= 1
    ensures forall i, k :: 0 <= i < |r| && 0 <= k < |r[i]| ==> !delim(r[i][k])
    decreases |s|
  {
    if |s| == 0 then [""]
    else if delim(s[0]) then [""] + SplitRuns(DropRun(s, delim), delim)
    else
      var rest := SplitRuns(s[1..], delim);
      assert forall k :: 0 <= k < |rest[0]| ==> ([s[0]] + rest[0])[k + 1] == rest[0][k];
      [[s[0]] + rest[0]] + rest[1..]
  }

  /** One step of SplitRuns on a text whose first character is not a delimiter. */
  lemma SplitRunsPlain(c: char, t: string, delim: char -> bool)
    requires !delim(c)
    ensures SplitRuns([c] + t, delim) == [[c] + SplitRuns(t, delim)[0]] + SplitRuns(t, delim)[1..]
  {
    assert ([c] + t)[1..] == t;
  }

  /** One step of SplitRuns on a text made of one delimiter and then a non-delimiter. */
  lemma SplitRunsDelimiter(c: char, t: string, delim: char -> bool)
    requires delim(c) && (|t| == 0 || !delim(t[0]))
    ensures SplitRuns([c] + t, delim) == [""] + SplitRuns(t, delim)
  {
    assert ([c] + t)[1..] == t;
  }

  /** Splitting the pieces joined by one delimiter character cuts exactly at the joints: every
      piece comes back, in order, provided none is empty (two delimiters in a row would merge
      into one run) and none holds a delimiter. */
  lemma {:induction false} SplitRunsJoin(xs: seq<string>, d: char, delim: char -> bool)
    requires delim(d) && |xs| >= 1
    requires forall i :: 0 <= i < |xs| ==> |xs[i]| > 0
    requires forall i, k :: 0 <= i < |xs| && 0 <= k < |xs[i]| ==> !delim(xs[i][k])
    ensures SplitRuns(Join(xs, [d]), delim) == xs
    decreases |xs|
  {
    var x := xs[0];
    if |xs| == 1 {
      SplitRunsFreeHead(x, "", delim);
      assert x + "" == x;
      assert "" + "" == "";
    } else {
      var t := xs[1..];
      var j := Join(t, [d]);
      SplitRunsJoin(t, d, delim);
      JoinHead(t, [d]);
      SplitRunsDelimiter(d, j, delim);
      SplitRunsFreeHead(x, [d] + j, delim);
      assert Join(xs, [d]) == x + [d] + j;
      Assoc(x, [d], j);
      var u := SplitRuns([d] + j, delim);
      assert u[0] == "" && u[1..] == t;
      assert x + u[0] == x;
      HeadTail(xs);
    }
  }

  /** A delimiter-free prefix stays glued to the first piece of what follows it. */
  lemma {:induction false} SplitRunsFreeHead(x: string, u: string, delim: char -> bool)
    requires forall k :: 0 <= k < |x| ==> !delim(x[k])
    ensures SplitRuns(x + u, delim) == [x + SplitRuns(u, delim)[0]] + SplitRuns(u, delim)[1..]
    decreases |x|
  {
    var r := SplitRuns(u, delim);
    if |x| == 0 {
      assert x + u == u;
      assert x + r[0] == r[0];
      HeadTail(r);
    } else {
      var y := x[1..];
      SplitRunsFreeHead(y, u, delim);
      TailOfAppend(x, u);
      HeadTail(x + u);
      SplitRunsPlain(x[0], y + u, delim);
      Assoc([x[0]], y, r[0]);
      HeadTail(x);
    }
  }

  /** A join whose first piece is non-empty starts with that piece's first character. */
  lemma JoinHead(xs: seq<string>, sep: string)
    requires |xs| >= 1 && |xs[0]| > 0
    ensures |Join(xs, sep)| > 0 && Join(xs, sep)[0] == xs[0][0]
  {
  }

  /** Drops the run of delimiter characters at the front of a text that starts with one. */
  function DropRun(s: string, delim: char -> bool): (r: string)
    requires |s| > 0 && delim(s[0])
    ensures |r| < |s| && r == s[|s| - |r|..]
    ensures |r| == 0 || !delim(r[0])
    ensures forall k :: 0 <= k < |s| - |r| ==> delim(s[k])
    decreases |s|
  {
    if |s| > 1 && delim(s[1]) then DropRun(s[1..], delim) else s[1..]
  }

  /** The characters of `s` that are not delimiters, in order. */
  function Keep(s: string, delim: char -> bool): string
  {
    if |s| == 0 then "" else (if delim(s[0]) then "" else [s[0]]) + Keep(s[1..], delim)
  }

  /** Concatenation of the pieces. */
  function Concat(xs: seq<string>): string
  {
    if |xs| == 0 then "" else xs[0] + Concat(xs[1..])
  }

  /** Cutting at delimiter runs loses exactly the delimiters: the pieces put back together are
      the text with its delimiter characters removed. */
  lemma {:induction false} SplitRunsKeeps(s: string, delim: char -> bool)
    ensures Concat(SplitRuns(s, delim)) == Keep(s, delim)
    decreases |s|
  {
    if |s| == 0 {
    } else if delim(s[0]) {
      var d := DropRun(s, delim);
      SplitRunsKeeps(d, delim);
      KeepSkipsDelimiters(s, |s| - |d|, delim);
      ConcatEmptyHead(SplitRuns(d, delim));
    } else {
      var rest := SplitRuns(s[1..], delim);
      SplitRunsKeeps(s[1..], delim);
      assert SplitRuns(s, delim) == [[s[0]] + rest[0]] + rest[1..];
      ConcatHead(s[0], rest);
    }
  }

  lemma ConcatEmptyHead(xs: seq<string>)
    ensures Concat([""] + xs) == Concat(xs)
  {
    assert ([""] + xs)[1..] == xs;
  }

  lemma ConcatHead(c: char, xs: seq<string>)
    requires |xs| >= 1
    ensures Concat([[c] + xs[0]] + xs[1..]) == [c] + Concat(xs)
  {
    ConcatCons([c] + xs[0], xs[1..]);
    Assoc([c], xs[0], Concat(xs[1..]));
    assert Concat(xs) == xs[0] + Concat(xs[1..]);
  }

  lemma ConcatCons(x: string, ys: seq<string>)
    ensures Concat([x] + ys) == x + Concat(ys)
  {
    assert ([x] + ys)[1..] == ys;
  }

  lemma HeadTail<T>(xs: seq<T>)
    requires |xs| > 0
    ensures [xs[0]] + xs[1..] == xs
  {
  }

  lemma Single<T>(xs: seq<T>)
    requires |xs| == 1
    ensures xs == [xs[0]]
  {
  }

  lemma TailOfAppend<T>(a: seq<T>, b: seq<T>)
    requires |a| > 0
    ensures (a + b)[0] == a[0] && (a + b)[1..] == a[1..] + b
  {
  }

  lemma DropPrefix<T>(a: seq<T>, b: seq<T>)
    ensures (a + b)[|a|..] == b
  {
  }

  lemma Assoc<T>(a: seq<T>, b: seq<T>, c: seq<T>)
    ensures (a + b) + c == a + (b + c)
  {
  }

  /** Keep ignores a prefix made only of delimiters. */
  lemma {:induction false} KeepSkipsDelimiters(s: string, n: nat, delim: char -> bool)
    requires n <= |s|
    requires forall k :: 0 <= k < n ==> delim(s[k])
    ensures Keep(s, delim) == Keep(s[n..], delim)
    decreases n
  {
    if n > 0 {
      KeepSkipsDelimiters(s[1..], n - 1, delim);
      assert s[1..][n - 1..] == s[n..];
    }
  }
}
