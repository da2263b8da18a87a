/** The five-field cron expression editor of the admin form: the fixed field grammars, the
    composition of the five inputs into the hidden value, the split of a stored value back
    into the inputs, and the widget state that tracks which fields are invalid. */
module CronEditor {
  import opened Wrappers
  import opened Text
  import opened Decimal

  /** The five fields of a cron expression, in their order in the expression. */
  datatype FieldKind = Minute | Hour | DayOfMonth | Month | DayOfWeek

  const Kinds: seq<FieldKind> := [Minute, Hour, DayOfMonth, Month, DayOfWeek]

  /** The smallest and largest value each field's pattern admits. */
  function Lo(k: FieldKind): nat
  {
    match k
    case Minute => 0
    case Hour => 0
    case DayOfMonth => 1
    case Month => 1
    case DayOfWeek => 0
  }

  function Hi(k: FieldKind): nat
  {
    match k
    case Minute => 59
    case Hour => 23
    case DayOfMonth => 31
    case Month => 12
    case DayOfWeek => 6
  }

  predicate InClass(c: char, lo: char, hi: char)
  {
    lo <= c <= hi
  }

  /** The value alternatives of each field's pattern, character class by character class:
      minute [0-9]|[1-5][0-9], hour [0-9]|1[0-9]|2[0-3], day of month [1-9]|[12][0-9]|3[01],
      month [1-9]|1[0-2], day of week [0-6]. */
  predicate Atom(k: FieldKind, s: string)
  {
    match k
    case Minute =>
      (|s| == 1 && InClass(s[0], '0', '9')) ||
      (|s| == 2 && InClass(s[0], '1', '5') && InClass(s[1], '0', '9'))
    case Hour =>
      (|s| == 1 && InClass(s[0], '0', '9')) ||
      (|s| == 2 && s[0] == '1' && InClass(s[1], '0', '9')) ||
      (|s| == 2 && s[0] == '2' && InClass(s[1], '0', '3'))
    case DayOfMonth =>
      (|s| == 1 && InClass(s[0], '1', '9')) ||
      (|s| == 2 && InClass(s[0], '1', '2') && InClass(s[1], '0', '9')) ||
      (|s| == 2 && s[0] == '3' && InClass(s[1], '0', '1'))
    case Month =>
      (|s| == 1 && InClass(s[0], '1', '9')) ||
      (|s| == 2 && s[0] == '1' && InClass(s[1], '0', '2'))
    case DayOfWeek =>
      |s| == 1 && InClass(s[0], '0', '6')
  }

  /** One list item of a field: a value or a range `v-v`. */
  predicate Item(k: FieldKind, p: string)
  {
    var ends := Split(p, "-");
    (|ends| == 1 && Atom(k, ends[0])) || (|ends| == 2 && Atom(k, ends[0]) && Atom(k, ends[1]))
  }

  /** A comma-separated list of items. */
  predicate ItemList(k: FieldKind, s: string)
  {
    var items := Split(s, ",");
    forall i :: 0 <= i < |items| ==> Item(k, items[i])
  }

  /** The whole-string pattern of a field: `*`, a list of items, or a step `*\/v`. */
  predicate Matches(k: FieldKind, s: string)
  {
    s == "*" || ItemList(k, s) || (|s| >= 2 && s[..2] == "*/" && Atom(k, s[2..]))
  }

  /** validateField: an empty value fails before the pattern is tried. An accepted value is
      never blank and never holds a space, so it stays one field of the expression. */
  function ValidateField(val: string, k: FieldKind): (r: bool)
    ensures r ==> val != "" && ' ' !in val
  {
    if val == "" then false
    else if Matches(k, val) then MatchesHasNoSpace(k, val); true
    else false
  }

  /** The number a one- or two-character atom spells. */
  function AtomValue(s: string): nat
    requires 1 <= |s| <= 2 && IsDigits(s)
  {
    if |s| == 1 then DigitValue(s[0]) else 10 * DigitValue(s[0]) + DigitValue(s[1])
  }

  /** The shortest numeral of a number below 100, digit by digit. */
  lemma DecBelowHundred(n: nat)
    requires n < 100
    ensures Dec(n) == if n < 10 then [DigitChar(n)] else [DigitChar(n / 10), DigitChar(n % 10)]
  {
    if n >= 10 {
      assert Dec(n) == Dec(n / 10) + [DigitChar(n % 10)];
    }
  }

  /** Each field's value alternatives are exactly the shortest numerals (no leading zero) of
      the numbers in the field's range. */
  lemma AtomIsRangeValue(k: FieldKind, s: string)
    ensures Atom(k, s) <==> exists n: nat :: Lo(k) <= n <= Hi(k) && s == Dec(n)
  {
    if Atom(k, s) {
      AtomHasValue(k, s);
    }
    if n: nat :| Lo(k) <= n <= Hi(k) && s == Dec(n) {
      ValueIsAtom(k, n);
    }
  }

  lemma AtomHasValue(k: FieldKind, s: string)
    requires Atom(k, s)
    ensures Lo(k) <= AtomValue(s) <= Hi(k) && s == Dec(AtomValue(s))
  {
    assert IsDigits(s);
    var n := AtomValue(s);
    DecBelowHundred(n);
    if |s| == 2 {
      assert n / 10 == DigitValue(s[0]) && n % 10 == DigitValue(s[1]);
      assert Dec(n) == [s[0], s[1]] == s;
    } else {
      assert Dec(n) == [s[0]] == s;
    }
  }

  lemma ValueIsAtom(k: FieldKind, n: nat)
    requires Lo(k) <= n <= Hi(k)
    ensures Atom(k, Dec(n))
  {
    DecBelowHundred(n);
  }

  /** An atom is made of digits. */
  lemma AtomDigits(k: FieldKind, s: string)
    requires Atom(k, s)
    ensures IsDigits(s) && 1 <= |s| <= 2
  {
  }

  /** A value a field's pattern accepts holds no space. */
  lemma MatchesHasNoSpace(k: FieldKind, s: string)
    requires Matches(k, s)
    ensures ' ' !in s
  {
    if s == "*" {
    } else if ItemList(k, s) {
      var items := Split(s, ",");
      forall i | 0 <= i < |items| ensures ' ' !in items[i] {
        var ends := Split(items[i], "-");
        forall j | 0 <= j < |ends| ensures ' ' !in ends[j] {
          AtomDigits(k, ends[j]);
        }
        JoinSplit(items[i], "-");
        if ' ' in items[i] {
          JoinChars(ends, "-", ' ');
        }
      }
      JoinSplit(s, ",");
      if ' ' in s {
        JoinChars(items, ",", ' ');
      }
    } else {
      AtomDigits(k, s[2..]);
      forall j | 0 <= j < |s| ensures s[j] != ' ' {
        if j >= 2 {
          assert s[j] == s[2..][j - 2];
        } else {
          assert s[j] == s[..2][j];
        }
      }
    }
  }

  /** An item without a dash is a single value. */
  lemma ItemSingle(k: FieldKind, p: string)
    requires '-' !in p
    ensures Item(k, p) <==> Atom(k, p)
  {
    SplitFree(p, '-');
  }

  /** An item with one dash is a range of two values, in either order. */
  lemma ItemRange(k: FieldKind, a: string, b: string)
    requires '-' !in a && '-' !in b
    ensures Item(k, a + "-" + b) <==> Atom(k, a) && Atom(k, b)
  {
    SplitAfterFree(a, '-', b);
    SplitFree(b, '-');
  }

  /** A list without a comma is a single item. */
  lemma ListSingle(k: FieldKind, s: string)
    requires ',' !in s
    ensures ItemList(k, s) <==> Item(k, s)
  {
    SplitFree(s, ',');
    var items := Split(s, ",");
    assert items == [s];
    if ItemList(k, s) {
      assert Item(k, items[0]);
    }
    if Item(k, s) {
      assert forall i :: 0 <= i < |items| ==> items[i] == s;
    }
  }

  /** A list with one comma is two items. */
  lemma ListPair(k: FieldKind, a: string, b: string)
    requires ',' !in a && ',' !in b
    ensures ItemList(k, a + "," + b) <==> Item(k, a) && Item(k, b)
  {
    SplitAfterFree(a, ',', b);
    SplitFree(b, ',');
    var items := Split(a + "," + b, ",");
    assert items == [a, b];
    if ItemList(k, a + "," + b) {
      assert Item(k, items[0]) && Item(k, items[1]);
    }
    if Item(k, a) && Item(k, b) {
      assert forall i :: 0 <= i < |items| ==> items[i] == a || items[i] == b;
    }
  }

  /** A plain value, without star, comma or dash, is accepted exactly when it is one of the
      field's values. */
  lemma PlainValue(k: FieldKind, v: string)
    requires v != "" && v[0] != '*' && ',' !in v && '-' !in v
    ensures ValidateField(v, k) <==> Atom(k, v)
  {
    ListSingle(k, v);
    ItemSingle(k, v);
  }

  /** A step `*\/v` is accepted exactly when v is one of the field's values. */
  lemma StepValue(k: FieldKind, v: string)
    requires ',' !in v && '-' !in v
    ensures ValidateField("*/" + v, k) <==> Atom(k, v)
  {
    var s := "*/" + v;
    assert s[..2] == "*/" && s[2..] == v;
    assert ',' !in s && '-' !in s by {
      assert forall i :: 2 <= i < |s| ==> s[i] == v[i - 2];
    }
    ListSingle(k, s);
    ItemSingle(k, s);
  }

  /** A range `a-b` is accepted exactly when both ends are values of the field. */
  lemma RangeValue(k: FieldKind, a: string, b: string)
    requires a != "" && a[0] != '*' && ',' !in a && ',' !in b && '-' !in a && '-' !in b
    ensures ValidateField(a + "-" + b, k) <==> Atom(k, a) && Atom(k, b)
  {
    var s := a + "-" + b;
    assert s[0] == a[0];
    assert ',' !in s by {
      assert forall i :: 0 <= i < |s| ==> s[i] == (if i < |a| then a[i] else if i == |a| then '-' else b[i - |a| - 1]);
    }
    ListSingle(k, s);
    ItemRange(k, a, b);
  }

  /** The ranges at work: minute 60 and day of week 7 are out of range; minute 59, the step
      *\/15 and the range 0-30 are accepted. */
  lemma RangeExamples()
    ensures !ValidateField("60", Minute) && !ValidateField("7", DayOfWeek)
    ensures ValidateField("59", Minute) && ValidateField("*/15", Minute) && ValidateField("0-30", Minute)
  {
    OutOfRangeExamples();
    InRangeExamples();
  }

  lemma OutOfRangeExamples()
    ensures !ValidateField("60", Minute) && !ValidateField("7", DayOfWeek)
  {
    PlainValue(Minute, "60");
    PlainValue(DayOfWeek, "7");
  }

  lemma InRangeExamples()
    ensures ValidateField("59", Minute) && ValidateField("*/15", Minute) && ValidateField("0-30", Minute)
  {
    PlainValue(Minute, "59");
    StepValue(Minute, "15");
    assert "*/" + "15" == "*/15";
    RangeValue(Minute, "0", "30");
    assert "0" + "-" + "30" == "0-30";
  }

  /** A star inside a list is not a value: a list of two or more items of which one is `*` is
      rejected, wherever the star stands. */
  lemma StarInList(k: FieldKind, s: string)
    requires |Split(s, ",")| >= 2 && "*" in Split(s, ",")
    ensures !ValidateField(s, k)
  {
    var items := Split(s, ",");
    SplitHasSeparator(s, ',');
    var j :| 0 <= j < |items| && items[j] == "*";
    ItemSingle(k, "*");
    assert !Item(k, items[j]);
    var m :| 0 <= m < |s| && s[m] == ',';
    if |s| >= 2 && s[..2] == "*/" {
      assert s[2..][m - 2] == ',';
      if Atom(k, s[2..]) {
        AtomDigits(k, s[2..]);
      }
    }
  }

  /** A list whose first item is a star is rejected, whatever follows the comma. */
  lemma StarFirst(k: FieldKind, b: string)
    ensures !ValidateField("*," + b, k)
  {
    SplitAfterFree("*", ',', b);
    assert "*," + b == "*" + "," + b;
    StarInList(k, "*," + b);
  }

  /** The shapes at work: a leading zero, a star inside a list and a step after a range are
      rejected. */
  lemma ShapeRejected()
    ensures !ValidateField("05", Minute) && !ValidateField("*,5", Minute) && !ValidateField("0-30/5", Minute)
  {
    PlainValue(Minute, "05");
    StarFirst(Minute, "5");
    assert "*," + "5" == "*,5";
    RangeValue(Minute, "0", "30/5");
    assert "0" + "-" + "30/5" == "0-30/5";
  }

  /** A zero step and a descending range are accepted. */
  lemma ShapeAccepted()
    ensures ValidateField("*/0", Minute) && ValidateField("30-0", Minute)
  {
    StepValue(Minute, "0");
    assert "*/" + "0" == "*/0";
    RangeValue(Minute, "30", "0");
    assert "30" + "-" + "0" == "30-0";
  }

  /** One composed cell: the trimmed input, or `*` when the input is blank. */
  function Cell(f: string): (r: string)
    ensures r != ""
  {
    var t := JsTrim(f);
    if t == "" then "*" else t
  }

  /** The cells of all inputs, in order. */
  function Cells(fields: seq<string>): (r: seq<string>)
    ensures |r| == |fields|
    ensures forall i :: 0 <= i < |fields| ==> r[i] == Cell(fields[i])
  {
    if |fields| == 0 then [] else [Cell(fields[0])] + Cells(fields[1..])
  }

  /** The expression written to the hidden input: the cells joined by single spaces. */
  function Compose(fields: seq<string>): string
  {
    Join(Cells(fields), " ")
  }

  /** The stored value the widget starts from; a missing or empty value is every minute. */
  function StoredValue(value: Option<string>): string
  {
    if value == None || value == Some("") then "* * * * *" else value.value
  }

  /** The five inputs filled from the stored value: it is split at single spaces, a missing
      or empty piece gives `*`, and pieces after the fifth are dropped. */
  function InitialFields(value: Option<string>): (r: seq<string>)
    ensures |r| == 5
    ensures forall i :: 0 <= i < 5 ==> r[i] != ""
  {
    var parts := Split(StoredValue(value), " ");
    seq(5, i requires 0 <= i < 5 => if i < |parts| && parts[i] != "" then parts[i] else "*")
  }

  /** Without a stored value every input starts as `*`. */
  lemma InitialDefault()
    ensures InitialFields(None) == ["*", "*", "*", "*", "*"]
    ensures InitialFields(Some("")) == ["*", "*", "*", "*", "*"]
  {
    var stars := ["*", "*", "*", "*", "*"];
    JoinStars();
    SplitJoin(stars, ' ');
  }

  lemma JoinStars()
    ensures Join(["*", "*", "*", "*", "*"], " ") == "* * * * *"
  {
    var stars := ["*", "*", "*", "*", "*"];
    assert stars[1..] == ["*", "*", "*", "*"] && stars[1..][1..] == ["*", "*", "*"];
    assert stars[1..][1..][1..] == ["*", "*"] && stars[1..][1..][1..][1..] == ["*"];
    assert Join(["*", "*"], " ") == "* *";
    assert Join(["*", "*", "*"], " ") == "* " + "* *";
    assert Join(["*", "*", "*", "*"], " ") == "* " + "* * *";
  }

  /** When no cell holds a space, the composed expression has exactly five fields and reading
      it back fills the inputs with the cells. */
  lemma {:induction false} ComposeRoundTrip(fields: seq<string>)
    requires |fields| == 5
    requires forall i :: 0 <= i < 5 ==> ' ' !in Cell(fields[i])
    ensures |Split(Compose(fields), " ")| == 5
    ensures InitialFields(Some(Compose(fields))) == Cells(fields)
  {
    var cells := Cells(fields);
    SplitJoin(cells, ' ');
    assert Compose(fields) == cells[0] + " " + Join(cells[1..], " ");
  }

  /** validateField as the widget calls it: on the trimmed input of field `i`. */
  predicate FieldValid(fields: seq<string>, i: nat)
    requires i < |fields| && i < 5
  {
    ValidateField(JsTrim(fields[i]), Kinds[i])
  }

  /** Some field fails validation. */
  predicate HasError(fields: seq<string>)
  {
    exists i :: 0 <= i < |fields| && i < 5 && !FieldValid(fields, i)
  }

  /** When all five fields are valid, storing the composed expression and reading it back gives
      the trimmed inputs. */
  lemma ValidRoundTrip(fields: seq<string>)
    requires |fields| == 5 && !HasError(fields)
    ensures InitialFields(Some(Compose(fields))) == seq(5, i requires 0 <= i < 5 => JsTrim(fields[i]))
  {
    forall i | 0 <= i < 5 ensures Cell(fields[i]) == JsTrim(fields[i]) && ' ' !in Cell(fields[i]) {
      assert FieldValid(fields, i);
    }
    ComposeRoundTrip(fields);
  }

  /** A blank input is composed as `*` but still reported invalid, so the expression is
      flagged. */
  lemma BlankFieldInvalid(fields: seq<string>, i: nat)
    requires i < |fields| && i < 5 && JsTrim(fields[i]) == ""
    ensures Cells(fields)[i] == "*" && !FieldValid(fields, i) && HasError(fields)
  {
    var v := ValidateField(JsTrim(fields[i]), Kinds[i]);
    assert !v;
    assert FieldValid(fields, i) == v;
    assert Cells(fields)[i] == Cell(fields[i]);
  }

  /** The text under the inputs: the field error, cronstrue's description of the expression,
      or the generic error when cronstrue throws. */
  datatype Summary = FieldsInvalid | Description(text: string) | DescriptionFailed

  function SummaryOf(hasError: bool, expr: string, describe: string -> Option<string>): Summary
  {
    if hasError then FieldsInvalid
    else match describe(expr)
      case Some(text) => Description(text)
      case None => DescriptionFailed
  }

  /** The forEach of updateCronExpression: validates each trimmed input, records which are
      invalid and accumulates whether any is. */
  method MarkFields(fields: seq<string>) returns (marks: seq<bool>, hasError: bool)
    requires |fields| == 5
    ensures |marks| == 5
    ensures forall i :: 0 <= i < 5 ==> marks[i] == !FieldValid(fields, i)
    ensures hasError == HasError(fields)
  {
    ghost var expected := seq(5, j requires 0 <= j < 5 => !FieldValid(fields, j));
    hasError := false;
    marks := [];
    var i := 0;
    while i < 5
      invariant 0 <= i <= 5
      invariant marks == expected[..i]
      invariant hasError <==> true in marks
    {
      var valid := ValidateField(JsTrim(fields[i]), Kinds[i]);
      assert expected[i] == !valid;
      marks := marks + [!valid];
      if !valid {
        hasError := true;
      }
      i := i + 1;
    }
    assert marks == expected;
    MarksShowError(fields, marks);
  }

  /** Marks that record which fields are invalid contain a mark exactly when some field is. */
  lemma MarksShowError(fields: seq<string>, marks: seq<bool>)
    requires |fields| == 5 && |marks| == 5
    requires forall i :: 0 <= i < 5 ==> marks[i] == !FieldValid(fields, i)
    ensures (true in marks) == HasError(fields)
  {
    if true in marks {
      var i :| 0 <= i < 5 && marks[i];
      assert !FieldValid(fields, i);
    }
  }

  /** The editor widget of one cron configuration field. The describer stands for cronstrue:
      None is a description that threw. */
  class Editor {
    const describe: string -> Option<string>
    const hasInheritBox: bool
    var fields: seq<string>
    var hidden: string
    var invalid: seq<bool>
    var isExpressionInvalid: bool
    var summary: Summary
    var inheritChecked: bool
    var rowDisabled: bool

    /** The hidden input, the invalid marks, the flag and the summary all follow the inputs. */
    predicate Synced()
      reads this
    {
      |fields| == 5 && |invalid| == 5 &&
      hidden == Compose(fields) &&
      (forall i :: 0 <= i < 5 ==> invalid[i] == !FieldValid(fields, i)) &&
      isExpressionInvalid == HasError(fields) &&
      summary == SummaryOf(isExpressionInvalid, hidden, describe)
    }

    /** Fills the inputs from the stored value, greys the row out when the inherit box is
        checked, and composes the expression once. */
    constructor(value: Option<string>, describe: string -> Option<string>, hasInheritBox: bool, inheritChecked: bool)
      ensures fields == InitialFields(value) && Synced()
      ensures this.describe == describe && this.hasInheritBox == hasInheritBox
      ensures this.inheritChecked == inheritChecked
      ensures rowDisabled == (hasInheritBox && inheritChecked)
    {
      this.describe := describe;
      this.hasInheritBox := hasInheritBox;
      this.inheritChecked := inheritChecked;
      rowDisabled := hasInheritBox && inheritChecked;
      fields := InitialFields(value);
      hidden := "";
      invalid := [];
      isExpressionInvalid := false;
      summary := FieldsInvalid;
      new;
      UpdateCronExpression();
    }

    /** updateCronExpression: writes the composed expression, marks each field, and sets the
        error flag and the summary. */
    method UpdateCronExpression()
      requires |fields| == 5
      modifies this
      ensures Synced()
      ensures fields == old(fields) && inheritChecked == old(inheritChecked) && rowDisabled == old(rowDisabled)
    {
      var expr := Compose(fields);
      var marks, hasError := MarkFields(fields);
      hidden := expr;
      invalid := marks;
      isExpressionInvalid := hasError;
      summary := SummaryOf(hasError, expr, describe);
    }

    /** The input event of field `i`. */
    method Input(i: nat, v: string)
      requires i < 5 && |fields| == 5
      modifies this
      ensures fields == old(fields)[i := v] && Synced()
      ensures inheritChecked == old(inheritChecked) && rowDisabled == old(rowDisabled)
    {
      fields := fields[i := v];
      UpdateCronExpression();
    }

    /** updateFieldsDisabledState on a change of the inherit box: the row is greyed out
        exactly while the box is checked. */
    method InheritChanged(checked: bool)
      requires hasInheritBox
      modifies this
      ensures inheritChecked == checked && rowDisabled == checked
      ensures fields == old(fields) && hidden == old(hidden) && invalid == old(invalid)
      ensures isExpressionInvalid == old(isExpressionInvalid) && summary == old(summary)
    {
      inheritChecked := checked;
      rowDisabled := checked;
    }

    /** The validate-cron-expression rule: true exactly when every field validates, which, once
        the widget is in sync, is exactly when its error flag is clear. */
    method ValidateRule() returns (isValid: bool)
      requires |fields| == 5
      ensures isValid <==> forall i :: 0 <= i < 5 ==> FieldValid(fields, i)
      ensures isValid == !HasError(fields)
      ensures Synced() ==> isValid == !isExpressionInvalid
    {
      isValid := true;
      var i := 0;
      while i < 5
        invariant 0 <= i <= 5
        invariant isValid <==> forall j :: 0 <= j < i ==> FieldValid(fields, j)
      {
        var valid := ValidateField(JsTrim(fields[i]), Kinds[i]);
        assert valid == FieldValid(fields, i);
        if !valid {
          isValid := false;
        }
        i := i + 1;
      }
    }
  }
}
