/**
 * Worked examples: the model evaluated on small concrete tables.
 */
module Samples {
  import opened Optional
  import opened Text
  import opened Loader
  import opened Filters
  import opened Options
  import opened Dates

  /** `new Set` keeps the first occurrence of each value, in order. */
  lemma DistinctRepeat(a: string, b: string, c: string)
    requires a != b && a != c && b != c
    ensures Distinct([a, b, c, b]) == [a, b, c]
  {
    var x1, x2, x3, x4 := [a], [a, b], [a, b, c], [a, b, c, b];
    assert x2[..1] == x1 && x3[..2] == x2 && x4[..3] == x3;
    assert Distinct(x1) == x1;
    assert Distinct(x2) == x2;
    assert Distinct(x3) == x3;
  }

  /** Two ordinary values in code-point order come first, "(Empty)" last. */
  lemma SortWithEmpty(a: string, b: string)
    requires a != EmptyLabel && b != EmptyLabel && StrLe(a, b) && !StrLe(b, a)
    ensures Sort(CategoryOrder, [b, a, EmptyLabel]) == [a, b, EmptyLabel]
  {
    var bae := [b, a, EmptyLabel];
    SortBeforeEmpty(a);
    InsertAfter(a, b);
    assert bae[0] == b && bae[1..] == [a, EmptyLabel];
  }

  /** An ordinary value sorts before "(Empty)". */
  lemma SortBeforeEmpty(a: string)
    requires a != EmptyLabel
    ensures Sort(CategoryOrder, [a, EmptyLabel]) == [a, EmptyLabel]
  {
    var e, ae := [EmptyLabel], [a, EmptyLabel];
    assert e[1..] == [] && ae[1..] == e;
    assert Sort(CategoryOrder, e) == e;
  }

  /** A value after `a` in code-point order is inserted between `a` and "(Empty)". */
  lemma InsertAfter(a: string, b: string)
    requires a != EmptyLabel && b != EmptyLabel && !StrLe(b, a)
    ensures Insert(CategoryOrder, b, [a, EmptyLabel]) == [a, b, EmptyLabel]
  {
    var e, ae := [EmptyLabel], [a, EmptyLabel];
    assert ae[0] == a && ae[1..] == e && !Le(CategoryOrder, b, a);
    assert Insert(CategoryOrder, b, ae) == [a] + Insert(CategoryOrder, b, e);
    assert Insert(CategoryOrder, b, e) == [b, EmptyLabel];
  }

  /** A shift column holding B, A, a blank and A offers A, B and "(Empty)", in that order. */
  lemma ShiftListSample()
    ensures CategoryOptions(["Shift"], [map["Shift" := "B"], map["Shift" := "A"], map["Shift" := ""], map["Shift" := "A"]], ShiftColumn)
      == Some(["A", "B", "(Empty)"])
  {
    var rows := [map["Shift" := "B"], map["Shift" := "A"], map["Shift" := ""], map["Shift" := "A"]];
    assert Lower("Shift") == "shift";
    assert FindColumn(["Shift"], ShiftColumn) == Some("Shift");
    assert CategoryValues(rows, "Shift") == ["B", "A", "(Empty)", "A"];
    DistinctRepeat("B", "A", "(Empty)");
    assert StrLe("A", "B") && !StrLe("B", "A");
    SortWithEmpty("A", "B");
  }

  /** The stored value 1234 of a scaled column is shown as 123.40. */
  lemma ScaleSample()
    ensures ScaleValue("1234") == "123.40"
  {
    assert LeadingDigits("1234") == "1234";
    assert "1234"[..3] == "123" && "123"[..2] == "12" && "12"[..1] == "1";
    assert DigitsValue("1234") == 1234;
    assert AllDigits("1234");
    assert ScaleValue("1234") == FixedTwo(1234);
    assert NatToDecimal(123) == "123";
    assert FixedTwo(1234) == "123" + "." + ['4', '0'];
  }

  /** A column named VOLTAGE_RMS is scaled. */
  lemma ScaledColumnSample()
    ensures CellValue("VOLTAGE_RMS", ["1234"], 0) == "123.40"
  {
    assert Upper("VOLTAGE_RMS") == "VOLTAGE_RMS";
    assert "VOLTAGE_RMS"[..7] == "VOLTAGE";
    assert IsScaledColumn("VOLTAGE_RMS");
    ScaleSample();
  }

  /** The shift control set to "Night" keeps only the rows whose shift is "Night". */
  lemma ShiftFilterSample()
    ensures var rows := [map["Shift" := "Night"], map["Shift" := "Day"], map["Shift" := ""]];
      FilterRows(["Shift"], rows, Selection("", "", "Night", "")) == [rows[0]]
  {
    var rows := [map["Shift" := "Night"], map["Shift" := "Day"], map["Shift" := ""]];
    assert Lower("Shift") == "shift";
    assert FindColumn(["Shift"], ShiftColumn) == Some("Shift");
    assert rows[1..][1..][1..] == [];
  }

  /**
   * The range 01/06/24 to 30/06/24 keeps a row dated 15/06/24 and a row
   * with no date, and leaves out a row dated 01/07/24.
   */
  lemma DateFilterSample()
    ensures var rows := [map["Date" := "15/06/24"], map["Date" := "01/07/24"], map["Date" := ""]];
      FilterRows(["Date"], rows, Selection("01/06/24", "30/06/24", "", "")) == [rows[0], rows[2]]
  {
    var rows := [map["Date" := "15/06/24"], map["Date" := "01/07/24"], map["Date" := ""]];
    var sel := Selection("01/06/24", "30/06/24", "", "");
    DateColumnSample();
    DateRangeSample();
    KeepDated("15/06/24", sel);
    KeepDated("01/07/24", sel);
    KeepDated("", sel);
    FilterThree(["Date"], rows[0], rows[1], rows[2], sel);
  }

  /** Three rows of which the middle one fails the test filter to the other two. */
  lemma FilterThree(hs: seq<string>, a: Row, b: Row, c: Row, sel: Selection)
    requires Keep(hs, a, sel) && !Keep(hs, b, sel) && Keep(hs, c, sel)
    ensures FilterRows(hs, [a, b, c], sel) == [a, c]
  {
    assert [a, b, c][1..] == [b, c] && [b, c][1..] == [c] && [c][1..] == [];
    assert FilterRows(hs, [c], sel) == [c];
    assert FilterRows(hs, [b, c], sel) == [c];
  }

  /** With only a date column and no shift or mode, a row stays exactly when its date is in range. */
  lemma KeepDated(v: string, sel: Selection)
    requires sel.fromDate != "" || sel.toDate != ""
    ensures Keep(["Date"], map["Date" := v], sel) <==> DateInRange(Some(v), sel)
  {
    DateColumnSample();
    assert !Matches(ShiftColumn, "Date") && !Matches(ModeColumn, "Date");
  }

  /** A column named Date is the date column. */
  lemma DateColumnSample()
    ensures FindColumn(["Date"], DateColumn) == Some("Date")
  {
    assert Lower("Date") == "date";
  }

  /** The date test of the range 01/06/24 to 30/06/24 on the three dates above. */
  lemma DateRangeSample()
    ensures var sel := Selection("01/06/24", "30/06/24", "", "");
      DateInRange(Some("15/06/24"), sel) && !DateInRange(Some("01/07/24"), sel) && DateInRange(Some(""), sel)
  {
    var sel := Selection("01/06/24", "30/06/24", "", "");
    RealDate("01/06/24", 1, 6);
    RealDate("30/06/24", 30, 6);
    InJune("15/06/24", sel);
    InJuly("01/07/24", sel);
  }

  /** 15/06/24 lies in the range from 1 June to 30 June 2024. */
  lemma InJune(c: string, sel: Selection)
    requires c == "15/06/24"
    requires sel.fromDate != "" && IsRealShortDate(Split(sel.fromDate, '/'))
    requires sel.toDate != "" && IsRealShortDate(Split(sel.toDate, '/'))
    requires var f, t := Split(sel.fromDate, '/'), Split(sel.toDate, '/');
      ShortYear(f) == 2024 && ShortMonth(f) == 6 && ShortDay(f) == 1
      && ShortYear(t) == 2024 && ShortMonth(t) == 6 && ShortDay(t) == 30
    ensures DateInRange(Some(c), sel)
  {
    RealDate(c, 15, 6);
    ShortDateRange(c, sel);
  }

  /** 01/07/24 lies after a "to" bound of 30 June 2024. */
  lemma InJuly(c: string, sel: Selection)
    requires c == "01/07/24"
    requires sel.fromDate != "" && IsRealShortDate(Split(sel.fromDate, '/'))
    requires sel.toDate != "" && IsRealShortDate(Split(sel.toDate, '/'))
    requires var t := Split(sel.toDate, '/');
      ShortYear(t) == 2024 && ShortMonth(t) == 6 && ShortDay(t) == 30
    ensures !DateInRange(Some(c), sel)
  {
    RealDate(c, 1, 7);
    ShortDateRange(c, sel);
  }

  /** A DD/MM/24 string names day `dv` of month `mv` of 2024, a day that exists. */
  lemma RealDate(s: string, dv: int, mv: int)
    requires |s| == 8 && s[2] == '/' && s[5] == '/' && s[6..] == "24"
    requires IsDigit(s[0]) && IsDigit(s[1]) && IsDigit(s[3]) && IsDigit(s[4])
    requires dv == 10 * DigitValue(s[0]) + DigitValue(s[1]) && mv == 10 * DigitValue(s[3]) + DigitValue(s[4])
    requires 1 <= mv <= 12 && 1 <= dv <= DaysInMonth(mv - 1, true)
    ensures var parts := Split(s, '/');
      IsRealShortDate(parts) && ShortYear(parts) == 2024 && ShortMonth(parts) == mv && ShortDay(parts) == dv
  {
    var d, m, y := s[..2], s[3..5], s[6..];
    assert s == d + "/" + m + "/" + y;
    SplitDate(d, m, y);
    ShortDate(d, m, y);
    assert IsLeapYear(2024);
  }

  /** The short date with two-digit parts `d`, `m` and `y`. */
  lemma ShortDate(d: string, m: string, y: string)
    requires |d| == 2 && IsDigit(d[0]) && IsDigit(d[1])
    requires |m| == 2 && IsDigit(m[0]) && IsDigit(m[1])
    requires |y| == 2 && IsDigit(y[0]) && IsDigit(y[1])
    ensures IsShortDate([d, m, y])
    ensures ShortYear([d, m, y]) == 2000 + 10 * DigitValue(y[0]) + DigitValue(y[1])
    ensures ShortMonth([d, m, y]) == 10 * DigitValue(m[0]) + DigitValue(m[1])
    ensures ShortDay([d, m, y]) == 10 * DigitValue(d[0]) + DigitValue(d[1])
  {
    TwoDigits(d);
    TwoDigits(m);
    TwoDigits(y);
  }

  /** The value of a two-digit numeral. */
  lemma TwoDigits(s: string)
    requires |s| == 2 && IsDigit(s[0]) && IsDigit(s[1])
    ensures AllDigits(s) && DigitsValue(s) == 10 * DigitValue(s[0]) + DigitValue(s[1])
  {
    var h := s[..1];
    assert h[..0] == [] && h[0] == s[0];
    assert DigitsValue(h) == DigitValue(s[0]);
    assert s[..|s| - 1] == h;
  }

  /** A date written as three '/'-free parts splits back into them. */
  lemma SplitDate(d: string, m: string, y: string)
    requires '/' !in d && '/' !in m && '/' !in y
    ensures Split(d + "/" + m + "/" + y, '/') == [d, m, y]
  {
    SplitNoSep(y, '/');
    SplitAfterPiece(m, '/', y);
    assert d + "/" + m + "/" + y == d + ['/'] + (m + ['/'] + y);
    SplitAfterPiece(d, '/', m + ['/'] + y);
  }
}
