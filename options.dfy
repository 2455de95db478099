/**
 * The choice lists `createFilterInputs` offers: the distinct values of the
 * shift and mode columns with blanks shown as "(Empty)", and the distinct
 * non-blank dates in date order, whose first and last entries are the
 * default range.
 */
module Options {
  import opened Optional
  import opened Text
  import opened Loader
  import opened Dates
  import opened Filters

  /** The label the lists show for a blank value. */
  const EmptyLabel := "(Empty)"

  /** No value occurs twice. */
  predicate NoDup(xs: seq<string>)
  {
    forall i, j :: 0 <= i < j < |xs| ==> xs[i] != xs[j]
  }

  /** `[...new Set(xs)]`: each value once, at its first occurrence. */
  function Distinct(xs: seq<string>): (r: seq<string>)
    ensures NoDup(r)
    ensures forall y :: y in r <==> y in xs
    decreases |xs|
  {
    if |xs| == 0 then []
    else
      var n := |xs| - 1;
      assert xs == xs[..n] + [xs[n]];
      var d := Distinct(xs[..n]);
      if xs[n] in d then d else d + [xs[n]]
  }

  /** Code-point order on strings, standing in for `localeCompare`: every string, and every prefix of it, comes no later than it. */
  predicate StrLe(a: string, b: string): (r: bool)
    ensures |a| <= |b| && a == b[..|a|] ==> r
    decreases |a|
  {
    |a| == 0 || (|b| > 0 && (a[0] < b[0] || (a[0] == b[0] && StrLe(a[1..], b[1..]))))
  }

  lemma {:induction false} StrLeTotal(a: string, b: string)
    ensures StrLe(a, b) || StrLe(b, a)
    decreases |a|
  {
    if |a| > 0 && |b| > 0 && a[0] == b[0] {
      StrLeTotal(a[1..], b[1..]);
    }
  }

  lemma {:induction false} StrLeTrans(a: string, b: string, c: string)
    requires StrLe(a, b) && StrLe(b, c)
    ensures StrLe(a, c)
    decreases |a|
  {
    if |a| > 0 && a[0] == b[0] && b[0] == c[0] {
      StrLeTrans(a[1..], b[1..], c[1..]);
    }
  }

  lemma {:induction false} StrLeAntisym(a: string, b: string)
    requires StrLe(a, b) && StrLe(b, a)
    ensures a == b
    decreases |a|
  {
    if |a| > 0 {
      StrLeAntisym(a[1..], b[1..]);
      assert a == [a[0]] + a[1..] && b == [b[0]] + b[1..];
    }
  }

  /** The two orders the lists are sorted by. */
  datatype Order = CategoryOrder | DateOrder

  /** The day number a date sorts by; the invalid date sorts before every valid one. */
  function SortKey(s: string): (k: int)
    ensures DateKey(s).Some? ==> k == DateKey(s).value
    ensures DateKey(s).None? ==> k < -MaxDay
  {
    match DateKey(s)
    case None => -MaxDay - 1
    case Some(t) => t
  }

  /**
   * `a` may stand before `b`: for shift and mode values "(Empty)" goes
   * last and other values follow code-point order; for dates, the parsed
   * day decides.
   */
  predicate Le(o: Order, a: string, b: string)
  {
    match o
    case CategoryOrder => b == EmptyLabel || (a != EmptyLabel && StrLe(a, b))
    case DateOrder => SortKey(a) <= SortKey(b)
  }

  /**
   * The ends of each order: "(Empty)" after every other shift or mode
   * value, and an invalid date before every valid one.
   */
  lemma LeEnds(o: Order, a: string, b: string)
    ensures o == CategoryOrder && b == EmptyLabel ==> Le(o, a, b)
    ensures o == CategoryOrder && a == EmptyLabel && b != EmptyLabel ==> !Le(o, a, b)
    ensures o == DateOrder && DateKey(a).None? ==> Le(o, a, b)
    ensures o == DateOrder && DateKey(b).None? ==> (Le(o, a, b) <==> DateKey(a).None?)
  {
  }

  lemma LeTotal(o: Order, a: string, b: string)
    ensures Le(o, a, b) || Le(o, b, a)
  {
    if o == CategoryOrder {
      StrLeTotal(a, b);
    }
  }

  lemma LeTrans(o: Order, a: string, b: string, c: string)
    requires Le(o, a, b) && Le(o, b, c)
    ensures Le(o, a, c)
  {
    if o == CategoryOrder && c != EmptyLabel {
      StrLeTrans(a, b, c);
    }
  }

  predicate Sorted(o: Order, xs: seq<string>)
  {
    forall i, j :: 0 <= i < j < |xs| ==> Le(o, xs[i], xs[j])
  }

  /** A list without repeats keeps none in its tail, and its head is not in its tail. */
  lemma TailNoDup(xs: seq<string>)
    requires NoDup(xs) && |xs| > 0
    ensures NoDup(xs[1..]) && xs[0] !in xs[1..]
  {
    forall i, j | 0 <= i < j < |xs[1..]| ensures xs[1..][i] != xs[1..][j] {
      assert xs[1..][i] == xs[i + 1] && xs[1..][j] == xs[j + 1];
    }
    forall k | 0 <= k < |xs[1..]| ensures xs[1..][k] != xs[0] {
      assert xs[1..][k] == xs[k + 1];
    }
  }

  /** Putting a new value in front of a list without repeats gives a list without repeats. */
  lemma ConsNoDup(y: string, xs: seq<string>)
    requires NoDup(xs) && y !in xs
    ensures NoDup([y] + xs)
  {
    var r := [y] + xs;
    forall i, j | 0 <= i < j < |r| ensures r[i] != r[j] {
      if i == 0 {
        assert r[j] == xs[j - 1];
      } else {
        assert r[i] == xs[i - 1] && r[j] == xs[j - 1];
      }
    }
  }

  /** The entries of `[y] + xs` at positions `i < j`: `y` or an entry of `xs`, then an entry of `xs`. */
  lemma ConsEntries(y: string, xs: seq<string>, i: nat, j: nat)
    requires i < j <= |xs|
    ensures ([y] + xs)[j] == xs[j - 1]
    ensures ([y] + xs)[i] == if i == 0 then y else xs[i - 1]
  {
  }

  /** Putting in front of a sorted list a value that may precede all its entries keeps it sorted. */
  lemma ConsSorted(o: Order, y: string, xs: seq<string>)
    requires Sorted(o, xs)
    requires forall j :: 0 <= j < |xs| ==> Le(o, y, xs[j])
    ensures Sorted(o, [y] + xs)
  {
    var r := [y] + xs;
    forall i, j | 0 <= i < j < |r| ensures Le(o, r[i], r[j]) {
      ConsEntries(y, xs, i, j);
    }
  }

  /** `x` placed before the first entry it may precede. */
  function Insert(o: Order, x: string, xs: seq<string>): (r: seq<string>)
    ensures multiset(r) == multiset(xs) + multiset{x}
    decreases |xs|
  {
    if |xs| == 0 then [x]
    else if Le(o, x, xs[0]) then [x] + xs
    else
      assert xs == [xs[0]] + xs[1..];
      [xs[0]] + Insert(o, x, xs[1..])
  }

  /** The stable sort `Array.prototype.sort` performs with the comparator of `o`. */
  function Sort(o: Order, xs: seq<string>): (r: seq<string>)
    ensures multiset(r) == multiset(xs)
    decreases |xs|
  {
    if |xs| == 0 then []
    else
      assert xs == [xs[0]] + xs[1..];
      Insert(o, xs[0], Sort(o, xs[1..]))
  }

  /** The values of `Insert(o, x, xs)`: `x` and those of `xs`. */
  lemma InsertMembers(o: Order, x: string, xs: seq<string>, y: string)
    ensures y in Insert(o, x, xs) <==> y == x || y in xs
  {
    assert y in Insert(o, x, xs) <==> y in multiset(Insert(o, x, xs));
    assert y in xs <==> y in multiset(xs);
  }

  /** Inserting into a sorted list keeps it sorted. */
  lemma {:induction false} InsertSorted(o: Order, x: string, xs: seq<string>)
    requires Sorted(o, xs)
    ensures Sorted(o, Insert(o, x, xs))
    decreases |xs|
  {
    if |xs| == 0 {
    } else if Le(o, x, xs[0]) {
      forall j | 0 <= j < |xs| ensures Le(o, x, xs[j]) {
        if j > 0 {
          LeTrans(o, x, xs[0], xs[j]);
        }
      }
      ConsSorted(o, x, xs);
    } else {
      var rest := Insert(o, x, xs[1..]);
      InsertSorted(o, x, xs[1..]);
      LeTotal(o, x, xs[0]);
      forall j | 0 <= j < |rest| ensures Le(o, xs[0], rest[j]) {
        InsertMembers(o, x, xs[1..], rest[j]);
        if rest[j] != x {
          var k :| 0 <= k < |xs[1..]| && xs[1..][k] == rest[j];
          assert xs[k + 1] == rest[j];
        }
      }
      ConsSorted(o, xs[0], rest);
    }
  }

  /** Inserting a new value into a list without repeats gives a list without repeats. */
  lemma {:induction false} InsertNoDup(o: Order, x: string, xs: seq<string>)
    requires NoDup(xs) && x !in xs
    ensures NoDup(Insert(o, x, xs))
    decreases |xs|
  {
    if |xs| == 0 {
    } else if Le(o, x, xs[0]) {
      ConsNoDup(x, xs);
    } else {
      TailNoDup(xs);
      InsertNoDup(o, x, xs[1..]);
      InsertMembers(o, x, xs[1..], xs[0]);
      ConsNoDup(xs[0], Insert(o, x, xs[1..]));
    }
  }

  /** The sort orders its result, and a list without repeats stays without repeats. */
  lemma {:induction false} SortSorted(o: Order, xs: seq<string>)
    ensures Sorted(o, Sort(o, xs))
    ensures NoDup(xs) ==> NoDup(Sort(o, xs))
    decreases |xs|
  {
    if |xs| > 0 {
      SortSorted(o, xs[1..]);
      var s := Sort(o, xs[1..]);
      InsertSorted(o, xs[0], s);
      if NoDup(xs) {
        TailNoDup(xs);
        assert xs[0] !in multiset(s);
        InsertNoDup(o, xs[0], s);
      }
    }
  }

  /** A value is in the sorted list exactly when it is in the input. */
  lemma SortMembers(o: Order, xs: seq<string>, y: string)
    ensures y in Sort(o, xs) <==> y in xs
  {
    var r := Sort(o, xs);
    assert y in r <==> y in multiset(r);
    assert y in xs <==> y in multiset(xs);
  }

  /** The value a row shows in the shift or mode list: a blank or missing cell is "(Empty)". */
  function CategoryValue(row: Row, col: string): (v: string)
    ensures v != ""
    ensures col in row && row[col] != "" ==> v == row[col]
    ensures !(col in row && row[col] != "") ==> v == EmptyLabel
  {
    match Lookup(row, col)
    case Some(v) => if v == "" then EmptyLabel else v
    case None => EmptyLabel
  }

  function CategoryValues(rows: seq<Row>, col: string): (vs: seq<string>)
    ensures |vs| == |rows|
    ensures forall k :: 0 <= k < |rows| ==> vs[k] == CategoryValue(rows[k], col)
  {
    seq(|rows|, k requires 0 <= k < |rows| => CategoryValue(rows[k], col))
  }

  /** The shift (or mode) list of the table: `None` when the table has no such column. */
  function CategoryOptions(hs: seq<string>, rows: seq<Row>, kind: ColumnKind): (r: Option<seq<string>>)
    ensures r.None? <==> FindColumn(hs, kind).None?
  {
    match FindColumn(hs, kind)
    case None => None
    case Some(col) => Some(Sort(CategoryOrder, Distinct(CategoryValues(rows, col))))
  }

  /**
   * The list holds each value of the column once, blanks shown as
   * "(Empty)", in code-point order with "(Empty)" last.
   */
  lemma CategoryOptionsSpec(hs: seq<string>, rows: seq<Row>, kind: ColumnKind)
    requires FindColumn(hs, kind).Some?
    ensures var col := FindColumn(hs, kind).value;
      var r := CategoryOptions(hs, rows, kind).value;
      NoDup(r) && Sorted(CategoryOrder, r)
      && (forall y :: y in r <==> exists k :: 0 <= k < |rows| && CategoryValue(rows[k], col) == y)
      && "" !in r
      && (EmptyLabel in r ==> r[|r| - 1] == EmptyLabel)
  {
    var col := FindColumn(hs, kind).value;
    var vs := CategoryValues(rows, col);
    var d := Distinct(vs);
    var r := Sort(CategoryOrder, d);
    assert CategoryOptions(hs, rows, kind).value == r;
    SortSorted(CategoryOrder, d);
    forall y ensures y in r <==> exists k :: 0 <= k < |rows| && CategoryValue(rows[k], col) == y {
      SortMembers(CategoryOrder, d, y);
      CategoryValuesMembers(rows, col, y);
    }
    SortMembers(CategoryOrder, d, "");
    EmptyLabelLast(r);
  }

  /** A value is among the column's values exactly when some row shows it. */
  lemma CategoryValuesMembers(rows: seq<Row>, col: string, y: string)
    ensures y in CategoryValues(rows, col) <==> exists k :: 0 <= k < |rows| && CategoryValue(rows[k], col) == y
  {
    var vs := CategoryValues(rows, col);
    if y in vs {
      var k :| 0 <= k < |vs| && vs[k] == y;
      assert CategoryValue(rows[k], col) == y;
    }
    if exists k :: 0 <= k < |rows| && CategoryValue(rows[k], col) == y {
      var k :| 0 <= k < |rows| && CategoryValue(rows[k], col) == y;
      assert vs[k] == y;
    }
  }

  /** In a list sorted for the shift and mode controls, "(Empty)" can only be last. */
  lemma EmptyLabelLast(r: seq<string>)
    requires Sorted(CategoryOrder, r)
    ensures EmptyLabel in r ==> r[|r| - 1] == EmptyLabel
  {
    if EmptyLabel in r {
      var i :| 0 <= i < |r| && r[i] == EmptyLabel;
      assert i < |r| - 1 ==> Le(CategoryOrder, r[i], r[|r| - 1]);
    }
  }

  /** The cell a row holds in the date column; a missing cell counts as blank. */
  function DateCell(row: Row, col: string): string
  {
    match Lookup(row, col)
    case Some(v) => v
    case None => ""
  }

  function DateCells(rows: seq<Row>, col: string): (vs: seq<string>)
    ensures |vs| == |rows|
    ensures forall k :: 0 <= k < |rows| ==> vs[k] == DateCell(rows[k], col)
  {
    seq(|rows|, k requires 0 <= k < |rows| => DateCell(rows[k], col))
  }

  /** The date list of the table: `None` when the table has no date column. */
  function DateOptions(hs: seq<string>, rows: seq<Row>): (r: Option<seq<string>>)
    ensures r.None? <==> FindColumn(hs, DateColumn).None?
  {
    match FindColumn(hs, DateColumn)
    case None => None
    case Some(col) => Some(Sort(DateOrder, KeepNonBlank(Distinct(DateCells(rows, col)))))
  }

  /** The values `KeepNonBlank` keeps: the non-blank ones. */
  lemma {:induction false} KeepNonBlankMembers(xs: seq<string>, y: string)
    ensures y in KeepNonBlank(xs) <==> y in xs && Trim(y) != ""
    decreases |xs|
  {
    if |xs| > 0 {
      KeepNonBlankMembers(xs[1..], y);
      HeadTailMember(xs, y);
      var kept := KeepNonBlank(xs[1..]);
      if Trim(xs[0]) != "" {
        assert KeepNonBlank(xs) == [xs[0]] + kept;
        HeadTailMember([xs[0]] + kept, y);
        assert ([xs[0]] + kept)[1..] == kept;
      }
    }
  }

  /** A value is in a non-empty list when it is the first entry or in the rest. */
  lemma HeadTailMember<T>(xs: seq<T>, y: T)
    requires |xs| > 0
    ensures y in xs <==> y == xs[0] || y in xs[1..]
  {
    assert xs == [xs[0]] + xs[1..];
  }

  /** Dropping blank values from a list without repeats leaves one without repeats. */
  lemma {:induction false} KeepNonBlankNoDup(xs: seq<string>)
    requires NoDup(xs)
    ensures NoDup(KeepNonBlank(xs))
    decreases |xs|
  {
    if |xs| > 0 {
      TailNoDup(xs);
      KeepNonBlankNoDup(xs[1..]);
      if Trim(xs[0]) != "" {
        KeepNonBlankMembers(xs[1..], xs[0]);
        ConsNoDup(xs[0], KeepNonBlank(xs[1..]));
      }
    }
  }

  /**
   * The date list holds each non-blank date of the column once, ordered by
   * the day it names, invalid dates first.
   */
  lemma DateOptionsSpec(hs: seq<string>, rows: seq<Row>)
    requires FindColumn(hs, DateColumn).Some?
    ensures var col := FindColumn(hs, DateColumn).value;
      var r := DateOptions(hs, rows).value;
      NoDup(r) && Sorted(DateOrder, r)
      && (forall y :: y in r <==> Trim(y) != "" && exists k :: 0 <= k < |rows| && DateCell(rows[k], col) == y)
  {
    var col := FindColumn(hs, DateColumn).value;
    var vs := DateCells(rows, col);
    var d := Distinct(vs);
    var nb := KeepNonBlank(d);
    KeepNonBlankNoDup(d);
    SortSorted(DateOrder, nb);
    var r := Sort(DateOrder, nb);
    forall y ensures y in r <==> Trim(y) != "" && exists k :: 0 <= k < |rows| && DateCell(rows[k], col) == y {
      SortMembers(DateOrder, nb, y);
      KeepNonBlankMembers(d, y);
      if y in vs {
        var k :| 0 <= k < |vs| && vs[k] == y;
        assert DateCell(rows[k], col) == y;
      }
      if exists k :: 0 <= k < |rows| && DateCell(rows[k], col) == y {
        var k :| 0 <= k < |rows| && DateCell(rows[k], col) == y;
        assert vs[k] == y;
      }
    }
  }

  /** The default "from" and "to" dates: the first and last entries of the list, if any. */
  function DefaultRange(dates: seq<string>): (r: Option<(string, string)>)
    ensures r.None? <==> |dates| == 0
    ensures r.Some? ==> r.value.0 in dates && r.value.1 in dates
    ensures r.Some? ==> r.value == (dates[0], dates[|dates| - 1])
  {
    if |dates| == 0 then None else Some((dates[0], dates[|dates| - 1]))
  }

  /** In a list sorted by date the defaults bound every entry: no valid date lies outside them. */
  lemma DefaultRangeBounds(dates: seq<string>)
    requires Sorted(DateOrder, dates) && |dates| > 0
    ensures var (from, to) := DefaultRange(dates).value;
      forall y :: y in dates ==> SortKey(from) <= SortKey(y) <= SortKey(to)
  {
    forall y | y in dates ensures SortKey(dates[0]) <= SortKey(y) <= SortKey(dates[|dates| - 1]) {
      var k :| 0 <= k < |dates| && dates[k] == y;
      if 0 < k {
        assert Le(DateOrder, dates[0], dates[k]);
      }
      if k < |dates| - 1 {
        assert Le(DateOrder, dates[k], dates[|dates| - 1]);
      }
    }
  }

  /** Two valid dates in a sorted date list stand in the order of the days they name. */
  lemma SortedByDay(dates: seq<string>, i: nat, j: nat)
    requires Sorted(DateOrder, dates) && i < j < |dates|
    requires DateKey(dates[i]).Some? && DateKey(dates[j]).Some?
    ensures !Before(DateKey(dates[j]), DateKey(dates[i]))
  {
    assert Le(DateOrder, dates[i], dates[j]);
  }
}
