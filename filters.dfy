/**
 * The row filter of `applyFilters`: the columns it looks up, the test
 * each row must pass, and the order-preserving selection it returns.
 */
module Filters {
  import opened Optional
  import opened Text
  import opened Loader
  import opened Dates

  /** The values chosen in the four filter controls; the empty string means "no choice". */
  datatype Selection = Selection(fromDate: string, toDate: string, shift: string, mode: string)

  /** All four controls cleared. */
  const NoSelection := Selection("", "", "", "")

  /** The three columns the filter looks for. */
  datatype ColumnKind = DateColumn | ShiftColumn | ModeColumn

  /** Whether header `h` is a column of the given kind (letters compared in lower case). */
  predicate Matches(kind: ColumnKind, h: string)
  {
    match kind
    case DateColumn => Includes(Lower(h), "date")
    case ShiftColumn => Lower(h) == "shift"
    case ModeColumn => Lower(h) == "vfd_mode_status" || h == "VFD_MODE_STATUS"
  }

  /**
   * The column tests ignore letter case: the one spelling the mode test
   * also names, "VFD_MODE_STATUS", is already matched in lower case.
   */
  lemma MatchesIgnoresCase(kind: ColumnKind, h: string, h2: string)
    requires Lower(h) == Lower(h2)
    ensures Matches(kind, h) <==> Matches(kind, h2)
  {
    if h == "VFD_MODE_STATUS" || h2 == "VFD_MODE_STATUS" {
      assert Lower("VFD_MODE_STATUS") == "vfd_mode_status";
    }
  }

  /** Position of the first header of the given kind, or `|hs|` when there is none. */
  function FirstMatch(hs: seq<string>, kind: ColumnKind): (i: nat)
    ensures i <= |hs|
    ensures i < |hs| ==> Matches(kind, hs[i])
    ensures forall j :: 0 <= j < i ==> !Matches(kind, hs[j])
    decreases |hs|
  {
    if |hs| == 0 || Matches(kind, hs[0]) then 0 else 1 + FirstMatch(hs[1..], kind)
  }

  /** `headers.find(...)`: the first header of the given kind, if any. */
  function FindColumn(hs: seq<string>, kind: ColumnKind): (c: Option<string>)
    ensures c.None? <==> forall j :: 0 <= j < |hs| ==> !Matches(kind, hs[j])
    ensures c.Some? ==>
      exists i :: (0 <= i < |hs| && hs[i] == c.value && Matches(kind, hs[i])
        && forall j :: 0 <= j < i ==> !Matches(kind, hs[j]))
  {
    var i := FirstMatch(hs, kind);
    if i < |hs| then Some(hs[i]) else None
  }

  /** `row[col]`: `None` stands for `undefined`, the value of a missing key. */
  function Lookup(row: Row, col: string): (v: Option<string>)
    ensures v.Some? <==> col in row
    ensures v.Some? ==> v.value == row[col]
  {
    if col in row then Some(row[col]) else None
  }

  /**
   * The date-range part of the test for a row whose date cell is `cell`:
   * a blank or missing date passes, otherwise the parsed date must not be
   * before the parsed "from" bound nor after the parsed "to" bound.
   */
  predicate DateInRange(cell: Option<string>, sel: Selection)
  {
    match cell
    case None => true
    case Some(v) =>
      v == "" ||
      ((sel.fromDate == "" || !Before(DateKey(v), DateKey(sel.fromDate)))
       && (sel.toDate == "" || !Before(DateKey(sel.toDate), DateKey(v))))
  }

  /** The equality test of the shift or mode control on a row. */
  predicate ValueMatches(hs: seq<string>, kind: ColumnKind, row: Row, chosen: string)
  {
    match FindColumn(hs, kind)
    case None => true
    case Some(col) => chosen == "" || Lookup(row, col) == Some(chosen)
  }

  /** Whether the date controls restrict a row of a table with headers `hs`. */
  predicate DateTestApplies(hs: seq<string>, sel: Selection)
  {
    FindColumn(hs, DateColumn).Some? && (sel.fromDate != "" || sel.toDate != "")
  }

  /** The callback `applyFilters` hands to `filter`: does the row stay? */
  predicate Keep(hs: seq<string>, row: Row, sel: Selection)
  {
    (DateTestApplies(hs, sel) ==> DateInRange(Lookup(row, FindColumn(hs, DateColumn).value), sel))
    && ValueMatches(hs, ShiftColumn, row, sel.shift)
    && ValueMatches(hs, ModeColumn, row, sel.mode)
  }

  /**
   * The three controls filter independently: a row passes the test exactly
   * when it passes the date test alone, the shift test alone and the mode
   * test alone.
   */
  lemma KeepConjunction(hs: seq<string>, row: Row, sel: Selection)
    ensures Keep(hs, row, sel) <==>
      Keep(hs, row, sel.(shift := "", mode := ""))
      && Keep(hs, row, sel.(fromDate := "", toDate := "", mode := ""))
      && Keep(hs, row, sel.(fromDate := "", toDate := "", shift := ""))
  {
  }

  /** A row with a blank or missing date passes the date test whatever the bounds. */
  lemma BlankDateKept(sel: Selection)
    ensures DateInRange(None, sel) && DateInRange(Some(""), sel)
  {
  }

  /**
   * With a value chosen and the column present, a row passes the shift or
   * mode test exactly when it holds that value; a missing cell never does.
   */
  lemma ValueMatchesChosen(hs: seq<string>, kind: ColumnKind, row: Row, chosen: string)
    requires chosen != "" && FindColumn(hs, kind).Some?
    ensures var col := FindColumn(hs, kind).value;
      ValueMatches(hs, kind, row, chosen) <==> col in row && row[col] == chosen
  {
  }

  /** `csvData.filter(Keep)`. */
  function FilterRows(hs: seq<string>, rows: seq<Row>, sel: Selection): (r: seq<Row>)
    ensures |r| <= |rows|
    ensures forall k :: 0 <= k < |r| ==> Keep(hs, r[k], sel)
    decreases |rows|
  {
    if |rows| == 0 then []
    else if Keep(hs, rows[0], sel) then [rows[0]] + FilterRows(hs, rows[1..], sel)
    else FilterRows(hs, rows[1..], sel)
  }

  /** The entries of `xs` whose flag in `mask` is set, in their order in `xs`. */
  function Select<T>(xs: seq<T>, mask: seq<bool>): (r: seq<T>)
    requires |mask| == |xs|
    ensures |r| <= |xs|
    decreases |xs|
  {
    if |xs| == 0 then []
    else if mask[0] then [xs[0]] + Select(xs[1..], mask[1..])
    else Select(xs[1..], mask[1..])
  }

  /** `sub` is `xs` with some entries left out and the others in their order. */
  ghost predicate IsSubsequence<T>(sub: seq<T>, xs: seq<T>)
  {
    exists mask: seq<bool> :: |mask| == |xs| && Select(xs, mask) == sub
  }

  /** Selecting with every flag set gives the whole sequence. */
  lemma {:induction false} SelectAll<T>(xs: seq<T>)
    ensures Select(xs, seq(|xs|, _ => true)) == xs
    decreases |xs|
  {
    if |xs| > 0 {
      SelectAll(xs[1..]);
      assert seq(|xs|, _ => true)[1..] == seq(|xs| - 1, _ => true);
    }
  }

  /** Every sequence is a subsequence of itself. */
  lemma SubsequenceRefl<T>(xs: seq<T>)
    ensures IsSubsequence(xs, xs)
  {
    SelectAll(xs);
  }

  /** Which rows pass the test, position by position. */
  function KeepMask(hs: seq<string>, rows: seq<Row>, sel: Selection): (mask: seq<bool>)
    ensures |mask| == |rows|
    ensures forall k :: 0 <= k < |rows| ==> (mask[k] <==> Keep(hs, rows[k], sel))
  {
    seq(|rows|, k requires 0 <= k < |rows| => Keep(hs, rows[k], sel))
  }

  /** The filter keeps exactly the rows that pass the test, in their original order. */
  lemma {:induction false} FilterIsSelection(hs: seq<string>, rows: seq<Row>, sel: Selection)
    ensures FilterRows(hs, rows, sel) == Select(rows, KeepMask(hs, rows, sel))
    decreases |rows|
  {
    if |rows| > 0 {
      FilterIsSelection(hs, rows[1..], sel);
      assert KeepMask(hs, rows, sel)[1..] == KeepMask(hs, rows[1..], sel);
    }
  }

  /** The filtered rows are a subsequence of the rows. */
  lemma FilterIsSubsequence(hs: seq<string>, rows: seq<Row>, sel: Selection)
    ensures IsSubsequence(FilterRows(hs, rows, sel), rows)
  {
    FilterIsSelection(hs, rows, sel);
  }

  /** A row is in the selection exactly when some flagged position holds it. */
  lemma {:induction false} SelectMembers<T>(xs: seq<T>, mask: seq<bool>, x: T)
    requires |mask| == |xs|
    ensures x in Select(xs, mask) <==> exists k :: 0 <= k < |xs| && mask[k] && xs[k] == x
    decreases |xs|
  {
    if |xs| > 0 {
      SelectMembers(xs[1..], mask[1..], x);
      if exists k :: 0 <= k < |xs[1..]| && mask[1..][k] && xs[1..][k] == x {
        var k :| 0 <= k < |xs[1..]| && mask[1..][k] && xs[1..][k] == x;
        assert mask[k + 1] && xs[k + 1] == x;
      }
      if exists k :: 0 <= k < |xs| && mask[k] && xs[k] == x {
        var k :| 0 <= k < |xs| && mask[k] && xs[k] == x;
        if k > 0 {
          assert mask[1..][k - 1] && xs[1..][k - 1] == x;
        }
      }
    }
  }

  /** A row of the table is in the filtered rows exactly when some copy of it passes the test. */
  lemma FilterMembers(hs: seq<string>, rows: seq<Row>, sel: Selection, row: Row)
    ensures row in FilterRows(hs, rows, sel) <==> row in rows && Keep(hs, row, sel)
  {
    FilterIsSelection(hs, rows, sel);
    var mask := KeepMask(hs, rows, sel);
    SelectMembers(rows, mask, row);
    if row in rows && Keep(hs, row, sel) {
      var k :| 0 <= k < |rows| && rows[k] == row;
      assert mask[k];
    }
  }

  /** With every control cleared, every row passes. */
  lemma NoSelectionKeepsAll(hs: seq<string>, row: Row)
    ensures Keep(hs, row, NoSelection)
  {
  }

  /** Filtering with every control cleared returns the rows unchanged. */
  lemma {:induction false} FilterNoSelection(hs: seq<string>, rows: seq<Row>)
    ensures FilterRows(hs, rows, NoSelection) == rows
    decreases |rows|
  {
    if |rows| > 0 {
      NoSelectionKeepsAll(hs, rows[0]);
      FilterNoSelection(hs, rows[1..]);
    }
  }

  /**
   * A row whose date does not have three '/'-separated parts parses to the
   * epoch, so a "from" bound naming a short date leaves it out.
   */
  lemma MalformedDateExcluded(hs: seq<string>, row: Row, sel: Selection)
    requires FindColumn(hs, DateColumn).Some?
    requires var v := Lookup(row, FindColumn(hs, DateColumn).value);
      v.Some? && v.value != "" && |Split(v.value, '/')| != 3
    requires IsShortDate(Split(sel.fromDate, '/'))
    ensures !Keep(hs, row, sel)
  {
    var parts := Split(sel.fromDate, '/');
    ShortDateAfterEpoch(parts);
  }

  /** A date whose parts are not all digits parses to the invalid date, which no bound excludes. */
  lemma InvalidDateKept(cell: string, sel: Selection)
    requires DateKey(cell).None?
    ensures DateInRange(Some(cell), sel)
  {
  }

  /**
   * On dates written as real D/M/YY days, the range test is the inclusive
   * range test on (year, month, day) triples.
   */
  lemma ShortDateRange(cell: string, sel: Selection)
    requires cell != ""
    requires IsRealShortDate(Split(cell, '/'))
    requires sel.fromDate != "" ==> IsRealShortDate(Split(sel.fromDate, '/'))
    requires sel.toDate != "" ==> IsRealShortDate(Split(sel.toDate, '/'))
    ensures DateInRange(Some(cell), sel) <==>
      (sel.fromDate == "" || !LexBefore(Split(cell, '/'), Split(sel.fromDate, '/')))
      && (sel.toDate == "" || !LexBefore(Split(sel.toDate, '/'), Split(cell, '/')))
  {
    var c := Split(cell, '/');
    if sel.fromDate != "" {
      ShortDateOrder(c, Split(sel.fromDate, '/'));
    }
    if sel.toDate != "" {
      ShortDateOrder(Split(sel.toDate, '/'), c);
    }
  }

  /**
   * The "(Empty)" entry of the shift and mode lists carries the value "",
   * which is also the value of "all": choosing it keeps every row.
   */
  lemma EmptyChoiceMatchesAll(hs: seq<string>, kind: ColumnKind, row: Row)
    ensures ValueMatches(hs, kind, row, "")
  {
  }
}
