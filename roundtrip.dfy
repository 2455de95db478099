/**
 * Loading the file `downloadCSV` writes gives back the table it was written
 * from, as long as the table is one the loader could have produced and the
 * plain CSV it writes can be read back by splitting on commas.
 */
module RoundTrip {
  import opened Optional
  import opened Text
  import opened Loader
  import opened Export

  /** A stored value the writer leaves alone and the loader keeps as it is. */
  predicate IsPlainStored(v: string)
  {
    v == "" || (IsTrimmed(v) && !IsNullish(v) && IsPlain(v))
  }

  /** Headers the loader reads back unchanged: non-empty, trimmed, without commas or newlines. */
  predicate HeadersReadBack(hs: seq<string>)
  {
    forall i :: 0 <= i < |hs| ==> hs[i] != "" && IsTrimmed(hs[i]) && ',' !in hs[i] && '\n' !in hs[i]
  }

  /** No column is one whose values the loader divides by 10. */
  predicate NoScaledColumns(hs: seq<string>)
  {
    forall i :: 0 <= i < |hs| ==> !IsScaledColumn(hs[i])
  }

  predicate ReadyHeaders(hs: seq<string>)
  {
    |hs| >= 1 && HeadersReadBack(hs) && NoScaledColumns(hs)
  }

  /**
   * A complete row of plain values with at least one value and at most one
   * trailing empty value, so that its line is neither blank nor rejected.
   */
  predicate ReadyRow(hs: seq<string>, row: Row)
  {
    IsComplete(row, hs) && PlainValues(row) && KeptCount(hs, row)
  }

  /** The row has a non-empty value and at most one trailing empty value. */
  predicate KeptCount(hs: seq<string>, row: Row)
  {
    var d := DropTrailingEmpty(RowValues(hs, row));
    |d| >= 1 && |d| >= |hs| - 1
  }

  /** Every stored value of the row is plain. */
  predicate PlainValues(row: Row)
  {
    forall h :: h in row ==> IsPlainStored(row[h])
  }

  predicate Ready(hs: seq<string>, rows: seq<Row>)
  {
    ReadyHeaders(hs) && forall k :: 0 <= k < |rows| ==> ReadyRow(hs, rows[k])
  }

  /** The loader's normalisation keeps a plain stored value. */
  lemma NormalisePlain(v: string)
    requires IsPlainStored(v)
    ensures NormaliseField(v) == v
  {
    if v == "" {
      assert Trim(v) == "";
    } else {
      TrimFixpoint(v);
    }
  }

  /** The loader reads the fields of a written row line as the row's values. */
  lemma RawFieldsOfRowLine(hs: seq<string>, row: Row)
    requires |hs| >= 1 && PlainValues(row)
    ensures RawFields(RowLine(hs, row)) == RowValues(hs, row)
  {
    var vs := RowValues(hs, row);
    PlainValuesArePlain(row);
    RowLineFields(hs, row);
    var raw := RawFields(RowLine(hs, row));
    forall i | 0 <= i < |hs| ensures raw[i] == vs[i] {
      assert raw[i] == NormaliseField(vs[i]);
      if hs[i] in row {
        assert IsPlainStored(row[hs[i]]);
      }
      NormalisePlain(vs[i]);
    }
  }

  /** The last position of `h` in `hs`. */
  function LastIndexOf(hs: seq<string>, h: string): (i: nat)
    requires h in hs
    ensures i < |hs| && hs[i] == h
    ensures forall j :: i < j < |hs| ==> hs[j] != h
    decreases |hs|
  {
    var n := |hs| - 1;
    if hs[n] == h then n
    else
      assert h in hs[..n] by {
        var k :| 0 <= k < |hs| && hs[k] == h;
        assert hs[..n][k] == h;
      }
      LastIndexOf(hs[..n], h)
  }

  /** Rebuilding the record from the line's kept fields gives each stored value back. */
  lemma BuildRowValue(hs: seq<string>, row: Row, h: string)
    requires NoScaledColumns(hs) && IsComplete(row, hs) && h in row
    ensures var b := BuildRow(hs, DropTrailingEmpty(RowValues(hs, row)));
      h in b && b[h] == row[h]
  {
    var all := RowValues(hs, row);
    var vs := DropTrailingEmpty(all);
    var i := LastIndexOf(hs, h);
    BuildRowAt(hs, vs, i);
    if i < |vs| {
      assert vs[i] == all[i];
    }
  }

  /** Rebuilding the record from the line's kept fields gives the row back. */
  lemma BuildRowOfValues(hs: seq<string>, row: Row)
    requires NoScaledColumns(hs) && IsComplete(row, hs)
    ensures BuildRow(hs, DropTrailingEmpty(RowValues(hs, row))) == row
  {
    var b := BuildRow(hs, DropTrailingEmpty(RowValues(hs, row)));
    forall h | h in row ensures h in b && b[h] == row[h] {
      BuildRowValue(hs, row, h);
    }
    SameMap(b, row);
  }

  /** Two maps with the same keys and the same value at every key are equal. */
  lemma SameMap<K, V>(a: map<K, V>, b: map<K, V>)
    requires a.Keys == b.Keys
    requires forall k :: k in b ==> k in a && a[k] == b[k]
    ensures a == b
  {
  }

  /** A written row line is accepted and parses to the row. */
  lemma ParseLineOfRowLine(hs: seq<string>, row: Row)
    requires ReadyHeaders(hs) && ReadyRow(hs, row)
    ensures ParseLine(hs, RowLine(hs, row)) == Some(row)
  {
    RawFieldsOfRowLine(hs, row);
    BuildRowOfValues(hs, row);
  }

  /** Lines that each parse to the row at their position parse, together, to those rows. */
  lemma {:induction false} ParseRowsAll(hs: seq<string>, lines: seq<string>, rows: seq<Row>)
    requires |lines| == |rows|
    requires forall k {:trigger ParseLine(hs, lines[k])} :: 0 <= k < |lines| ==> ParseLine(hs, lines[k]) == Some(rows[k])
    ensures ParseRows(hs, lines) == rows
    decreases |lines|
  {
    if |lines| > 0 {
      var n := |lines| - 1;
      assert rows == rows[..n] + [rows[n]];
      assert lines == lines[..n] + [lines[n]];
      ParseRowsAll(hs, lines[..n], rows[..n]);
      ParseRowsAppend(hs, lines[..n], [lines[n]]);
      ParseRowsSingle(hs, lines[n]);
    }
  }

  /** The written row lines parse back to the rows, in order. */
  lemma RowsOfRowLines(hs: seq<string>, rows: seq<Row>)
    requires Ready(hs, rows)
    ensures ParseRows(hs, RowLines(hs, rows)) == rows
  {
    var ls := RowLines(hs, rows);
    forall k | 0 <= k < |ls| ensures ParseLine(hs, ls[k]) == Some(rows[k]) {
      ParseLineOfRowLine(hs, rows[k]);
    }
    ParseRowsAll(hs, ls, rows);
  }

  /** A string with a character that is not a space is not blank. */
  lemma NotBlank(s: string, k: nat)
    requires k < |s| && !IsSpace(s[k])
    ensures Trim(s) != ""
  {
    TrimEmpty(s);
  }

  /** The join of two or more pieces has the separator right after the first piece. */
  lemma JoinSepAt(parts: seq<string>, sep: char)
    requires |parts| >= 2
    ensures |parts[0]| < |Join(parts, sep)| && Join(parts, sep)[|parts[0]|] == sep
  {
    assert Join(parts, sep) == parts[0] + [sep] + Join(parts[1..], sep);
  }

  /** The join of pieces whose first piece is non-empty starts with that piece's first character. */
  lemma JoinFirstChar(parts: seq<string>, sep: char)
    requires |parts| >= 1 && parts[0] != ""
    ensures |Join(parts, sep)| > 0 && Join(parts, sep)[0] == parts[0][0]
  {
    if |parts| > 1 {
      assert Join(parts, sep) == parts[0] + [sep] + Join(parts[1..], sep);
    }
  }

  lemma HeaderLineNotBlank(hs: seq<string>)
    requires |hs| >= 1 && HeadersReadBack(hs)
    ensures Trim(HeaderLine(hs)) != ""
  {
    JoinFirstChar(hs, ',');
    NotBlank(HeaderLine(hs), 0);
  }

  /** Plain stored values need no quoting. */
  lemma PlainValuesArePlain(row: Row)
    requires PlainValues(row)
    ensures forall h :: h in row ==> IsPlain(row[h])
  {
    forall h | h in row ensures IsPlain(row[h]) {
      assert IsPlainStored(row[h]);
    }
  }

  /** In a one-column table a row with a kept value has a non-empty, trimmed value. */
  lemma SingleValue(hs: seq<string>, row: Row)
    requires |hs| == 1 && PlainValues(row) && KeptCount(hs, row)
    ensures RowValues(hs, row)[0] != "" && IsTrimmed(RowValues(hs, row)[0])
  {
    var vs := RowValues(hs, row);
    var d := DropTrailingEmpty(vs);
    assert d[0] == vs[0];
    assert hs[0] in row;
    assert IsPlainStored(row[hs[0]]);
  }

  lemma RowLineNotBlank(hs: seq<string>, row: Row)
    requires |hs| >= 1 && PlainValues(row) && KeptCount(hs, row)
    ensures Trim(RowLine(hs, row)) != ""
  {
    var vs := RowValues(hs, row);
    PlainValuesArePlain(row);
    CellsOfPlain(hs, row);
    assert RowLine(hs, row) == Join(vs, ',');
    if |hs| == 1 {
      SingleValue(hs, row);
      JoinFirstChar(vs, ',');
      NotBlank(RowLine(hs, row), 0);
    } else {
      JoinSepAt(vs, ',');
      NotBlank(RowLine(hs, row), |vs[0]|);
    }
  }

  /** The non-blank lines of the written file are the header line and the row lines. */
  lemma LinesOfCsvText(hs: seq<string>, rows: seq<Row>)
    requires Ready(hs, rows)
    ensures NonBlankLines(CsvText(hs, rows)) == [HeaderLine(hs)] + RowLines(hs, rows)
  {
    var ls := [HeaderLine(hs)] + RowLines(hs, rows);
    forall k, h | 0 <= k < |rows| && h in rows[k] ensures '\n' !in rows[k][h] {
      assert IsPlainStored(rows[k][h]);
    }
    CsvTextSplit(hs, rows);
    var rls := RowLines(hs, rows);
    forall k | 0 <= k < |rls| ensures Trim(rls[k]) != "" {
      RowLineNotBlank(hs, rows[k]);
    }
    HeaderLineNotBlank(hs);
    forall k | 0 <= k < |ls| ensures Trim(ls[k]) != "" {
      if k > 0 {
        assert ls[k] == rls[k - 1];
      }
    }
    assert Trim("") == "";
    KeepNonBlankThenBlank(ls, "");
  }

  /** The header line reads back as the headers. */
  lemma HeadersOfHeaderLine(hs: seq<string>)
    requires |hs| >= 1 && HeadersReadBack(hs)
    ensures HeaderFields(HeaderLine(hs)) == hs
  {
    SplitJoin(hs, ',');
    NonEmptyTrimmedKeepsAll(hs);
  }

  /**
   * Round trip: loading the file written for a table the loader could have
   * produced, with plain values and headers, gives back the same headers
   * and the same rows in the same order.
   */
  lemma ParseCsvText(hs: seq<string>, rows: seq<Row>)
    requires Ready(hs, rows)
    ensures Parse(CsvText(hs, rows)) == Some(Table(hs, rows))
  {
    var ls := [HeaderLine(hs)] + RowLines(hs, rows);
    LinesOfCsvText(hs, rows);
    HeadersOfHeaderLine(hs);
    RowsOfRowLines(hs, rows);
    assert ls[1..] == RowLines(hs, rows);
  }
}
