/**
 * The CSV text `downloadCSV` writes: a header line, then one line per row,
 * every line ending in a newline, and fields that hold a comma, a quote or a
 * newline wrapped in quotes with their quotes doubled.
 */
module Export {
  import opened Optional
  import opened Text
  import opened Loader
  import opened Filters

  /** A field that must be quoted: it holds a comma, a double quote or a newline. */
  predicate NeedsQuotes(v: string)
  {
    ',' in v || '"' in v || '\n' in v
  }

  /** `v.replace(/"/g, '""')`. */
  function DoubleQuotes(v: string): (r: string)
    ensures |r| >= |v|
    ensures forall c :: c != '"' ==> (c in r <==> c in v)
    decreases |v|
  {
    if |v| == 0 then ""
    else (if v[0] == '"' then "\"\"" else [v[0]]) + DoubleQuotes(v[1..])
  }

  /**
   * A field as written to the file: a field holding a comma, a quote or a
   * newline is wrapped in quotes around its body with each quote doubled;
   * any other field is written as it is.
   */
  function Escape(v: string): (r: string)
    ensures forall c :: c != '"' ==> (c in r <==> c in v)
    ensures !NeedsQuotes(v) ==> r == v
    ensures NeedsQuotes(v) ==>
      |r| >= 2 && r[0] == '"' && r[|r| - 1] == '"' && Undouble(r[1..|r| - 1]) == v
  {
    if NeedsQuotes(v) then
      var r := "\"" + DoubleQuotes(v) + "\"";
      assert r[1..|r| - 1] == DoubleQuotes(v);
      UndoubleDoubleQuotes(v);
      r
    else v
  }

  /** Reading back a doubled-quote body: each `""` is one quote. */
  function Undouble(s: string): string
    decreases |s|
  {
    if |s| == 0 then ""
    else if |s| >= 2 && s[0] == '"' && s[1] == '"' then "\"" + Undouble(s[2..])
    else [s[0]] + Undouble(s[1..])
  }

  /**
   * How a CSV reader following RFC 4180 (section 2, rules 5 to 7) reads one
   * field: a field in quotes is its body with doubled quotes undone, any
   * other field is taken as it is.
   */
  function ReadField(s: string): string
  {
    if |s| >= 2 && s[0] == '"' && s[|s| - 1] == '"' then Undouble(s[1..|s| - 1]) else s
  }

  lemma {:induction false} UndoubleDoubleQuotes(v: string)
    ensures Undouble(DoubleQuotes(v)) == v
    decreases |v|
  {
    if |v| > 0 {
      UndoubleDoubleQuotes(v[1..]);
      var rest := DoubleQuotes(v[1..]);
      if v[0] == '"' {
        assert DoubleQuotes(v) == "\"\"" + rest;
        assert ("\"\"" + rest)[2..] == rest;
      } else {
        assert DoubleQuotes(v) == [v[0]] + rest;
        assert ([v[0]] + rest)[1..] == rest;
      }
      assert v == [v[0]] + v[1..];
    }
  }

  /** A reader gets back every field exactly as it was before escaping. */
  lemma ReadEscape(v: string)
    ensures ReadField(Escape(v)) == v
  {
    if NeedsQuotes(v) {
      var e := Escape(v);
      assert e[1..|e| - 1] == DoubleQuotes(v);
      UndoubleDoubleQuotes(v);
    } else if |v| >= 2 {
      assert v[0] != '"';
    }
  }

  /** The text written for a row's cell under header `h`: nothing for a missing or empty value. */
  function CellText(row: Row, h: string): (t: string)
    ensures t == "" <==> h !in row || row[h] == ""
    ensures h in row && row[h] != "" ==> t == Escape(row[h])
  {
    match Lookup(row, h)
    case None => ""
    case Some(v) => if v == "" then "" else Escape(v)
  }

  /** The cells of a row, in header order. */
  function Cells(hs: seq<string>, row: Row): (cs: seq<string>)
    ensures |cs| == |hs|
    ensures forall i :: 0 <= i < |hs| ==> cs[i] == CellText(row, hs[i])
  {
    seq(|hs|, i requires 0 <= i < |hs| => CellText(row, hs[i]))
  }

  /** The header line: the column names joined by commas, written without quoting. */
  function HeaderLine(hs: seq<string>): (l: string)
    ensures (forall i :: 0 <= i < |hs| ==> '\n' !in hs[i]) ==> '\n' !in l
    ensures |hs| >= 1 && (forall i :: 0 <= i < |hs| ==> ',' !in hs[i]) ==> Split(l, ',') == hs
  {
    assert (forall i :: 0 <= i < |hs| ==> '\n' !in hs[i]) ==> '\n' !in Join(hs, ',') by {
      if forall i :: 0 <= i < |hs| ==> '\n' !in hs[i] {
        JoinAvoids(hs, ',', '\n');
      }
    }
    assert |hs| >= 1 && (forall i :: 0 <= i < |hs| ==> ',' !in hs[i]) ==> Split(Join(hs, ','), ',') == hs by {
      if |hs| >= 1 && (forall i :: 0 <= i < |hs| ==> ',' !in hs[i]) {
        SplitJoin(hs, ',');
      }
    }
    Join(hs, ',')
  }

  /** The line of one row: its cells joined by commas. It holds a newline only inside a stored value. */
  function RowLine(hs: seq<string>, row: Row): (l: string)
    ensures (forall h :: h in row ==> '\n' !in row[h]) ==> '\n' !in l
  {
    var cs := Cells(hs, row);
    assert (forall h :: h in row ==> '\n' !in row[h]) ==> '\n' !in Join(cs, ',') by {
      if forall h :: h in row ==> '\n' !in row[h] {
        forall i | 0 <= i < |cs| ensures '\n' !in cs[i] {
          if hs[i] in row {
            assert '\n' !in Escape(row[hs[i]]);
          }
        }
        JoinAvoids(cs, ',', '\n');
      }
    }
    Join(cs, ',')
  }

  /** The line of each row, in row order. */
  function RowLines(hs: seq<string>, rows: seq<Row>): (ls: seq<string>)
    ensures |ls| == |rows|
    ensures forall k :: 0 <= k < |rows| ==> ls[k] == RowLine(hs, rows[k])
  {
    seq(|rows|, k requires 0 <= k < |rows| => RowLine(hs, rows[k]))
  }

  /** The lines of the rows, each followed by a newline. */
  function RowsText(hs: seq<string>, rows: seq<Row>): string
    decreases |rows|
  {
    if |rows| == 0 then ""
    else RowsText(hs, rows[..|rows| - 1]) + RowLine(hs, rows[|rows| - 1]) + "\n"
  }

  /** The whole file `downloadCSV` offers for the rows `rows`: it starts with the header line and ends in a newline. */
  function CsvText(hs: seq<string>, rows: seq<Row>): (t: string)
    ensures |HeaderLine(hs)| < |t| && t[..|HeaderLine(hs)| + 1] == HeaderLine(hs) + "\n"
    ensures t[|t| - 1] == '\n'
  {
    var t := HeaderLine(hs) + "\n" + RowsText(hs, rows);
    assert t[..|HeaderLine(hs)| + 1] == HeaderLine(hs) + "\n";
    t
  }

  /** Lines written one after another, each followed by a newline. */
  function Terminated(ls: seq<string>): string
    decreases |ls|
  {
    if |ls| == 0 then "" else ls[0] + "\n" + Terminated(ls[1..])
  }

  lemma {:induction false} TerminatedAppend(ls: seq<string>, l: string)
    ensures Terminated(ls + [l]) == Terminated(ls) + l + "\n"
    decreases |ls|
  {
    if |ls| == 0 {
      assert [l][1..] == [];
    } else {
      assert (ls + [l])[1..] == ls[1..] + [l];
      TerminatedAppend(ls[1..], l);
    }
  }

  lemma {:induction false} RowsTextLines(hs: seq<string>, rows: seq<Row>)
    ensures RowsText(hs, rows) == Terminated(RowLines(hs, rows))
    decreases |rows|
  {
    if |rows| > 0 {
      var n := |rows| - 1;
      RowsTextLines(hs, rows[..n]);
      assert RowLines(hs, rows) == RowLines(hs, rows[..n]) + [RowLine(hs, rows[n])];
      TerminatedAppend(RowLines(hs, rows[..n]), RowLine(hs, rows[n]));
    }
  }

  /** The file is the header line and then one line per row, in order, each ending in a newline. */
  lemma CsvTextLines(hs: seq<string>, rows: seq<Row>)
    ensures CsvText(hs, rows) == Terminated([HeaderLine(hs)] + RowLines(hs, rows))
  {
    RowsTextLines(hs, rows);
    var ls := [HeaderLine(hs)] + RowLines(hs, rows);
    assert ls[1..] == RowLines(hs, rows);
  }

  /** Splitting newline-terminated lines that hold no newline gives them back, then an empty piece. */
  lemma {:induction false} SplitTerminated(ls: seq<string>)
    requires forall k :: 0 <= k < |ls| ==> '\n' !in ls[k]
    ensures Split(Terminated(ls), '\n') == ls + [""]
    decreases |ls|
  {
    if |ls| > 0 {
      SplitTerminated(ls[1..]);
      SplitAfterPiece(ls[0], '\n', Terminated(ls[1..]));
      assert ls == [ls[0]] + ls[1..];
    }
  }

  /** A character other than the separator that no piece holds is not in their join. */
  lemma {:induction false} JoinAvoids(parts: seq<string>, sep: char, c: char)
    requires c != sep && forall k :: 0 <= k < |parts| ==> c !in parts[k]
    ensures c !in Join(parts, sep)
    decreases |parts|
  {
    if |parts| > 1 {
      JoinAvoids(parts[1..], sep, c);
    }
  }

  /** No newline occurs in a header or a stored value. */
  predicate NoNewlines(hs: seq<string>, rows: seq<Row>)
  {
    (forall i :: 0 <= i < |hs| ==> '\n' !in hs[i])
    && forall k, h :: 0 <= k < |rows| && h in rows[k] ==> '\n' !in rows[k][h]
  }

  /**
   * Without newlines in the data, the file splits into exactly 1 + |rows|
   * lines, the header line first, then the row lines in order, and nothing
   * after the last newline.
   */
  lemma CsvTextSplit(hs: seq<string>, rows: seq<Row>)
    requires NoNewlines(hs, rows)
    ensures Split(CsvText(hs, rows), '\n') == [HeaderLine(hs)] + RowLines(hs, rows) + [""]
  {
    var ls := [HeaderLine(hs)] + RowLines(hs, rows);
    JoinAvoids(hs, ',', '\n');
    forall k | 0 <= k < |rows| ensures '\n' !in RowLine(hs, rows[k]) {
      JoinAvoids(Cells(hs, rows[k]), ',', '\n');
    }
    forall k | 0 <= k < |ls| ensures '\n' !in ls[k] {
      if k > 0 {
        assert ls[k] == RowLine(hs, rows[k - 1]);
      }
    }
    CsvTextLines(hs, rows);
    SplitTerminated(ls);
  }

  /** A value that is written as it is: no comma, quote or newline. */
  predicate IsPlain(v: string)
  {
    !NeedsQuotes(v)
  }

  /** The value under each header, or "" where the row has none. */
  function RowValues(hs: seq<string>, row: Row): (vs: seq<string>)
    ensures |vs| == |hs|
    ensures forall i :: 0 <= i < |hs| ==> vs[i] == (if hs[i] in row then row[hs[i]] else "")
  {
    seq(|hs|, i requires 0 <= i < |hs| => if hs[i] in row then row[hs[i]] else "")
  }

  /**
   * A line whose values are plain splits on commas into exactly one field
   * per header, in header order, each the stored value.
   */
  lemma RowLineFields(hs: seq<string>, row: Row)
    requires |hs| >= 1
    requires forall h :: h in row ==> IsPlain(row[h])
    ensures Cells(hs, row) == RowValues(hs, row)
    ensures Split(RowLine(hs, row), ',') == RowValues(hs, row)
  {
    var cs := Cells(hs, row);
    CellsOfPlain(hs, row);
    forall i | 0 <= i < |hs| ensures ',' !in cs[i] {
      assert cs[i] == RowValues(hs, row)[i];
    }
    SplitJoin(cs, ',');
  }

  /** The cells of a row of plain values are its values, written as they are. */
  lemma CellsOfPlain(hs: seq<string>, row: Row)
    requires forall h :: h in row ==> IsPlain(row[h])
    ensures Cells(hs, row) == RowValues(hs, row)
  {
    var cs := Cells(hs, row);
    forall i | 0 <= i < |hs| ensures cs[i] == RowValues(hs, row)[i] {
    }
  }
}
