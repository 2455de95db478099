/**
 * The page's table session: the loaded headers and rows, and the rows the
 * current filter shows, with the handlers that replace, filter, reset,
 * count and export them.
 */
module Sessions {
  import opened Optional
  import opened Text
  import opened Loader
  import opened Filters
  import opened Export

  /** The `pop` loop of `parseCSV`: removes the trailing empty fields. */
  method DropTrailing(raw: seq<string>) returns (values: seq<string>)
    ensures values == DropTrailingEmpty(raw)
    ensures |values| == 0 || values[|values| - 1] != ""
  {
    values := raw;
    while |values| > 0 && values[|values| - 1] == ""
      invariant DropTrailingEmpty(values) == DropTrailingEmpty(raw)
    {
      values := values[..|values| - 1];
    }
  }

  /**
   * The record loop of `parseCSV`: header by header, the field at the same
   * position or "" past the end, divided by 10 in a scaled column.
   */
  method BuildRecord(hs: seq<string>, values: seq<string>) returns (row: Row)
    ensures row == BuildRow(hs, values)
    ensures IsComplete(row, hs)
  {
    row := map[];
    for j := 0 to |hs|
      invariant row == BuildRow(hs[..j], values)
    {
      var value := if j < |values| then values[j] else "";
      if IsScaledColumn(hs[j]) && value != "" {
        value := ScaleValue(value);
      }
      assert hs[..j + 1][..j] == hs[..j];
      row := row[hs[j] := value];
    }
    assert hs[..|hs|] == hs;
  }

  /** Parsing one more line adds its record, if the line is accepted, after the others. */
  lemma ParseRowsStep(hs: seq<string>, lines: seq<string>, i: nat)
    requires i < |lines|
    ensures ParseRows(hs, lines[..i + 1]) == ParseRows(hs, lines[..i]) + LineRows(hs, lines[i])
  {
    assert lines[..i + 1][..i] == lines[..i];
  }

  /**
   * The data-row loop of `parseCSV`: each line's fields without the trailing
   * empty ones; a line with one field per header, or one fewer, adds its
   * record after the others.
   */
  method ParseLines(hs: seq<string>, lines: seq<string>) returns (rows: seq<Row>)
    ensures rows == ParseRows(hs, lines)
  {
    rows := [];
    for i := 0 to |lines|
      invariant rows == ParseRows(hs, lines[..i])
    {
      ParseRowsStep(hs, lines, i);
      var values := DropTrailing(RawFields(lines[i]));
      if |values| == |hs| || |values| == |hs| - 1 {
        var row := BuildRecord(hs, values);
        rows := rows + [row];
      }
    }
    assert lines[..|lines|] == lines;
  }

  /**
   * The parsing part of `parseCSV`: the non-blank lines, the headers of the
   * first one, then the data lines one by one; `None` where the source
   * throws because there is no line at all.
   */
  method ParseText(data: string) returns (t: Option<Table>)
    ensures t == Parse(data)
  {
    var lines := NonBlankLines(data);
    if |lines| == 0 {
      return None;
    }
    var hs := HeaderFields(lines[0]);
    var rows := ParseLines(hs, lines[1..]);
    return Some(Table(hs, rows));
  }

  /** The header line is the headers joined with commas. */
  lemma HeaderLineIsJoin(hs: seq<string>)
    ensures HeaderLine(hs) == Join(hs, ',')
  {
  }

  /** One more row adds its line, joined with commas, and a newline. */
  lemma RowsTextSnoc(hs: seq<string>, rows: seq<Row>, k: nat)
    requires k < |rows|
    ensures RowsText(hs, rows[..k + 1]) == RowsText(hs, rows[..k]) + (Join(Cells(hs, rows[k]), ',') + "\n")
  {
    assert rows[..k + 1][..k] == rows[..k];
  }

  /** Appending to a text in two steps or in one gives the same text. */
  lemma AppendAssoc(a: string, b: string, c: string)
    ensures a + b + c == a + (b + c)
  {
  }

  /** The file is the header line, a newline, and the text of all the rows. */
  lemma CsvTextWhole(hs: seq<string>, rows: seq<Row>)
    ensures CsvText(hs, rows) == HeaderLine(hs) + "\n" + RowsText(hs, rows[..|rows|])
  {
    assert rows[..|rows|] == rows;
  }

  class Session {
    /** The rows of the last file loaded. */
    var csvData: seq<Row>
    /** The rows the current filter lets through. */
    var filteredData: seq<Row>
    /** The column names of the last file loaded. */
    var headers: seq<string>

    /** Every row has one entry per header, and the shown rows are loaded rows in their order. */
    ghost predicate Valid()
      reads this
    {
      (forall k :: 0 <= k < |csvData| ==> IsComplete(csvData[k], headers))
      && IsSubsequence(filteredData, csvData)
    }

    /** The page before any file is loaded. */
    constructor()
      ensures Valid()
      ensures csvData == [] && filteredData == [] && headers == []
    {
      csvData, filteredData, headers := [], [], [];
      assert Select<Row>([], []) == [];
    }

    /**
     * `parseCSV`: replaces the headers and rows with those of `data` and
     * shows every row. When `data` has no non-blank line the source throws
     * before changing anything; here `ok` is false and nothing changes.
     */
    method ParseCSV(data: string) returns (ok: bool)
      modifies this
      ensures ok <==> Parse(data).Some?
      ensures ok ==> headers == Parse(data).value.headers && csvData == Parse(data).value.rows
      ensures ok ==> filteredData == csvData && Valid()
      ensures !ok ==> headers == old(headers) && csvData == old(csvData) && filteredData == old(filteredData)
    {
      var t := ParseText(data);
      if t.None? {
        return false;
      }
      Load(t.value);
      ok := true;
    }

    /** Replaces the loaded table with `t` and shows all of its rows. */
    method Load(t: Table)
      requires forall k :: 0 <= k < |t.rows| ==> IsComplete(t.rows[k], t.headers)
      modifies this
      ensures headers == t.headers && csvData == t.rows && filteredData == t.rows && Valid()
    {
      SubsequenceRefl(t.rows);
      headers, csvData, filteredData := t.headers, t.rows, t.rows;
    }

    /** `applyFilters`: shows the loaded rows that pass the chosen filters, in their order. */
    method ApplyFilters(sel: Selection)
      requires Valid()
      modifies this`filteredData
      ensures Valid()
      ensures filteredData == FilterRows(headers, csvData, sel)
    {
      filteredData := FilterRows(headers, csvData, sel);
      FilterIsSubsequence(headers, csvData, sel);
    }

    /** The clear-filters handler: shows every loaded row again, in order. */
    method ClearFilters()
      requires Valid()
      modifies this`filteredData
      ensures Valid()
      ensures filteredData == csvData
    {
      filteredData := csvData;
      SubsequenceRefl(csvData);
    }

    /** `updateStats`: rows loaded, rows shown and columns; never more shown than loaded. */
    method Stats() returns (total: nat, shown: nat, columns: nat)
      requires Valid()
      ensures total == |csvData| && shown == |filteredData| && columns == |headers|
      ensures shown <= total
    {
      total, shown, columns := |csvData|, |filteredData|, |headers|;
    }

    /**
     * The text `downloadCSV` builds for `data`: nothing when there are no
     * rows (the source alerts instead), otherwise the header line and one
     * line per row, written line by line.
     */
    method DownloadText(data: seq<Row>) returns (content: Option<string>)
      ensures content.None? <==> |data| == 0
      ensures content.Some? ==> content.value == CsvText(headers, data)
    {
      if |data| == 0 {
        return None;
      }
      var text := Join(headers, ',') + "\n";
      HeaderLineIsJoin(headers);
      for k := 0 to |data|
        invariant text == HeaderLine(headers) + "\n" + RowsText(headers, data[..k])
      {
        var values := Cells(headers, data[k]);
        var line := Join(values, ',') + "\n";
        RowsTextSnoc(headers, data, k);
        AppendAssoc(HeaderLine(headers) + "\n", RowsText(headers, data[..k]), line);
        text := text + line;
      }
      CsvTextWhole(headers, data);
      return Some(text);
    }
  }
}
