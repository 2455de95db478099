/**
 * The table loader: the pure rules `parseCSV` applies to turn CSV text
 * into a header list and one record per accepted data line.
 */
module Loader {
  import opened Optional
  import opened Text

  /** A data row, keyed by column name. A repeated column name keeps the value of its last position. */
  type Row = map<string, string>

  /** The result of a successful parse. */
  datatype Table = Table(headers: seq<string>, rows: seq<Row>)

  /** Every header has an entry, and nothing else does. */
  predicate IsComplete(row: Row, headers: seq<string>)
  {
    row.Keys == set h | h in headers
  }

  /** The trimmed tokens that stand for a missing value. */
  predicate IsNullish(t: string)
  {
    t == "" || Lower(t) == "null" || Lower(t) == "undefined" || t == "N/A" || t == "n/a" || t == "-"
  }

  /**
   * "null" and "undefined" count in any letter case, the other tokens only
   * as written: "N/a" and "--" are values.
   */
  lemma NullishTokens()
    ensures IsNullish("NULL") && IsNullish("Null") && IsNullish("UNDEFINED")
    ensures !IsNullish("N/a") && !IsNullish("--") && !IsNullish("0")
  {
    assert Lower("NULL") == "null";
    assert Lower("Null") == "null";
    assert Lower("UNDEFINED") == "undefined";
    assert |Lower("N/a")| == 3 && |Lower("--")| == 2 && |Lower("0")| == 1;
  }

  /** One raw field, trimmed, with null-like tokens replaced by the empty string. */
  function NormaliseField(raw: string): (v: string)
    ensures v == "" || (v == Trim(raw) && IsTrimmed(v) && !IsNullish(v))
    ensures v == "" <==> IsNullish(Trim(raw))
  {
    var t := Trim(raw);
    if IsNullish(t) then "" else t
  }

  /** Normalising a normalised value changes nothing. */
  lemma NormaliseIdempotent(raw: string)
    ensures NormaliseField(NormaliseField(raw)) == NormaliseField(raw)
  {
    TrimFixpoint(NormaliseField(raw));
  }

  /** The fields of a data line: split on commas, each one normalised. */
  function RawFields(line: string): (vs: seq<string>)
    ensures |vs| == |Split(line, ',')|
    ensures forall k :: 0 <= k < |vs| ==> vs[k] == NormaliseField(Split(line, ',')[k])
    ensures forall k :: 0 <= k < |vs| ==> vs[k] == "" || (IsTrimmed(vs[k]) && !IsNullish(vs[k]))
  {
    var parts := Split(line, ',');
    seq(|parts|, k requires 0 <= k < |parts| => NormaliseField(parts[k]))
  }

  /** The fields without their run of trailing empty values. */
  function DropTrailingEmpty(vs: seq<string>): (r: seq<string>)
    ensures |r| <= |vs| && r == vs[..|r|]
    ensures |r| == 0 || r[|r| - 1] != ""
    ensures forall k :: |r| <= k < |vs| ==> vs[k] == ""
    decreases |vs|
  {
    if |vs| > 0 && vs[|vs| - 1] == "" then DropTrailingEmpty(vs[..|vs| - 1]) else vs
  }

  /** The trimmed pieces of a line, without the ones that trim to nothing. */
  function NonEmptyTrimmed(parts: seq<string>): (hs: seq<string>)
    ensures |hs| <= |parts|
    ensures forall k :: 0 <= k < |hs| ==> hs[k] != "" && IsTrimmed(hs[k])
    decreases |parts|
  {
    if |parts| == 0 then []
    else
      var t := Trim(parts[0]);
      var rest := NonEmptyTrimmed(parts[1..]);
      if t == "" then rest
      else
        assert IsTrimmed(t);
        var hs := [t] + rest;
        assert forall k :: 0 < k < |hs| ==> hs[k] == rest[k - 1];
        hs
  }

  /** Pieces that are already non-empty and trimmed all survive, in order. */
  lemma {:induction false} NonEmptyTrimmedKeepsAll(parts: seq<string>)
    requires forall k :: 0 <= k < |parts| ==> parts[k] != "" && IsTrimmed(parts[k])
    ensures NonEmptyTrimmed(parts) == parts
    decreases |parts|
  {
    if |parts| > 0 {
      var rest := parts[1..];
      forall k | 0 <= k < |rest| ensures rest[k] != "" && IsTrimmed(rest[k]) {
        assert rest[k] == parts[k + 1];
      }
      NonEmptyTrimmedCons(parts);
      NonEmptyTrimmedKeepsAll(rest);
      HeadTail(parts);
    }
  }

  lemma HeadTail<T>(xs: seq<T>)
    requires |xs| > 0
    ensures [xs[0]] + xs[1..] == xs
  {
  }

  /** A first piece that is already non-empty and trimmed is kept as it is. */
  lemma NonEmptyTrimmedCons(parts: seq<string>)
    requires |parts| > 0 && parts[0] != "" && IsTrimmed(parts[0])
    ensures NonEmptyTrimmed(parts) == [parts[0]] + NonEmptyTrimmed(parts[1..])
  {
    TrimFixpoint(parts[0]);
  }

  /** The positions from `i` on whose string is not blank, in increasing order. */
  function NonBlankFrom(ls: seq<string>, i: nat): (idx: seq<nat>)
    requires i <= |ls|
    ensures forall p :: 0 <= p < |idx| ==> i <= idx[p] < |ls| && Trim(ls[idx[p]]) != ""
    ensures forall p, q :: 0 <= p < q < |idx| ==> idx[p] < idx[q]
    decreases |ls| - i
  {
    if i == |ls| then []
    else
      var rest := NonBlankFrom(ls, i + 1);
      if Trim(ls[i]) == "" then rest
      else
        var idx := [i] + rest;
        assert forall p :: 0 < p < |idx| ==> idx[p] == rest[p - 1];
        idx
  }

  /** Every non-blank position from `i` on is listed. */
  lemma {:induction false} NonBlankFromComplete(ls: seq<string>, i: nat, j: nat)
    requires i <= j < |ls| && Trim(ls[j]) != ""
    ensures j in NonBlankFrom(ls, i)
    decreases j - i
  {
    if i < j {
      NonBlankFromComplete(ls, i + 1, j);
      if Trim(ls[i]) != "" {
        assert NonBlankFrom(ls, i) == [i] + NonBlankFrom(ls, i + 1);
      }
    }
  }

  /** Every string from `i` up to the first non-blank position is blank. */
  lemma {:induction false} BlankBeforeFirst(ls: seq<string>, i: nat)
    requires i <= |ls|
    ensures var idx := NonBlankFrom(ls, i);
      |idx| > 0 ==> forall j :: i <= j < idx[0] ==> Trim(ls[j]) == ""
    decreases |ls| - i
  {
    if i < |ls| {
      if Trim(ls[i]) == "" {
        BlankBeforeFirst(ls, i + 1);
        assert NonBlankFrom(ls, i) == NonBlankFrom(ls, i + 1);
      } else {
        assert NonBlankFrom(ls, i)[0] == i;
      }
    }
  }

  /** The positions of the non-blank strings of `ls`, in increasing order. */
  function NonBlankPositions(ls: seq<string>): (idx: seq<nat>)
  {
    NonBlankFrom(ls, 0)
  }

  /** The pieces from `i` on that survive trimming are the pieces at the non-blank positions, trimmed, in order. */
  lemma {:induction false} NonEmptyTrimmedFrom(parts: seq<string>, i: nat)
    requires i <= |parts|
    ensures var idx := NonBlankFrom(parts, i);
      var hs := NonEmptyTrimmed(parts[i..]);
      |hs| == |idx| && forall p :: 0 <= p < |idx| ==> hs[p] == Trim(parts[idx[p]])
    decreases |parts| - i
  {
    if i < |parts| {
      NonEmptyTrimmedFrom(parts, i + 1);
      NonEmptyTrimmedStep(parts, i);
      if Trim(parts[i]) != "" {
        var ts := TrimAll(parts);
        PickCons(ts, i, NonBlankFrom(parts, i + 1), NonEmptyTrimmed(parts[i + 1..]));
      }
    }
  }

  /** Every piece, trimmed. */
  function TrimAll(parts: seq<string>): (ts: seq<string>)
    ensures |ts| == |parts| && forall k :: 0 <= k < |parts| ==> ts[k] == Trim(parts[k])
  {
    seq(|parts|, k requires 0 <= k < |parts| => Trim(parts[k]))
  }

  /** Trimming the pieces from `i` on looks at piece `i` and then at the pieces after it. */
  lemma NonEmptyTrimmedStep(parts: seq<string>, i: nat)
    requires i < |parts|
    ensures NonEmptyTrimmed(parts[i..]) ==
      (if Trim(parts[i]) == "" then [] else [Trim(parts[i])]) + NonEmptyTrimmed(parts[i + 1..])
  {
    assert parts[i..][1..] == parts[i + 1..];
    assert parts[i..][0] == parts[i];
  }

  /**
   * The column names on the header line: the comma pieces that are not
   * blank, trimmed, in line order.
   */
  function HeaderFields(line: string): (hs: seq<string>)
    ensures forall k :: 0 <= k < |hs| ==> hs[k] != "" && IsTrimmed(hs[k])
    ensures var parts := Split(line, ',');
      var idx := NonBlankPositions(parts);
      |hs| == |idx| && forall p :: 0 <= p < |idx| ==> hs[p] == Trim(parts[idx[p]])
  {
    var parts := Split(line, ',');
    NonEmptyTrimmedFrom(parts, 0);
    assert parts[0..] == parts;
    NonEmptyTrimmed(parts)
  }

  /**
   * Columns whose numbers are stored in tenths and shown divided by 10: the
   * name holds "VOLTAGE", "VFD_RUNNING_FRQ" or "VFD_CURRENT" somewhere, in
   * any letter case.
   */
  predicate IsScaledColumn(h: string)
  {
    var u := Upper(h);
    Includes(u, "VOLTAGE") || Includes(u, "VFD_RUNNING_FRQ") || Includes(u, "VFD_CURRENT")
  }

  /** A column is scaled exactly when one of the three names occurs in its upper-cased name. */
  lemma ScaledColumnByName(h: string)
    ensures IsScaledColumn(h) <==> exists i: nat :: (OccursAt(Upper(h), "VOLTAGE", i)
                                                   || OccursAt(Upper(h), "VFD_RUNNING_FRQ", i)
                                                   || OccursAt(Upper(h), "VFD_CURRENT", i))
  {
    var u := Upper(h);
    IncludesOccurs(u, "VOLTAGE");
    IncludesOccurs(u, "VFD_RUNNING_FRQ");
    IncludesOccurs(u, "VFD_CURRENT");
  }

  /** `n / 10` written with exactly two decimals, as `toFixed(2)` writes it. */
  function FixedTwo(n: nat): (r: string)
    ensures |r| >= 4 && r[|r| - 3] == '.' && r[|r| - 1] == '0'
  {
    NatToDecimal(n / 10) + "." + [DigitChar(n % 10), '0']
  }

  /**
   * `FixedTwo(n)` is a numeral, a point and two digits; reading its digits
   * without the point gives `10 * n` hundredths, that is the value `n / 10`.
   */
  lemma FixedTwoMeaning(n: nat)
    ensures var r := FixedTwo(n);
      |r| >= 4 && r[|r| - 3] == '.'
      && AllDigits(r[..|r| - 3]) && AllDigits(r[|r| - 2..])
      && DigitsValue(r[..|r| - 3] + r[|r| - 2..]) == 10 * n
  {
    var r := FixedTwo(n);
    var whole := NatToDecimal(n / 10);
    var frac := [DigitChar(n % 10), '0'];
    assert r == whole + "." + frac;
    assert r[..|r| - 3] == whole;
    assert r[|r| - 2..] == frac;
    NatToDecimalValue(n / 10);
    DigitsValueAppend(whole, frac);
    assert frac[..1] == [DigitChar(n % 10)];
    assert frac[..1][..0] == [];
    assert DigitsValue(frac[..1]) == n % 10;
    assert DigitsValue(frac) == (n % 10) * 10;
  }

  /**
   * `(parseFloat(v) / 10).toFixed(2)` where `parseFloat` reads a leading run
   * of digits; a value without one is not a number and is kept as it is.
   */
  function ScaleValue(v: string): (r: string)
    ensures |LeadingDigits(v)| == 0 ==> r == v
    ensures |v| > 0 && AllDigits(v) ==> r == FixedTwo(DigitsValue(v))
    ensures v != "" ==> r != ""
  {
    var d := LeadingDigits(v);
    assert AllDigits(v) ==> d == v by {
      if AllDigits(v) {
        assert |d| == |v| && v[..|v|] == v;
      }
    }
    if |d| == 0 || (|d| < |v| && (v[|d|] == '.' || v[|d|] == 'e' || v[|d|] == 'E')) then v
    else FixedTwo(DigitsValue(d))
  }

  /** The value stored under header `h` at position `i` of the accepted fields `vs`. */
  function CellValue(h: string, vs: seq<string>, i: nat): (r: string)
    ensures r == "" <==> i >= |vs| || vs[i] == ""
    ensures !IsScaledColumn(h) ==> r == (if i < |vs| then vs[i] else "")
  {
    var v := if i < |vs| then vs[i] else "";
    if IsScaledColumn(h) && v != "" then ScaleValue(v) else v
  }

  /** The record for the accepted fields `vs`: header by header, later headers overwriting earlier ones. */
  function BuildRow(hs: seq<string>, vs: seq<string>): (row: Row)
    ensures IsComplete(row, hs)
    decreases |hs|
  {
    if |hs| == 0 then map[]
    else
      var k := |hs| - 1;
      assert hs == hs[..k] + [hs[k]];
      BuildRow(hs[..k], vs)[hs[k] := CellValue(hs[k], vs, k)]
  }

  /** A header with no later duplicate holds the cell at its own position. */
  lemma {:induction false} BuildRowAt(hs: seq<string>, vs: seq<string>, i: nat)
    requires i < |hs|
    requires forall j :: i < j < |hs| ==> hs[j] != hs[i]
    ensures BuildRow(hs, vs)[hs[i]] == CellValue(hs[i], vs, i)
    decreases |hs|
  {
    var k := |hs| - 1;
    BuildRowLast(hs, vs);
    if i < k {
      var front := hs[..k];
      FrontKeepsLast(hs, i);
      BuildRowAt(front, vs, i);
      UpdateOther(BuildRow(front, vs), hs[k], CellValue(hs[k], vs, k), hs[i]);
    }
  }

  /** Dropping the last header keeps a header with no later duplicate so. */
  lemma FrontKeepsLast(hs: seq<string>, i: nat)
    requires i < |hs| - 1
    requires forall j :: i < j < |hs| ==> hs[j] != hs[i]
    ensures var front := hs[..|hs| - 1];
      front[i] == hs[i] && forall j :: i < j < |front| ==> front[j] != front[i]
  {
  }

  /** The record for all headers is the record for all but the last, with the last one set. */
  lemma BuildRowLast(hs: seq<string>, vs: seq<string>)
    requires |hs| > 0
    ensures var k := |hs| - 1;
      BuildRow(hs, vs) == BuildRow(hs[..k], vs)[hs[k] := CellValue(hs[k], vs, k)]
  {
  }

  /** Setting one key of a map leaves every other key's entry as it was. */
  lemma UpdateOther<K, V>(m: map<K, V>, a: K, v: V, b: K)
    requires b in m && a != b
    ensures b in m[a := v] && m[a := v][b] == m[b]
  {
  }

  /** A line is accepted when it has as many fields as headers, or one fewer. */
  predicate AcceptsCount(n: nat, headerCount: nat)
  {
    n == headerCount || n == headerCount - 1
  }

  /** One data line: its record, or `None` when its field count is rejected. */
  function ParseLine(hs: seq<string>, line: string): (r: Option<Row>)
    ensures r.Some? <==> AcceptsCount(|DropTrailingEmpty(RawFields(line))|, |hs|)
    ensures r.Some? ==> IsComplete(r.value, hs)
  {
    var vs := DropTrailingEmpty(RawFields(line));
    if AcceptsCount(|vs|, |hs|) then Some(BuildRow(hs, vs)) else None
  }

  /**
   * What an accepted line stores under a header with no later duplicate:
   * the normalised field at the header's position, or the empty string when
   * the line is shorter, divided by 10 in a scaled column.
   */
  lemma ParseLineCell(hs: seq<string>, line: string, i: nat)
    requires ParseLine(hs, line).Some?
    requires i < |hs| && forall j :: i < j < |hs| ==> hs[j] != hs[i]
    ensures var raw := RawFields(line);
      var f := if i < |raw| then raw[i] else "";
      ParseLine(hs, line).value[hs[i]] == (if IsScaledColumn(hs[i]) && f != "" then ScaleValue(f) else f)
  {
    var raw := RawFields(line);
    var vs := DropTrailingEmpty(raw);
    BuildRowAt(hs, vs, i);
    if i < |vs| {
      assert vs[i] == raw[i];
    }
  }

  /** What one line adds to the table: its record when accepted, nothing otherwise. */
  function LineRows(hs: seq<string>, line: string): (r: seq<Row>)
    ensures |r| <= 1
    ensures |r| == 1 <==> ParseLine(hs, line).Some?
    ensures |r| == 1 ==> r[0] == ParseLine(hs, line).value
  {
    match ParseLine(hs, line)
    case Some(row) => [row]
    case None => []
  }

  /** The records of the accepted lines, in line order. */
  function ParseRows(hs: seq<string>, lines: seq<string>): (rows: seq<Row>)
    ensures |rows| <= |lines|
    ensures forall k :: 0 <= k < |rows| ==> IsComplete(rows[k], hs)
    decreases |lines|
  {
    if |lines| == 0 then []
    else
      var k := |lines| - 1;
      ParseRows(hs, lines[..k]) + LineRows(hs, lines[k])
  }

  /** Parsing one more line appends what that line adds. */
  lemma ParseRowsLast(hs: seq<string>, lines: seq<string>, line: string)
    ensures ParseRows(hs, lines + [line]) == ParseRows(hs, lines) + LineRows(hs, line)
  {
    assert (lines + [line])[..|lines|] == lines;
  }

  /** Parsing distributes over concatenation of line lists: kept rows stay in input order. */
  lemma {:induction false} ParseRowsAppend(hs: seq<string>, a: seq<string>, b: seq<string>)
    ensures ParseRows(hs, a + b) == ParseRows(hs, a) + ParseRows(hs, b)
    decreases |b|
  {
    if |b| == 0 {
      assert a + b == a;
    } else {
      var k := |b| - 1;
      var c := b[..k];
      assert b == c + [b[k]];
      assert a + b == (a + c) + [b[k]];
      ParseRowsAppend(hs, a, c);
      ParseRowsLast(hs, a + c, b[k]);
      ParseRowsLast(hs, c, b[k]);
      Regroup(ParseRows(hs, a), ParseRows(hs, c), LineRows(hs, b[k]));
    }
  }

  lemma Regroup<T>(p: seq<T>, q: seq<T>, r: seq<T>)
    ensures (p + q) + r == p + (q + r)
  {
  }

  /** A single line contributes its record when accepted and nothing otherwise. */
  lemma ParseRowsSingle(hs: seq<string>, line: string)
    ensures ParseRows(hs, [line]) == LineRows(hs, line)
  {
    assert [line][..0] == [];
  }

  /** The lines of `text` that are not blank: every one of them, in order. */
  function NonBlankLines(text: string): (r: seq<string>)
    ensures forall k :: 0 <= k < |r| ==> Trim(r[k]) != ""
    ensures var ls := Split(text, '\n');
      var idx := NonBlankPositions(ls);
      |r| == |idx| && forall p :: 0 <= p < |idx| ==> r[p] == ls[idx[p]]
  {
    var ls := Split(text, '\n');
    KeepNonBlankFrom(ls, 0);
    assert ls[0..] == ls;
    KeepNonBlank(ls)
  }

  function KeepNonBlank(ls: seq<string>): (r: seq<string>)
    ensures |r| <= |ls|
    ensures forall k :: 0 <= k < |r| ==> Trim(r[k]) != ""
    decreases |ls|
  {
    if |ls| == 0 then []
    else if Trim(ls[0]) == "" then KeepNonBlank(ls[1..])
    else [ls[0]] + KeepNonBlank(ls[1..])
  }

  /** The lines from `i` on that are kept are the lines at the non-blank positions, in order. */
  lemma {:induction false} KeepNonBlankFrom(ls: seq<string>, i: nat)
    requires i <= |ls|
    ensures var idx := NonBlankFrom(ls, i);
      var r := KeepNonBlank(ls[i..]);
      |r| == |idx| && forall p :: 0 <= p < |idx| ==> r[p] == ls[idx[p]]
    decreases |ls| - i
  {
    if i < |ls| {
      KeepNonBlankFrom(ls, i + 1);
      KeepNonBlankStep(ls, i);
      if Trim(ls[i]) != "" {
        PickCons(ls, i, NonBlankFrom(ls, i + 1), KeepNonBlank(ls[i + 1..]));
      }
    }
  }

  /** Keeping the lines from `i` on looks at line `i` and then at the lines after it. */
  lemma KeepNonBlankStep(ls: seq<string>, i: nat)
    requires i < |ls|
    ensures KeepNonBlank(ls[i..]) ==
      (if Trim(ls[i]) == "" then [] else [ls[i]]) + KeepNonBlank(ls[i + 1..])
  {
    assert ls[i..][1..] == ls[i + 1..];
    assert ls[i..][0] == ls[i];
  }

  /** Entries picked at positions `rest`, preceded by the entry at `i`, are the entries picked at `[i] + rest`. */
  lemma PickCons<T>(xs: seq<T>, i: nat, rest: seq<nat>, picked: seq<T>)
    requires i < |xs| && |picked| == |rest|
    requires forall p :: 0 <= p < |rest| ==> rest[p] < |xs| && picked[p] == xs[rest[p]]
    ensures var idx, r := [i] + rest, [xs[i]] + picked;
      forall p :: 0 <= p < |idx| ==> idx[p] < |xs| && r[p] == xs[idx[p]]
  {
    var idx, r := [i] + rest, [xs[i]] + picked;
    forall p | 0 <= p < |idx| ensures idx[p] < |xs| && r[p] == xs[idx[p]] {
      if p > 0 {
        assert idx[p] == rest[p - 1] && r[p] == picked[p - 1];
      }
    }
  }

  /** Blank lines before position `i` are dropped. */
  lemma {:induction false} KeepNonBlankSkip(ls: seq<string>, i: nat)
    requires i <= |ls|
    requires forall j :: 0 <= j < i ==> Trim(ls[j]) == ""
    ensures KeepNonBlank(ls) == KeepNonBlank(ls[i..])
    decreases i
  {
    if i == 0 {
      assert ls[0..] == ls;
    } else {
      var rest := ls[1..];
      forall j | 0 <= j < i - 1 ensures Trim(rest[j]) == "" {
        assert rest[j] == ls[j + 1];
      }
      KeepNonBlankSkip(rest, i - 1);
      assert rest[i - 1..] == ls[i..];
    }
  }

  /** Non-blank lines all survive, and a blank line after them is dropped. */
  lemma {:induction false} KeepNonBlankThenBlank(ls: seq<string>, blank: string)
    requires forall k :: 0 <= k < |ls| ==> Trim(ls[k]) != ""
    requires Trim(blank) == ""
    ensures KeepNonBlank(ls + [blank]) == ls
    decreases |ls|
  {
    if |ls| == 0 {
      assert [blank][1..] == [];
    } else {
      var rest := ls[1..];
      forall k | 0 <= k < |rest| ensures Trim(rest[k]) != "" {
        assert rest[k] == ls[k + 1];
      }
      assert (ls + [blank])[1..] == rest + [blank];
      KeepNonBlankThenBlank(rest, blank);
      HeadTail(ls);
    }
  }

  /**
   * `parseCSV` as a function: `None` when the text has no non-blank line
   * (the source throws before touching any state), otherwise the headers of
   * the first non-blank line and the records of the later ones.
   */
  function Parse(text: string): (r: Option<Table>)
    ensures r.Some? ==> forall k :: 0 <= k < |r.value.headers| ==>
      r.value.headers[k] != "" && IsTrimmed(r.value.headers[k])
    ensures r.Some? ==> forall k :: 0 <= k < |r.value.rows| ==> IsComplete(r.value.rows[k], r.value.headers)
  {
    var lines := NonBlankLines(text);
    if |lines| == 0 then None
    else
      var hs := HeaderFields(lines[0]);
      Some(Table(hs, ParseRows(hs, lines[1..])))
  }

  /**
   * What `parseCSV` reads, for every text: with `i` the first non-blank
   * line, every line before it is blank, the headers come from line `i`
   * and the records from the non-blank lines after it, in order; with no
   * non-blank line there is no table.
   */
  lemma ParseFirstLine(text: string)
    ensures var ls := Split(text, '\n');
      var idx := NonBlankPositions(ls);
      (Parse(text).None? <==> |idx| == 0)
      && (|idx| > 0 ==>
            var i := idx[0];
            var hs := HeaderFields(ls[i]);
            Trim(ls[i]) != ""
            && (forall j :: 0 <= j < i ==> Trim(ls[j]) == "")
            && Parse(text) == Some(Table(hs, ParseRows(hs, KeepNonBlank(ls[i + 1..])))))
  {
    var ls := Split(text, '\n');
    var idx := NonBlankPositions(ls);
    var lines := NonBlankLines(text);
    if |idx| > 0 {
      var i := idx[0];
      BlankBeforeFirst(ls, 0);
      KeepNonBlankSkip(ls, i);
      assert ls[i..][0] == ls[i] && ls[i..][1..] == ls[i + 1..];
      assert lines == [ls[i]] + KeepNonBlank(ls[i + 1..]);
      assert lines[1..] == KeepNonBlank(ls[i + 1..]);
    }
  }

  /** Every line trims to nothing. */
  predicate AllBlank(ls: seq<string>)
  {
    forall k :: 0 <= k < |ls| ==> Trim(ls[k]) == ""
  }

  /** Parsing fails exactly when every line of the text is blank. */
  lemma ParseFailsIffAllBlank(text: string)
    ensures Parse(text).None? <==> AllBlank(Split(text, '\n'))
  {
    var ls := Split(text, '\n');
    AllBlankIffNoneKept(ls);
    assert NonBlankLines(text) == KeepNonBlank(ls);
    if |KeepNonBlank(ls)| == 0 {
      assert Parse(text) == None;
    } else {
      assert Parse(text).Some?;
    }
  }

  lemma {:induction false} AllBlankIffNoneKept(ls: seq<string>)
    ensures |KeepNonBlank(ls)| == 0 <==> AllBlank(ls)
    decreases |ls|
  {
    if |ls| > 0 {
      AllBlankIffNoneKept(ls[1..]);
      AllBlankCons(ls);
    }
  }

  /** A list is all blank exactly when its first line is blank and the rest are. */
  lemma AllBlankCons(ls: seq<string>)
    requires |ls| > 0
    ensures AllBlank(ls) <==> Trim(ls[0]) == "" && AllBlank(ls[1..])
  {
    var rest := ls[1..];
    if Trim(ls[0]) == "" && AllBlank(rest) {
      forall k | 0 <= k < |ls| ensures Trim(ls[k]) == "" {
        if k > 0 {
          assert ls[k] == rest[k - 1];
        }
      }
    }
    if AllBlank(ls) {
      forall k | 0 <= k < |rest| ensures Trim(rest[k]) == "" {
        assert rest[k] == ls[k + 1];
      }
    }
  }
}
