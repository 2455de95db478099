# CSV table engine, modelled in Dafny

`script.js` is a browser page that loads a CSV file into a table, filters it
and lets the user download the rows it shows. Its state is three module-level
variables: `csvData` holds the loaded rows, `filteredData` the rows the
filters let through, and `headers` the column names. This project models the
engine behind the page:

- **Loading.** `parseCSV` turns CSV text into headers and one record per
  accepted data line.
  - Blank lines are dropped.
  - Null-like tokens are normalised to the empty string.
  - Trailing empty fields are removed.
  - A line is accepted when it has one field per header, or one fewer.
  - Voltage, frequency and current columns are divided by 10.
- **Filtering.** The predicate `applyFilters` hands to `filter` combines:
  - an inclusive date range on DD/MM/YY dates;
  - a shift equality test;
  - a mode equality test.
- **The clear-filters handler** and the `updateStats` counters.
- **The choice lists `createFilterInputs` builds.**
  - Shift and mode lists: the distinct values, with blanks shown as "(Empty)" and placed last.
  - Date list: the distinct non-blank dates in date order. Its first and last entries are the default range.
- **The text `downloadCSV` writes.**
- **The `parseDate` helper.** It follows the ECMAScript `Date` constructor's day arithmetic.

The page state is the class `Sessions.Session`. Its methods reassign its
three fields. Every other part of the engine is a function, and the
properties are stated as lemmas about those functions.

The modules follow the engine's parts:

| Module | File | What it holds |
|---|---|---|
| `Text` | `text.dfy` | JavaScript's `split`, `join`, `trim`, ASCII case mapping and decimal numerals |
| `Loader` | `loader.dfy` | `parseCSV` as a function |
| `Dates` | `dates.dfy` | `parseDate` and the ECMAScript day numbers |
| `Filters` | `filters.dfy` | The `applyFilters` predicate and the subsequence it selects |
| `Options` | `options.dfy` | `new Set`, the stable `sort`, and the choice lists |
| `Export` | `export.dfy` | The download text |
| `RoundTrip` | `roundtrip.dfy` | Loading the downloaded text gives back the table |
| `Sessions` | `session.dfy` | The loops of `parseCSV` and `downloadCSV`, and the session class |
| `Samples` | `samples.dfy` | The model worked out on small concrete tables |

Behaviour worth knowing, all modelled as the code does it:

- **Malformed dates.** A date without exactly three '/'-separated parts is
  parsed as `new Date(0)`, the epoch. An active "from" bound written as a
  DD/MM/YY date therefore leaves such a row out (`Filters.MalformedDateExcluded`).
- **Dates that are not numbers.** A date whose parts are not numbers is the
  invalid date. Both comparisons with it are false, so no bound excludes it
  (`Filters.InvalidDateKept`).
- **The "(Empty)" choice.** In the shift and mode lists, "(Empty)" carries the
  value `''`. That is also the value of "all", so choosing "(Empty)" shows every
  row, not the rows with a blank cell (`Filters.EmptyChoiceMatchesAll`).
- **Duplicate header names.** The value written last wins (script.js:81).
  A Dafny `map` keeps the last update in the same way.
- **Loading fails when there is no non-blank line.** `lines[0]` is then
  undefined and the call throws before any variable is assigned.
  `Loader.Parse` returns `None`. `Sessions.Session.ParseCSV` returns `false`
  and leaves the state as it was.

## Model

| member | source | states |
|---|---|---|
| `Text.JoinSplit` | script.js:41 | Joining the pieces `split` returns, with the same separator, gives back the text: splitting loses nothing |
| `Text.SplitJoin` | script.js:321 | Splitting a join gives back the pieces when no piece holds the separator |
| `Text.SplitPieces` | script.js:41 | No piece that `split` returns holds the separator |
| `Text.Trim` | script.js:45 | The result of `trim` has no white space at either end and is no longer than its input |
| `Text.TrimBetweenSpaces` | script.js:45 | `trim` returns a slice of its input with only white space before and after it |
| `Text.TrimFixpoint` | script.js:45 | Trimming leaves a string unchanged exactly when neither end is white space |
| `Text.TrimEmpty` | script.js:41 | A line trims to `''` exactly when every character in it is white space |
| `Text.CaseFolding` | script.js:74 | Lower case holds no capital and upper case no small letter. Folding either way and then to one case gives the same result as folding to that case directly |
| `Text.IncludesOccurs` | script.js:74 | `includes` holds exactly when the pattern occurs at some position of the text |
| `Text.LeadingDigits` | script.js:75 | The longest prefix of digits: a prefix, all digits, and followed by a non-digit or the end |
| `Text.NatToDecimalValue` | script.js:77 | The decimal numeral written for `n` reads back as `n` |
| `Loader.NormaliseField` | script.js:50-58 | A field becomes `''` exactly when its trimmed form is empty, `null` or `undefined` in any case, or exactly `N/A`, `n/a` or `-`. Otherwise it becomes its trimmed form |
| `Loader.NormaliseIdempotent` | script.js:50-58 | Normalising a normalised field changes nothing |
| `Loader.NullishTokens` | script.js:53-55 | `NULL`, `Null` and `UNDEFINED` count as null in any case. `N/a`, `--` and `0` do not |
| `Loader.RawFields` | script.js:50-59 | One value per comma-separated piece, in order: the piece normalised. So each value is `''` or trimmed and not null-like |
| `Loader.DropTrailingEmpty` | script.js:61-64 | The result is a prefix of the fields that does not end in `''`, and everything it drops is `''` |
| `Loader.NonBlankFrom` | script.js:41 | The positions listed are increasing, and each holds a string that does not trim to `''` |
| `Loader.NonBlankFromComplete` | script.js:41 | Every position whose string does not trim to `''` is listed |
| `Loader.BlankBeforeFirst` | script.js:41-44 | Every string before the first listed position trims to `''` |
| `Loader.NonEmptyTrimmedFrom` | script.js:44-46 | The pieces kept are the pieces at the non-blank positions, trimmed, in order |
| `Loader.HeaderFields` | script.js:44-46 | The headers are the comma-separated pieces of the line that are not blank, trimmed, in their order. Each is non-empty and trimmed |
| `Loader.NonEmptyTrimmedKeepsAll` | script.js:44-46 | Pieces that are already non-empty and trimmed all become headers, in order |
| `Loader.FixedTwoMeaning` | script.js:77 | The text written for a scaled value `n` is digits, a point and two digits. Read without the point, it is `10 * n` hundredths, which is `n / 10` |
| `Loader.ScaledColumnByName` | script.js:73-74 | A column is scaled exactly when its upper-case name contains `VOLTAGE`, `VFD_RUNNING_FRQ` or `VFD_CURRENT` |
| `Loader.FixedTwo` | script.js:77 | The text written for a scaled value ends in a point and two digits, the last one `0` |
| `Loader.ScaleValue` | script.js:75-78 | A value not starting with a digit is kept. A value made only of digits becomes the number divided by 10 with two decimals. A non-empty value never becomes `''` |
| `Loader.CellValue` | script.js:69-79 | A cell is `''` exactly when the line has no value at that position or the value is `''`. Outside a scaled column it is that value |
| `Loader.BuildRow` | script.js:68-82 | The record has an entry for every header and no other key |
| `Loader.BuildRowAt` | script.js:69-81 | A header with no later duplicate holds the cell at its own position: the field, or `''` past the end, divided by 10 in a scaled column |
| `Loader.ParseLine` | script.js:50-84 | A line yields a record exactly when, after its trailing `''` fields are dropped, it has as many fields as there are headers, or one fewer. The record is complete |
| `Loader.ParseLineCell` | script.js:68-81 | Under each header with no later duplicate, an accepted line stores the normalised field at that position, or `''` when the line is shorter. In a scaled column the value is divided by 10 |
| `Loader.LineRows` | script.js:67-84 | A line adds its parsed record when it is accepted, and nothing otherwise |
| `Loader.ParseRows` | script.js:48-85 | No more records than lines, and every record is complete |
| `Loader.ParseRowsAppend` | script.js:49-85 | The records of two blocks of lines are those of the first block followed by those of the second, so records keep the order of their lines |
| `Loader.ParseRowsSingle` | script.js:67-84 | A single line contributes exactly what that line adds |
| `Loader.KeepNonBlank` | script.js:41 | The blank-line filter keeps no line that trims to `''`, and no more lines than it gets |
| `Loader.KeepNonBlankFrom` | script.js:41 | The lines kept are the lines at the non-blank positions, in order |
| `Loader.KeepNonBlankSkip` | script.js:41 | Blank lines at the front do not change what the filter keeps |
| `Loader.NonBlankLines` | script.js:41 | The lines kept from the text are its lines at the non-blank positions, in order. None of them trims to `''` |
| `Loader.KeepNonBlankThenBlank` | script.js:41 | Non-blank lines all survive, in order, and a blank line after them is dropped |
| `Loader.Parse` | script.js:40-87 | On success, every header is non-empty and trimmed and every record is complete |
| `Loader.ParseFirstLine` | script.js:40-87 | Loading fails exactly when no line is non-blank. Otherwise every line before the first non-blank one is blank, the headers come from that line, and the records come from the non-blank lines after it, in order |
| `Loader.ParseFailsIffAllBlank` | script.js:41-44 | Loading fails exactly when every line of the text is blank |
| `Dates.DateKey` | script.js:190-196 | A date string without exactly three '/'-separated parts parses to the epoch (day 0) |
| `Dates.PartsKey` | script.js:190-196 | A valid parsed date lies within the range of `Date` time values |
| `Dates.DayFromYear` | script.js:193 | Year 1970 begins on day 0 and year 2000 on day 10957 |
| `Dates.YearOf` | script.js:193 | The year `'20' + p` names: 1920 for an empty part, 200 to 209 for one digit, 2000 to 2099 for two |
| `Dates.MakeDayCarry` | script.js:193 | Twelve more months are one more year, and one more day is the next day number, as `Date` carries overflowing fields |
| `Dates.BeforeStrictOrder` | script.js:198-208 | The filter's `<` is irreflexive and transitive, and the invalid date is neither before nor after any date |
| `Dates.YearLength` | script.js:193 | Consecutive years begin 365 or 366 days apart; a leap year has 366 |
| `Dates.YearsIncrease` | script.js:193 | A later year begins at least 365 days later |
| `Dates.MonthsIncrease` | script.js:193 | A later month of the same year begins after the earlier month ends |
| `Dates.WithinYear` | script.js:193 | A real calendar date falls between January 1st of its year and January 1st of the next year |
| `Dates.EarlierYear` | script.js:193 | A real date in an earlier year has a smaller day number |
| `Dates.SameYear` | script.js:193 | Within one year, day numbers follow (month, day) order, in both directions |
| `Dates.CalendarOrder` | script.js:193 | On real calendar dates, day numbers order dates exactly as (year, month, day) triples do |
| `Dates.ShortDateAfterEpoch` | script.js:190-196 | A DD/MM/YY date made of digits is never the invalid date and lies after the epoch, so after every malformed date |
| `Dates.DayInRange` | script.js:193 | Every month 0..99 and day 0..99 of the years 2000..2099 is after the epoch and within the time-value range |
| `Dates.ShortDateDayOrder` | script.js:193-202 | For DD/MM/YY dates naming real days, the day numbers compare as the (year, month, day) triples do |
| `Dates.ShortDateOrder` | script.js:198-208 | The filter's `<` on two such dates is the lexicographic order of their triples |
| `Filters.FirstMatch` | script.js:180-182 | The position found matches, and no earlier header does |
| `Filters.FindColumn` | script.js:180-182 | `find` returns nothing exactly when no header matches. Otherwise it returns the first header that matches |
| `Filters.MatchesIgnoresCase` | script.js:180-182 | Which header is the date, shift or mode column does not depend on the case of its name |
| `Filters.Lookup` | script.js:187 | Reading a key gives `undefined` exactly when it is missing, and the stored value otherwise |
| `Filters.BlankDateKept` | script.js:186-188 | A row with a missing or blank date passes the date test, whatever the bounds |
| `Filters.ValueMatchesChosen` | script.js:212-220 | With a non-empty choice and the column present, a row passes the shift or mode test exactly when its cell equals the choice |
| `Filters.KeepConjunction` | script.js:184-223 | A row passes the filter exactly when it passes the date test, the shift test and the mode test, each taken alone |
| `Filters.FilterRows` | script.js:184-223 | No more rows than the input, and every kept row passes the filter's test |
| `Filters.KeepMask` | script.js:184-223 | One flag per row, set exactly when the row passes the test |
| `Filters.FilterIsSelection` | script.js:184-223 | The filter returns exactly the rows whose flag is set, in their original order |
| `Filters.FilterIsSubsequence` | script.js:184-223 | The filtered rows are a subsequence of the loaded rows |
| `Filters.FilterMembers` | script.js:184-223 | A loaded row is among the filtered rows exactly when it passes the test |
| `Filters.NoSelectionKeepsAll` | script.js:186-219 | With every control empty, every row passes |
| `Filters.FilterNoSelection` | script.js:184-223 | With every control empty, filtering returns the rows unchanged |
| `Filters.MalformedDateExcluded` | script.js:190-202 | A row whose date does not have three parts is left out by a "from" bound written as a DD/MM/YY date |
| `Filters.InvalidDateKept` | script.js:198-208 | A date that parses to the invalid date passes every bound |
| `Filters.ShortDateRange` | script.js:186-209 | On dates naming real days, the range test is the inclusive range on (year, month, day) triples |
| `Filters.EmptyChoiceMatchesAll` | script.js:212-219 | A shift or mode choice of `''`, which is the value of "(Empty)", keeps every row |
| `Options.Distinct` | script.js:94 | No value occurs twice, and the values are exactly those of the input |
| `Options.StrLe` | script.js:98 | A string comes no later than every string it is a prefix of |
| `Options.LeEnds` | script.js:95-151 | In the shift and mode lists "(Empty)" comes after every other value. In the date list an invalid date comes before every valid one |
| `Options.StrLeTotal` | script.js:98 | Any two strings are comparable in the order used for `localeCompare` |
| `Options.StrLeTrans` | script.js:98 | That order is transitive |
| `Options.StrLeAntisym` | script.js:98 | That order is antisymmetric |
| `Options.LeTotal` | script.js:95-99 | Either of two values may precede the other under the comparator |
| `Options.LeTrans` | script.js:95-99 | Precedence under the comparator is transitive |
| `Options.Insert` | script.js:95-99 | Inserting adds exactly the one value |
| `Options.Sort` | script.js:95-99 | The sorted list is a permutation of its input |
| `Options.InsertSorted` | script.js:95-99 | Inserting into a sorted list keeps it sorted |
| `Options.InsertNoDup` | script.js:94-99 | Inserting a new value into a list without repeats keeps it without repeats |
| `Options.SortSorted` | script.js:95-99 | The sort orders its result and adds no repeats |
| `Options.SortMembers` | script.js:95-99 | A value is in the sorted list exactly when it is in the input |
| `Options.CategoryValue` | script.js:94 | A row shows its cell when the cell is present and non-empty, and "(Empty)" otherwise. It never shows `''` |
| `Options.CategoryValues` | script.js:94 | One shown value per row, in row order |
| `Options.CategoryOptions` | script.js:91-99 | There is a list exactly when the table has the column |
| `Options.CategoryOptionsSpec` | script.js:91-121 | The shift or mode list has no repeats and is sorted. Its entries are exactly the values the rows show, none of them `''`, with "(Empty)" last when present |
| `Options.CategoryValuesMembers` | script.js:94 | A value is among the shown values exactly when some row shows it |
| `Options.EmptyLabelLast` | script.js:95-97 | In a list sorted by the comparator, "(Empty)" can only be last |
| `Options.DateCells` | script.js:140 | One date cell per row, in row order |
| `Options.DateOptions` | script.js:138-152 | There is a date list exactly when the table has a date column |
| `Options.KeepNonBlankMembers` | script.js:141 | The blank filter keeps exactly the non-blank values |
| `Options.KeepNonBlankNoDup` | script.js:140-141 | Dropping blanks from a list without repeats leaves none |
| `Options.DateOptionsSpec` | script.js:138-152 | The date list has no repeats and is sorted by parsed date. Its entries are exactly the non-blank date cells of the rows |
| `Options.SortKey` | script.js:144-151 | A valid date sorts by its day number; the invalid date sorts before every valid one |
| `Options.DefaultRange` | script.js:165-169 | There are defaults exactly when the list is non-empty. The default "from" is the first entry of the list and the default "to" its last entry |
| `Options.DefaultRangeBounds` | script.js:165-169 | In the sorted date list, the defaults bound every entry |
| `Options.SortedByDay` | script.js:142-152 | Two valid dates in the sorted list stand in the order of the days they name |
| `Export.DoubleQuotes` | script.js:317 | Doubling quotes never shortens a value and changes no other character |
| `Export.Escape` | script.js:315-318 | A value without a comma, quote or newline is written unchanged. Any other value is wrapped in quotes, and undoubling what lies between them gives the value back. No character other than `"` is added or removed |
| `Export.UndoubleDoubleQuotes` | script.js:317 | Undoing the doubling gives back the value |
| `Export.ReadEscape` | script.js:316-318 | A reader that follows RFC 4180 (section 2, rules 5 to 7) gets back every field exactly as it was before escaping |
| `Export.CellText` | script.js:308-319 | A cell is `''` exactly when the value is missing or empty, and otherwise the escaped value |
| `Export.HeaderLine` | script.js:305 | Headers without newlines give a line without one. Headers without commas split back on commas into the headers |
| `Export.RowLine` | script.js:306-321 | Values without newlines give a row line without one |
| `Export.CsvText` | script.js:305-322 | The file starts with the header line and a newline, and ends with a newline |
| `Export.Cells` | script.js:307-320 | One cell per header, in header order |
| `Export.RowLines` | script.js:306-322 | One line per row, in row order |
| `Export.RowsTextLines` | script.js:306-322 | The rows' text is their lines in order, each followed by a newline |
| `Export.CsvTextLines` | script.js:305-322 | The file is the header line, then one line per row, each followed by a newline |
| `Export.CsvTextSplit` | script.js:305-322 | Without newlines in the data, the file splits into the header line, then one line per row, then nothing |
| `Export.RowValues` | script.js:307-312 | The value under each header, or `''` where the row has none |
| `Export.RowLineFields` | script.js:307-321 | A row of plain values splits on commas into exactly one field per header, in header order, each the stored value |
| `Export.CellsOfPlain` | script.js:310-319 | Values without a comma, quote or newline are written unchanged |
| `RoundTrip.NormalisePlain` | script.js:50-58 | The loader keeps a trimmed, non-null-like value unchanged |
| `RoundTrip.RawFieldsOfRowLine` | script.js:50-59 | The loader reads the fields of a written row line as the row's values |
| `RoundTrip.BuildRowValue` | script.js:68-82 | Rebuilding a record from a written line gives back each stored value |
| `RoundTrip.BuildRowOfValues` | script.js:68-82 | Rebuilding a record from a written line gives back the whole record |
| `RoundTrip.ParseLineOfRowLine` | script.js:50-84 | A written row line is accepted and parses back to its row |
| `RoundTrip.ParseRowsAll` | script.js:49-85 | Lines that each parse to the row at their position parse, together, to those rows |
| `RoundTrip.RowsOfRowLines` | script.js:49-85 | The written row lines parse back to the rows, in order |
| `RoundTrip.HeaderLineNotBlank` | script.js:305 | The written header line is not blank |
| `RoundTrip.RowLineNotBlank` | script.js:321 | A written row line with a value in it is not blank |
| `RoundTrip.LinesOfCsvText` | script.js:305-322 | The non-blank lines of the file are the header line and the row lines, in order |
| `RoundTrip.HeadersOfHeaderLine` | script.js:305 | The header line reads back as the headers |
| `RoundTrip.ParseCsvText` | script.js:298-322 | Loading the downloaded text gives back the same headers and rows, in order, under these conditions: no scaled column; plain, trimmed, non-null-like values; each row with a value and at most one trailing blank |
| `Sessions.DropTrailing` | script.js:61-64 | The `pop` loop removes exactly the trailing `''` fields |
| `Sessions.BuildRecord` | script.js:68-82 | The `forEach` over the headers builds the record `Loader.BuildRow` describes, and that record is complete |
| `Sessions.ParseLines` | script.js:49-85 | The line loop produces exactly the records `Loader.ParseRows` describes |
| `Sessions.ParseText` | script.js:40-85 | Parsing the text step by step gives the `Loader.Parse` result |
| `Sessions.Session.constructor` | script.js:1-3 | The page starts with no headers and no rows, and its state is consistent |
| `Sessions.Session.ParseCSV` | script.js:40-87 | On success: headers and rows are replaced by the parse result, every row is shown, and the state is consistent. Otherwise nothing changes |
| `Sessions.Session.Load` | script.js:44-86 | The three variables are replaced by the table, with every row shown |
| `Sessions.Session.ApplyFilters` | script.js:173-227 | The shown rows become the loaded rows that pass the filter, in order, and the state stays consistent |
| `Sessions.Session.ClearFilters` | script.js:342-350 | The shown rows become exactly the loaded rows, in order |
| `Sessions.Session.Stats` | script.js:273-277 | The three counters are the row, shown-row and column counts, and no more rows are shown than are loaded |
| `Sessions.Session.DownloadText` | script.js:298-322 | No text for no rows. Otherwise the text `Export.CsvText` describes, built line by line |
| `Samples.ShiftListSample` | script.js:94-99 | A shift column holding B, A, a blank and A offers A, B, "(Empty)" |
| `Samples.ScaleSample` | script.js:77 | The stored value 1234 is written 123.40 |
| `Samples.ScaledColumnSample` | script.js:72-79 | In a column named VOLTAGE_RMS the field 1234 is stored as 123.40 |
| `Samples.ShiftFilterSample` | script.js:212-215 | The shift choice "Night" keeps only the row whose shift is "Night" |
| `Samples.DateFilterSample` | script.js:184-209 | The range 01/06/24 to 30/06/24 keeps the rows dated 15/06/24 and blank, and leaves out 01/07/24 |

## Left out

- User interface: the DOM and jQuery rendering (`displayData`, `syncScrollbars`), the `<option>` elements and event wiring, and the loading and error messages.
- I/O: the `$.get` request and the FileReader upload handler with its MIME check.
- Downloading: the Blob and anchor download and the clock-based file name. `Sessions.Session.DownloadText` returns the text and does not write it anywhere.
- Loader.ScaleValue: models `parseFloat` only on a value that starts with a run of digits not followed by `.`, `e` or `E`. A numeric value of another form, such as `12.5`, `1e3`, `+5` or `-5`, is kept as it is, although JavaScript would divide it by 10. So is a value that starts with digits followed by other text, such as `5e`, `5.` or `12.x`: `parseFloat` reads 5, 5 and 12 from them, so the page stores `0.50`, `0.50` and `1.20`, while the model keeps the value. Values JavaScript reads as NaN, such as `abc`, are kept in both, and `Infinity` comes out as `Infinity` in both.
- Loader.FixedTwo: writes `n / 10` with exact decimal arithmetic. JavaScript divides a binary double and rounds, so the two texts agree only for values below about 7 * 10^14; `703687441776641` and `9007199254740991` already differ. The exponent notation `toFixed` uses from 10^21 up is not modelled either.
- Dates.PartsKey: a date part with spaces, a sign, a decimal point, an exponent or a hex prefix is treated as the invalid date, although JavaScript's `Number` would still read it.
- Dates.MakeDay: computed in UTC. The local time zone offset of the page's clock is not modelled.
- Options.SortKey: for invalid dates the source's comparator returns NaN, which leaves their place to the engine's sort. The model sorts them before every valid date.
- Options.StrLe: `localeCompare` depends on the locale. It is replaced by code-point order.
- Text.Lower: case mapping covers ASCII letters only.
- Text.Upper: case mapping covers ASCII letters only.
- Strings: a Dafny string is a sequence of code points, a JavaScript string a sequence of UTF-16 code units. Splitting, trimming and searching agree on both. Only case mapping of characters outside the Basic Multilingual Plane could differ, and the model maps no such character.
- The special key `__proto__` of JavaScript objects is not modelled. A header named `__proto__` would not create an own property in the source.
- Quoted fields: the loader does not unquote them, in the source as in the model. `Export.ReadEscape` therefore states the round trip of an escaped field for an RFC 4180 reader, not for the page's own loader.
