/**
 * The generator's flow (`SimpleExcelGenerator`): read the responses and strip the
 * column names, detect and rename the columns, build each output file name, fill the
 * template per row, and count the successes. Parsing the CSV and the workbook file
 * I/O are parameters: `parsed` is what `pd.read_csv` returned (`None` when it raised)
 * and `ioOk` says that nothing the model does not see raised while filling a row:
 * loading the template, openpyxl accepting each value and cell, and saving.
 */
module Generator {
  import opened Wrappers
  import opened Text
  import opened Columns
  import opened Template

  /** A parsed response table: column names and rows of values (`None` for NaN). */
  datatype Table = Table(columns: seq<string>, rows: seq<seq<Option<string>>>)

  /**
   * `read_csv_responses`: a failed read gives `None`; otherwise the same rows under
   * the column names with leading and trailing whitespace removed.
   */
  function ReadResponses(parsed: Option<Table>): (df: Option<Table>)
    ensures df.Some? <==> parsed.Some?
    ensures df.Some? ==> df.value.rows == parsed.value.rows
    ensures df.Some? ==> |df.value.columns| == |parsed.value.columns|
    ensures df.Some? ==> forall i :: 0 <= i < |df.value.columns| ==>
              var name := df.value.columns[i];
              (name == [] || (!IsSpace(name[0]) && !IsSpace(name[|name| - 1]))) &&
              exists lead :: StrippedAt(parsed.value.columns[i], lead, name)
  {
    match parsed
    case None => None
    case Some(t) =>
      Some(Table(seq(|t.columns|, i requires 0 <= i < |t.columns| => Strip(t.columns[i])), t.rows))
  }

  /** The value of column `i` in a row; pandas pads a short row with NaN. */
  function ValueAt(values: seq<Option<string>>, i: nat): Option<string> {
    if i < |values| then values[i] else None
  }

  /** The label a column has after `df.rename(columns=mapping)`. */
  function Label(column: string, mapping: map<string, string>): string {
    if column in mapping then mapping[column] else column
  }

  /**
   * One row of the renamed frame, seen as label -> value, built from its first `n`
   * columns. Where two columns end up with the same label the later one is kept.
   */
  function RenameRow(columns: seq<string>, values: seq<Option<string>>, mapping: map<string, string>, n: nat): Row
    requires n <= |columns|
  {
    if n == 0 then map[]
    else RenameRow(columns, values, mapping, n - 1)[Label(columns[n - 1], mapping) := ValueAt(values, n - 1)]
  }

  /** The labels of the first `n` columns after renaming. */
  function LabelSet(columns: seq<string>, mapping: map<string, string>, n: nat): set<string>
    requires n <= |columns|
  {
    if n == 0 then {} else LabelSet(columns, mapping, n - 1) + {Label(columns[n - 1], mapping)}
  }

  /** The label of each of the first `n` columns is among their labels. */
  lemma {:induction false} LabelSetHas(columns: seq<string>, mapping: map<string, string>, n: nat)
    requires n <= |columns|
    ensures forall i :: 0 <= i < n ==> Labels(columns, mapping)[i] in LabelSet(columns, mapping, n)
  {
    if n > 0 {
      LabelSetHas(columns, mapping, n - 1);
    }
  }

  /** Each of those labels is the label of one of the first `n` columns. */
  lemma {:induction false} LabelSetOnly(columns: seq<string>, mapping: map<string, string>, n: nat)
    requires n <= |columns|
    ensures forall key :: key in LabelSet(columns, mapping, n) ==>
              exists i :: 0 <= i < n && Labels(columns, mapping)[i] == key
  {
    if n > 0 {
      LabelSetOnly(columns, mapping, n - 1);
      assert Labels(columns, mapping)[n - 1] == Label(columns[n - 1], mapping);
    }
  }

  /**
   * The renamed row has exactly the renamed labels, and a label that only one
   * column (or the last of several) carries holds that column's value.
   */
  lemma {:induction false} RenameRowSpec(columns: seq<string>, values: seq<Option<string>>, mapping: map<string, string>, n: nat)
    requires n <= |columns|
    ensures RenameRow(columns, values, mapping, n).Keys == LabelSet(columns, mapping, n)
    ensures forall i :: 0 <= i < n && LastWithLabel(Labels(columns, mapping), i, n) ==>
              Labels(columns, mapping)[i] in RenameRow(columns, values, mapping, n) &&
              RenameRow(columns, values, mapping, n)[Labels(columns, mapping)[i]] == ValueAt(values, i)
  {
    if n > 0 {
      RenameRowSpec(columns, values, mapping, n - 1);
      LabelSetHas(columns, mapping, n - 1);
      var labels := Labels(columns, mapping);
      var prev := RenameRow(columns, values, mapping, n - 1);
      var row := RenameRow(columns, values, mapping, n);
      assert row == prev[labels[n - 1] := ValueAt(values, n - 1)];
      forall i | 0 <= i < n && LastWithLabel(labels, i, n)
        ensures labels[i] in row && row[labels[i]] == ValueAt(values, i)
      {
        if i < n - 1 {
          assert labels[i] != labels[n - 1];
          assert LastWithLabel(labels, i, n - 1);
          assert labels[i] in prev;
          assert row[labels[i]] == prev[labels[i]];
        }
      }
    }
  }

  /** No column in `i+1..n` carries the label of column `i`. */
  predicate LastWithLabel(labels: seq<string>, i: nat, n: nat)
    requires i < n <= |labels|
  {
    forall j :: i < j < n ==> labels[j] != labels[i]
  }

  /** The column labels after renaming, in column order. */
  function Labels(columns: seq<string>, mapping: map<string, string>): seq<string>
  {
    seq(|columns|, i requires 0 <= i < |columns| => Label(columns[i], mapping))
  }

  /** Every row of `df.rename(columns=mapping)`. */
  function RenameRows(df: Table, mapping: map<string, string>): seq<Row>
  {
    seq(|df.rows|, i requires 0 <= i < |df.rows| => RenameRow(df.columns, df.rows[i], mapping, |df.columns|))
  }

  /** The rows as `generate_excel_for_all_responses` and `generate_single_excel` see them. */
  function MappedRows(df: Table): seq<Row> {
    RenameRows(df, DetectedMapping(df.columns))
  }

  /**
   * The labels that two or more columns carry after renaming. For such a label
   * pandas' `row[label]` is a Series of all their values, not a single value.
   */
  function Duplicated(columns: seq<string>, mapping: map<string, string>): set<string> {
    var labels := Labels(columns, mapping);
    set i, j | 0 <= i < j < |labels| && labels[i] == labels[j] :: labels[i]
  }

  /** The duplicated labels of a frame renamed by its detected mapping. */
  function DuplicatedLabels(df: Table): set<string> {
    Duplicated(df.columns, DetectedMapping(df.columns))
  }

  /** A duplicated label is a label of every renamed row. */
  lemma DuplicatedAreLabels(columns: seq<string>, values: seq<Option<string>>, mapping: map<string, string>, key: string)
    requires key in Duplicated(columns, mapping)
    ensures key in RenameRow(columns, values, mapping, |columns|)
  {
    var labels := Labels(columns, mapping);
    RenameRowSpec(columns, values, mapping, |columns|);
    LabelSetHas(columns, mapping, |columns|);
    var i, j :| 0 <= i < j < |labels| && labels[i] == labels[j] && labels[i] == key;
  }

  /** A label that only column `i` carries holds that column's value in the renamed row. */
  lemma UniqueLabelValue(columns: seq<string>, values: seq<Option<string>>, mapping: map<string, string>, i: nat)
    requires i < |columns|
    requires Labels(columns, mapping)[i] !in Duplicated(columns, mapping)
    ensures Labels(columns, mapping)[i] in RenameRow(columns, values, mapping, |columns|)
    ensures RenameRow(columns, values, mapping, |columns|)[Labels(columns, mapping)[i]] == ValueAt(values, i)
  {
    var labels := Labels(columns, mapping);
    RenameRowSpec(columns, values, mapping, |columns|);
    assert forall j :: i < j < |columns| && labels[j] == labels[i] ==> labels[i] in Duplicated(columns, mapping);
    assert LastWithLabel(labels, i, |columns|);
  }

  // ---------------------------------------------------------------- file names

  /** `str(value)`: a missing value (NaN) prints as "nan". */
  function Stringify(v: Option<string>): string {
    match v
    case Some(s) => s
    case None => "nan"
  }

  /** `str(row.get(field, default))`: the default is used only when the label is absent. */
  function FieldText(row: Row, field: string, default: string): string {
    if field in row then Stringify(row[field]) else default
  }

  /** The character the timestamp part shows for `c`. */
  function TimestampChar(c: char): char {
    if c == '/' || c == ':' then '-' else if c == ' ' then '_' else c
  }

  /**
   * The timestamp part of a file name:
   * `str(row.get('Timestamp', '')).replace('/', '-').replace(':', '-').replace(' ', '_')`.
   */
  function TimestampPart(row: Row): string {
    ReplaceChar(ReplaceChar(ReplaceChar(FieldText(row, "Timestamp", ""), '/', '-'), ':', '-'), ' ', '_')
  }

  /**
   * The three passes of `TimestampPart` amount to one character-by-character
   * substitution, and the result holds no '/', ':' or ' '.
   */
  lemma TimestampPartSpec(row: Row)
    ensures var raw := FieldText(row, "Timestamp", "");
            |TimestampPart(row)| == |raw| && forall k :: 0 <= k < |raw| ==> TimestampPart(row)[k] == TimestampChar(raw[k])
    ensures '/' !in TimestampPart(row) && ':' !in TimestampPart(row) && ' ' !in TimestampPart(row)
  {
  }

  /** The name or area part: `str(row.get(field, 'Unknown')).replace(' ', '_')`. */
  function WordPart(row: Row, field: string): string {
    ReplaceChar(FieldText(row, field, "Unknown"), ' ', '_')
  }

  /** The name or area part is the field's text with each space turned into '_'. */
  lemma WordPartSpec(row: Row, field: string)
    ensures var raw := FieldText(row, field, "Unknown");
            |WordPart(row, field)| == |raw| &&
            forall k :: 0 <= k < |raw| ==> WordPart(row, field)[k] == (if raw[k] == ' ' then '_' else raw[k])
    ensures ' ' !in WordPart(row, field)
  {
  }

  /** `f"{number}_{area}_{nama}_{timestamp}.xlsx"`. */
  function OutputName(number: nat, row: Row): string {
    Decimal(number) + "_" + (WordPart(row, "Area") + "_" + WordPart(row, "Nama") + "_" + TimestampPart(row) + ".xlsx")
  }

  /** A file name starts with the row number and '_', ends in ".xlsx" and holds no space. */
  lemma OutputNameShape(number: nat, row: Row)
    ensures Decimal(number) + "_" <= OutputName(number, row)
    ensures |OutputName(number, row)| >= 5 && OutputName(number, row)[|OutputName(number, row)| - 5..] == ".xlsx"
    ensures ' ' !in OutputName(number, row)
  {
    var digits := Decimal(number);
    assert ' ' !in digits by {
      assert forall k :: 0 <= k < |digits| ==> IsDigit(digits[k]);
    }
    WordPartSpec(row, "Area");
    WordPartSpec(row, "Nama");
    TimestampPartSpec(row);
    NameShape(digits, WordPart(row, "Area"), WordPart(row, "Nama"), TimestampPart(row));
  }

  /** The f-string's shape, for any parts without spaces. */
  lemma NameShape(digits: string, area: string, nama: string, timestamp: string)
    requires ' ' !in digits && ' ' !in area && ' ' !in nama && ' ' !in timestamp
    ensures var name := digits + "_" + (area + "_" + nama + "_" + timestamp + ".xlsx");
            digits + "_" <= name && |name| >= 5 && name[|name| - 5..] == ".xlsx" && ' ' !in name
  {
    var rest := area + "_" + nama + "_" + timestamp + ".xlsx";
    var name := digits + "_" + rest;
    assert rest[|rest| - 5..] == ".xlsx";
    assert name[|name| - 5..] == rest[|rest| - 5..];
  }

  /** The row number a file name starts with. */
  function FileNumber(name: string): nat {
    ParseDecimal(LeadingDigits(name))
  }

  /** The number in front of a file name is the one it was built from. */
  lemma OutputNameNumber(number: nat, row: Row)
    ensures FileNumber(OutputName(number, row)) == number
  {
    var name := OutputName(number, row);
    var d := Decimal(number);
    OutputNameShape(number, row);
    assert name == d + name[|d|..];
    LeadingDigitsOf(d, name[|d|..]);
    DecimalRoundTrip(number);
  }

  /** Different numbers give different file names, whatever the rows hold. */
  lemma OutputNamesDistinct(n1: nat, row1: Row, n2: nat, row2: Row)
    requires n1 != n2
    ensures OutputName(n1, row1) != OutputName(n2, row2)
  {
    OutputNameNumber(n1, row1);
    OutputNameNumber(n2, row2);
  }

  /** A row without any of the three labels is named from the defaults. */
  lemma AbsentFieldsUseDefaults(number: nat, row: Row)
    requires "Area" !in row && "Nama" !in row && "Timestamp" !in row
    ensures OutputName(number, row) == Decimal(number) + "_" + ("Unknown" + "_" + "Unknown" + "_" + "" + ".xlsx")
  {
    var unknown := "Unknown";
    assert ' ' !in unknown;
    WordPartSpec(row, "Area");
    WordPartSpec(row, "Nama");
    TimestampPartSpec(row);
    assert WordPart(row, "Area") == unknown;
    assert WordPart(row, "Nama") == unknown;
    assert TimestampPart(row) == [];
  }

  /** A present but missing value is not replaced by the default: it prints as "nan". */
  lemma MissingValueIsNan(row: Row)
    requires "Area" in row && row["Area"] == None
    requires "Timestamp" in row && row["Timestamp"] == None
    ensures WordPart(row, "Area") == "nan"
    ensures TimestampPart(row) == "nan"
  {
  }

  // ---------------------------------------------------------------- one row

  /**
   * The range check of `generate_single_excel`: a 1-based row number is accepted when
   * it lies in 1..count, and then names the 0-based row `rowNumber - 1`.
   */
  function RowIndex(rowNumber: int, count: nat): (index: Option<nat>)
    ensures index.Some? <==> 1 <= rowNumber <= count
    ensures index.Some? ==> index.value < count && index.value + 1 == rowNumber
  {
    if rowNumber < 1 || rowNumber > count then None else Some(rowNumber - 1)
  }

  datatype SingleOutcome =
    | NoRows                                    // the read failed or found no rows
    | OutOfRange                                // the row number is not in 1..len(df)
    | Failed(filename: string)                  // filling the template raised
    | Generated(filename: string, sheet: Sheet) // the workbook saved under `filename`

  /** `generate_single_excel`. */
  method GenerateSingle(parsed: Option<Table>, template: Sheet, rowNumber: int, ioOk: bool) returns (outcome: SingleOutcome)
    ensures outcome.NoRows? <==> parsed.None? || |parsed.value.rows| == 0
    ensures outcome.OutOfRange? <==> parsed.Some? && 0 < |parsed.value.rows| && !(1 <= rowNumber <= |parsed.value.rows|)
    ensures outcome.Generated? <==>
              && parsed.Some? && 1 <= rowNumber <= |parsed.value.rows| && ioOk
              && !AnyAmbiguous(MappedRows(ReadResponses(parsed).value)[rowNumber - 1], DuplicatedLabels(ReadResponses(parsed).value))
    ensures outcome.Failed? || outcome.Generated? ==>
              && parsed.Some? && 1 <= rowNumber <= |parsed.value.rows|
              && var row := MappedRows(ReadResponses(parsed).value)[rowNumber - 1];
              && outcome.filename == OutputName(rowNumber, row)
              && (outcome.Generated? ==> outcome.sheet == Projected(template, row))
  {
    var read := ReadResponses(parsed);
    if read.None? || |read.value.rows| == 0 {
      return NoRows;
    }
    var df := read.value;
    var index := RowIndex(rowNumber, |df.rows|);
    if index.None? {
      return OutOfRange;
    }
    var mapping := MapColumns(df.columns);
    var row := RenameRows(df, mapping)[index.value];
    var filename := OutputName(rowNumber, row);
    var written := FillExcelTemplate(template, row, Duplicated(df.columns, mapping), ioOk);
    if written.Some? {
      outcome := Generated(filename, written.value);
    } else {
      outcome := Failed(filename);
    }
  }

  // ---------------------------------------------------------------- all rows

  /** The number of `true` entries. */
  function CountTrue(oks: seq<bool>): (count: nat)
    ensures count <= |oks|
  {
    if oks == [] then 0 else CountTrue(oks[..|oks| - 1]) + (if oks[|oks| - 1] then 1 else 0)
  }

  /** Extending a prefix by one entry adds one exactly when that entry is `true`. */
  lemma CountTrueStep(oks: seq<bool>, n: nat)
    requires n < |oks|
    ensures CountTrue(oks[..n + 1]) == CountTrue(oks[..n]) + (if oks[n] then 1 else 0)
  {
    assert oks[..n + 1][..n] == oks[..n];
  }

  /** No `true` entry, no count. */
  lemma {:induction false} CountTrueNone(oks: seq<bool>)
    requires forall i :: 0 <= i < |oks| ==> !oks[i]
    ensures CountTrue(oks) == 0
  {
    if oks != [] {
      CountTrueNone(oks[..|oks| - 1]);
    }
  }

  /** Whether each row's workbook is saved: nothing raised and no placement field is duplicated. */
  function Filled(rows: seq<Row>, duplicated: set<string>, ioOk: seq<bool>): seq<bool>
    requires |ioOk| == |rows|
  {
    seq(|rows|, i requires 0 <= i < |rows| => ioOk[i] && !AnyAmbiguous(rows[i], duplicated))
  }

  /**
   * When a field the template uses is carried by two columns, filling raises for every
   * row, whatever else happens: no workbook is saved and the success count stays 0.
   */
  lemma DuplicatedFieldFailsEveryRow(df: Table, mapping: map<string, string>, ioOk: seq<bool>)
    requires |ioOk| == |df.rows|
    requires exists k :: 0 <= k < |Placement| && Placement[k].1 in Duplicated(df.columns, mapping)
    ensures forall i :: 0 <= i < |df.rows| ==> !Filled(RenameRows(df, mapping), Duplicated(df.columns, mapping), ioOk)[i]
    ensures CountTrue(Filled(RenameRows(df, mapping), Duplicated(df.columns, mapping), ioOk)) == 0
  {
    var rows := RenameRows(df, mapping);
    var dup := Duplicated(df.columns, mapping);
    var k :| 0 <= k < |Placement| && Placement[k].1 in dup;
    var oks := Filled(rows, dup, ioOk);
    forall i | 0 <= i < |oks|
      ensures !oks[i]
    {
      DuplicatedAreLabels(df.columns, df.rows[i], mapping, Placement[k].1);
      assert AmbiguousAt(rows[i], dup, k);
      AmbiguousBeforeIff(rows[i], dup, |Placement|);
    }
    CountTrueNone(oks);
  }

  /** What the batch writes for each row when filling succeeds: (file name, sheet). */
  function Outputs(template: Sheet, rows: seq<Row>): seq<(string, Sheet)>
  {
    seq(|rows|, i requires 0 <= i < |rows| => (OutputName(i + 1, rows[i]), Projected(template, rows[i])))
  }

  /** The file name of output `i` starts with the number `i + 1`. */
  predicate Numbered(outputs: seq<(string, Sheet)>) {
    forall i :: 0 <= i < |outputs| ==> FileNumber(outputs[i].0) == i + 1
  }

  /** The batch numbers its files from 1 in row order. */
  lemma OutputsNumbered(template: Sheet, rows: seq<Row>)
    ensures Numbered(Outputs(template, rows))
  {
    var outputs := Outputs(template, rows);
    forall i | 0 <= i < |outputs|
      ensures FileNumber(outputs[i].0) == i + 1
    {
      OutputNameNumber(i + 1, rows[i]);
    }
  }

  /** The files written after the first `n` outputs, output `i` only when `oks[i]`. */
  function SavedFiles(outputs: seq<(string, Sheet)>, oks: seq<bool>, n: nat): map<string, Sheet>
    requires n <= |outputs| && n <= |oks|
  {
    if n == 0 then map[]
    else
      var files := SavedFiles(outputs, oks, n - 1);
      if oks[n - 1] then files[outputs[n - 1].0 := outputs[n - 1].1] else files
  }

  /** One more output: its file is added exactly when it succeeded. */
  lemma SavedFilesStep(outputs: seq<(string, Sheet)>, oks: seq<bool>, n: nat, name: string, sheet: Sheet)
    requires n < |outputs| && n < |oks| && outputs[n] == (name, sheet)
    ensures SavedFiles(outputs, oks, n + 1) == if oks[n] then SavedFiles(outputs, oks, n)[name := sheet] else SavedFiles(outputs, oks, n)
  {
  }

  /** Every file written so far carries a number in 1..n. */
  lemma {:induction false} SavedFilesNumbered(outputs: seq<(string, Sheet)>, oks: seq<bool>, n: nat)
    requires n <= |outputs| && n <= |oks| && Numbered(outputs)
    ensures forall name :: name in SavedFiles(outputs, oks, n) ==> 1 <= FileNumber(name) <= n
  {
    if n > 0 {
      SavedFilesNumbered(outputs, oks, n - 1);
    }
  }

  /** No file overwrites another: there are as many files as successful rows. */
  lemma {:induction false} SavedFilesCount(outputs: seq<(string, Sheet)>, oks: seq<bool>, n: nat)
    requires n <= |outputs| && n <= |oks| && Numbered(outputs)
    ensures |SavedFiles(outputs, oks, n)| == CountTrue(oks[..n])
  {
    if n > 0 {
      SavedFilesCount(outputs, oks, n - 1);
      SavedFilesNumbered(outputs, oks, n - 1);
      assert outputs[n - 1].0 !in SavedFiles(outputs, oks, n - 1);
      assert oks[..n][..n - 1] == oks[..n - 1];
    }
  }

  /** Output `i` is on disk exactly when filling it succeeded, with its own sheet. */
  lemma {:induction false} SavedFilesContents(outputs: seq<(string, Sheet)>, oks: seq<bool>, n: nat, i: nat)
    requires i < n <= |outputs| && n <= |oks| && Numbered(outputs)
    ensures outputs[i].0 in SavedFiles(outputs, oks, n) <==> oks[i]
    ensures oks[i] ==> SavedFiles(outputs, oks, n)[outputs[i].0] == outputs[i].1
  {
    if i < n - 1 {
      SavedFilesContents(outputs, oks, n - 1, i);
      assert outputs[i].0 != outputs[n - 1].0;
    } else {
      SavedFilesNumbered(outputs, oks, n - 1);
    }
  }

  /**
   * Row `i` of the batch has a file exactly when filling it succeeded; the file is
   * named from the 1-based index `i + 1` and holds the template projected with row `i`.
   */
  lemma BatchFileOfRow(template: Sheet, rows: seq<Row>, oks: seq<bool>, i: nat)
    requires i < |rows| == |oks|
    ensures OutputName(i + 1, rows[i]) in SavedFiles(Outputs(template, rows), oks, |rows|) <==> oks[i]
    ensures oks[i] ==> SavedFiles(Outputs(template, rows), oks, |rows|)[OutputName(i + 1, rows[i])] == Projected(template, rows[i])
  {
    OutputsNumbered(template, rows);
    SavedFilesContents(Outputs(template, rows), oks, |rows|, i);
  }

  datatype BatchOutcome =
    | NoData                                                          // "No data to process!"
    | Completed(successCount: nat, total: nat, saved: map<string, Sheet>) // the summary line, and the files written

  /**
   * The loop of `generate_excel_for_all_responses` over the renamed rows: row `i` is
   * filled into the file named from `i + 1`, and `success_count` grows by one exactly
   * for the rows whose workbook was saved.
   */
  method GenerateEach(template: Sheet, rows: seq<Row>, duplicated: set<string>, ioOk: seq<bool>)
    returns (successCount: nat, saved: map<string, Sheet>)
    requires |ioOk| == |rows|
    ensures successCount == CountTrue(Filled(rows, duplicated, ioOk)) <= |rows|
    ensures saved == SavedFiles(Outputs(template, rows), Filled(rows, duplicated, ioOk), |rows|)
    ensures |saved| == successCount
  {
    ghost var oks := Filled(rows, duplicated, ioOk);
    ghost var outputs := Outputs(template, rows);
    successCount := 0;
    saved := map[];
    var idx := 0;
    while idx < |rows|
      invariant idx <= |rows|
      invariant successCount == CountTrue(oks[..idx])
      invariant saved == SavedFiles(outputs, oks, idx)
    {
      var row := rows[idx];
      var filename := OutputName(idx + 1, row);
      var written := FillExcelTemplate(template, row, duplicated, ioOk[idx]);
      assert written.Some? <==> oks[idx];
      SavedFilesStep(outputs, oks, idx, filename, Projected(template, row));
      CountTrueStep(oks, idx);
      if written.Some? {
        saved := saved[filename := written.value];
        successCount := successCount + 1;
      }
      idx := idx + 1;
    }
    assert oks[..|rows|] == oks;
    OutputsNumbered(template, rows);
    SavedFilesCount(outputs, oks, |rows|);
  }

  /**
   * `generate_excel_for_all_responses`: one workbook per row, named from the 1-based
   * row index; `success_count` counts the rows whose workbook was saved, so it never
   * exceeds the row count, and no saved file replaces another. A template field
   * carried by two columns fails every row.
   */
  method GenerateAll(parsed: Option<Table>, template: Sheet, ioOk: seq<bool>) returns (outcome: BatchOutcome)
    requires parsed.Some? ==> |ioOk| == |parsed.value.rows|
    ensures outcome.NoData? <==> parsed.None? || |parsed.value.rows| == 0
    ensures outcome.Completed? ==>
              && parsed.Some?
              && var df := ReadResponses(parsed).value;
              && var rows := MappedRows(df);
              && var oks := Filled(rows, DuplicatedLabels(df), ioOk);
              && outcome.total == |rows| == |ioOk|
              && outcome.successCount == CountTrue(oks)
              && outcome.successCount <= outcome.total
              && outcome.saved == SavedFiles(Outputs(template, rows), oks, |rows|)
              && |outcome.saved| == outcome.successCount
              && ((exists k :: 0 <= k < |Placement| && Placement[k].1 in DuplicatedLabels(df)) ==>
                    outcome.successCount == 0 && outcome.saved == map[])
  {
    var read := ReadResponses(parsed);
    if read.None? || |read.value.rows| == 0 {
      return NoData;
    }
    var df := read.value;
    var mapping := MapColumns(df.columns);
    var rows := RenameRows(df, mapping);
    var duplicated := Duplicated(df.columns, mapping);
    var successCount, saved := GenerateEach(template, rows, duplicated, ioOk);
    if exists k :: 0 <= k < |Placement| && Placement[k].1 in duplicated {
      DuplicatedFieldFailsEveryRow(df, mapping, ioOk);
    }
    outcome := Completed(successCount, |rows|, saved);
  }
}
