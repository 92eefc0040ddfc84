# Form responses to filled inventory workbooks — a Dafny model

This project models the core of `form_generator.py`, the first revision of a script
that turns the exported responses of an IT-asset form (one CSV row per submission)
into one filled copy of an Excel inventory template per response. The model covers:

- **Reading** (`read_csv_responses`): the parsed table arrives as a parameter; the
  column names are stripped of leading and trailing whitespace as Python's
  `str.strip()` does (module `Text`, module `Generator`).
- **Column detection** (`map_columns`, module `Columns`): an ordered table of eight
  field keys (Timestamp, Nama, Divisi, PIC, Area, No. Asset, Jenis Inventaris,
  Upload Foto No. Asset) is matched against the column names by case-insensitive
  substring. Each key takes the first matching column in column order (the `break`).
  The result is keyed by column, so a column that several keys claim keeps the last
  of them, and the earlier key is then carried by no column at all. `MapColumns` is
  the nested loop with its `break`, proved against the functional definition
  `DetectedMapping`.
- **Renaming** (`df.rename(columns=...)`): each row becomes a map from label to
  value, with `None` for a missing (NaN) value. Renaming can give two columns the
  same label. For example, a form with the columns "Nama Lengkap" and "Nama" ends up
  with two columns labelled `Nama`. For such a label pandas returns a Series of all
  the values. The model records these labels in `Duplicated`.
- **Template projection** (`fill_excel_template`, module `Template`): the active
  worksheet is a `Worksheet` object whose cells are assigned one at a time. G1 gets
  Area, G2 Divisi, B9 Jenis Inventaris, C9 No. Asset, E9 and D27 Nama, and J28 PIC.
  A cell is written only when its field is a label of the row and is not missing.
  Every other cell keeps the template's contents. When a field is a label that two
  columns carry, its `if` cannot take the truth value of a Series and raises, so the
  fill returns `False` and nothing is saved.
- **File names**: `{n}_{area}_{nama}_{timestamp}.xlsx`. Spaces in the area and the
  name become `_`. In the timestamp, `/` and `:` become `-` and spaces become `_`.
  An absent field falls back to `Unknown` (area, name) or to the empty string
  (timestamp). A present but missing value prints as `nan`. The leading number is
  1-based and can be read back from the name, so two rows never share a file name.
- **One row** (`generate_single_excel`): a 1-based row number outside `1..len(df)`
  is rejected; otherwise row `row_number - 1` is used.
- **All rows** (`generate_excel_for_all_responses`): a loop over the rows that counts
  the workbooks saved. The count equals the number of rows whose fill succeeded, so it
  never exceeds the row count, and no saved file replaces another. When a field the
  template uses is carried by two columns, every row fails and the count stays 0.

What `fill_excel_template` does beyond the cell logic is a boolean parameter
(`ioOk`, one per row in the batch). It says that nothing the model does not see
raised: loading the template, openpyxl accepting each value and cell, and saving the
workbook. The model itself decides the one failure it can see, a duplicated label
among the template's fields. The fill returns `True` exactly when `ioOk` holds and no
such label exists.

Files: `wrappers.dfy` (Option), `text.dfy` (string operations), `columns.dfy`,
`template.dfy`, `generator.dfy`.

## Model

| member | source | states |
|---|---|---|
| Text.Strip | form_generator.py:23 | the stripped name has no whitespace at either end, and it is the original with only whitespace removed at its start and end |
| Text.StripIdempotent | form_generator.py:23 | stripping an already stripped name changes nothing |
| Text.Lower | form_generator.py:53 | definition of `str.lower()`: each ASCII capital becomes its small letter, every other character stays; what it preserves is stated by Text.OccursLower |
| Text.Contains | form_generator.py:53 | definition of Python's `p in s` on strings as a left-to-right scan; its meaning is stated by Text.ContainsIff |
| Text.ContainsIff | form_generator.py:53 | the `in` test holds exactly when the needle occurs at some position of the haystack |
| Text.OccursLower | form_generator.py:53 | an exact occurrence is also found by the lower-cased comparison |
| Text.ReplaceChar | form_generator.py:126-128 | `replace` with one-character arguments changes exactly the occurrences of the target, keeps the length, and leaves none of the target behind |
| Text.Decimal | form_generator.py:130 | `str(idx+1)`: the text is non-empty, all decimal digits, and starts with '0' only for 0; it parses back by Text.DecimalRoundTrip |
| Text.DecimalRoundTrip | form_generator.py:130 | the decimal text of a number parses back to that number |
| Columns.TableKeys | form_generator.py:39-48 | definition: the eight keys of `column_mapping` in declaration order; their distinctness is stated by Columns.TableKeysDistinct |
| Columns.TableKeysDistinct | form_generator.py:39-48 | no two of the eight keys are equal |
| Columns.Matches | form_generator.py:53 | definition of the test `key.lower() in col.lower() or value.lower() in col.lower()`; Columns.EntryMatchesByKey reduces it to the key |
| Columns.EntryMatchesByKey | form_generator.py:39-53 | since each table value equals its key, the `or` in the test adds nothing: an entry matches a column exactly when its key does |
| Columns.FirstMatchFrom | form_generator.py:52-55 | the chosen column matches the entry, and no earlier column does; when none is chosen, no column matches |
| Columns.FirstMatch | form_generator.py:52-55 | definition: the inner loop started at the first column; its contract is stated by Columns.FirstMatchFrom |
| Columns.Claims | form_generator.py:51-55 | every column an entry claims is a position of the column list |
| Columns.Detected | form_generator.py:50-55 | definition of `detected_mapping` after the first n entries, each claim writing `detected_mapping[col] = key`; stated by Columns.DetectedDomain, Columns.DetectedLastClaimWins and Columns.DetectedSound |
| Columns.DetectedMapping | form_generator.py:50-57 | definition of the returned dictionary for the eight-entry table; characterised by Columns.MappingCharacterised and Columns.MappingInjective |
| Columns.DetectedDomain | form_generator.py:50-55 | a column is in the mapping exactly when some entry's first match is that column |
| Columns.DetectedLastClaimWins | form_generator.py:50-55 | a claimed column carries the key of the last entry, in table order, that claims it |
| Columns.DetectedSound | form_generator.py:50-55 | every mapped column is an input column and carries the key of an entry that claimed it |
| Columns.LastClaim | form_generator.py:50-55 | the entry it picks claims the column, and no later entry below n claims it |
| Columns.DetectedInjective | form_generator.py:50-55 | with distinct keys, no key is carried by two columns |
| Columns.MappingCharacterised | form_generator.py:39-57 | for the real table: the mapping's domain is the set of claimed columns; each value is the last claiming key, and that key's lower-case text occurs in the column's lower-case name |
| Columns.MappingInjective | form_generator.py:39-57 | each of the eight keys ends up on at most one column |
| Columns.ShadowedKeyIsLost | form_generator.py:50-55 | when a later entry claims the same column as an earlier one, the earlier key appears nowhere in the mapping |
| Columns.PhotoColumnShadowsAssetNumber | form_generator.py:45-55 | with "Upload Foto No. Asset" before an asset-number column not named exactly "No. Asset" (here "No. Asset Laptop"), the photo column is mapped to 'Upload Foto No. Asset' and no column is mapped to 'No. Asset' |
| Columns.MapColumns | form_generator.py:33-57 | the nested loops with `break` compute exactly the mapping characterised above |
| Template.PlaceFirst | form_generator.py:65-91 | definition: the first n guarded assignments applied in source order; stated by Template.PlaceFirstSpec |
| Template.PlaceFirstSpec | form_generator.py:65-91 | after the first n assignments, each of them holds when its field is present, and no other cell has changed |
| Template.Projected | form_generator.py:65-94 | definition of the saved worksheet: all seven guarded assignments applied to the template; stated by Template.ProjectedSpec |
| Template.ProjectedSpec | form_generator.py:65-91 | each of the seven target cells holds its field's value when the field is present and not missing, and otherwise keeps the template's contents; every other cell is unchanged and no new cell appears |
| Template.Worksheet.Load | form_generator.py:62-63 | the loaded worksheet holds the template's cells |
| Template.Worksheet.Assign | form_generator.py:67 | one cell assignment changes that cell and nothing else |
| Template.AnyAmbiguous | form_generator.py:66-91 | definition: some `if` raises because its field is a row label that two columns carry, so `pd.notna` yields a Series whose truth value is undefined; characterised by Template.AmbiguousBeforeIff |
| Template.AmbiguousBeforeIff | form_generator.py:65-91 | one of the first n `if`s raises exactly when the field of some placement below n is a label that two columns carry |
| Template.FillExcelTemplate | form_generator.py:59-99 | the result is `True` exactly when nothing else raised and no template field is a duplicated label; the saved sheet is the projection of the row onto the template |
| Generator.ReadResponses | form_generator.py:17-31 | a failed read gives no table; otherwise the rows are kept and every column name is stripped of whitespace at both ends |
| Generator.RenameRow | form_generator.py:117 | definition of one row of `df.rename(columns=mapping)` as label to value; stated by Generator.RenameRowSpec |
| Generator.RenameRowSpec | form_generator.py:117 | the renamed row's labels are exactly the columns' renamed labels, and a label that no later column shares holds that column's value (NaN padding for short rows) |
| Generator.LabelSetHas | form_generator.py:117 | the renamed label of each of the first n columns is in their label set, which Generator.RenameRowSpec equates with the renamed row's labels |
| Generator.LabelSetOnly | form_generator.py:117 | each label of the renamed row is the renamed label of one of the columns |
| Generator.Labels | form_generator.py:117 | definition: the column labels after renaming, in column order (a mapped column takes its key, any other keeps its name) |
| Generator.RenameRows | form_generator.py:117 | definition: every row of the renamed frame; each is a Generator.RenameRow, whose contract is Generator.RenameRowSpec |
| Generator.MappedRows | form_generator.py:111-117 | definition: the rows renamed by the detected mapping, as both generators use them (also form_generator.py:158-161) |
| Generator.Duplicated | form_generator.py:117 | definition: the labels that two or more columns carry after renaming, for which `row[label]` is a Series; stated by Generator.DuplicatedAreLabels and Generator.UniqueLabelValue |
| Generator.DuplicatedAreLabels | form_generator.py:117 | a label that two columns carry is a label of every renamed row |
| Generator.UniqueLabelValue | form_generator.py:117 | a label that only one column carries holds that column's value |
| Generator.Stringify | form_generator.py:126-128 | definition of `str(value)`: a missing value prints as "nan"; stated by Generator.MissingValueIsNan |
| Generator.FieldText | form_generator.py:126-128 | definition of `str(row.get(field, default))`: the default only when the label is absent; stated by Generator.AbsentFieldsUseDefaults and Generator.MissingValueIsNan |
| Generator.TimestampPart | form_generator.py:126 | definition of the chained replaces on the timestamp text; stated by Generator.TimestampPartSpec |
| Generator.TimestampPartSpec | form_generator.py:126 | the three chained replacements act as one per-character substitution, and the timestamp part holds no '/', ':' or ' ' |
| Generator.WordPart | form_generator.py:127-128 | definition of the name and area parts; stated by Generator.WordPartSpec |
| Generator.WordPartSpec | form_generator.py:127-128 | the name and area parts are the field's text (or 'Unknown' when absent) with every space turned into '_' |
| Generator.OutputName | form_generator.py:130 | definition of `f"{idx+1}_{area}_{nama}_{timestamp}.xlsx"` (also form_generator.py:167); stated by Generator.OutputNameShape, Generator.OutputNameNumber and Generator.OutputNamesDistinct |
| Generator.OutputNameShape | form_generator.py:130 | the file name starts with the decimal number and '_', ends in ".xlsx", and contains no space |
| Generator.OutputNameNumber | form_generator.py:130 | the number at the front of a file name is the number it was built from |
| Generator.OutputNamesDistinct | form_generator.py:130-131 | rows with different numbers get different file names |
| Generator.AbsentFieldsUseDefaults | form_generator.py:126-130 | a row without the three labels is named `{n}_Unknown_Unknown_.xlsx` (n, '_', 'Unknown', '_', 'Unknown', '_', an empty timestamp, ".xlsx") |
| Generator.MissingValueIsNan | form_generator.py:126-128 | a present but missing value is not defaulted: it prints as "nan" |
| Generator.RowIndex | form_generator.py:154-161 | a row number is accepted exactly when it lies in 1..len(df), and then names the 0-based row `row_number - 1` |
| Generator.GenerateSingle | form_generator.py:148-174 | no rows, out of range, failed and generated happen exactly in their cases; the workbook is generated exactly when nothing else raised and no template field of the chosen row is a duplicated label; the file name uses the given row number, and the sheet is the projection of that row |
| Generator.CountTrue | form_generator.py:122-136 | the number of successes never exceeds the number of rows |
| Generator.CountTrueNone | form_generator.py:122-136 | with no success the count is 0 |
| Generator.Filled | form_generator.py:134 | definition of each row's result of `fill_excel_template`: `ioOk` and no ambiguous `if`, as Template.FillExcelTemplate ensures |
| Generator.DuplicatedFieldFailsEveryRow | form_generator.py:66-99 | when a field the template uses is a label that two columns carry, the fill of every row fails and no success is counted |
| Generator.Outputs | form_generator.py:125-134 | definition: for each row, its file name numbered from `idx+1` and its projected sheet; stated by Generator.OutputsNumbered and Generator.BatchFileOfRow |
| Generator.OutputsNumbered | form_generator.py:123-130 | the batch numbers its file names from 1 in row order |
| Generator.SavedFiles | form_generator.py:122-136 | definition of the output folder after the first n rows: a row's workbook is added when its fill succeeded; stated by Generator.SavedFilesNumbered, Generator.SavedFilesCount and Generator.SavedFilesContents |
| Generator.SavedFilesNumbered | form_generator.py:123-136 | every file saved after n rows carries a number in 1..n |
| Generator.SavedFilesCount | form_generator.py:122-136 | no saved file replaces another: there are as many files as successful rows |
| Generator.SavedFilesContents | form_generator.py:123-136 | a row's file exists exactly when filling that row succeeded, and it holds that row's sheet |
| Generator.BatchFileOfRow | form_generator.py:123-136 | row i has a file exactly when its fill succeeded; the file is named from i + 1 and holds the template projected with row i |
| Generator.GenerateEach | form_generator.py:122-139 | the loop counts exactly the rows whose fill succeeded and saves exactly their workbooks, one file each |
| Generator.GenerateAll | form_generator.py:101-146 | no data yields nothing; otherwise the total is the row count, `success_count` is the number of successful fills (at most the total), and the saved files are exactly the successful rows' workbooks, one each; a template field carried by two columns leaves the count at 0 and saves nothing |

## Left out

- CSV parsing (`pd.read_csv`) is not modelled: the parsed table, or its absence when reading raised, is a parameter. Its type inference (numeric columns become numbers, so `str()` would print `1.0`) and its renaming of duplicate header names are not modelled; every value is text or missing.
- `pd.notna`: a missing value is `None`; floating-point NaN is not modelled.
- `load_workbook`, openpyxl's checks on each assignment and `wb.save` are reduced to the `ioOk` flag and the active sheet's cells as strings. openpyxl refuses a value holding control characters such as '\x0b', and a target cell inside a merged range is read-only. Either raises, and the flag covers it without naming its cause. Other sheets, formatting and cell types are left out.
- `os.makedirs`, `os.path.join` and `os.path.abspath` are filesystem plumbing. Saved files are a map from file name to sheet. The folder's earlier contents are not modelled. A file name is an opaque key. A '/' inside an area or name makes `os.path.join` point into a directory that does not exist, so `wb.save` raises and the fill returns `False`. The model leaves this to the `ioOk` flag.
- `auto_detect_csv` (glob and modification times), the `__main__` block, every `print` and `input()` are console and filesystem I/O and are left out.
- The `except` branch at form_generator.py:29-31 is the `None` read result. The one at 97-99 is taken for a duplicated template field, which the model decides, or when `ioOk` is false. The outer handler at 140-141 guards code that cannot fail in the model.
- Text.Lower: only ASCII letters are lower-cased; Python's `str.lower()` also maps non-ASCII letters, which can change what matches.
- Text.IsSpace follows Python's `str.isspace()` on the characters listed there; it is not checked against the full Unicode database.
- Generator.RenameRowSpec: when renaming gives two columns the same label, pandas returns both values (a Series) for that label. The renamed row keeps the last column's value, and the Series itself is not modelled. Its effect on the fill is modelled through `Duplicated`: a template field with such a label fails every row (`FillExcelTemplate`, `GenerateSingle`, `GenerateAll`).
- Generator.OutputName: for a Timestamp, Area or Nama label that two columns carry, `row.get` returns a Series, and the file name then holds its printed text (index, values and a dtype line). The model uses the last column's value there. The file name is then only a reported name: for Area and Nama the fill fails anyway. For Timestamp, which the template does not use, the fill can succeed, and the saved file's real name is not modelled.
- The batch numbers rows by position, which equals pandas' default row index as produced by `read_csv`; a custom index is not modelled.
- The numbered asset slots, per-person grouping, asset-year extraction, image download and e-mail delivery of later revisions of the script are not in this file, so they are not modelled.
