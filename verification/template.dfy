/**
 * Template projection (`SimpleExcelGenerator.fill_excel_template`): one response
 * row's fields go onto seven fixed cells of the template's active worksheet. A cell
 * is written only when its field is a label of the row and its value is not missing;
 * every other cell keeps what the template had.
 */
module Template {
  import opened Wrappers

  /** A worksheet's contents: cell address to value. */
  type Sheet = map<string, string>

  /** One response row after renaming: column label to value, `None` where pandas holds NaN. */
  type Row = map<string, Option<string>>

  /** The fixed placement, in the order the cells are written: (cell, field). */
  const Placement: seq<(string, string)> := [
    ("G1", "Area"),
    ("G2", "Divisi"),
    ("B9", "Jenis Inventaris"),
    ("C9", "No. Asset"),
    ("E9", "Nama"),
    ("D27", "Nama"),
    ("J28", "PIC")
  ]

  /** `field in data and pd.notna(data[field])`. */
  predicate Present(data: Row, field: string) {
    field in data && data[field].Some?
  }

  /** Cell `c` has the same contents (or the same absence) in both sheets. */
  predicate SameCell(before: Sheet, after: Sheet, c: string) {
    (c in before <==> c in after) && (c in before ==> before[c] == after[c])
  }

  /** The cells the first `n` placements target. */
  function TargetCells(n: nat): set<string>
    requires n <= |Placement|
  {
    set k | 0 <= k < n :: Placement[k].0
  }

  /** What placement `k` asks of the filled sheet. */
  predicate Placed(template: Sheet, data: Row, filled: Sheet, k: nat)
    requires k < |Placement|
  {
    var cell, field := Placement[k].0, Placement[k].1;
    if Present(data, field) then cell in filled && filled[cell] == data[field].value
    else SameCell(template, filled, cell)
  }

  /** One `if` of the method: write the cell when its field is present. */
  function PlaceOne(sheet: Sheet, data: Row, k: nat): Sheet
    requires k < |Placement|
  {
    var cell, field := Placement[k].0, Placement[k].1;
    if Present(data, field) then sheet[cell := data[field].value] else sheet
  }

  /** The sheet after the first `n` placements. */
  function PlaceFirst(template: Sheet, data: Row, n: nat): Sheet
    requires n <= |Placement|
  {
    if n == 0 then template else PlaceOne(PlaceFirst(template, data, n - 1), data, n - 1)
  }

  /** After `n` placements, those `n` are in force and no other cell has moved. */
  lemma {:induction false} PlaceFirstSpec(template: Sheet, data: Row, n: nat)
    requires n <= |Placement|
    ensures forall c :: c !in TargetCells(n) ==> SameCell(template, PlaceFirst(template, data, n), c)
    ensures forall k :: 0 <= k < n ==> Placed(template, data, PlaceFirst(template, data, n), k)
  {
    if n > 0 {
      PlaceFirstSpec(template, data, n - 1);
      var prev := PlaceFirst(template, data, n - 1);
      var filled := PlaceFirst(template, data, n);
      var cell := Placement[n - 1].0;
      assert TargetCells(n) == TargetCells(n - 1) + {cell};
      forall k | 0 <= k < n
        ensures Placed(template, data, filled, k)
      {
        if k < n - 1 {
          assert Placement[k].0 != cell;
          assert SameCell(prev, filled, Placement[k].0);
          assert Placed(template, data, prev, k);
        } else {
          assert Placement[n - 1].0 == cell;
          assert cell !in TargetCells(n - 1);
          assert SameCell(template, prev, cell);
        }
      }
    }
  }

  /** The worksheet `fill_excel_template` saves: all seven placements applied to the template. */
  function Projected(template: Sheet, data: Row): Sheet {
    PlaceFirst(template, data, |Placement|)
  }

  /**
   * The worksheet `fill_excel_template` saves: each of G1, G2, B9, C9, E9, D27 and J28
   * holds its field's value when that field is present and not missing, and keeps
   * the template's contents otherwise; every other cell is the template's.
   */
  lemma ProjectedSpec(template: Sheet, data: Row)
    ensures forall c :: c !in TargetCells(|Placement|) ==> SameCell(template, Projected(template, data), c)
    ensures forall k :: 0 <= k < |Placement| ==> Placed(template, data, Projected(template, data), k)
    ensures Projected(template, data).Keys <= template.Keys + TargetCells(|Placement|)
  {
    PlaceFirstSpec(template, data, |Placement|);
  }

  /** The active worksheet of a loaded workbook, whose cells are assigned one at a time. */
  class Worksheet {
    var cells: Sheet

    /** `load_workbook(template_path).active` */
    constructor Load(template: Sheet)
      ensures cells == template
    {
      cells := template;
    }

    /** `ws[cell] = value` */
    method Assign(cell: string, value: string)
      modifies this
      ensures cells == old(cells)[cell := value]
    {
      cells := cells[cell := value];
    }
  }

  /**
   * Placement `k` raises: its field is a label that two or more columns of the renamed
   * frame carry (`duplicated`), so `data[field]` is a Series, and the `if` cannot take
   * the truth value of `field in data and pd.notna(data[field])`.
   */
  predicate AmbiguousAt(data: Row, duplicated: set<string>, k: nat)
    requires k < |Placement|
  {
    Placement[k].1 in data && Placement[k].1 in duplicated
  }

  /** One of the first `n` placements raises. */
  predicate AmbiguousBefore(data: Row, duplicated: set<string>, n: nat)
    requires n <= |Placement|
  {
    n > 0 && (AmbiguousBefore(data, duplicated, n - 1) || AmbiguousAt(data, duplicated, n - 1))
  }

  /** Some placement raises, so the workbook is never saved. */
  predicate AnyAmbiguous(data: Row, duplicated: set<string>) {
    AmbiguousBefore(data, duplicated, |Placement|)
  }

  /** One of the first `n` placements raises exactly when some placement below `n` does. */
  lemma {:induction false} AmbiguousBeforeIff(data: Row, duplicated: set<string>, n: nat)
    requires n <= |Placement|
    ensures AmbiguousBefore(data, duplicated, n) <==> exists k :: 0 <= k < n && AmbiguousAt(data, duplicated, k)
  {
    if n > 0 {
      AmbiguousBeforeIff(data, duplicated, n - 1);
    }
  }

  /**
   * `fill_excel_template`. `ioOk` says whether everything the model does not see ran
   * without raising: loading the template, openpyxl accepting each value and cell,
   * and saving. A field carried by two columns (`duplicated`) raises at its `if`.
   * Either failure takes the `except` branch and nothing is saved; otherwise the
   * saved sheet is the projection of `data` onto the template.
   */
  method FillExcelTemplate(template: Sheet, data: Row, duplicated: set<string>, ioOk: bool) returns (saved: Option<Sheet>)
    ensures saved.Some? <==> ioOk && !AnyAmbiguous(data, duplicated)
    ensures saved.Some? ==> saved.value == Projected(template, data)
  {
    if !ioOk {
      return None;
    }
    var ws := new Worksheet.Load(template);
    if AmbiguousAt(data, duplicated, 0) {
      AmbiguousBeforeIff(data, duplicated, |Placement|);
      return None;
    }
    assert !AmbiguousBefore(data, duplicated, 1);
    if Present(data, "Area") {
      ws.Assign("G1", data["Area"].value);
    }
    assert ws.cells == PlaceFirst(template, data, 1);
    if AmbiguousAt(data, duplicated, 1) {
      AmbiguousBeforeIff(data, duplicated, |Placement|);
      return None;
    }
    assert !AmbiguousBefore(data, duplicated, 2);
    if Present(data, "Divisi") {
      ws.Assign("G2", data["Divisi"].value);
    }
    assert ws.cells == PlaceFirst(template, data, 2);
    if AmbiguousAt(data, duplicated, 2) {
      AmbiguousBeforeIff(data, duplicated, |Placement|);
      return None;
    }
    assert !AmbiguousBefore(data, duplicated, 3);
    if Present(data, "Jenis Inventaris") {
      ws.Assign("B9", data["Jenis Inventaris"].value);
    }
    assert ws.cells == PlaceFirst(template, data, 3);
    if AmbiguousAt(data, duplicated, 3) {
      AmbiguousBeforeIff(data, duplicated, |Placement|);
      return None;
    }
    assert !AmbiguousBefore(data, duplicated, 4);
    if Present(data, "No. Asset") {
      ws.Assign("C9", data["No. Asset"].value);
    }
    assert ws.cells == PlaceFirst(template, data, 4);
    if AmbiguousAt(data, duplicated, 4) {
      AmbiguousBeforeIff(data, duplicated, |Placement|);
      return None;
    }
    assert !AmbiguousBefore(data, duplicated, 5);
    if Present(data, "Nama") {
      ws.Assign("E9", data["Nama"].value);
    }
    assert ws.cells == PlaceFirst(template, data, 5);
    // D27 tests 'Nama' again, which E9 has just shown not to raise.
    assert !AmbiguousBefore(data, duplicated, 6);
    if Present(data, "Nama") {
      ws.Assign("D27", data["Nama"].value);
    }
    assert ws.cells == PlaceFirst(template, data, 6);
    if AmbiguousAt(data, duplicated, 6) {
      AmbiguousBeforeIff(data, duplicated, |Placement|);
      return None;
    }
    assert !AmbiguousBefore(data, duplicated, 7);
    if Present(data, "PIC") {
      ws.Assign("J28", data["PIC"].value);
    }
    saved := Some(ws.cells);
  }
}
