/**
 * Column detection (`SimpleExcelGenerator.map_columns`): a fixed, ordered table of
 * eight field keys is matched against the CSV column names by case-insensitive
 * substring. Each key takes the first column that matches it; the result is a
 * dictionary keyed by column, so a column claimed by several keys keeps the last.
 */
module Columns {
  import opened Wrappers
  import opened Text

  /** The table `column_mapping`, in its declaration order: (key, value). */
  const ColumnTable: seq<(string, string)> := [
    ("Timestamp", "Timestamp"),
    ("Nama", "Nama"),
    ("Divisi", "Divisi"),
    ("PIC", "PIC"),
    ("Area", "Area"),
    ("No. Asset", "No. Asset"),
    ("Jenis Inventaris", "Jenis Inventaris"),
    ("Upload Foto No. Asset", "Upload Foto No. Asset")
  ]

  /** The field keys, in table order. */
  function TableKeys(): seq<string>
  {
    seq(|ColumnTable|, k requires 0 <= k < |ColumnTable| => ColumnTable[k].0)
  }

  /** No two entries of the table share a key. */
  lemma TableKeysDistinct()
    ensures forall a, b :: 0 <= a < b < |TableKeys()| ==> TableKeys()[a] != TableKeys()[b]
  {
    var keys := TableKeys();
    forall a, b | 0 <= a < b < |keys|
      ensures keys[a] != keys[b]
    {
      assert keys[a][0] != keys[b][0] || keys[a][1] != keys[b][1];
    }
  }

  /** The test of `map_columns`: `key.lower() in col.lower() or value.lower() in col.lower()`. */
  predicate Matches(key: string, value: string, col: string) {
    Contains(Lower(col), Lower(key)) || Contains(Lower(col), Lower(value))
  }

  /** Key and value coincide in every entry, so the `or` adds nothing: a match is a key match. */
  lemma EntryMatchesByKey(k: nat, col: string)
    requires k < |ColumnTable|
    ensures Matches(ColumnTable[k].0, ColumnTable[k].1, col) <==> Contains(Lower(col), Lower(ColumnTable[k].0))
  {
    assert ColumnTable[k].0 == ColumnTable[k].1;
  }

  /** The inner loop with its `break`: the first column at or after `from` that `entry` matches. */
  function FirstMatchFrom(entry: (string, string), columns: seq<string>, from: nat): (r: Option<nat>)
    ensures r.Some? ==> from <= r.value < |columns| && Matches(entry.0, entry.1, columns[r.value])
    ensures forall i :: from <= i < |columns| && (r.None? || i < r.value) ==>
              !Matches(entry.0, entry.1, columns[i])
    decreases |columns| - from
  {
    if from >= |columns| then None
    else if Matches(entry.0, entry.1, columns[from]) then Some(from)
    else FirstMatchFrom(entry, columns, from + 1)
  }

  /** The column that `entry` claims: the first one it matches, in column order. */
  function FirstMatch(entry: (string, string), columns: seq<string>): Option<nat> {
    FirstMatchFrom(entry, columns, 0)
  }

  /** For every entry of `table`, the column it claims (if any). */
  function Claims(table: seq<(string, string)>, columns: seq<string>): (claims: seq<Option<nat>>)
    ensures ValidClaims(claims, columns)
  {
    seq(|table|, k requires 0 <= k < |table| => FirstMatch(table[k], columns))
  }

  /** Every claimed position is a column. */
  predicate ValidClaims(claims: seq<Option<nat>>, columns: seq<string>) {
    forall k :: 0 <= k < |claims| && claims[k].Some? ==> claims[k].value < |columns|
  }

  /** Entry `k` claims the column named `c`. */
  predicate ClaimedBy(claims: seq<Option<nat>>, columns: seq<string>, k: nat, c: string)
    requires k < |claims| && ValidClaims(claims, columns)
  {
    claims[k].Some? && columns[claims[k].value] == c
  }

  /**
   * `detected_mapping` after the first `n` entries have been processed: entry `k`,
   * when it claims a column, sets that column to `keys[k]`.
   */
  function Detected(keys: seq<string>, columns: seq<string>, claims: seq<Option<nat>>, n: nat): map<string, string>
    requires n <= |keys| == |claims| && ValidClaims(claims, columns)
  {
    if n == 0 then map[]
    else
      var m := Detected(keys, columns, claims, n - 1);
      match claims[n - 1]
      case None => m
      case Some(i) => m[columns[i] := keys[n - 1]]
  }

  /** The dictionary `map_columns` returns. */
  function DetectedMapping(columns: seq<string>): map<string, string> {
    Detected(TableKeys(), columns, Claims(ColumnTable, columns), |ColumnTable|)
  }

  /** A column is in the mapping exactly when some entry claims it. */
  lemma {:induction false} DetectedDomain(keys: seq<string>, columns: seq<string>, claims: seq<Option<nat>>, n: nat, c: string)
    requires n <= |keys| == |claims| && ValidClaims(claims, columns)
    ensures c in Detected(keys, columns, claims, n) <==> exists k :: 0 <= k < n && ClaimedBy(claims, columns, k, c)
  {
    if n > 0 {
      DetectedDomain(keys, columns, claims, n - 1, c);
      if ClaimedBy(claims, columns, n - 1, c) {
        assert c in Detected(keys, columns, claims, n);
      } else {
        assert c in Detected(keys, columns, claims, n) <==> c in Detected(keys, columns, claims, n - 1);
        assert (exists k :: 0 <= k < n && ClaimedBy(claims, columns, k, c)) ==>
               (exists k :: 0 <= k < n - 1 && ClaimedBy(claims, columns, k, c));
      }
    }
  }

  /** A claimed column carries the key of the LAST entry that claims it. */
  lemma {:induction false} DetectedLastClaimWins(keys: seq<string>, columns: seq<string>, claims: seq<Option<nat>>, n: nat, c: string, k: nat)
    requires k < n <= |keys| == |claims| && ValidClaims(claims, columns)
    requires ClaimedBy(claims, columns, k, c)
    requires forall j :: k < j < n ==> !ClaimedBy(claims, columns, j, c)
    ensures c in Detected(keys, columns, claims, n) && Detected(keys, columns, claims, n)[c] == keys[k]
  {
    if k < n - 1 {
      DetectedLastClaimWins(keys, columns, claims, n - 1, c, k);
      assert !ClaimedBy(claims, columns, n - 1, c);
    }
  }

  /** Every mapped column is one of the columns an entry claimed, carrying that entry's key. */
  lemma {:induction false} DetectedSound(keys: seq<string>, columns: seq<string>, claims: seq<Option<nat>>, n: nat, c: string)
    requires n <= |keys| == |claims| && ValidClaims(claims, columns)
    requires c in Detected(keys, columns, claims, n)
    ensures c in columns
    ensures exists k :: 0 <= k < n && ClaimedBy(claims, columns, k, c) && Detected(keys, columns, claims, n)[c] == keys[k]
  {
    if ClaimedBy(claims, columns, n - 1, c) {
      assert Detected(keys, columns, claims, n)[c] == keys[n - 1];
    } else {
      DetectedSound(keys, columns, claims, n - 1, c);
    }
  }

  /** The last entry before `n` that claims `c`, given that one does. */
  function LastClaim(claims: seq<Option<nat>>, columns: seq<string>, c: string, n: nat): (k: nat)
    requires n <= |claims| && ValidClaims(claims, columns)
    requires exists k :: 0 <= k < n && ClaimedBy(claims, columns, k, c)
    ensures k < n && ClaimedBy(claims, columns, k, c)
    ensures forall j :: k < j < n ==> !ClaimedBy(claims, columns, j, c)
  {
    if ClaimedBy(claims, columns, n - 1, c) then n - 1 else LastClaim(claims, columns, c, n - 1)
  }

  /**
   * What `map_columns` returns, entry by entry: each mapped column is one of the
   * input columns; its key is a table key whose lower-case text occurs in the
   * column's lower-case name; and it is the key of the last entry whose first
   * match is that column. A column no entry claims is not mapped.
   */
  lemma MappingCharacterised(columns: seq<string>, c: string)
    ensures c in DetectedMapping(columns) <==> exists k :: 0 <= k < |ColumnTable| && ClaimedBy(Claims(ColumnTable, columns), columns, k, c)
    ensures c in DetectedMapping(columns) ==>
      c in columns &&
      (exists k :: 0 <= k < |ColumnTable| && DetectedMapping(columns)[c] == ColumnTable[k].0 &&
                   ClaimedBy(Claims(ColumnTable, columns), columns, k, c) &&
                   (forall j :: k < j < |ColumnTable| ==> !ClaimedBy(Claims(ColumnTable, columns), columns, j, c))) &&
      Contains(Lower(c), Lower(DetectedMapping(columns)[c]))
  {
    var claims := Claims(ColumnTable, columns);
    var n := |ColumnTable|;
    DetectedDomain(TableKeys(), columns, claims, n, c);
    if c in DetectedMapping(columns) {
      DetectedSound(TableKeys(), columns, claims, n, c);
      var k := LastClaim(claims, columns, c, n);
      DetectedLastClaimWins(TableKeys(), columns, claims, n, c, k);
      EntryMatchesByKey(k, c);
    }
  }

  /** With distinct keys, no key is carried by two columns. */
  lemma DetectedInjective(keys: seq<string>, columns: seq<string>, claims: seq<Option<nat>>, c1: string, c2: string)
    requires |keys| == |claims| && ValidClaims(claims, columns)
    requires forall k, j :: 0 <= k < j < |keys| ==> keys[k] != keys[j]
    requires c1 in Detected(keys, columns, claims, |keys|) && c2 in Detected(keys, columns, claims, |keys|)
    requires Detected(keys, columns, claims, |keys|)[c1] == Detected(keys, columns, claims, |keys|)[c2]
    ensures c1 == c2
  {
    var n := |keys|;
    DetectedDomain(keys, columns, claims, n, c1);
    DetectedDomain(keys, columns, claims, n, c2);
    var k1 := LastClaim(claims, columns, c1, n);
    var k2 := LastClaim(claims, columns, c2, n);
    DetectedLastClaimWins(keys, columns, claims, n, c1, k1);
    DetectedLastClaimWins(keys, columns, claims, n, c2, k2);
  }

  /** Each of the eight keys is carried by at most one column of the mapping. */
  lemma MappingInjective(columns: seq<string>, c1: string, c2: string)
    requires c1 in DetectedMapping(columns) && c2 in DetectedMapping(columns)
    requires DetectedMapping(columns)[c1] == DetectedMapping(columns)[c2]
    ensures c1 == c2
  {
    var keys := TableKeys();
    TableKeysDistinct();
    DetectedInjective(keys, columns, Claims(ColumnTable, columns), c1, c2);
  }

  /**
   * A key can end with no column although it matched one: when a later entry claims
   * the same column, the earlier key is overwritten and appears nowhere in the mapping.
   */
  lemma ShadowedKeyIsLost(keys: seq<string>, columns: seq<string>, claims: seq<Option<nat>>, k: nat, j: nat)
    requires |keys| == |claims| && ValidClaims(claims, columns)
    requires forall a, b :: 0 <= a < b < |keys| ==> keys[a] != keys[b]
    requires k < j < |keys|
    requires claims[k].Some? && claims[j] == claims[k]
    ensures keys[k] !in Detected(keys, columns, claims, |keys|).Values
  {
    var n := |keys|;
    var m := Detected(keys, columns, claims, n);
    if c :| c in m && m[c] == keys[k] {
      DetectedDomain(keys, columns, claims, n, c);
      var last := LastClaim(claims, columns, c, n);
      DetectedLastClaimWins(keys, columns, claims, n, c, last);
      assert last == k;
      assert ClaimedBy(claims, columns, j, c);
      assert false;
    }
  }

  /**
   * The case the table's order produces on a form whose photo question comes before
   * an asset-number question that is not named exactly "No. Asset":
   * "Upload Foto No. Asset" matches both 'No. Asset' and 'Upload Foto No. Asset',
   * the later entry wins, and 'No. Asset' is carried by no column of the mapping.
   */
  lemma PhotoColumnShadowsAssetNumber(columns: seq<string>)
    requires columns == ["Upload Foto No. Asset", "No. Asset Laptop"]
    ensures "Upload Foto No. Asset" in DetectedMapping(columns)
    ensures DetectedMapping(columns)["Upload Foto No. Asset"] == "Upload Foto No. Asset"
    ensures "No. Asset" !in DetectedMapping(columns).Values
  {
    var claims := Claims(ColumnTable, columns);
    var keys := TableKeys();
    assert claims[5] == Some(0) by {
      assert OccursAt(columns[0], "No. Asset", 12);
      OccursLower(columns[0], "No. Asset", 12);
    }
    assert claims[7] == Some(0) by {
      assert OccursAt(columns[0], "Upload Foto No. Asset", 0);
      OccursLower(columns[0], "Upload Foto No. Asset", 0);
    }
    TableKeysDistinct();
    ShadowedKeyIsLost(keys, columns, claims, 5, 7);
    DetectedLastClaimWins(keys, columns, claims, |keys|, columns[0], 7);
  }

  /**
   * `map_columns`: the outer loop walks the table in order, the inner loop walks the
   * columns in order and stops at the first match.
   */
  method MapColumns(columns: seq<string>) returns (detected: map<string, string>)
    ensures detected == DetectedMapping(columns)
  {
    ghost var claims := Claims(ColumnTable, columns);
    detected := map[];
    var n := 0;
    while n < |ColumnTable|
      invariant n <= |ColumnTable|
      invariant detected == Detected(TableKeys(), columns, claims, n)
    {
      var key, value := ColumnTable[n].0, ColumnTable[n].1;
      var j := 0;
      while j < |columns|
        invariant j <= |columns|
        invariant FirstMatchFrom(ColumnTable[n], columns, j) == claims[n]
        invariant detected == Detected(TableKeys(), columns, claims, n)
      {
        if Matches(key, value, columns[j]) {
          detected := detected[columns[j] := key];
          break;
        }
        j := j + 1;
      }
      n := n + 1;
    }
  }
}
