/**
 The per-key work of the engine: ordering a key group by the secondary sort
 column, classifying a pair of rows, building an aligned output record, and
 pairing the rows of one key group by position.
 */
module Alignment {
  import opened Wrappers
  import opened Types
  import opened Order
  import opened Keys

  // ---------------------------------------------------------------------------
  // Secondary sort

  /** Rows ascend in column `col`. */
  ghost predicate SortedBy(rows: seq<Row>, col: string)
    requires forall r :: r in rows ==> col in r
  {
    forall i, j :: 0 <= i < j < |rows| ==> ValueLe(rows[i][col], rows[j][col])
  }

  /** Inserts `x` into rows that ascend in `col`, after the rows it does not precede. */
  function InsertRow(x: Row, sorted: seq<Row>, col: string): (r: seq<Row>)
    requires col in x && forall s :: s in sorted ==> col in s
    requires SortedBy(sorted, col)
    ensures multiset(r) == multiset(sorted) + multiset{x}
    ensures forall s :: s in r ==> col in s
    ensures SortedBy(r, col)
    decreases |sorted|
  {
    if sorted == [] then [x]
    else if ValueLe(x[col], sorted[0][col]) then
      assert forall j :: 0 < j < |sorted| ==> ValueLe(x[col], sorted[j][col]) by {
        forall j | 0 < j < |sorted| ensures ValueLe(x[col], sorted[j][col]) {
          ValueLeTransitive(x[col], sorted[0][col], sorted[j][col]);
        }
      }
      [x] + sorted
    else
      var rest := InsertRow(x, sorted[1..], col);
      assert sorted == [sorted[0]] + sorted[1..];
      assert forall s :: s in rest ==> ValueLe(sorted[0][col], s[col]) by {
        ValueLeTotal(x[col], sorted[0][col]);
        forall s | s in rest ensures ValueLe(sorted[0][col], s[col]) {
          assert s in multiset(rest);
          if s != x {
            assert s in sorted[1..];
          }
        }
      }
      [sorted[0]] + rest
  }

  /** Sorts rows ascending in column `col` (insertion sort). */
  function SortRowsBy(rows: seq<Row>, col: string): (r: seq<Row>)
    requires forall s :: s in rows ==> col in s
    ensures multiset(r) == multiset(rows)
    ensures forall s :: s in r ==> col in s
    ensures SortedBy(r, col)
    decreases |rows|
  {
    if rows == [] then []
    else
      assert rows == [rows[0]] + rows[1..];
      InsertRow(rows[0], SortRowsBy(rows[1..], col), col)
  }

  /** `_sort_by_secondary`: sorts by the secondary column when it is set
      (a non-empty name) and is a column of the table; otherwise leaves the rows
      as they are. */
  function SortBySecondary(rows: seq<Row>, columns: seq<string>, secondary: Option<string>): (r: seq<Row>)
    requires RowsHaveColumns(rows, columns)
    ensures multiset(r) == multiset(rows)
    ensures secondary.Some? && secondary.value != "" && secondary.value in columns ==>
      (forall s :: s in r ==> secondary.value in s) && SortedBy(r, secondary.value)
    ensures !(secondary.Some? && secondary.value != "" && secondary.value in columns) ==> r == rows
  {
    if secondary.Some? && secondary.value != "" && secondary.value in columns then
      SortRowsBy(rows, secondary.value)
    else rows
  }

  /** The ordering step of `_compare_key_group`: only SECONDARY_SORT reorders. */
  function Arrange(rows: seq<Row>, columns: seq<string>, cfg: Config): (r: seq<Row>)
    requires RowsHaveColumns(rows, columns)
  {
    if cfg.alignment == SecondarySort then SortBySecondary(rows, columns, cfg.secondarySortColumn) else rows
  }

  lemma ArrangeKeepsRows(rows: seq<Row>, columns: seq<string>, cfg: Config)
    requires RowsHaveColumns(rows, columns)
    ensures multiset(Arrange(rows, columns, cfg)) == multiset(rows)
    ensures RowsHaveColumns(Arrange(rows, columns, cfg), columns)
  {
    var r := Arrange(rows, columns, cfg);
    forall s | s in r ensures s in rows {
      assert s in multiset(r);
    }
  }

  // ---------------------------------------------------------------------------
  // Classification of a present/present pair

  /** `_values_equal`: two nulls are equal, a null and a value are not, two
      values are equal when they are the same value. */
  function ValuesEqual(a: Value, b: Value): (r: bool)
    ensures r <==> a == b
    ensures a.Null? && b.Null? ==> r
    ensures a.Null? != b.Null? ==> !r
  {
    if a.Null? && b.Null? then true
    else if a.Null? || b.Null? then false
    else a == b
  }

  /** The columns `_compare_rows` and `changed_cells` look at: a column of row A
      that is not a key column and that row B also has. */
  predicate Compared(c: string, keyColumns: seq<string>, rowB: Row) {
    c !in keyColumns && c in rowB
  }

  /** `_compare_rows`: walks the columns of row A and stops at the first
      compared column whose values differ. */
  function CompareRows(columns: seq<string>, keyColumns: seq<string>, rowA: Row, rowB: Row): (st: RowStatus)
    requires forall c :: c in columns ==> c in rowA
    ensures st == Match || st == Modified
    ensures st == Modified <==>
      exists c :: c in columns && Compared(c, keyColumns, rowB) && !ValuesEqual(rowA[c], rowB[c])
    decreases |columns|
  {
    if columns == [] then Match
    else
      var col := columns[0];
      assert forall c :: c in columns ==> c == col || c in columns[1..];
      if col in keyColumns || col !in rowB then CompareRows(columns[1..], keyColumns, rowA, rowB)
      else if rowA[col].Null? && rowB[col].Null? then CompareRows(columns[1..], keyColumns, rowA, rowB)
      else if rowA[col].Null? || rowB[col].Null? then Modified
      else if rowA[col] != rowB[col] then Modified
      else CompareRows(columns[1..], keyColumns, rowA, rowB)
  }

  /** The `changed_cells` of `_create_aligned_row`: the compared columns whose
      values are not `_values_equal`, in the column order of row A. */
  function ChangedColumns(columns: seq<string>, keyColumns: seq<string>, rowA: Row, rowB: Row): (changed: seq<string>)
    requires forall c :: c in columns ==> c in rowA
    ensures forall c :: c in changed <==>
      c in columns && Compared(c, keyColumns, rowB) && !ValuesEqual(rowA[c], rowB[c])
    decreases |columns|
  {
    if columns == [] then []
    else
      var n := |columns| - 1;
      var col := columns[n];
      assert forall c :: c in columns ==> c == col || c in columns[..n];
      ChangedColumns(columns[..n], keyColumns, rowA, rowB)
        + (if Compared(col, keyColumns, rowB) && !ValuesEqual(rowA[col], rowB[col]) then [col] else [])
  }

  /** The two passes agree: a pair is MODIFIED exactly when it has a changed
      column, so a MODIFIED record never lists no changed cells. */
  lemma ClassificationAgrees(columns: seq<string>, keyColumns: seq<string>, rowA: Row, rowB: Row)
    requires forall c :: c in columns ==> c in rowA
    ensures CompareRows(columns, keyColumns, rowA, rowB) == Modified
        <==> ChangedColumns(columns, keyColumns, rowA, rowB) != []
    ensures CompareRows(columns, keyColumns, rowA, rowB) == Match
        <==> ChangedColumns(columns, keyColumns, rowA, rowB) == []
  {
    var changed := ChangedColumns(columns, keyColumns, rowA, rowB);
    if changed != [] {
      assert changed[0] in changed;
    }
  }

  /** A compared column that is null on exactly one side makes the pair
      MODIFIED, whichever side is null. */
  lemma NullAgainstValueIsModified(columns: seq<string>, keyColumns: seq<string>, rowA: Row, rowB: Row, c: string)
    requires forall c :: c in columns ==> c in rowA
    requires c in columns && Compared(c, keyColumns, rowB)
    requires rowA[c].Null? != rowB[c].Null?
    ensures CompareRows(columns, keyColumns, rowA, rowB) == Modified
    ensures c in ChangedColumns(columns, keyColumns, rowA, rowB)
  {
  }

  /** A row compared with itself is a MATCH. */
  lemma SameRowMatches(columns: seq<string>, keyColumns: seq<string>, row: Row)
    requires forall c :: c in columns ==> c in row
    ensures CompareRows(columns, keyColumns, row, row) == Match
  {
  }

  // ---------------------------------------------------------------------------
  // Aligned output records

  /** One record of the aligned output. `a` and `b` hold the non-key cells of
      the row from each table (the `A_`/`B_` entries), absent when that side has
      no row; `changed` is the `changed_cells` entry, present only for a
      MODIFIED pair. */
  datatype AlignedRecord = AlignedRecord(
    key: Key,
    a: Option<Row>,
    status: RowStatus,
    b: Option<Row>,
    changed: Option<seq<string>>)

  /** The cells of a row outside the key columns. */
  function NonKeyCells(row: Row, keyColumns: seq<string>): map<string, Value> {
    map c | c in row && c !in keyColumns :: row[c]
  }

  /** The record `_create_aligned_row` builds. */
  function RecordOf(key: Key, rowA: Option<Row>, rowB: Option<Row>, status: RowStatus,
                    keyColumns: seq<string>, columnsA: seq<string>): (rec: AlignedRecord)
    requires rowA.Some? ==> forall c :: c in columnsA ==> c in rowA.value
    ensures rec.key == key && rec.status == status
    ensures rec.changed.Some? ==> rowA.Some? && rowB.Some? && forall c :: c in rec.changed.value ==>
      c in columnsA && c !in keyColumns && c in rowB.value && rowA.value[c] != rowB.value[c]
  {
    AlignedRecord(
      key,
      if rowA.Some? then Some(NonKeyCells(rowA.value, keyColumns)) else None,
      status,
      if rowB.Some? then Some(NonKeyCells(rowB.value, keyColumns)) else None,
      if status == Modified && rowA.Some? && rowB.Some?
      then Some(ChangedColumns(columnsA, keyColumns, rowA.value, rowB.value))
      else None)
  }

  /** The loop over `row.index` in `_create_aligned_row`: the cells of the
      row's columns, in column order, that are not key columns. */
  method CopyNonKeyCells(row: Row, columns: seq<string>, keyColumns: seq<string>) returns (cells: map<string, Value>)
    requires row.Keys == set c | c in columns
    ensures cells == NonKeyCells(row, keyColumns)
    ensures forall c :: c in cells <==> c in columns && c !in keyColumns
  {
    cells := map[];
    for j := 0 to |columns|
      invariant cells == map c | c in columns[..j] && c !in keyColumns :: row[c]
    {
      var col := columns[j];
      assert columns[..j + 1] == columns[..j] + [col];
      if col !in keyColumns {
        cells := cells[col := row[col]];
      }
    }
    assert columns[..|columns|] == columns;
    assert forall c :: c in cells <==> c in NonKeyCells(row, keyColumns);
  }

  /** The `changed_cells` loop of `_create_aligned_row`. */
  method CollectChanged(rowA: Row, rowB: Row, columnsA: seq<string>, keyColumns: seq<string>)
    returns (changed: seq<string>)
    requires forall c :: c in columnsA ==> c in rowA
    ensures changed == ChangedColumns(columnsA, keyColumns, rowA, rowB)
  {
    changed := [];
    for j := 0 to |columnsA|
      invariant changed == ChangedColumns(columnsA[..j], keyColumns, rowA, rowB)
    {
      var col := columnsA[j];
      assert columnsA[..j + 1][..j] == columnsA[..j];
      if col !in keyColumns && col in rowB {
        if !ValuesEqual(rowA[col], rowB[col]) {
          changed := changed + [col];
        }
      }
    }
    assert columnsA[..|columnsA|] == columnsA;
  }

  /** `_create_aligned_row`: copies the non-key cells of each present row,
      then, for a MODIFIED pair, collects the changed columns. */
  method CreateAlignedRow(key: Key, rowA: Option<Row>, rowB: Option<Row>, status: RowStatus,
                          keyColumns: seq<string>, columnsA: seq<string>, columnsB: seq<string>)
    returns (rec: AlignedRecord)
    requires rowA.Some? ==> rowA.value.Keys == set c | c in columnsA
    requires rowB.Some? ==> rowB.value.Keys == set c | c in columnsB
    ensures rec == RecordOf(key, rowA, rowB, status, keyColumns, columnsA)
    ensures rec.key == key && rec.status == status
    ensures rec.a.Some? == rowA.Some? && rec.b.Some? == rowB.Some?
    ensures rec.a.Some? ==> forall c :: c in rec.a.value <==> c in columnsA && c !in keyColumns
    ensures rec.b.Some? ==> forall c :: c in rec.b.value <==> c in columnsB && c !in keyColumns
    ensures rec.changed.Some? <==> status == Modified && rowA.Some? && rowB.Some?
  {
    var aCells: Option<Row> := None;
    if rowA.Some? {
      var cells := CopyNonKeyCells(rowA.value, columnsA, keyColumns);
      aCells := Some(cells);
    }
    var bCells: Option<Row> := None;
    if rowB.Some? {
      var cells := CopyNonKeyCells(rowB.value, columnsB, keyColumns);
      bCells := Some(cells);
    }
    var changed: Option<seq<string>> := None;
    if status == Modified && rowA.Some? && rowB.Some? {
      var cells := CollectChanged(rowA.value, rowB.value, columnsA, keyColumns);
      changed := Some(cells);
    }
    rec := AlignedRecord(key, aCells, status, bCells, changed);
  }

  // ---------------------------------------------------------------------------
  // Positional alignment of one key group

  function Max(x: nat, y: nat): nat {
    if x < y then y else x
  }

  function Min(x: nat, y: nat): nat {
    if x < y then x else y
  }

  /** The record for position `i` of a key group: a present/present pair is
      classified, an A-only position is REMOVED_ROW, a B-only one ADDED_ROW. */
  function PairRecord(key: Key, rowsA: seq<Row>, rowsB: seq<Row>, i: nat,
                      keyColumns: seq<string>, columnsA: seq<string>): AlignedRecord
    requires RowsHaveColumns(rowsA, columnsA)
    requires i < Max(|rowsA|, |rowsB|)
  {
    if i < |rowsA| && i < |rowsB| then
      assert rowsA[i] in rowsA;
      RecordOf(key, Some(rowsA[i]), Some(rowsB[i]), CompareRows(columnsA, keyColumns, rowsA[i], rowsB[i]),
               keyColumns, columnsA)
    else if i < |rowsA| then
      assert rowsA[i] in rowsA;
      RecordOf(key, Some(rowsA[i]), None, RemovedRow, keyColumns, columnsA)
    else
      RecordOf(key, None, Some(rowsB[i]), AddedRow, keyColumns, columnsA)
  }

  /** The pairing loop of `_compare_key_group`. */
  function AlignGroup(key: Key, rowsA: seq<Row>, rowsB: seq<Row>,
                      keyColumns: seq<string>, columnsA: seq<string>): (g: seq<AlignedRecord>)
    requires RowsHaveColumns(rowsA, columnsA)
  {
    seq(Max(|rowsA|, |rowsB|), i requires 0 <= i < Max(|rowsA|, |rowsB|) =>
      PairRecord(key, rowsA, rowsB, i, keyColumns, columnsA))
  }

  /** Positional pairing: max(m, n) records; the first min(m, n) pair row i of
      A with row i of B and are MATCH or MODIFIED (MODIFIED exactly when some
      column changed); the overflow is REMOVED_ROW with no B side when A is
      longer, ADDED_ROW with no A side when B is longer. */
  lemma PositionalPairing(key: Key, rowsA: seq<Row>, rowsB: seq<Row>,
                          keyColumns: seq<string>, columnsA: seq<string>)
    requires RowsHaveColumns(rowsA, columnsA)
    ensures var g := AlignGroup(key, rowsA, rowsB, keyColumns, columnsA);
      && |g| == Max(|rowsA|, |rowsB|)
      && (forall i :: 0 <= i < |g| ==> g[i].key == key)
      && (forall i :: 0 <= i < Min(|rowsA|, |rowsB|) ==>
            && (g[i].status == Match || g[i].status == Modified)
            && g[i].a == Some(NonKeyCells(rowsA[i], keyColumns))
            && g[i].b == Some(NonKeyCells(rowsB[i], keyColumns))
            && (g[i].status == Modified <==> ChangedColumns(columnsA, keyColumns, rowsA[i], rowsB[i]) != []))
      && (forall i :: |rowsB| <= i < |rowsA| ==>
            g[i].status == RemovedRow && g[i].a == Some(NonKeyCells(rowsA[i], keyColumns)) && g[i].b == None)
      && (forall i :: |rowsA| <= i < |rowsB| ==>
            g[i].status == AddedRow && g[i].a == None && g[i].b == Some(NonKeyCells(rowsB[i], keyColumns)))
  {
    var g := AlignGroup(key, rowsA, rowsB, keyColumns, columnsA);
    forall i | 0 <= i < Min(|rowsA|, |rowsB|)
      ensures g[i].status == Modified <==> ChangedColumns(columnsA, keyColumns, rowsA[i], rowsB[i]) != []
    {
      assert rowsA[i] in rowsA;
      ClassificationAgrees(columnsA, keyColumns, rowsA[i], rowsB[i]);
    }
  }

  /** The records of one common key: its rows from each table, ordered by the
      alignment method, paired by position. */
  function KeyGroup(key: Key, na: Table, nb: Table, cfg: Config): (g: seq<AlignedRecord>)
    requires na.WellFormed() && nb.WellFormed()
    requires HasKeyColumns(na.rows, cfg.keyColumns) && HasKeyColumns(nb.rows, cfg.keyColumns)
    requires |key| == |cfg.keyColumns|
  {
    var fetchedA := RowsForKey(na.rows, cfg.keyColumns, key);
    var fetchedB := RowsForKey(nb.rows, cfg.keyColumns, key);
    ArrangeKeepsRows(fetchedA, na.columns, cfg);
    AlignGroup(key, Arrange(fetchedA, na.columns, cfg), Arrange(fetchedB, nb.columns, cfg),
               cfg.keyColumns, na.columns)
  }

  /** Every record of a key group carries the key and one of the four
      within-key statuses. */
  lemma KeyGroupStatuses(key: Key, rowsA: seq<Row>, rowsB: seq<Row>,
                         keyColumns: seq<string>, columnsA: seq<string>)
    requires RowsHaveColumns(rowsA, columnsA)
    ensures forall r :: r in AlignGroup(key, rowsA, rowsB, keyColumns, columnsA) ==>
      r.key == key && r.status in {Match, Modified, AddedRow, RemovedRow}
  {
    var g := AlignGroup(key, rowsA, rowsB, keyColumns, columnsA);
    PositionalPairing(key, rowsA, rowsB, keyColumns, columnsA);
    forall r | r in g ensures r.key == key && r.status in {Match, Modified, AddedRow, RemovedRow} {
      var i :| 0 <= i < |g| && g[i] == r;
      if i < Min(|rowsA|, |rowsB|) {
      } else if i < |rowsA| {
      } else {
      }
    }
  }

  /** The pairing loop of `_compare_key_group` over rows already fetched and
      ordered. */
  method AlignRows(key: Key, rowsA: seq<Row>, rowsB: seq<Row>,
                   keyColumns: seq<string>, columnsA: seq<string>, columnsB: seq<string>)
    returns (records: seq<AlignedRecord>)
    requires RowsHaveColumns(rowsA, columnsA) && RowsHaveColumns(rowsB, columnsB)
    ensures records == AlignGroup(key, rowsA, rowsB, keyColumns, columnsA)
  {
    ghost var g := AlignGroup(key, rowsA, rowsB, keyColumns, columnsA);
    var maxRows := Max(|rowsA|, |rowsB|);
    records := [];
    for i := 0 to maxRows
      invariant records == g[..i]
    {
      assert g[i] == PairRecord(key, rowsA, rowsB, i, keyColumns, columnsA);
      var rec;
      if i < |rowsA| && i < |rowsB| {
        assert rowsA[i] in rowsA && rowsB[i] in rowsB;
        var status := CompareRows(columnsA, keyColumns, rowsA[i], rowsB[i]);
        rec := CreateAlignedRow(key, Some(rowsA[i]), Some(rowsB[i]), status, keyColumns, columnsA, columnsB);
      } else if i < |rowsA| {
        assert rowsA[i] in rowsA;
        rec := CreateAlignedRow(key, Some(rowsA[i]), None, RemovedRow, keyColumns, columnsA, columnsB);
      } else {
        assert rowsB[i] in rowsB;
        rec := CreateAlignedRow(key, None, Some(rowsB[i]), AddedRow, keyColumns, columnsA, columnsB);
      }
      records := records + [rec];
    }
    assert g[..maxRows] == g;
  }

  /** `_compare_key_group`: fetches the key's rows, sorts them under
      SECONDARY_SORT, then walks positions 0 .. max(m, n) - 1 appending one
      record per position. */
  method CompareKeyGroup(key: Key, na: Table, nb: Table, cfg: Config) returns (records: seq<AlignedRecord>)
    requires na.WellFormed() && nb.WellFormed()
    requires HasKeyColumns(na.rows, cfg.keyColumns) && HasKeyColumns(nb.rows, cfg.keyColumns)
    requires |key| == |cfg.keyColumns|
    ensures records == KeyGroup(key, na, nb, cfg)
    ensures forall r :: r in records ==> r.key == key && r.status in {Match, Modified, AddedRow, RemovedRow}
  {
    var rowsA := RowsForKey(na.rows, cfg.keyColumns, key);
    var rowsB := RowsForKey(nb.rows, cfg.keyColumns, key);
    ghost var arrangedA, arrangedB := Arrange(rowsA, na.columns, cfg), Arrange(rowsB, nb.columns, cfg);
    ArrangeKeepsRows(rowsA, na.columns, cfg);
    ArrangeKeepsRows(rowsB, nb.columns, cfg);
    if cfg.alignment == SecondarySort {
      rowsA := SortBySecondary(rowsA, na.columns, cfg.secondarySortColumn);
      rowsB := SortBySecondary(rowsB, nb.columns, cfg.secondarySortColumn);
    }
    assert rowsA == arrangedA && rowsB == arrangedB;
    records := AlignRows(key, rowsA, rowsB, cfg.keyColumns, na.columns, nb.columns);
    KeyGroupStatuses(key, rowsA, rowsB, cfg.keyColumns, na.columns);
  }
}
