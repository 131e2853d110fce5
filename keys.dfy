/**
 Key handling: validation of the key columns, extraction of the set of key
 tuples of a table, and retrieval of the rows that carry one key.
 */
module Keys {
  import opened Wrappers
  import opened Types

  /** `_validate_dataframes`: the key columns are checked in order, each first
      against table A and then against table B; the first miss is the error. */
  function Validate(keyColumns: seq<string>, columnsA: seq<string>, columnsB: seq<string>): (e: Option<KeyError>)
    ensures e.None? <==> forall c :: c in keyColumns ==> c in columnsA && c in columnsB
    ensures e.Some? ==> e.value.column in keyColumns
    ensures e.Some? && e.value.file == FileA ==> e.value.column !in columnsA
    ensures e.Some? && e.value.file == FileB ==> e.value.column in columnsA && e.value.column !in columnsB
    ensures e.Some? ==> exists i :: 0 <= i < |keyColumns| && keyColumns[i] == e.value.column &&
                          forall j :: 0 <= j < i ==> keyColumns[j] in columnsA && keyColumns[j] in columnsB
  {
    if keyColumns == [] then None
    else if keyColumns[0] !in columnsA then Some(MissingKeyColumn(keyColumns[0], FileA))
    else if keyColumns[0] !in columnsB then Some(MissingKeyColumn(keyColumns[0], FileB))
    else
      var e := Validate(keyColumns[1..], columnsA, columnsB);
      assert forall c :: c in keyColumns ==> c == keyColumns[0] || c in keyColumns[1..];
      if e.Some? then
        var i :| 0 <= i < |keyColumns| - 1 && keyColumns[1..][i] == e.value.column &&
          forall j :: 0 <= j < i ==> keyColumns[1..][j] in columnsA && keyColumns[1..][j] in columnsB;
        assert keyColumns[i + 1] == e.value.column;
        e
      else e
  }

  /** Every row has every key column. */
  ghost predicate HasKeyColumns(rows: seq<Row>, keyColumns: seq<string>) {
    forall r, c :: r in rows && c in keyColumns ==> c in r
  }

  /** The key tuple of a row. */
  function KeyOf(row: Row, keyColumns: seq<string>): (k: Key)
    requires forall c :: c in keyColumns ==> c in row
    ensures |k| == |keyColumns|
  {
    seq(|keyColumns|, i requires 0 <= i < |keyColumns| => row[keyColumns[i]])
  }

  /** `_get_unique_keys`: the set of distinct key tuples of the rows. */
  function UniqueKeys(rows: seq<Row>, keyColumns: seq<string>): (keys: set<Key>)
    requires HasKeyColumns(rows, keyColumns)
    ensures forall k :: k in keys ==> |k| == |keyColumns|
    ensures keys == {} <==> rows == []
  {
    var keys := set r | r in rows :: KeyOf(r, keyColumns);
    assert rows != [] ==> rows[0] in rows && KeyOf(rows[0], keyColumns) in keys;
    keys
  }

  /** Each key is the key of some row, and every key has one cell per key column. */
  lemma UniqueKeysMembers(rows: seq<Row>, keyColumns: seq<string>)
    requires HasKeyColumns(rows, keyColumns)
    ensures forall k :: k in UniqueKeys(rows, keyColumns) <==>
      exists i :: 0 <= i < |rows| && KeyOf(rows[i], keyColumns) == k
    ensures forall k :: k in UniqueKeys(rows, keyColumns) ==> |k| == |keyColumns|
  {
    var keys := UniqueKeys(rows, keyColumns);
    forall k | k in keys ensures exists i :: 0 <= i < |rows| && KeyOf(rows[i], keyColumns) == k {
      var r :| r in rows && KeyOf(r, keyColumns) == k;
      var i :| 0 <= i < |rows| && rows[i] == r;
    }
  }

  /** There are no more distinct keys than rows. */
  lemma {:induction false} UniqueKeysBound(rows: seq<Row>, keyColumns: seq<string>)
    requires HasKeyColumns(rows, keyColumns)
    ensures |UniqueKeys(rows, keyColumns)| <= |rows|
    decreases |rows|
  {
    if rows != [] {
      var n := |rows| - 1;
      var prefix := rows[..n];
      UniqueKeysBound(prefix, keyColumns);
      assert rows == prefix + [rows[n]];
      assert UniqueKeys(rows, keyColumns) == UniqueKeys(prefix, keyColumns) + {KeyOf(rows[n], keyColumns)};
    }
  }

  /** One cell of pandas' mask `df[col] == key[i]`: a null cell matches nothing. */
  predicate CellMatches(v: Value, k: Value) {
    !v.Null? && v == k
  }

  /** The mask of `_get_rows_for_key` at one row. */
  predicate RowMatches(row: Row, keyColumns: seq<string>, key: Key)
    requires forall c :: c in keyColumns ==> c in row
    requires |key| == |keyColumns|
  {
    forall i :: 0 <= i < |keyColumns| ==> CellMatches(row[keyColumns[i]], key[i])
  }

  /** A row matches a key exactly when the key is the row's key and no cell of
      it is null. */
  lemma RowMatchesIff(row: Row, keyColumns: seq<string>, key: Key)
    requires forall c :: c in keyColumns ==> c in row
    requires |key| == |keyColumns|
    ensures RowMatches(row, keyColumns, key) <==> KeyOf(row, keyColumns) == key && Null !in key
  {
    if RowMatches(row, keyColumns, key) {
      assert forall i :: 0 <= i < |key| ==> key[i] != Null;
    }
  }

  /** `_get_rows_for_key`: the rows selected by the mask, in table order. */
  function RowsForKey(rows: seq<Row>, keyColumns: seq<string>, key: Key): (fetched: seq<Row>)
    requires HasKeyColumns(rows, keyColumns)
    requires |key| == |keyColumns|
    ensures |fetched| <= |rows|
    ensures forall r :: r in fetched ==> r in rows
    decreases |rows|
  {
    if rows == [] then []
    else
      var n := |rows| - 1;
      RowsForKey(rows[..n], keyColumns, key) + (if RowMatches(rows[n], keyColumns, key) then [rows[n]] else [])
  }

  /** The positions of the rows the mask selects. */
  function MatchIndices(rows: seq<Row>, keyColumns: seq<string>, key: Key): seq<nat>
    requires HasKeyColumns(rows, keyColumns)
    requires |key| == |keyColumns|
    decreases |rows|
  {
    if rows == [] then []
    else
      var n := |rows| - 1;
      MatchIndices(rows[..n], keyColumns, key) + (if RowMatches(rows[n], keyColumns, key) then [n] else [])
  }

  /** The rows fetched for a key are exactly the matching rows, in their
      original order: the i-th fetched row is the row at the i-th matching
      position, positions ascend, and every matching position is there. */
  lemma RowsForKeySpec(rows: seq<Row>, keyColumns: seq<string>, key: Key)
    requires HasKeyColumns(rows, keyColumns)
    requires |key| == |keyColumns|
    ensures var fetched, idx := RowsForKey(rows, keyColumns, key), MatchIndices(rows, keyColumns, key);
      && |fetched| == |idx|
      && (forall j :: 0 <= j < |idx| ==> idx[j] < |rows| && fetched[j] == rows[idx[j]])
      && (forall j1, j2 :: 0 <= j1 < j2 < |idx| ==> idx[j1] < idx[j2])
      && (forall i :: 0 <= i < |rows| ==> (i in idx <==> RowMatches(rows[i], keyColumns, key)))
  {
    MatchIndicesAscend(rows, keyColumns, key);
    FetchedAtIndices(rows, keyColumns, key);
    MatchIndicesComplete(rows, keyColumns, key);
  }

  /** Matching positions are in range and strictly ascending. */
  lemma {:induction false} MatchIndicesAscend(rows: seq<Row>, keyColumns: seq<string>, key: Key)
    requires HasKeyColumns(rows, keyColumns)
    requires |key| == |keyColumns|
    ensures forall j :: 0 <= j < |MatchIndices(rows, keyColumns, key)| ==>
      MatchIndices(rows, keyColumns, key)[j] < |rows|
    ensures forall j1, j2 :: 0 <= j1 < j2 < |MatchIndices(rows, keyColumns, key)| ==>
      MatchIndices(rows, keyColumns, key)[j1] < MatchIndices(rows, keyColumns, key)[j2]
    decreases |rows|
  {
    if rows != [] {
      var n := |rows| - 1;
      var prefix := rows[..n];
      assert |prefix| == n;
      MatchIndicesAscend(prefix, keyColumns, key);
      var idx' := MatchIndices(prefix, keyColumns, key);
      var idx := MatchIndices(rows, keyColumns, key);
      assert idx == idx' + (if RowMatches(rows[n], keyColumns, key) then [n] else []);
      assert forall j :: 0 <= j < |idx'| ==> idx'[j] < n;
      forall j1, j2 | 0 <= j1 < j2 < |idx| ensures idx[j1] < idx[j2] {
        if j2 < |idx'| {
          assert idx[j1] == idx'[j1] && idx[j2] == idx'[j2];
        } else {
          assert idx[j1] == idx'[j1] && idx[j2] == n;
        }
      }
    }
  }

  /** The i-th fetched row is the row at the i-th matching position. */
  lemma {:induction false} FetchedAtIndices(rows: seq<Row>, keyColumns: seq<string>, key: Key)
    requires HasKeyColumns(rows, keyColumns)
    requires |key| == |keyColumns|
    ensures var fetched, idx := RowsForKey(rows, keyColumns, key), MatchIndices(rows, keyColumns, key);
      && |fetched| == |idx|
      && (forall j :: 0 <= j < |idx| ==> idx[j] < |rows| && fetched[j] == rows[idx[j]])
    decreases |rows|
  {
    if rows != [] {
      var n := |rows| - 1;
      var prefix := rows[..n];
      FetchedAtIndices(prefix, keyColumns, key);
      MatchIndicesAscend(prefix, keyColumns, key);
      var hit := RowMatches(rows[n], keyColumns, key);
      var fetched' := RowsForKey(prefix, keyColumns, key);
      var idx' := MatchIndices(prefix, keyColumns, key);
      var fetched := RowsForKey(rows, keyColumns, key);
      var idx := MatchIndices(rows, keyColumns, key);
      assert fetched == fetched' + (if hit then [rows[n]] else []);
      assert idx == idx' + (if hit then [n] else []);
      forall j | 0 <= j < |idx| ensures idx[j] < |rows| && fetched[j] == rows[idx[j]] {
        if j < |idx'| {
          assert idx[j] == idx'[j] && fetched[j] == fetched'[j];
          assert prefix[idx'[j]] == rows[idx'[j]];
        }
      }
    }
  }

  /** Every matching position, and only those, is listed. */
  lemma {:induction false} MatchIndicesComplete(rows: seq<Row>, keyColumns: seq<string>, key: Key)
    requires HasKeyColumns(rows, keyColumns)
    requires |key| == |keyColumns|
    ensures var idx := MatchIndices(rows, keyColumns, key);
      forall i :: 0 <= i < |rows| ==> (i in idx <==> RowMatches(rows[i], keyColumns, key))
    decreases |rows|
  {
    if rows != [] {
      var n := |rows| - 1;
      var prefix := rows[..n];
      MatchIndicesComplete(prefix, keyColumns, key);
      MatchIndicesAscend(prefix, keyColumns, key);
      var idx' := MatchIndices(prefix, keyColumns, key);
      assert n !in idx';
      forall i | 0 <= i < n ensures prefix[i] == rows[i] { }
    }
  }

  /** A key with a null cell fetches no row, since a null cell never matches. */
  lemma {:induction false} NullKeyFetchesNothing(rows: seq<Row>, keyColumns: seq<string>, key: Key)
    requires HasKeyColumns(rows, keyColumns)
    requires |key| == |keyColumns|
    requires Null in key
    ensures RowsForKey(rows, keyColumns, key) == []
    decreases |rows|
  {
    if rows != [] {
      var n := |rows| - 1;
      NullKeyFetchesNothing(rows[..n], keyColumns, key);
      RowMatchesIff(rows[n], keyColumns, key);
    }
  }

  /** A null-free key of the table fetches at least one row. */
  lemma KeyOfTableFetchesRows(rows: seq<Row>, keyColumns: seq<string>, key: Key)
    requires HasKeyColumns(rows, keyColumns)
    requires key in UniqueKeys(rows, keyColumns) && Null !in key
    ensures |key| == |keyColumns| && RowsForKey(rows, keyColumns, key) != []
  {
    UniqueKeysMembers(rows, keyColumns);
    var i :| 0 <= i < |rows| && KeyOf(rows[i], keyColumns) == key;
    RowMatchesIff(rows[i], keyColumns, key);
    RowsForKeySpec(rows, keyColumns, key);
    assert i in MatchIndices(rows, keyColumns, key);
  }

  /** `keys_only_a`, `keys_only_b` and `keys_common` split the two key sets. */
  lemma KeySetsPartition(keysA: set<Key>, keysB: set<Key>)
    ensures (keysA - keysB) !! (keysB - keysA)
    ensures (keysA - keysB) !! (keysA * keysB) && (keysB - keysA) !! (keysA * keysB)
    ensures (keysA * keysB) + (keysA - keysB) == keysA
    ensures (keysA * keysB) + (keysB - keysA) == keysB
    ensures |keysA - keysB| == |keysA| - |keysA * keysB|
    ensures |keysB - keysA| == |keysB| - |keysA * keysB|
  {
    assert keysA == (keysA * keysB) + (keysA - keysB);
    assert keysB == (keysA * keysB) + (keysB - keysA);
  }
}
