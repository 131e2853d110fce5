/**
 Comparing a table with itself: when no key cell is null, every row yields
 exactly one MATCH record and no key is single-sided.
 */
module Identity {
  import opened Wrappers
  import opened Types
  import opened Order
  import opened Normalization
  import opened Keys
  import opened Alignment
  import opened Summary
  import opened Engine

  /** The number of rows fetched over a list of keys. */
  function FetchTotal(rows: seq<Row>, keyColumns: seq<string>, keys: seq<Key>): nat
    requires HasKeyColumns(rows, keyColumns) && KeysFit(keys, keyColumns)
    decreases |keys|
  {
    if keys == [] then 0
    else
      var n := |keys| - 1;
      FetchTotal(rows, keyColumns, keys[..n]) + |RowsForKey(rows, keyColumns, keys[n])|
  }

  /** The number of keys of the list that the mask selects `row` for. */
  function Hits(row: Row, keyColumns: seq<string>, keys: seq<Key>): nat
    requires forall c :: c in keyColumns ==> c in row
    requires KeysFit(keys, keyColumns)
    decreases |keys|
  {
    if keys == [] then 0
    else
      var n := |keys| - 1;
      Hits(row, keyColumns, keys[..n]) + (if RowMatches(row, keyColumns, keys[n]) then 1 else 0)
  }

  predicate Distinct(keys: seq<Key>) {
    forall i, j :: 0 <= i < j < |keys| ==> keys[i] != keys[j]
  }

  /** No row is fetched from an empty table. */
  lemma {:induction false} FetchTotalNoRows(keyColumns: seq<string>, keys: seq<Key>)
    requires KeysFit(keys, keyColumns)
    ensures FetchTotal([], keyColumns, keys) == 0
    decreases |keys|
  {
    if keys != [] {
      FetchTotalNoRows(keyColumns, keys[..|keys| - 1]);
    }
  }

  /** The last row adds one fetched row per key it matches. */
  lemma {:induction false} FetchTotalLastRow(rows: seq<Row>, keyColumns: seq<string>, keys: seq<Key>, n: nat)
    requires HasKeyColumns(rows, keyColumns) && KeysFit(keys, keyColumns)
    requires n == |rows| - 1
    ensures HasKeyColumns(rows[..n], keyColumns)
    ensures FetchTotal(rows, keyColumns, keys) == FetchTotal(rows[..n], keyColumns, keys) + Hits(rows[n], keyColumns, keys)
    decreases |keys|
  {
    assert forall r :: r in rows[..n] ==> r in rows;
    if keys != [] {
      FetchTotalLastRow(rows, keyColumns, keys[..|keys| - 1], n);
    }
  }

  /** A row whose key is not in the list is selected by none of its keys. */
  lemma {:induction false} HitsNone(row: Row, keyColumns: seq<string>, keys: seq<Key>)
    requires forall c :: c in keyColumns ==> c in row
    requires KeysFit(keys, keyColumns)
    requires KeyOf(row, keyColumns) !in keys
    ensures Hits(row, keyColumns, keys) == 0
    decreases |keys|
  {
    if keys != [] {
      var n := |keys| - 1;
      assert forall k :: k in keys[..n] ==> k in keys;
      HitsNone(row, keyColumns, keys[..n]);
      RowMatchesIff(row, keyColumns, keys[n]);
    }
  }

  /** A row with a null-free key is selected by exactly one key of a list of
      distinct keys holding its key. */
  lemma {:induction false} HitsOnce(row: Row, keyColumns: seq<string>, keys: seq<Key>)
    requires forall c :: c in keyColumns ==> c in row
    requires KeysFit(keys, keyColumns) && Distinct(keys)
    requires KeyOf(row, keyColumns) in keys && Null !in KeyOf(row, keyColumns)
    ensures Hits(row, keyColumns, keys) == 1
    decreases |keys|
  {
    var n := |keys| - 1;
    var k := KeyOf(row, keyColumns);
    var prefix := keys[..n];
    assert keys == prefix + [keys[n]];
    assert KeysFit(prefix, keyColumns);
    RowMatchesIff(row, keyColumns, keys[n]);
    if keys[n] == k {
      assert k !in prefix by {
        forall i | 0 <= i < n ensures prefix[i] != k {
          assert prefix[i] == keys[i];
        }
      }
      HitsNone(row, keyColumns, prefix);
    } else {
      assert k in prefix;
      assert Distinct(prefix) by {
        forall i, j | 0 <= i < j < n ensures prefix[i] != prefix[j] {
          assert prefix[i] == keys[i] && prefix[j] == keys[j];
        }
      }
      HitsOnce(row, keyColumns, prefix);
    }
  }

  /** Over distinct keys that hold every row's null-free key, each row is
      fetched exactly once. */
  lemma {:induction false} FetchTotalAll(rows: seq<Row>, keyColumns: seq<string>, keys: seq<Key>)
    requires HasKeyColumns(rows, keyColumns) && KeysFit(keys, keyColumns) && Distinct(keys)
    requires forall r :: r in rows ==> KeyOf(r, keyColumns) in keys && Null !in KeyOf(r, keyColumns)
    ensures FetchTotal(rows, keyColumns, keys) == |rows|
    decreases |rows|
  {
    if rows == [] {
      FetchTotalNoRows(keyColumns, keys);
    } else {
      var n := |rows| - 1;
      FetchTotalLastRow(rows, keyColumns, keys, n);
      assert forall r :: r in rows[..n] ==> r in rows;
      FetchTotalAll(rows[..n], keyColumns, keys);
      HitsOnce(rows[n], keyColumns, keys);
    }
  }

  /** A key group compared against itself: one MATCH per fetched row. */
  lemma SelfKeyGroup(key: Key, t: Table, cfg: Config)
    requires t.WellFormed() && HasKeyColumns(t.rows, cfg.keyColumns) && |key| == |cfg.keyColumns|
    ensures |KeyGroup(key, t, t, cfg)| == |RowsForKey(t.rows, cfg.keyColumns, key)|
    ensures forall r :: r in KeyGroup(key, t, t, cfg) ==> r.status == Match
  {
    var fetched := RowsForKey(t.rows, cfg.keyColumns, key);
    ArrangeKeepsRows(fetched, t.columns, cfg);
    var arranged := Arrange(fetched, t.columns, cfg);
    assert |arranged| == |multiset(arranged)| == |multiset(fetched)| == |fetched|;
    var g := AlignGroup(key, arranged, arranged, cfg.keyColumns, t.columns);
    forall i | 0 <= i < |g| ensures g[i].status == Match {
      assert arranged[i] in arranged;
      SameRowMatches(t.columns, cfg.keyColumns, arranged[i]);
      assert g[i] == PairRecord(key, arranged, arranged, i, cfg.keyColumns, t.columns);
    }
  }

  /** The common-key block of a table against itself: only MATCH records, as
      many as the rows fetched. */
  lemma {:induction false} SelfCommonRecords(keys: seq<Key>, t: Table, cfg: Config)
    requires t.WellFormed() && HasKeyColumns(t.rows, cfg.keyColumns) && KeysFit(keys, cfg.keyColumns)
    ensures |CommonRecords(keys, t, t, cfg)| == FetchTotal(t.rows, cfg.keyColumns, keys)
    ensures forall r :: r in CommonRecords(keys, t, t, cfg) ==> r.status == Match
    decreases |keys|
  {
    if keys != [] {
      var n := |keys| - 1;
      var prev := CommonRecords(keys[..n], t, t, cfg);
      var g := KeyGroup(keys[n], t, t, cfg);
      SelfCommonRecords(keys[..n], t, cfg);
      SelfKeyGroup(keys[n], t, cfg);
      assert CommonRecords(keys, t, t, cfg) == prev + g;
      assert FetchTotal(t.rows, cfg.keyColumns, keys)
          == FetchTotal(t.rows, cfg.keyColumns, keys[..n]) + |RowsForKey(t.rows, cfg.keyColumns, keys[n])|;
      forall r: AlignedRecord | r in prev + g ensures r.status == Match {
        if r !in prev {
          assert r in g;
        }
      }
    }
  }

  /** Normalisation keeps null key cells null and the others non-null, so
      null-free keys stay null-free. */
  lemma NormalizedKeysNullFree(t: Table, cfg: Config)
    requires t.WellFormed()
    requires forall c :: c in cfg.keyColumns ==> c in t.columns
    requires forall i, c :: 0 <= i < |t.rows| && c in cfg.keyColumns ==> !t.rows[i][c].Null?
    ensures HasKeyColumns(NormalizeTable(t, cfg).rows, cfg.keyColumns)
    ensures forall r :: r in NormalizeTable(t, cfg).rows ==> Null !in KeyOf(r, cfg.keyColumns)
  {
    var kc := cfg.keyColumns;
    var na := NormalizeTable(t, cfg);
    NormalizeTableShape(t, cfg);
    forall r | r in na.rows ensures Null !in KeyOf(r, kc) {
      var i :| 0 <= i < |na.rows| && na.rows[i] == r;
      var key := KeyOf(r, kc);
      forall j | 0 <= j < |kc| ensures key[j] != Null {
        var c := kc[j];
        assert c in kc && c in t.rows[i] && i < |t.rows|;
        assert !t.rows[i][c].Null?;
        assert na.rows[i][c].Null? <==> t.rows[i][c].Null?;
        assert key[j] == na.rows[i][c];
      }
    }
  }

  /** A normalised table with null-free keys against itself. */
  lemma SelfOutcome(na: Table, cfg: Config)
    requires na.WellFormed() && HasKeyColumns(na.rows, cfg.keyColumns)
    requires forall r :: r in na.rows ==> Null !in KeyOf(r, cfg.keyColumns)
    ensures var res := Outcome(na, na, cfg);
      && |res.aligned| == |na.rows|
      && (forall r :: r in res.aligned ==> r.status == Match)
      && res.keysOnlyInA == [] && res.keysOnlyInB == []
      && res.summary.matchCount == |na.rows|
  {
    var kc := cfg.keyColumns;
    var keys := UniqueKeys(na.rows, kc);
    var common := CommonKeys(na, na, kc);
    assert keys - keys == {};
    UniqueKeysMembers(na.rows, kc);
    assert forall r :: r in na.rows ==> KeyOf(r, kc) in keys;
    forall i, j | 0 <= i < j < |common| ensures common[i] != common[j] {
      KeyLessIrreflexive(common[i]);
    }
    FetchTotalAll(na.rows, kc, common);
    SelfCommonRecords(common, na, cfg);
    var aligned := AlignedRecords(na, na, cfg);
    assert aligned == CommonRecords(common, na, na, cfg);
    CountsSumToTotal(aligned);
  }

  /** Comparing a table with itself, when no key cell is null: every row gives
      one MATCH record, no key is single-sided, and the summary counts every
      record as a match. */
  lemma CompareWithItself(t: Table, cfg: Config)
    requires t.WellFormed()
    requires forall c :: c in cfg.keyColumns ==> c in t.columns
    requires forall i, c :: 0 <= i < |t.rows| && c in cfg.keyColumns ==> !t.rows[i][c].Null?
    ensures CompareSpec(t, t, cfg).Success?
    ensures var res := CompareSpec(t, t, cfg).value;
      && |res.aligned| == |t.rows|
      && (forall r :: r in res.aligned ==> r.status == Match)
      && res.keysOnlyInA == [] && res.keysOnlyInB == []
      && res.summary.matchCount == |t.rows|
  {
    NormalizeTableShape(t, cfg);
    NormalizedKeysNullFree(t, cfg);
    SelfOutcome(NormalizeTable(t, cfg), cfg);
  }
}
