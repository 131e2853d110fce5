/**
 What a comparison guarantees about its result: the key-column error, the
 blocks of records and their order, the summary arithmetic, comparing a table
 with itself, insensitivity to pre-normalised input, and the empty comparison.
 */
module Properties {
  import opened Wrappers
  import opened Types
  import opened Order
  import opened Normalization
  import opened Keys
  import opened Alignment
  import opened Summary
  import opened Engine

  // ---------------------------------------------------------------------------
  // Validation

  /** A comparison fails exactly when a key column is missing from a table; the
      error names that column, and the table it is missing from (A is checked
      before B). */
  lemma MissingKeyColumnIsError(a: Table, b: Table, cfg: Config)
    requires a.WellFormed() && b.WellFormed()
    ensures CompareSpec(a, b, cfg).Failure? <==>
      exists c :: c in cfg.keyColumns && (c !in a.columns || c !in b.columns)
    ensures CompareSpec(a, b, cfg).Failure? ==>
      var e := CompareSpec(a, b, cfg).error;
      && e.column in cfg.keyColumns
      && (e.file == FileA ==> e.column !in a.columns)
      && (e.file == FileB ==> e.column in a.columns && e.column !in b.columns)
  {
  }

  // ---------------------------------------------------------------------------
  // The blocks of records

  /** Every record of the common-key block carries one of the keys and a
      within-key status. */
  lemma {:induction false} CommonRecordsSpec(keys: seq<Key>, na: Table, nb: Table, cfg: Config)
    requires na.WellFormed() && nb.WellFormed()
    requires HasKeyColumns(na.rows, cfg.keyColumns) && HasKeyColumns(nb.rows, cfg.keyColumns)
    requires KeysFit(keys, cfg.keyColumns)
    ensures forall r :: r in CommonRecords(keys, na, nb, cfg) ==>
      r.key in keys && r.status in {Match, Modified, AddedRow, RemovedRow}
    decreases |keys|
  {
    if keys != [] {
      var n := |keys| - 1;
      CommonRecordsSpec(keys[..n], na, nb, cfg);
      var fetchedA := RowsForKey(na.rows, cfg.keyColumns, keys[n]);
      var fetchedB := RowsForKey(nb.rows, cfg.keyColumns, keys[n]);
      ArrangeKeepsRows(fetchedA, na.columns, cfg);
      KeyGroupStatuses(keys[n], Arrange(fetchedA, na.columns, cfg), Arrange(fetchedB, nb.columns, cfg),
                       cfg.keyColumns, na.columns);
      assert forall k :: k in keys[..n] ==> k in keys;
    }
  }

  /** Every record of a single-sided block carries one of the keys; the keys
      only in A give REMOVED_KEY records with only an A side, the keys only in
      B give NEW_KEY records with only a B side. */
  lemma {:induction false} SingleSidedSpec(keys: seq<Key>, t: Table, keyColumns: seq<string>, side: File)
    requires t.WellFormed() && HasKeyColumns(t.rows, keyColumns) && KeysFit(keys, keyColumns)
    ensures forall r :: r in SingleSidedRecords(keys, t, keyColumns, side) ==>
      && r.key in keys
      && r.changed.None?
      && (side == FileA ==> r.status == RemovedKey && r.a.Some? && r.b.None?)
      && (side == FileB ==> r.status == NewKey && r.a.None? && r.b.Some?)
    decreases |keys|
  {
    if keys != [] {
      var n := |keys| - 1;
      SingleSidedSpec(keys[..n], t, keyColumns, side);
      assert forall k :: k in keys[..n] ==> k in keys;
      var block := KeyRows(keys[n], t, keyColumns, side);
      forall r | r in block ensures r.key == keys[n] {
        var j :| 0 <= j < |block| && block[j] == r;
      }
    }
  }

  /** The records ascend by key. */
  predicate AscendingKeys(recs: seq<AlignedRecord>) {
    forall i, j :: 0 <= i < j < |recs| ==> KeyLe(recs[i].key, recs[j].key)
  }

  /** Appending a block of records of key `k` to records ascending by key,
      whose keys all precede `k`, keeps them ascending. */
  lemma AppendBlockAscends(prefix: seq<AlignedRecord>, block: seq<AlignedRecord>, before: seq<Key>, k: Key)
    requires AscendingKeys(prefix)
    requires forall r :: r in prefix ==> r.key in before
    requires forall m :: m in before ==> KeyLess(m, k)
    requires forall r :: r in block ==> r.key == k
    ensures AscendingKeys(prefix + block)
  {
    var recs := prefix + block;
    forall i, j | 0 <= i < j < |recs| ensures KeyLe(recs[i].key, recs[j].key) {
      if j < |prefix| {
        assert recs[i] == prefix[i] && recs[j] == prefix[j];
      } else if i < |prefix| {
        assert recs[i] == prefix[i] && prefix[i] in prefix;
        assert recs[j] == block[j - |prefix|] && block[j - |prefix|] in block;
      } else {
        assert recs[i] == block[i - |prefix|] && block[i - |prefix|] in block;
        assert recs[j] == block[j - |prefix|] && block[j - |prefix|] in block;
      }
    }
  }

  /** In a strictly ascending key list, the keys before the last precede it. */
  lemma EarlierKeysPrecede(keys: seq<Key>, n: nat)
    requires StrictlySorted(keys) && n == |keys| - 1
    ensures StrictlySorted(keys[..n])
    ensures forall m :: m in keys[..n] ==> KeyLess(m, keys[n])
  {
    forall m | m in keys[..n] ensures KeyLess(m, keys[n]) {
      var i :| 0 <= i < n && keys[..n][i] == m;
    }
  }

  /** Over ascending keys, the records of the common-key block ascend by key. */
  lemma {:induction false} CommonRecordsAscend(keys: seq<Key>, na: Table, nb: Table, cfg: Config)
    requires na.WellFormed() && nb.WellFormed()
    requires HasKeyColumns(na.rows, cfg.keyColumns) && HasKeyColumns(nb.rows, cfg.keyColumns)
    requires KeysFit(keys, cfg.keyColumns)
    requires StrictlySorted(keys)
    ensures AscendingKeys(CommonRecords(keys, na, nb, cfg))
    decreases |keys|
  {
    if keys != [] {
      var n := |keys| - 1;
      EarlierKeysPrecede(keys, n);
      CommonRecordsAscend(keys[..n], na, nb, cfg);
      CommonRecordsSpec(keys[..n], na, nb, cfg);
      var fetchedA := RowsForKey(na.rows, cfg.keyColumns, keys[n]);
      var fetchedB := RowsForKey(nb.rows, cfg.keyColumns, keys[n]);
      ArrangeKeepsRows(fetchedA, na.columns, cfg);
      KeyGroupStatuses(keys[n], Arrange(fetchedA, na.columns, cfg), Arrange(fetchedB, nb.columns, cfg),
                       cfg.keyColumns, na.columns);
      AppendBlockAscends(CommonRecords(keys[..n], na, nb, cfg), KeyGroup(keys[n], na, nb, cfg), keys[..n], keys[n]);
    }
  }

  /** The records of one single-sided key all carry that key. */
  lemma KeyRowsCarryKey(key: Key, t: Table, keyColumns: seq<string>, side: File)
    requires t.WellFormed() && HasKeyColumns(t.rows, keyColumns) && |key| == |keyColumns|
    ensures forall r :: r in KeyRows(key, t, keyColumns, side) ==> r.key == key
  {
    var block := KeyRows(key, t, keyColumns, side);
    forall r | r in block ensures r.key == key {
      var j :| 0 <= j < |block| && block[j] == r;
    }
  }

  /** Over ascending keys, the records of a single-sided block ascend by key. */
  lemma {:induction false} SingleSidedAscend(keys: seq<Key>, t: Table, keyColumns: seq<string>, side: File)
    requires t.WellFormed() && HasKeyColumns(t.rows, keyColumns) && KeysFit(keys, keyColumns)
    requires StrictlySorted(keys)
    ensures AscendingKeys(SingleSidedRecords(keys, t, keyColumns, side))
    decreases |keys|
  {
    if keys != [] {
      var n := |keys| - 1;
      EarlierKeysPrecede(keys, n);
      SingleSidedAscend(keys[..n], t, keyColumns, side);
      SingleSidedSpec(keys[..n], t, keyColumns, side);
      KeyRowsCarryKey(keys[n], t, keyColumns, side);
      AppendBlockAscends(SingleSidedRecords(keys[..n], t, keyColumns, side), KeyRows(keys[n], t, keyColumns, side),
                         keys[..n], keys[n]);
    }
  }

  /** Where each block of a concatenation sits. */
  lemma ThreeBlocks(c: seq<AlignedRecord>, removed: seq<AlignedRecord>, added: seq<AlignedRecord>,
                    common: seq<Key>, onlyA: seq<Key>, onlyB: seq<Key>)
    requires forall r :: r in c ==> r.key in common && r.status in {Match, Modified, AddedRow, RemovedRow}
    requires forall r :: r in removed ==> r.key in onlyA && r.status == RemovedKey
    requires forall r :: r in added ==> r.key in onlyB && r.status == NewKey
    ensures var all := c + removed + added;
      && (forall i :: 0 <= i < |c| ==>
            (all[i].key in common && all[i].status in {Match, Modified, AddedRow, RemovedRow}))
      && (forall i :: |c| <= i < |c| + |removed| ==>
            (all[i].key in onlyA && all[i].status == RemovedKey))
      && (forall i :: |c| + |removed| <= i < |all| ==>
            (all[i].key in onlyB && all[i].status == NewKey))
  {
    var all := c + removed + added;
    forall i | 0 <= i < |c| ensures all[i] == c[i] && c[i] in c {
    }
    forall i | |c| <= i < |c| + |removed| ensures all[i] == removed[i - |c|] && removed[i - |c|] in removed {
    }
    forall i | |c| + |removed| <= i < |all|
      ensures all[i] == added[i - |c| - |removed|] && added[i - |c| - |removed|] in added {
    }
  }

  /** The layout of a successful comparison: first the records of the common
      keys (within-key statuses, ascending by key), then REMOVED_KEY records of
      the keys only in A, then NEW_KEY records of the keys only in B, each of
      these blocks ascending by key; the key lists are the sorted single-sided
      key sets. */
  lemma RecordOrdering(na: Table, nb: Table, cfg: Config)
    requires na.WellFormed() && nb.WellFormed()
    requires HasKeyColumns(na.rows, cfg.keyColumns) && HasKeyColumns(nb.rows, cfg.keyColumns)
    ensures var res := Outcome(na, nb, cfg);
      var keysA, keysB := UniqueKeys(na.rows, cfg.keyColumns), UniqueKeys(nb.rows, cfg.keyColumns);
      var c := CommonRecords(CommonKeys(na, nb, cfg.keyColumns), na, nb, cfg);
      var removed := SingleSidedRecords(res.keysOnlyInA, na, cfg.keyColumns, FileA);
      var added := SingleSidedRecords(res.keysOnlyInB, nb, cfg.keyColumns, FileB);
      && res.aligned == c + removed + added
      && StrictlySorted(res.keysOnlyInA) && (forall k :: k in res.keysOnlyInA <==> k in keysA && k !in keysB)
      && StrictlySorted(res.keysOnlyInB) && (forall k :: k in res.keysOnlyInB <==> k in keysB && k !in keysA)
      && (forall i :: 0 <= i < |c| ==>
            (res.aligned[i].key in keysA * keysB && res.aligned[i].status in {Match, Modified, AddedRow, RemovedRow}))
      && (forall i :: |c| <= i < |c| + |removed| ==>
            (res.aligned[i].key in res.keysOnlyInA && res.aligned[i].status == RemovedKey))
      && (forall i :: |c| + |removed| <= i < |res.aligned| ==>
            (res.aligned[i].key in res.keysOnlyInB && res.aligned[i].status == NewKey))
      && AscendingKeys(c) && AscendingKeys(removed) && AscendingKeys(added)
  {
    var kc := cfg.keyColumns;
    var common, onlyA, onlyB := CommonKeys(na, nb, kc), KeysOnlyIn(na, nb, kc), KeysOnlyIn(nb, na, kc);
    CommonRecordsSpec(common, na, nb, cfg);
    CommonRecordsAscend(common, na, nb, cfg);
    SingleSidedSpec(onlyA, na, kc, FileA);
    SingleSidedSpec(onlyB, nb, kc, FileB);
    SingleSidedAscend(onlyA, na, kc, FileA);
    SingleSidedAscend(onlyB, nb, kc, FileB);
    ThreeBlocks(CommonRecords(common, na, nb, cfg), SingleSidedRecords(onlyA, na, kc, FileA),
                SingleSidedRecords(onlyB, nb, kc, FileB), common, onlyA, onlyB);
  }

  // ---------------------------------------------------------------------------
  // The summary

  /** The summary arithmetic of the outcome on two normalised tables. */
  lemma OutcomeArithmetic(na: Table, nb: Table, cfg: Config)
    requires na.WellFormed() && nb.WellFormed()
    requires HasKeyColumns(na.rows, cfg.keyColumns) && HasKeyColumns(nb.rows, cfg.keyColumns)
    ensures var res := Outcome(na, nb, cfg);
      var s := res.summary;
      && (forall r :: r in res.aligned ==> r.status != HeuristicMatch)
      && s.matchCount + s.modifiedCount + s.addedRowCount + s.removedRowCount
         + s.newKeyCount + s.removedKeyCount == s.totalRowsCompared == |res.aligned|
      && s.keysOnlyInA == |res.keysOnlyInA| && s.keysOnlyInB == |res.keysOnlyInB|
      && s.keysInCommon == res.metadata.totalKeysCompared
      && s.keysInCommon + s.keysOnlyInA == s.totalUniqueKeysA
      && s.keysInCommon + s.keysOnlyInB == s.totalUniqueKeysB
  {
    var res := Outcome(na, nb, cfg);
    var keysA, keysB := UniqueKeys(na.rows, cfg.keyColumns), UniqueKeys(nb.rows, cfg.keyColumns);
    RecordOrdering(na, nb, cfg);
    KeySetsPartition(keysA, keysB);
    forall r | r in res.aligned ensures r.status != HeuristicMatch {
      var i :| 0 <= i < |res.aligned| && res.aligned[i] == r;
    }
  }

  /** No comparison emits HEURISTIC_MATCH, so the six status counts add up to
      the number of records; the key counts agree with the key lists. */
  lemma SummaryArithmetic(a: Table, b: Table, cfg: Config)
    requires a.WellFormed() && b.WellFormed()
    requires CompareSpec(a, b, cfg).Success?
    ensures var res := CompareSpec(a, b, cfg).value;
      var s := res.summary;
      && (forall r :: r in res.aligned ==> r.status != HeuristicMatch)
      && s.matchCount + s.modifiedCount + s.addedRowCount + s.removedRowCount
         + s.newKeyCount + s.removedKeyCount == s.totalRowsCompared == |res.aligned|
      && s.keysOnlyInA == |res.keysOnlyInA| && s.keysOnlyInB == |res.keysOnlyInB|
      && s.keysInCommon == res.metadata.totalKeysCompared
      && s.keysInCommon + s.keysOnlyInA == s.totalUniqueKeysA
      && s.keysInCommon + s.keysOnlyInB == s.totalUniqueKeysB
  {
    var na, nb := NormalizeTable(a, cfg), NormalizeTable(b, cfg);
    NormalizeTableShape(a, cfg);
    NormalizeTableShape(b, cfg);
    KeyColumnsPresent(na, cfg.keyColumns);
    KeyColumnsPresent(nb, cfg.keyColumns);
    OutcomeArithmetic(na, nb, cfg);
  }

  // ---------------------------------------------------------------------------
  // Null keys

  /** A common key with a null cell produces no records: the mask never
      selects a null cell, so both sides fetch nothing. */
  lemma NullKeyGroupIsEmpty(key: Key, na: Table, nb: Table, cfg: Config)
    requires na.WellFormed() && nb.WellFormed()
    requires HasKeyColumns(na.rows, cfg.keyColumns) && HasKeyColumns(nb.rows, cfg.keyColumns)
    requires |key| == |cfg.keyColumns| && Null in key
    ensures KeyGroup(key, na, nb, cfg) == []
  {
    NullKeyFetchesNothing(na.rows, cfg.keyColumns, key);
    NullKeyFetchesNothing(nb.rows, cfg.keyColumns, key);
  }

  // ---------------------------------------------------------------------------
  // Pre-normalised input

  /** Normalising the inputs beforehand changes nothing: the engine normalises
      copies, and normalisation is idempotent. */
  lemma PreNormalizedInputs(a: Table, b: Table, cfg: Config)
    requires a.WellFormed() && b.WellFormed()
    ensures NormalizeTable(a, cfg).WellFormed() && NormalizeTable(b, cfg).WellFormed()
    ensures CompareSpec(NormalizeTable(a, cfg), NormalizeTable(b, cfg), cfg) == CompareSpec(a, b, cfg)
  {
    NormalizeTableShape(a, cfg);
    NormalizeTableShape(b, cfg);
    NormalizeTableIdempotent(a, cfg);
    NormalizeTableIdempotent(b, cfg);
  }

  // ---------------------------------------------------------------------------
  // The empty comparison

  /** `compare` as written agrees with the corrected comparison except on the
      comparisons that pass validation and produce no record: there it fails
      in the summary, where the corrected one returns zero counts. */
  lemma AsWrittenAgreesExceptEmpty(a: Table, b: Table, cfg: Config)
    requires a.WellFormed() && b.WellFormed()
    ensures CompareSpec(a, b, cfg).Failure? ==>
      CompareAsWritten(a, b, cfg) == Failure(ValidationFailed(CompareSpec(a, b, cfg).error))
    ensures CompareSpec(a, b, cfg).Success? ==>
      (CompareAsWritten(a, b, cfg).Failure? <==> CompareSpec(a, b, cfg).value.aligned == [])
    ensures CompareSpec(a, b, cfg).Success? && CompareSpec(a, b, cfg).value.aligned != [] ==>
      CompareAsWritten(a, b, cfg) == Success(CompareSpec(a, b, cfg).value)
    ensures CompareSpec(a, b, cfg).Success? && CompareAsWritten(a, b, cfg).Failure? ==>
      CompareAsWritten(a, b, cfg).error == SummaryFailed(MissingStatusColumn)
  {
  }

  /** Two tables without rows give no records and zero counts, while the
      summary as written fails on them. */
  lemma EmptyTablesGiveNoRecords(a: Table, b: Table, cfg: Config)
    requires a.WellFormed() && b.WellFormed()
    requires a.rows == [] && b.rows == []
    requires forall c :: c in cfg.keyColumns ==> c in a.columns && c in b.columns
    ensures CompareSpec(a, b, cfg).Success?
    ensures CompareSpec(a, b, cfg).value.aligned == []
    ensures CompareSpec(a, b, cfg).value.summary.totalRowsCompared == 0
    ensures SummaryAsWritten(CompareSpec(a, b, cfg).value.aligned, 0, 0, 0).Failure?
    ensures CompareAsWritten(a, b, cfg) == Failure(SummaryFailed(MissingStatusColumn))
  {
    var na, nb := NormalizeTable(a, cfg), NormalizeTable(b, cfg);
    NormalizeTableShape(a, cfg);
    NormalizeTableShape(b, cfg);
    var kc := cfg.keyColumns;
    assert UniqueKeys(na.rows, kc) == {};
    assert UniqueKeys(nb.rows, kc) == {};
    var e: set<Key> := {};
    assert e * e == {} && e - e == {};
    assert SortedKeys({}) == [];
  }

  // ---------------------------------------------------------------------------
  // Which comparisons produce no record

  /** A key group is empty exactly when neither table has a row for the key. */
  lemma KeyGroupEmptyIff(key: Key, na: Table, nb: Table, cfg: Config)
    requires na.WellFormed() && nb.WellFormed()
    requires HasKeyColumns(na.rows, cfg.keyColumns) && HasKeyColumns(nb.rows, cfg.keyColumns)
    requires |key| == |cfg.keyColumns|
    ensures KeyGroup(key, na, nb, cfg) == [] <==>
      RowsForKey(na.rows, cfg.keyColumns, key) == [] && RowsForKey(nb.rows, cfg.keyColumns, key) == []
  {
    var fetchedA := RowsForKey(na.rows, cfg.keyColumns, key);
    var fetchedB := RowsForKey(nb.rows, cfg.keyColumns, key);
    ArrangeKeepsRows(fetchedA, na.columns, cfg);
    ArrangeKeepsRows(fetchedB, nb.columns, cfg);
    var arrangedA, arrangedB := Arrange(fetchedA, na.columns, cfg), Arrange(fetchedB, nb.columns, cfg);
    assert |arrangedA| == |multiset(arrangedA)| == |multiset(fetchedA)| == |fetchedA|;
    assert |arrangedB| == |multiset(arrangedB)| == |multiset(fetchedB)| == |fetchedB|;
    PositionalPairing(key, arrangedA, arrangedB, cfg.keyColumns, na.columns);
  }

  /** Over keys of both tables, the common-key block is empty exactly when
      every key has a null cell. */
  lemma {:induction false} CommonRecordsEmptyIff(keys: seq<Key>, na: Table, nb: Table, cfg: Config)
    requires na.WellFormed() && nb.WellFormed()
    requires HasKeyColumns(na.rows, cfg.keyColumns) && HasKeyColumns(nb.rows, cfg.keyColumns)
    requires KeysFit(keys, cfg.keyColumns)
    requires forall k :: k in keys ==> k in UniqueKeys(na.rows, cfg.keyColumns) && k in UniqueKeys(nb.rows, cfg.keyColumns)
    ensures CommonRecords(keys, na, nb, cfg) == [] <==> forall k :: k in keys ==> Null in k
    decreases |keys|
  {
    if keys != [] {
      var n := |keys| - 1;
      var prev := CommonRecords(keys[..n], na, nb, cfg);
      assert forall k :: k in keys <==> k in keys[..n] || k == keys[n] by {
        assert keys == keys[..n] + [keys[n]];
      }
      CommonRecordsEmptyIff(keys[..n], na, nb, cfg);
      KeyGroupEmptyIff(keys[n], na, nb, cfg);
      TableKeyFetchesNothingIff(na.rows, cfg.keyColumns, keys[n]);
      TableKeyFetchesNothingIff(nb.rows, cfg.keyColumns, keys[n]);
      assert CommonRecords(keys, na, nb, cfg) == prev + KeyGroup(keys[n], na, nb, cfg);
    }
  }

  /** A single-sided block is empty exactly when no key of it fetches a row. */
  lemma {:induction false} SingleSidedEmptyIff(keys: seq<Key>, t: Table, keyColumns: seq<string>, side: File)
    requires t.WellFormed() && HasKeyColumns(t.rows, keyColumns) && KeysFit(keys, keyColumns)
    ensures SingleSidedRecords(keys, t, keyColumns, side) == [] <==>
      forall k :: k in keys ==> RowsForKey(t.rows, keyColumns, k) == []
    decreases |keys|
  {
    if keys != [] {
      var n := |keys| - 1;
      SingleSidedEmptyIff(keys[..n], t, keyColumns, side);
      assert keys == keys[..n] + [keys[n]];
      assert |KeyRows(keys[n], t, keyColumns, side)| == |RowsForKey(t.rows, keyColumns, keys[n])|;
    }
  }

  /** A key of the table fetches no row exactly when one of its cells is null. */
  lemma TableKeyFetchesNothingIff(rows: seq<Row>, keyColumns: seq<string>, key: Key)
    requires HasKeyColumns(rows, keyColumns) && key in UniqueKeys(rows, keyColumns)
    ensures |key| == |keyColumns|
    ensures RowsForKey(rows, keyColumns, key) == [] <==> Null in key
  {
    UniqueKeysMembers(rows, keyColumns);
    if Null in key {
      NullKeyFetchesNothing(rows, keyColumns, key);
    } else {
      KeyOfTableFetchesRows(rows, keyColumns, key);
    }
  }

  /** Every row's key tuple has a null cell. */
  ghost predicate NullInEveryKey(rows: seq<Row>, keyColumns: seq<string>)
    requires HasKeyColumns(rows, keyColumns)
  {
    forall r :: r in rows ==> Null in KeyOf(r, keyColumns)
  }

  /** The keys of a table all have a null cell exactly when every row's key
      tuple has one. */
  lemma NullKeysIffRows(rows: seq<Row>, keyColumns: seq<string>)
    requires HasKeyColumns(rows, keyColumns)
    ensures AllNull(UniqueKeys(rows, keyColumns)) <==> NullInEveryKey(rows, keyColumns)
  {
    if NullInEveryKey(rows, keyColumns) {
      forall k | k in UniqueKeys(rows, keyColumns) ensures Null in k {
        var r :| r in rows && KeyOf(r, keyColumns) == k;
      }
    }
  }

  /** Every key of the set has a null cell. */
  predicate AllNull(keys: set<Key>) {
    forall k :: k in keys ==> Null in k
  }

  /** The common-key block is empty exactly when every common key has a null
      cell. */
  lemma CommonBlockEmptyIff(na: Table, nb: Table, cfg: Config)
    requires na.WellFormed() && nb.WellFormed()
    requires HasKeyColumns(na.rows, cfg.keyColumns) && HasKeyColumns(nb.rows, cfg.keyColumns)
    ensures CommonRecords(CommonKeys(na, nb, cfg.keyColumns), na, nb, cfg) == [] <==>
      AllNull(UniqueKeys(na.rows, cfg.keyColumns) * UniqueKeys(nb.rows, cfg.keyColumns))
  {
    var kc := cfg.keyColumns;
    var common := CommonKeys(na, nb, kc);
    CommonRecordsEmptyIff(common, na, nb, cfg);
  }

  /** The block of the keys of table X missing from table Y is empty exactly
      when each of those keys has a null cell. */
  lemma SingleSidedBlockEmptyIff(nx: Table, ny: Table, keyColumns: seq<string>, side: File)
    requires nx.WellFormed() && HasKeyColumns(nx.rows, keyColumns) && HasKeyColumns(ny.rows, keyColumns)
    ensures SingleSidedRecords(KeysOnlyIn(nx, ny, keyColumns), nx, keyColumns, side) == [] <==>
      AllNull(UniqueKeys(nx.rows, keyColumns) - UniqueKeys(ny.rows, keyColumns))
  {
    var only := KeysOnlyIn(nx, ny, keyColumns);
    SingleSidedEmptyIff(only, nx, keyColumns, side);
    forall k | k in only ensures RowsForKey(nx.rows, keyColumns, k) == [] <==> Null in k {
      TableKeyFetchesNothingIff(nx.rows, keyColumns, k);
    }
  }

  /** Two normalised tables give no record exactly when every key of either
      table has a null cell. */
  lemma NoRecordsIffNullKeys(na: Table, nb: Table, cfg: Config)
    requires na.WellFormed() && nb.WellFormed()
    requires HasKeyColumns(na.rows, cfg.keyColumns) && HasKeyColumns(nb.rows, cfg.keyColumns)
    ensures AlignedRecords(na, nb, cfg) == [] <==>
      AllNull(UniqueKeys(na.rows, cfg.keyColumns) + UniqueKeys(nb.rows, cfg.keyColumns))
  {
    var kc := cfg.keyColumns;
    var keysA, keysB := UniqueKeys(na.rows, kc), UniqueKeys(nb.rows, kc);
    var c := CommonRecords(CommonKeys(na, nb, kc), na, nb, cfg);
    var removed := SingleSidedRecords(KeysOnlyIn(na, nb, kc), na, kc, FileA);
    var added := SingleSidedRecords(KeysOnlyIn(nb, na, kc), nb, kc, FileB);
    assert AlignedRecords(na, nb, cfg) == c + removed + added;
    CommonBlockEmptyIff(na, nb, cfg);
    SingleSidedBlockEmptyIff(na, nb, kc, FileA);
    SingleSidedBlockEmptyIff(nb, na, kc, FileB);
    assert |c + removed + added| == |c| + |removed| + |added|;
    AllNullSplit(keysA, keysB);
  }

  /** Every key of either set has a null cell exactly when every common key,
      every key only in the first and every key only in the second has one. */
  lemma AllNullSplit(keysA: set<Key>, keysB: set<Key>)
    ensures AllNull(keysA + keysB) <==> AllNull(keysA * keysB) && AllNull(keysA - keysB) && AllNull(keysB - keysA)
  {
    assert keysA + keysB == (keysA * keysB) + (keysA - keysB) + (keysB - keysA);
  }

  /** Two normalised tables give no record exactly when every row of both has a
      null key cell: every other row is fetched by its own key. */
  lemma NoRecordsIff(na: Table, nb: Table, cfg: Config)
    requires na.WellFormed() && nb.WellFormed()
    requires HasKeyColumns(na.rows, cfg.keyColumns) && HasKeyColumns(nb.rows, cfg.keyColumns)
    ensures AlignedRecords(na, nb, cfg) == [] <==>
      NullInEveryKey(na.rows, cfg.keyColumns) && NullInEveryKey(nb.rows, cfg.keyColumns)
  {
    NoRecordsIffNullKeys(na, nb, cfg);
    NullKeysIffRows(na.rows, cfg.keyColumns);
    NullKeysIffRows(nb.rows, cfg.keyColumns);
  }

  /** Every row has a null cell in some key column. */
  predicate NullKeyCellInEveryRow(t: Table, keyColumns: seq<string>) {
    forall r: Row :: r in t.rows ==> exists c :: c in keyColumns && c in r && r[c].Null?
  }

  /** A row's key tuple has a null cell exactly when one of its key columns
      holds null. */
  lemma NullInKeyOf(r: Row, keyColumns: seq<string>)
    requires forall c :: c in keyColumns ==> c in r
    ensures Null in KeyOf(r, keyColumns) <==> exists c :: c in keyColumns && r[c].Null?
  {
    var k := KeyOf(r, keyColumns);
    if Null in k {
      var j :| 0 <= j < |k| && k[j] == Null;
      assert keyColumns[j] in keyColumns && r[keyColumns[j]].Null?;
    }
    if c :| c in keyColumns && r[c].Null? {
      var j :| 0 <= j < |keyColumns| && keyColumns[j] == c;
      assert k[j] == Null;
    }
  }

  /** `compare` as written fails exactly when a key column is missing, or when
      every row of both tables has a null key cell (two tables without rows
      among them); it then raises where the corrected comparison returns an
      empty result with zero counts. */
  lemma AsWrittenFailsIff(a: Table, b: Table, cfg: Config)
    requires a.WellFormed() && b.WellFormed()
    ensures CompareAsWritten(a, b, cfg).Failure? <==>
      CompareSpec(a, b, cfg).Failure? ||
      (NullKeyCellInEveryRow(a, cfg.keyColumns) && NullKeyCellInEveryRow(b, cfg.keyColumns))
  {
    AsWrittenAgreesExceptEmpty(a, b, cfg);
    var kc := cfg.keyColumns;
    if Validate(kc, a.columns, b.columns).None? {
      var na, nb := NormalizeTable(a, cfg), NormalizeTable(b, cfg);
      NormalizeTableShape(a, cfg);
      NormalizeTableShape(b, cfg);
      KeyColumnsPresent(na, kc);
      KeyColumnsPresent(nb, kc);
      NoRecordsIff(na, nb, cfg);
      NullsKept(a, na, cfg);
      NullsKept(b, nb, cfg);
    }
  }

  /** Normalisation neither creates nor removes a null key cell. */
  lemma NullsKept(t: Table, n: Table, cfg: Config)
    requires t.WellFormed() && n == NormalizeTable(t, cfg)
    requires forall c :: c in cfg.keyColumns ==> c in t.columns
    ensures HasKeyColumns(n.rows, cfg.keyColumns)
    ensures NullInEveryKey(n.rows, cfg.keyColumns) <==> NullKeyCellInEveryRow(t, cfg.keyColumns)
  {
    var kc := cfg.keyColumns;
    NormalizeTableShape(t, cfg);
    KeyColumnsPresent(n, kc);
    forall i | 0 <= i < |t.rows|
      ensures Null in KeyOf(n.rows[i], kc) <==> exists c :: c in kc && c in t.rows[i] && t.rows[i][c].Null?
    {
      assert t.rows[i] in t.rows && n.rows[i] in n.rows;
      NullInKeyOf(n.rows[i], kc);
    }
    if NullInEveryKey(n.rows, kc) {
      forall r: Row | r in t.rows ensures exists c :: c in kc && c in r && r[c].Null? {
        var i :| 0 <= i < |t.rows| && t.rows[i] == r;
        assert n.rows[i] in n.rows;
      }
    }
    if NullKeyCellInEveryRow(t, kc) {
      forall r | r in n.rows ensures Null in KeyOf(r, kc) {
        var i :| 0 <= i < |n.rows| && n.rows[i] == r;
        assert t.rows[i] in t.rows;
      }
    }
  }
}
