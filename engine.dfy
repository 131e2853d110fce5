/**
 The comparison itself: validation, normalisation of copies of both tables,
 the key-set split, then the aligned records of the common keys, of the keys
 only in table A and of the keys only in table B, each block in ascending key
 order, and the summary.
 */
module Engine {
  import opened Wrappers
  import opened Types
  import opened Order
  import opened Normalization
  import opened Keys
  import opened Alignment
  import opened Summary

  /** The `comparison_metadata` of a result. */
  datatype Metadata = Metadata(config: Config, totalKeysCompared: nat, totalRowsA: nat, totalRowsB: nat)

  /** `ComparisonResult`. */
  datatype ComparisonResult = ComparisonResult(
    summary: Summary,
    aligned: seq<AlignedRecord>,
    keysOnlyInA: seq<Key>,
    keysOnlyInB: seq<Key>,
    metadata: Metadata)

  /** Every key has one cell per key column. */
  predicate KeysFit(keys: seq<Key>, keyColumns: seq<string>) {
    forall k :: k in keys ==> |k| == |keyColumns|
  }

  /** Once validation has passed, every row carries every key column. */
  lemma KeyColumnsPresent(t: Table, keyColumns: seq<string>)
    requires t.WellFormed()
    requires forall c :: c in keyColumns ==> c in t.columns
    ensures HasKeyColumns(t.rows, keyColumns)
  {
  }

  // ---------------------------------------------------------------------------
  // The three blocks of aligned records

  /** The records of the common keys, one key group after another. */
  function CommonRecords(keys: seq<Key>, na: Table, nb: Table, cfg: Config): seq<AlignedRecord>
    requires na.WellFormed() && nb.WellFormed()
    requires HasKeyColumns(na.rows, cfg.keyColumns) && HasKeyColumns(nb.rows, cfg.keyColumns)
    requires KeysFit(keys, cfg.keyColumns)
    decreases |keys|
  {
    if keys == [] then []
    else
      var n := |keys| - 1;
      CommonRecords(keys[..n], na, nb, cfg) + KeyGroup(keys[n], na, nb, cfg)
  }

  /** The record of a row whose key is in one table only: REMOVED_KEY with the
      row on the A side, or NEW_KEY with the row on the B side. */
  function SideRecord(key: Key, row: Row, side: File, keyColumns: seq<string>, columns: seq<string>): AlignedRecord
    requires row.Keys == set c | c in columns
  {
    if side == FileA then RecordOf(key, Some(row), None, RemovedKey, keyColumns, columns)
    else RecordOf(key, None, Some(row), NewKey, keyColumns, columns)
  }

  /** The records of one single-sided key: one per row carrying it. */
  function KeyRows(key: Key, t: Table, keyColumns: seq<string>, side: File): (recs: seq<AlignedRecord>)
    requires t.WellFormed() && HasKeyColumns(t.rows, keyColumns) && |key| == |keyColumns|
    ensures |recs| == |RowsForKey(t.rows, keyColumns, key)|
    ensures forall r :: r in recs ==> r.key == key && r.changed.None?
  {
    var rows := RowsForKey(t.rows, keyColumns, key);
    seq(|rows|, j requires 0 <= j < |rows| => SideRecord(key, rows[j], side, keyColumns, t.columns))
  }

  /** The records of the single-sided keys, one key after another. */
  function SingleSidedRecords(keys: seq<Key>, t: Table, keyColumns: seq<string>, side: File): seq<AlignedRecord>
    requires t.WellFormed() && HasKeyColumns(t.rows, keyColumns) && KeysFit(keys, keyColumns)
    decreases |keys|
  {
    if keys == [] then []
    else
      var n := |keys| - 1;
      SingleSidedRecords(keys[..n], t, keyColumns, side) + KeyRows(keys[n], t, keyColumns, side)
  }

  // ---------------------------------------------------------------------------
  // The specification of compare

  /** `sorted(keys_x - keys_y)`: the keys of table X missing from table Y, in
      ascending order. */
  ghost function KeysOnlyIn(nx: Table, ny: Table, keyColumns: seq<string>): (ks: seq<Key>)
    requires HasKeyColumns(nx.rows, keyColumns) && HasKeyColumns(ny.rows, keyColumns)
    ensures KeysFit(ks, keyColumns) && StrictlySorted(ks)
    ensures forall k :: k in ks <==> k in UniqueKeys(nx.rows, keyColumns) && k !in UniqueKeys(ny.rows, keyColumns)
    ensures |ks| == |UniqueKeys(nx.rows, keyColumns) - UniqueKeys(ny.rows, keyColumns)|
  {
    UniqueKeysMembers(nx.rows, keyColumns);
    SortedKeysSpec(UniqueKeys(nx.rows, keyColumns) - UniqueKeys(ny.rows, keyColumns));
    SortedKeys(UniqueKeys(nx.rows, keyColumns) - UniqueKeys(ny.rows, keyColumns))
  }

  /** `sorted(keys_common)`: the keys of both tables, in ascending order. */
  ghost function CommonKeys(na: Table, nb: Table, keyColumns: seq<string>): (ks: seq<Key>)
    requires HasKeyColumns(na.rows, keyColumns) && HasKeyColumns(nb.rows, keyColumns)
    ensures KeysFit(ks, keyColumns) && StrictlySorted(ks)
    ensures forall k :: k in ks <==> k in UniqueKeys(na.rows, keyColumns) && k in UniqueKeys(nb.rows, keyColumns)
  {
    UniqueKeysMembers(na.rows, keyColumns);
    SortedKeysSpec(UniqueKeys(na.rows, keyColumns) * UniqueKeys(nb.rows, keyColumns));
    SortedKeys(UniqueKeys(na.rows, keyColumns) * UniqueKeys(nb.rows, keyColumns))
  }

  /** The aligned records of two normalised tables: the common keys' groups,
      then the REMOVED_KEY rows, then the NEW_KEY rows. */
  ghost function AlignedRecords(na: Table, nb: Table, cfg: Config): seq<AlignedRecord>
    requires na.WellFormed() && nb.WellFormed()
    requires HasKeyColumns(na.rows, cfg.keyColumns) && HasKeyColumns(nb.rows, cfg.keyColumns)
  {
    CommonRecords(CommonKeys(na, nb, cfg.keyColumns), na, nb, cfg)
      + SingleSidedRecords(KeysOnlyIn(na, nb, cfg.keyColumns), na, cfg.keyColumns, FileA)
      + SingleSidedRecords(KeysOnlyIn(nb, na, cfg.keyColumns), nb, cfg.keyColumns, FileB)
  }

  /** The result of comparing two normalised tables whose key columns exist. */
  ghost function Outcome(na: Table, nb: Table, cfg: Config): (res: ComparisonResult)
    requires na.WellFormed() && nb.WellFormed()
    requires HasKeyColumns(na.rows, cfg.keyColumns) && HasKeyColumns(nb.rows, cfg.keyColumns)
    ensures res.summary.totalRowsCompared == |res.aligned|
    ensures res.summary.keysInCommon == res.metadata.totalKeysCompared
    ensures StrictlySorted(res.keysOnlyInA) && StrictlySorted(res.keysOnlyInB)
  {
    var keysA, keysB := UniqueKeys(na.rows, cfg.keyColumns), UniqueKeys(nb.rows, cfg.keyColumns);
    var aligned := AlignedRecords(na, nb, cfg);
    ComparisonResult(
      GenerateSummary(aligned, |keysA|, |keysB|, |keysA * keysB|),
      aligned, KeysOnlyIn(na, nb, cfg.keyColumns), KeysOnlyIn(nb, na, cfg.keyColumns),
      Metadata(cfg, |keysA * keysB|, |na.rows|, |nb.rows|))
  }

  /** `compare`: the key-column error, or the outcome on normalised copies. */
  ghost function CompareSpec(a: Table, b: Table, cfg: Config): (r: Result<ComparisonResult, KeyError>)
    requires a.WellFormed() && b.WellFormed()
    ensures r.Failure? <==> exists c :: c in cfg.keyColumns && (c !in a.columns || c !in b.columns)
  {
    var err := Validate(cfg.keyColumns, a.columns, b.columns);
    if err.Some? then Failure(err.value)
    else
      var na, nb := NormalizeTable(a, cfg), NormalizeTable(b, cfg);
      NormalizeTableShape(a, cfg);
      NormalizeTableShape(b, cfg);
      KeyColumnsPresent(na, cfg.keyColumns);
      KeyColumnsPresent(nb, cfg.keyColumns);
      Success(Outcome(na, nb, cfg))
  }

  /** Why `compare` as written can fail: a missing key column, or the summary
      of an empty record list. */
  datatype CompareError = ValidationFailed(cause: KeyError) | SummaryFailed(reason: SummaryError)

  /** `compare` as written: the summary is taken of the aligned frame, which has
      no `status` column when no record was produced, so such a comparison
      never returns a result. */
  ghost function CompareAsWritten(a: Table, b: Table, cfg: Config): (r: Result<ComparisonResult, CompareError>)
    requires a.WellFormed() && b.WellFormed()
    ensures r.Success? ==> r.value.aligned != []
  {
    var err := Validate(cfg.keyColumns, a.columns, b.columns);
    if err.Some? then Failure(ValidationFailed(err.value))
    else
      var na, nb := NormalizeTable(a, cfg), NormalizeTable(b, cfg);
      NormalizeTableShape(a, cfg);
      NormalizeTableShape(b, cfg);
      KeyColumnsPresent(na, cfg.keyColumns);
      KeyColumnsPresent(nb, cfg.keyColumns);
      var keysA, keysB := UniqueKeys(na.rows, cfg.keyColumns), UniqueKeys(nb.rows, cfg.keyColumns);
      var aligned := AlignedRecords(na, nb, cfg);
      match SummaryAsWritten(aligned, |keysA|, |keysB|, |keysA * keysB|)
      case Failure(e) => Failure(SummaryFailed(e))
      case Success(summary) =>
        Success(ComparisonResult(
          summary, aligned, KeysOnlyIn(na, nb, cfg.keyColumns), KeysOnlyIn(nb, na, cfg.keyColumns),
          Metadata(cfg, |keysA * keysB|, |na.rows|, |nb.rows|)))
  }

  // ---------------------------------------------------------------------------
  // The imperative engine

  /** The inner loop over the rows fetched for one single-sided key. */
  method EmitKeyRows(key: Key, t: Table, keyColumns: seq<string>, side: File) returns (block: seq<AlignedRecord>)
    requires t.WellFormed() && HasKeyColumns(t.rows, keyColumns) && |key| == |keyColumns|
    ensures block == KeyRows(key, t, keyColumns, side)
  {
    ghost var spec := KeyRows(key, t, keyColumns, side);
    var rows := RowsForKey(t.rows, keyColumns, key);
    block := [];
    for j := 0 to |rows|
      invariant block == spec[..j]
    {
      assert rows[j] in rows;
      var rec;
      if side == FileA {
        rec := CreateAlignedRow(key, Some(rows[j]), None, RemovedKey, keyColumns, t.columns, t.columns);
      } else {
        rec := CreateAlignedRow(key, None, Some(rows[j]), NewKey, keyColumns, t.columns, t.columns);
      }
      block := block + [rec];
    }
    assert spec[..|rows|] == spec;
  }

  /** One more key extends the single-sided records by that key's block. */
  lemma SingleSidedStep(aligned: seq<AlignedRecord>, keys: seq<Key>, i: nat, t: Table, keyColumns: seq<string>, side: File)
    requires t.WellFormed() && HasKeyColumns(t.rows, keyColumns) && KeysFit(keys, keyColumns)
    requires i < |keys|
    ensures aligned + SingleSidedRecords(keys[..i + 1], t, keyColumns, side)
         == aligned + SingleSidedRecords(keys[..i], t, keyColumns, side) + KeyRows(keys[i], t, keyColumns, side)
  {
    assert keys[..i + 1][..i] == keys[..i];
  }

  /** The loop over the sorted single-sided keys of `compare`: appends one
      record per fetched row. */
  method AppendSingleSided(aligned: seq<AlignedRecord>, keys: seq<Key>, t: Table, keyColumns: seq<string>, side: File)
    returns (out: seq<AlignedRecord>)
    requires t.WellFormed() && HasKeyColumns(t.rows, keyColumns) && KeysFit(keys, keyColumns)
    ensures out == aligned + SingleSidedRecords(keys, t, keyColumns, side)
  {
    out := aligned;
    for i := 0 to |keys|
      invariant out == aligned + SingleSidedRecords(keys[..i], t, keyColumns, side)
    {
      var block := EmitKeyRows(keys[i], t, keyColumns, side);
      SingleSidedStep(aligned, keys, i, t, keyColumns, side);
      out := out + block;
    }
    assert keys[..|keys|] == keys;
  }

  /** The loop over the sorted common keys of `compare`. */
  method AppendCommon(keys: seq<Key>, na: Table, nb: Table, cfg: Config) returns (aligned: seq<AlignedRecord>)
    requires na.WellFormed() && nb.WellFormed()
    requires HasKeyColumns(na.rows, cfg.keyColumns) && HasKeyColumns(nb.rows, cfg.keyColumns)
    requires KeysFit(keys, cfg.keyColumns)
    ensures aligned == CommonRecords(keys, na, nb, cfg)
  {
    aligned := [];
    for i := 0 to |keys|
      invariant aligned == CommonRecords(keys[..i], na, nb, cfg)
    {
      assert keys[..i + 1][..i] == keys[..i];
      var group := CompareKeyGroup(keys[i], na, nb, cfg);
      aligned := aligned + group;
    }
    assert keys[..|keys|] == keys;
  }

  /** The body of `compare` after validation and normalisation. */
  method CompareNormalized(na: Table, nb: Table, cfg: Config) returns (res: ComparisonResult)
    requires na.WellFormed() && nb.WellFormed()
    requires HasKeyColumns(na.rows, cfg.keyColumns) && HasKeyColumns(nb.rows, cfg.keyColumns)
    ensures res == Outcome(na, nb, cfg)
  {
    var kc := cfg.keyColumns;
    var keysA := UniqueKeys(na.rows, kc);
    var keysB := UniqueKeys(nb.rows, kc);
    UniqueKeysMembers(na.rows, kc);
    UniqueKeysMembers(nb.rows, kc);
    var common := SortKeys(keysA * keysB);
    var onlyA := SortKeys(keysA - keysB);
    var onlyB := SortKeys(keysB - keysA);
    assert common == CommonKeys(na, nb, kc);
    assert onlyA == KeysOnlyIn(na, nb, kc) && onlyB == KeysOnlyIn(nb, na, kc);
    var aligned := AppendCommon(common, na, nb, cfg);
    aligned := AppendSingleSided(aligned, onlyA, na, kc, FileA);
    aligned := AppendSingleSided(aligned, onlyB, nb, kc, FileB);
    var summary := GenerateSummary(aligned, |keysA|, |keysB|, |keysA * keysB|);
    res := ComparisonResult(summary, aligned, onlyA, onlyB,
                            Metadata(cfg, |keysA * keysB|, |na.rows|, |nb.rows|));
  }

  /** `compare`: validates the key columns, normalises copies of both tables
      (the caller's tables are values and stay as they are), then compares. */
  method Compare(a: Table, b: Table, cfg: Config) returns (r: Result<ComparisonResult, KeyError>)
    requires a.WellFormed() && b.WellFormed()
    ensures r == CompareSpec(a, b, cfg)
    ensures r.Failure? <==> exists c :: c in cfg.keyColumns && (c !in a.columns || c !in b.columns)
    ensures r.Failure? ==> r.error.column in cfg.keyColumns
  {
    var err := Validate(cfg.keyColumns, a.columns, b.columns);
    if err.Some? {
      return Failure(err.value);
    }
    var fa := new Frame.Copy(a);
    fa.Normalize(cfg);
    var fb := new Frame.Copy(b);
    fb.Normalize(cfg);
    var na, nb := Table(fa.columns, fa.rows), Table(fb.columns, fb.rows);
    NormalizeTableShape(a, cfg);
    NormalizeTableShape(b, cfg);
    assert na == NormalizeTable(a, cfg) && nb == NormalizeTable(b, cfg);
    KeyColumnsPresent(na, cfg.keyColumns);
    KeyColumnsPresent(nb, cfg.keyColumns);
    var res := CompareNormalized(na, nb, cfg);
    r := Success(res);
  }
}
