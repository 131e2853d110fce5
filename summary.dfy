/**
 The summary statistics of a comparison: key-set sizes and the number of
 aligned records of each status.
 */
module Summary {
  import opened Wrappers
  import opened Types
  import opened Alignment

  /** The summary dictionary of a comparison result. */
  datatype Summary = Summary(
    totalUniqueKeysA: int,
    totalUniqueKeysB: int,
    keysInCommon: int,
    keysOnlyInA: int,
    keysOnlyInB: int,
    totalRowsCompared: nat,
    matchCount: nat,
    modifiedCount: nat,
    addedRowCount: nat,
    removedRowCount: nat,
    newKeyCount: nat,
    removedKeyCount: nat)

  /** The number of records with status `st` (`value_counts().get(st, 0)`). */
  function CountStatus(records: seq<AlignedRecord>, st: RowStatus): (n: nat)
    ensures n <= |records|
    ensures n == 0 <==> forall r :: r in records ==> r.status != st
    decreases |records|
  {
    if records == [] then 0
    else
      var k := |records| - 1;
      assert forall r :: r in records ==> r in records[..k] || r == records[k];
      CountStatus(records[..k], st) + (if records[k].status == st then 1 else 0)
  }

  /** Counting distributes over concatenation of record lists. */
  lemma {:induction false} CountStatusAppend(xs: seq<AlignedRecord>, ys: seq<AlignedRecord>, st: RowStatus)
    ensures CountStatus(xs + ys, st) == CountStatus(xs, st) + CountStatus(ys, st)
    decreases |ys|
  {
    if ys != [] {
      var k := |ys| - 1;
      assert (xs + ys)[..|xs + ys| - 1] == xs + ys[..k];
      assert (xs + ys)[|xs + ys| - 1] == ys[k];
      CountStatusAppend(xs, ys[..k], st);
    } else {
      assert xs + ys == xs;
    }
  }

  /** The seven statuses partition the records. */
  lemma {:induction false} CountsSumToTotal(records: seq<AlignedRecord>)
    ensures CountStatus(records, Match) + CountStatus(records, Modified)
          + CountStatus(records, AddedRow) + CountStatus(records, RemovedRow)
          + CountStatus(records, NewKey) + CountStatus(records, RemovedKey)
          + CountStatus(records, HeuristicMatch) == |records|
    decreases |records|
  {
    if records != [] {
      CountsSumToTotal(records[..|records| - 1]);
    }
  }

  /** `_generate_summary`, defined on every record list; an empty list gives
      zero counts. */
  function GenerateSummary(records: seq<AlignedRecord>, totalKeysA: nat, totalKeysB: nat, keysCommon: nat)
    : (s: Summary)
    ensures s.keysOnlyInA == totalKeysA - keysCommon && s.keysOnlyInB == totalKeysB - keysCommon
    ensures s.totalRowsCompared == |records|
    ensures (forall r :: r in records ==> r.status != HeuristicMatch) ==>
      s.matchCount + s.modifiedCount + s.addedRowCount + s.removedRowCount
        + s.newKeyCount + s.removedKeyCount == s.totalRowsCompared
    ensures records == [] ==>
      s.matchCount == s.modifiedCount == s.addedRowCount == s.removedRowCount == s.newKeyCount == s.removedKeyCount == 0
  {
    CountsSumToTotal(records);
    Summary(
      totalKeysA, totalKeysB, keysCommon,
      totalKeysA - keysCommon, totalKeysB - keysCommon,
      |records|,
      CountStatus(records, Match), CountStatus(records, Modified),
      CountStatus(records, AddedRow), CountStatus(records, RemovedRow),
      CountStatus(records, NewKey), CountStatus(records, RemovedKey))
  }

  /** The failure `_generate_summary` meets on an empty record list: a frame
      built from no records has no `status` column. */
  datatype SummaryError = MissingStatusColumn

  /** `_generate_summary` as written: indexing the `status` column of the
      aligned frame fails when no record was produced. */
  function SummaryAsWritten(records: seq<AlignedRecord>, totalKeysA: nat, totalKeysB: nat, keysCommon: nat)
    : Result<Summary, SummaryError>
  {
    if records == [] then Failure(MissingStatusColumn)
    else Success(GenerateSummary(records, totalKeysA, totalKeysB, keysCommon))
  }
}
