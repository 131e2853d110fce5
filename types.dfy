/** Option and Result, used for the engine's error path. */
module Wrappers {
  datatype Option<T> = None | Some(value: T)

  datatype Result<T, E> = Success(value: T) | Failure(error: E)
}

/**
 The data model of the comparison engine: cell values, rows, tables, the
 configuration, the row statuses and the key-column error.
 */
module Types {
  import opened Wrappers

  /** A cell of a table. Numbers are integers; `Null` is pandas' NaN/None. */
  datatype Value = Str(s: string) | Int(i: int) | Bool(b: bool) | Null

  /** A row maps each column name of its table to a cell. */
  type Row = map<string, Value>

  /** A key is one cell value per key column, in key-column order. */
  type Key = seq<Value>

  /** Every row has exactly the given columns. */
  ghost predicate RowsHaveColumns(rows: seq<Row>, columns: seq<string>) {
    forall r :: r in rows ==> r.Keys == set c | c in columns
  }

  /** A table: its columns in insertion order and its rows in order. */
  datatype Table = Table(columns: seq<string>, rows: seq<Row>) {
    /** Column names are distinct and every row has exactly the table's columns. */
    ghost predicate WellFormed() {
      && (forall i, j :: 0 <= i < j < |columns| ==> columns[i] != columns[j])
      && RowsHaveColumns(rows, columns)
    }
  }

  /** The status of one aligned output record. */
  datatype RowStatus =
    | Match
    | Modified
    | AddedRow
    | RemovedRow
    | NewKey
    | RemovedKey
    | HeuristicMatch

  /** How rows sharing a key are paired. `BestMatch` pairs by position, as `Position` does. */
  datatype AlignmentMethod = Position | SecondarySort | BestMatch

  datatype Config = Config(
    keyColumns: seq<string>,
    alignment: AlignmentMethod,
    secondarySortColumn: Option<string>,
    caseSensitive: bool,
    trimWhitespace: bool,
    compareFormulas: bool)

  /** The configuration a caller gets by naming only the key columns. */
  function DefaultConfig(keyColumns: seq<string>): Config {
    Config(keyColumns, Position, None, false, true, false)
  }

  datatype File = FileA | FileB

  /** The KeyError raised when a key column is missing from one of the tables. */
  datatype KeyError = MissingKeyColumn(column: string, file: File)
}
