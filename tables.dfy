/** The abstract data frame shared by all pipelines: an ordered list of
    column names and a sequence of rows, each row a map from column name to
    a cell. A cell is `None` where pandas holds NaN/null. */
module Tables {
  import opened Wrappers

  datatype Date = Date(year: int, month: int, day: int)

  /** What a cell can hold: text as read from CSV/TSV, a number, or a
      timestamp produced by date parsing. */
  datatype Value = Text(s: string) | Number(n: int) | Stamp(date: Date)

  type Cell = Option<Value>

  type Row = map<string, Cell>

  datatype Table = Table(columns: seq<string>, rows: seq<Row>)

  /** pd.DataFrame(): no columns and no rows. */
  const EMPTY_FRAME: Table := Table([], [])

  predicate Distinct<T(==)>(s: seq<T>) {
    forall i, j :: 0 <= i < j < |s| ==> s[i] != s[j]
  }

  function ColumnSet(cols: seq<string>): set<string> {
    set c | c in cols
  }

  /** Every data frame has distinct column labels and a value (possibly
      NaN) for each of them in every row. */
  predicate WellFormed(t: Table) {
    Distinct(t.columns) && forall i :: 0 <= i < |t.rows| ==> t.rows[i].Keys == ColumnSet(t.columns)
  }

  /** row[c], with NaN for a column the row does not have. */
  function Get(r: Row, c: string): Cell {
    if c in r then r[c] else None
  }

  /** DataFrame.empty: true when either axis has length zero. */
  predicate IsEmpty(t: Table) {
    |t.rows| == 0 || |t.columns| == 0
  }

  /** The column list after `df[c] = ...`: an existing column keeps its
      position, a new one is appended at the end. */
  function WithColumnName(cols: seq<string>, c: string): (r: seq<string>)
    ensures c in r && ColumnSet(r) == ColumnSet(cols) + {c}
    ensures |r| == if c in cols then |cols| else |cols| + 1
    ensures r[..|cols|] == cols
    ensures Distinct(cols) ==> Distinct(r)
  {
    if c in cols then cols else cols + [c]
  }

  /** `df[c] = v` for a scalar v. */
  function WithConstColumn(t: Table, c: string, v: Cell): Table {
    Table(WithColumnName(t.columns, c), seq(|t.rows|, i requires 0 <= i < |t.rows| => t.rows[i][c := v]))
  }

  /** After `df[c] = v` the frame has column c, existing columns keep their
      positions, no other column is added, every row holds v in c and keeps
      every other cell, and the frame stays well formed. */
  lemma WithConstColumnSets(t: Table, c: string, v: Cell)
    ensures var r := WithConstColumn(t, c, v);
      && c in r.columns
      && r.columns[..|t.columns|] == t.columns
      && ColumnSet(r.columns) == ColumnSet(t.columns) + {c}
      && |r.columns| == (if c in t.columns then |t.columns| else |t.columns| + 1)
      && |r.rows| == |t.rows|
      && (forall i :: 0 <= i < |r.rows| ==> Get(r.rows[i], c) == v)
      && (forall i, d :: 0 <= i < |r.rows| && d != c ==> Get(r.rows[i], d) == Get(t.rows[i], d))
      && (WellFormed(t) ==> WellFormed(r))
  {
  }

  /** Number of rows over a sequence of tables. */
  function TotalRows(ts: seq<Table>): nat {
    if ts == [] then 0 else TotalRows(ts[..|ts| - 1]) + |ts[|ts| - 1].rows|
  }

  lemma {:induction false} TotalRowsAppend(ts: seq<Table>, us: seq<Table>)
    ensures TotalRows(ts + us) == TotalRows(ts) + TotalRows(us)
    decreases |us|
  {
    if us == [] {
      assert ts + us == ts;
    } else {
      assert (ts + us)[..|ts + us| - 1] == ts + us[..|us| - 1];
      TotalRowsAppend(ts, us[..|us| - 1]);
    }
  }
}
