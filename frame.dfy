/**
 * The pool table: an ordered list of rows, each with an index value and one
 * cell per column. A cell may be empty (a missing value in the table).
 */
module Frame {

  import opened Wrappers
  import opened Seqs

  /** One row: its index value and its non-empty cells keyed by column name. */
  datatype Row = Row(id: string, cells: map<string, string>)

  /** The column names in order and the rows in order. */
  datatype DataFrame = DataFrame(columns: seq<string>, rows: seq<Row>)

  /** The cell of row `i` in column `c`: `None` when it is empty or the table has no such column. */
  function Cell(f: DataFrame, i: nat, c: string): Option<string>
    requires i < |f.rows|
  {
    if c in f.columns && c in f.rows[i].cells then Some(f.rows[i].cells[c]) else None
  }

  /** The cells of column `c`, top to bottom. */
  function Column(f: DataFrame, c: string): (r: seq<Option<string>>)
    ensures |r| == |f.rows|
  {
    seq(|f.rows|, i requires 0 <= i < |f.rows| => Cell(f, i, c))
  }

  /** `c` is a column of `f` and none of its cells is empty. */
  predicate Complete(f: DataFrame, c: string) {
    c in f.columns && forall i :: 0 <= i < |f.rows| ==> Cell(f, i, c).Some?
  }

  /** The values of a complete column, top to bottom. */
  function Values(f: DataFrame, c: string): (r: seq<string>)
    requires Complete(f, c)
    ensures |r| == |f.rows|
    ensures forall i :: 0 <= i < |f.rows| ==> Cell(f, i, c) == Some(r[i])
  {
    seq(|f.rows|, i requires 0 <= i < |f.rows| && Complete(f, c) => Cell(f, i, c).value)
  }

  function Remove(s: seq<string>, x: string): (r: seq<string>)
    ensures forall y :: y in r <==> y in s && y != x
  {
    if s == [] then []
    else if s[0] == x then Remove(s[1..], x)
    else [s[0]] + Remove(s[1..], x)
  }

  /** The table without column `c`; every other column keeps its cells. */
  function DropColumn(f: DataFrame, c: string): (r: DataFrame)
    ensures r.rows == f.rows
    ensures forall d :: d in r.columns <==> d in f.columns && d != c
  {
    DataFrame(Remove(f.columns, c), f.rows)
  }

  /** The index values of the rows, top to bottom. */
  function Index(f: DataFrame): (r: seq<string>)
    ensures |r| == |f.rows|
  {
    seq(|f.rows|, i requires 0 <= i < |f.rows| => f.rows[i].id)
  }
}
