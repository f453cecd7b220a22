/** The in-memory table the pipeline works on: a header of column names and
    rows of cells, the subject ID in column 0. */
module Tables {
  import opened Strings
  import opened Sorting

  /** One value of a data frame: NaN, a string, or a number. */
  datatype Cell = Missing | Str(text: string) | Num(value: real)

  /** A row: the subject ID (column 0) and the cells of columns 1..n-1. */
  datatype Row = Row(id: string, values: seq<Cell>)

  datatype Table = Table(header: seq<string>, rows: seq<Row>)

  /** There is an ID column, and every row has one cell per other column. */
  predicate WellFormed(t: Table)
  {
    |t.header| >= 1 && forall r | r in t.rows :: |r.values| == |t.header| - 1
  }

  function RowId(r: Row): string
  {
    r.id
  }

  /** The subject-ID column as a list, df[col_names[0]].to_list(). */
  function Ids(rows: seq<Row>): (ids: seq<string>)
    ensures |ids| == |rows|
    ensures forall k | 0 <= k < |rows| :: ids[k] == rows[k].id
  {
    seq(|rows|, k requires 0 <= k < |rows| => rows[k].id)
  }

  function IdSet(rows: seq<Row>): set<string>
  {
    set r | r in rows :: r.id
  }

  /** The cell in column `c` of the full row (column 0 is the ID). */
  function CellAt(r: Row, c: nat): Cell
    requires c <= |r.values|
  {
    if c == 0 then Str(r.id) else r.values[c - 1]
  }

  /** The table mk_df returns: its rows sorted ascending by subject ID.
      pandas' quicksort is not stable, so only "sorted by ID and a
      permutation of the loaded rows" is claimed; the insertion sort below
      is one arrangement that meets it. */
  function LoadSorted(t: Table): (r: Table)
    ensures r.header == t.header
    ensures SortedBy(r.rows, RowId)
    ensures multiset(r.rows) == multiset(t.rows)
    ensures WellFormed(t) ==> WellFormed(r)
  {
    var rows := SortBy(t.rows, RowId);
    assert forall x | x in rows :: x in t.rows by {
      forall x | x in rows
        ensures x in t.rows
      {
        assert x in multiset(rows);
      }
    }
    Table(t.header, rows)
  }
}
