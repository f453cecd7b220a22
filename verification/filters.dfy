/** The row and column filters: rm_sub, subs_retain and keep_columns. */
module Filters {
  import opened Results
  import opened Sorting
  import opened Tables

  /** The rows whose ID is not in `drop`, in their original order. */
  function KeepRows(rows: seq<Row>, drop: set<string>): (r: seq<Row>)
    ensures forall row :: multiset(r)[row] == if row.id in drop then 0 else multiset(rows)[row]
    ensures forall row | row in r :: row in rows && row.id !in drop
    ensures forall row | row in rows && row.id !in drop :: row in r
    ensures |r| <= |rows|
  {
    if |rows| == 0 then []
    else
      var rest := KeepRows(rows[1..], drop);
      assert rows == [rows[0]] + rows[1..];
      if rows[0].id in drop then rest else [rows[0]] + rest
  }

  /** Filtering keeps relative order: it distributes over concatenation. */
  lemma {:induction false} KeepRowsAppend(a: seq<Row>, b: seq<Row>, drop: set<string>)
    ensures KeepRows(a + b, drop) == KeepRows(a, drop) + KeepRows(b, drop)
    decreases |a|
  {
    if |a| > 0 {
      assert (a + b)[0] == a[0];
      assert (a + b)[1..] == a[1..] + b;
      KeepRowsAppend(a[1..], b, drop);
    } else {
      assert a + b == b;
    }
  }

  /** Dropping one set of IDs and then another drops their union. */
  lemma {:induction false} KeepRowsTwice(rows: seq<Row>, a: set<string>, b: set<string>)
    ensures KeepRows(KeepRows(rows, a), b) == KeepRows(rows, a + b)
    decreases |rows|
  {
    if |rows| > 0 {
      KeepRowsTwice(rows[1..], a, b);
    }
  }

  /** Nothing to drop: the rows come back unchanged. */
  lemma {:induction false} KeepRowsNone(rows: seq<Row>, drop: set<string>)
    requires forall row | row in rows :: row.id !in drop
    ensures KeepRows(rows, drop) == rows
    decreases |rows|
  {
    if |rows| > 0 {
      assert rows == [rows[0]] + rows[1..];
      KeepRowsNone(rows[1..], drop);
    }
  }

  /** The loop of rm_sub: one drop per listed subject, in list order. */
  function DropEach(rows: seq<Row>, rmList: seq<string>): seq<Row>
    decreases |rmList|
  {
    if |rmList| == 0 then rows else DropEach(KeepRows(rows, {rmList[0]}), rmList[1..])
  }

  lemma {:induction false} DropEachIsKeepRows(rows: seq<Row>, rmList: seq<string>)
    ensures DropEach(rows, rmList) == KeepRows(rows, Elems(rmList))
    decreases |rmList|
  {
    if |rmList| == 0 {
      assert Elems(rmList) == {};
      KeepRowsNone(rows, {});
    } else {
      var first := KeepRows(rows, {rmList[0]});
      assert DropEach(rows, rmList) == DropEach(first, rmList[1..]);
      DropEachIsKeepRows(first, rmList[1..]);
      KeepRowsTwice(rows, {rmList[0]}, Elems(rmList[1..]));
      ElemsCons(rmList);
    }
  }

  lemma ElemsCons(s: seq<string>)
    requires |s| > 0
    ensures Elems(s) == {s[0]} + Elems(s[1..])
  {
  }

  /** rm_sub: removes every row whose ID is listed; all other rows stay,
      in order. */
  function RmSub(t: Table, rmList: seq<string>): (r: Table)
    ensures r.header == t.header
    ensures r.rows == KeepRows(t.rows, Elems(rmList))
    ensures forall row | row in r.rows :: row.id !in rmList
    ensures |rmList| == 0 ==> r == t
    ensures WellFormed(t) ==> WellFormed(r)
  {
    DropEachIsKeepRows(t.rows, rmList);
    if |rmList| == 0 then t else Table(t.header, DropEach(t.rows, rmList))
  }

  /** Removing the same subjects a second time changes nothing. */
  lemma RmSubIdempotent(t: Table, rmList: seq<string>)
    ensures RmSub(RmSub(t, rmList), rmList) == RmSub(t, rmList)
  {
    KeepRowsNone(RmSub(t, rmList).rows, Elems(rmList));
  }

  /** df.loc[df[id] == sub]: the rows of one subject, in table order. */
  function Select(rows: seq<Row>, id: string): (r: seq<Row>)
    ensures forall row :: multiset(r)[row] == if row.id == id then multiset(rows)[row] else 0
    ensures forall row | row in r :: row in rows && row.id == id
    ensures forall row | row in rows && row.id == id :: row in r
    ensures id !in IdSet(rows) ==> r == []
  {
    if |rows| == 0 then []
    else
      var rest := Select(rows[1..], id);
      assert rows == [rows[0]] + rows[1..];
      if rows[0].id == id then [rows[0]] + rest else rest
  }

  /** Selecting from two stretches of rows selects from each in turn, so
      one subject's rows keep their table order. */
  lemma {:induction false} SelectAppend(a: seq<Row>, b: seq<Row>, id: string)
    ensures Select(a + b, id) == Select(a, id) + Select(b, id)
    decreases |a|
  {
    if |a| == 0 {
      assert a + b == b;
    } else {
      var head := if a[0].id == id then [a[0]] else [];
      assert (a + b)[1..] == a[1..] + b;
      SelectCons(a + b, id);
      SelectCons(a, id);
      SelectAppend(a[1..], b, id);
      Regroup(head, Select(a[1..], id), Select(b, id), Select(a[1..] + b, id));
    }
  }

  /** Selecting from a non-empty stretch: its first row if it matches, then
      the selection from the rest. */
  lemma SelectCons(rows: seq<Row>, id: string)
    requires |rows| > 0
    ensures Select(rows, id) == (if rows[0].id == id then [rows[0]] else []) + Select(rows[1..], id)
  {
  }

  lemma Regroup<T>(h: seq<T>, p: seq<T>, q: seq<T>, pq: seq<T>)
    requires pq == p + q
    ensures h + pq == (h + p) + q
  {
  }

  /** The appends of subs_retain's loop: one group per listed subject. */
  function Gather(rows: seq<Row>, keep: seq<string>): (r: seq<Row>)
    ensures forall row | row in r :: row in rows && row.id in keep
    ensures forall row | row in rows && row.id in keep :: row in r
  {
    if |keep| == 0 then []
    else
      var rest := Gather(rows, keep[1..]);
      assert forall x | x in keep[1..] :: x in keep;
      assert forall row | row in rows && row.id in keep && row.id != keep[0] :: row.id in keep[1..];
      Select(rows, keep[0]) + rest
  }

  /** Groups come in keep-list order: gathering for two lists one after the
      other is gathering for the first, then for the second. */
  lemma {:induction false} GatherAppend(rows: seq<Row>, k1: seq<string>, k2: seq<string>)
    ensures Gather(rows, k1 + k2) == Gather(rows, k1) + Gather(rows, k2)
    decreases |k1|
  {
    if |k1| > 0 {
      assert (k1 + k2)[0] == k1[0];
      assert (k1 + k2)[1..] == k1[1..] + k2;
      GatherAppend(rows, k1[1..], k2);
    } else {
      assert k1 + k2 == k2;
    }
  }

  /** A subject absent from the table contributes nothing. */
  lemma GatherSkipsAbsent(rows: seq<Row>, keep: seq<string>, id: string)
    requires id !in IdSet(rows)
    ensures Gather(rows, [id] + keep) == Gather(rows, keep)
  {
  }

  /** subs_retain: with an empty keep list the table itself; otherwise,
      for each listed subject in turn, its rows. */
  function SubsRetain(t: Table, keep: seq<string>): (r: Table)
    ensures r.header == t.header
    ensures |keep| == 0 ==> r == t
    ensures |keep| > 0 ==> r.rows == Gather(t.rows, keep)
    ensures |keep| > 0 ==> forall row | row in r.rows :: row.id in keep
    ensures forall row | row in r.rows :: row in t.rows
    ensures WellFormed(t) ==> WellFormed(r)
  {
    if |keep| == 0 then t else Table(t.header, Gather(t.rows, keep))
  }

  /** A column index Python accepts for a list of `n` names. */
  predicate InRange(i: int, n: nat)
  {
    -(n as int) <= i < n
  }

  /** The non-negative position Python's indexing resolves `i` to. */
  function Resolve(i: int, n: nat): (c: nat)
    requires InRange(i, n)
    ensures c < n
    ensures c == i || c == i + n
  {
    if i < 0 then i + n else i
  }

  /** The requested indices; none requested means columns 1..n-1. */
  function Requested(kpList: seq<int>, n: nat): (idx: seq<int>)
    ensures |kpList| > 0 ==> idx == kpList
    ensures |kpList| == 0 ==> |idx| == if n == 0 then 0 else n - 1
    ensures |kpList| == 0 ==> forall k | 0 <= k < |idx| :: idx[k] == k + 1
  {
    if |kpList| > 0 then kpList else seq(if n == 0 then 0 else n - 1, k => k + 1)
  }

  /** The position of the first index out of range, or |idx|. */
  function FirstOutOfRange(idx: seq<int>, n: nat): (k: nat)
    ensures k <= |idx|
    ensures forall j | 0 <= j < k :: InRange(idx[j], n)
    ensures k < |idx| ==> !InRange(idx[k], n)
  {
    if |idx| == 0 then 0
    else if !InRange(idx[0], n) then 0
    else 1 + FirstOutOfRange(idx[1..], n)
  }

  /** A row cut down to the picked columns (positions into the full row). */
  function Project(r: Row, picked: seq<nat>): (p: Row)
    requires forall k | 0 <= k < |picked| :: picked[k] <= |r.values|
    ensures p.id == r.id
    ensures |p.values| == |picked|
    ensures forall k | 0 <= k < |picked| :: p.values[k] == CellAt(r, picked[k])
  {
    Row(r.id, seq(|picked|, k requires 0 <= k < |picked| => CellAt(r, picked[k])))
  }

  function ProjectAll(rows: seq<Row>, picked: seq<nat>, width: nat): (r: seq<Row>)
    requires forall row | row in rows :: |row.values| == width
    requires forall k | 0 <= k < |picked| :: picked[k] <= width
    ensures |r| == |rows|
    ensures forall k | 0 <= k < |rows| :: r[k] == Project(rows[k], picked)
    ensures Ids(r) == Ids(rows)
    ensures IdSet(r) == IdSet(rows)
  {
    var r := seq(|rows|, k requires 0 <= k < |rows| => Project(rows[k], picked));
    IdSetOfIds(r, rows);
    r
  }

  /** Two row lists with the same ID column have the same ID set. */
  lemma IdSetOfIds(a: seq<Row>, b: seq<Row>)
    requires Ids(a) == Ids(b)
    ensures IdSet(a) == IdSet(b)
  {
  }


  /** No missing value in any cell (the ID is never missing). */
  predicate Complete(r: Row)
  {
    forall k | 0 <= k < |r.values| :: r.values[k] != Missing
  }

  /** dropna: the complete rows, in order. */
  function CompleteRows(rows: seq<Row>): (r: seq<Row>)
    ensures forall row :: multiset(r)[row] == if Complete(row) then multiset(rows)[row] else 0
    ensures forall row | row in r :: row in rows && Complete(row)
    ensures forall row | row in rows && Complete(row) :: row in r
    ensures IdSet(r) <= IdSet(rows)
  {
    if |rows| == 0 then []
    else
      var rest := CompleteRows(rows[1..]);
      assert rows == [rows[0]] + rows[1..];
      if Complete(rows[0]) then [rows[0]] + rest else rest
  }

  lemma {:induction false} CompleteRowsAppend(a: seq<Row>, b: seq<Row>)
    ensures CompleteRows(a + b) == CompleteRows(a) + CompleteRows(b)
    decreases |a|
  {
    if |a| > 0 {
      assert (a + b)[1..] == a[1..] + b;
      CompleteRowsAppend(a[1..], b);
    } else {
      assert a + b == b;
    }
  }

  /** keep_columns: the ID column followed by the requested columns, each
      row cut down to them, and with `rmNan` only the complete rows. An
      index outside -n..n-1 fails like col_names[idx]. */
  function KeepColumns(t: Table, kpList: seq<int>, rmNan: bool): (r: Result<Table>)
    requires WellFormed(t)
    ensures var idx := Requested(kpList, |t.header|);
      r.Err? <==> exists k | 0 <= k < |idx| :: !InRange(idx[k], |t.header|)
    ensures r.Ok? ==> WellFormed(r.value)
    ensures r.Ok? ==> var idx := Requested(kpList, |t.header|);
      && |r.value.header| == 1 + |idx|
      && r.value.header[0] == t.header[0]
      && forall k | 0 <= k < |idx| :: r.value.header[k + 1] == t.header[Resolve(idx[k], |t.header|)]
    ensures r.Ok? && rmNan ==> forall row | row in r.value.rows :: Complete(row)
    ensures r.Ok? && !rmNan ==> Ids(r.value.rows) == Ids(t.rows)
    ensures r.Ok? ==> IdSet(r.value.rows) <= IdSet(t.rows)
  {
    var n := |t.header|;
    var idx := Requested(kpList, n);
    var bad := FirstOutOfRange(idx, n);
    if bad < |idx| then
      Err(ColumnIndexOutOfRange(idx[bad]))
    else
      var picked := Picked(kpList, n);
      var header := [t.header[0]] + seq(|picked|, k requires 0 <= k < |picked| => t.header[picked[k]]);
      var projected := ProjectAll(t.rows, picked, n - 1);
      Ok(Table(header, if rmNan then CompleteRows(projected) else projected))
  }

  /** The positions keep_columns picks: each requested index resolved. */
  function Picked(kpList: seq<int>, n: nat): (picked: seq<nat>)
    requires forall k | 0 <= k < |Requested(kpList, n)| :: InRange(Requested(kpList, n)[k], n)
    ensures |picked| == |Requested(kpList, n)|
    ensures forall k | 0 <= k < |picked| :: picked[k] < n
  {
    var idx := Requested(kpList, n);
    seq(|idx|, k requires 0 <= k < |idx| => Resolve(idx[k], n))
  }

  /** The rows keep_columns returns: every input row cut down to the picked
      columns, in order; with `rmNan` exactly the complete ones survive. */
  lemma KeepColumnsRows(t: Table, kpList: seq<int>, rmNan: bool)
    requires WellFormed(t)
    requires KeepColumns(t, kpList, rmNan).Ok?
    ensures var picked := Picked(kpList, |t.header|);
      var projected := ProjectAll(t.rows, picked, |t.header| - 1);
      KeepColumns(t, kpList, rmNan).value.rows == if rmNan then CompleteRows(projected) else projected
  {
  }
}
