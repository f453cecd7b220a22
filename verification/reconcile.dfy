/** mk_adj_sub_list: the final inclusion and exclusion lists. */
module Reconcile {
  import opened Sorting
  import opened Tables
  import opened Filters

  datatype Adjusted = Adjusted(excluded: seq<string>, included: seq<string>)

  /** list(all_subs_set.difference(subs_keep_set)), in one arrangement. */
  function Removed(all: Table, subs: Table): (r: seq<string>)
    ensures NoDuplicates(r)
    ensures Elems(r) == IdSet(all.rows) - IdSet(subs.rows)
  {
    var dropped := KeepRows(all.rows, IdSet(subs.rows));
    var r := Dedup(Ids(dropped));
    DroppedIds(all.rows, IdSet(subs.rows));
    SameElems(r, Ids(dropped));
    r
  }

  /** The IDs left after dropping a set of IDs are the others. */
  lemma DroppedIds(rows: seq<Row>, drop: set<string>)
    ensures Elems(Ids(KeepRows(rows, drop))) == IdSet(rows) - drop
  {
    var kept := KeepRows(rows, drop);
    ElemsOfIds(kept);
    forall id | id in IdSet(rows) - drop
      ensures id in IdSet(kept)
    {
      var row :| row in rows && row.id == id;
      assert row in kept;
    }
  }

  /** A sorted list of the distinct IDs of some rows. */
  function SortedIds(rows: seq<Row>): (r: seq<string>)
    ensures Sorted(r)
    ensures NoDuplicates(r)
    ensures Elems(r) == IdSet(rows)
  {
    var d := Dedup(Ids(rows));
    var r := Sort(d);
    DistinctPermutation(d, r);
    SameElems(d, r);
    assert forall x | x in d :: x in Ids(rows);
    assert forall k | 0 <= k < |Ids(rows)| :: Ids(rows)[k] in d;
    SameElems(d, Ids(rows));
    ElemsOfIds(rows);
    r
  }

  /** Two lists holding the same elements have the same element set. */
  lemma SameElems(a: seq<string>, b: seq<string>)
    requires ((forall x | x in a :: x in b) && (forall x | x in b :: x in a))
      || multiset(a) == multiset(b)
    ensures Elems(a) == Elems(b)
  {
    if multiset(a) == multiset(b) {
      assert forall x :: x in a <==> x in multiset(a);
      assert forall x :: x in b <==> x in multiset(b);
    }
  }

  lemma ElemsOfIds(rows: seq<Row>)
    ensures Elems(Ids(rows)) == IdSet(rows)
  {
  }

  /** The keep list is the sorted distinct IDs of `subs`; the exclude list
      is the IDs of `all` missing from `subs`, plus the given list, sorted. */
  function MkAdjSubList(all: Table, subs: Table, rmList: seq<string>): (r: Adjusted)
    ensures Sorted(r.included) && NoDuplicates(r.included)
    ensures Elems(r.included) == IdSet(subs.rows)
    ensures Sorted(r.excluded)
    ensures multiset(r.excluded) == multiset(IdSet(all.rows) - IdSet(subs.rows)) + multiset(rmList)
  {
    var removed := Removed(all, subs);
    MultisetOfDistinct(removed);
    Adjusted(Sort(removed + rmList), SortedIds(subs.rows))
  }

  /** When `subs` holds every subject of `all`, the exclude list is just
      the given list, sorted. */
  lemma ExcludeWhenNothingDropped(all: Table, subs: Table, rmList: seq<string>)
    requires IdSet(all.rows) <= IdSet(subs.rows)
    ensures MkAdjSubList(all, subs, rmList).excluded == Sort(rmList)
  {
    assert IdSet(all.rows) - IdSet(subs.rows) == {};
    SortedUnique(MkAdjSubList(all, subs, rmList).excluded, Sort(rmList));
  }
}
