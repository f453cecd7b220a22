/** mk_design: load, retain, remove, select columns, reconcile the lists. */
module Pipeline {
  import opened Strings
  import opened Sorting
  import opened Results
  import opened Tables
  import opened Delimiters
  import opened SubjectLists
  import opened Filters
  import opened Reconcile

  /** What mk_design hands to the writers: the design table (whose covariate
      columns become the matrix), the two lists, and the two list files. */
  datatype Design = Design(
    table: Table,
    excluded: seq<string>,
    included: seq<string>,
    excludeFile: string,
    includeFile: string)

  /** A subject-list argument: "" stays an empty list, anything else goes
      through parse_str_list. */
  function SubjectArg(arg: string, files: Files): (r: Result<seq<string>>)
    ensures |arg| == 0 ==> r == Ok([])
    ensures |arg| > 0 ==> r == ParseStrList(arg, files)
    ensures r.Ok? ==> Sorted(r.value)
  {
    if |arg| > 0 then ParseStrList(arg, files) else Ok([])
  }

  /** [int(i) for i in xs]: the first entry int() rejects is the error. */
  function ParseInts(xs: seq<string>): (r: Result<seq<int>>)
    ensures r.Ok? <==> forall k | 0 <= k < |xs| :: ParseInt(xs[k]).Some?
    ensures r.Ok? ==> |r.value| == |xs| && forall k | 0 <= k < |xs| :: ParseInt(xs[k]) == Some(r.value[k])
    ensures r.Err? ==> r.error.NotAnInteger? && r.error.text in xs && ParseInt(r.error.text).None?
  {
    if |xs| == 0 then Ok([])
    else
      match ParseInt(xs[0])
      case None => Err(NotAnInteger(xs[0]))
      case Some(n) =>
        var rest := ParseInts(xs[1..]);
        if rest.Err? then rest else Ok([n] + rest.value)
  }

  /** The column-index argument: parsed as a list (so sorted as strings),
      then each entry converted with int(). */
  function ColumnArg(arg: string, files: Files): (r: Result<seq<int>>)
    ensures |arg| == 0 ==> r == Ok([])
    ensures r.Ok? && |arg| > 0 ==>
      && ParseStrList(arg, files).Ok?
      && |r.value| == |ParseStrList(arg, files).value|
      && forall k | 0 <= k < |r.value| :: ParseInt(ParseStrList(arg, files).value[k]) == Some(r.value[k])
    ensures r.Err? <==> |arg| > 0 && (ParseStrList(arg, files).Err? || ParseInts(ParseStrList(arg, files).value).Err?)
  {
    if |arg| > 0 then
      var xs :- ParseStrList(arg, files);
      ParseInts(xs)
    else Ok([])
  }

  /** An explicitly requested index that resolves to the ID column: the
      selection then holds that column twice. */
  predicate PicksIdColumn(kpList: seq<int>, n: nat)
  {
    exists k | 0 <= k < |kpList| :: kpList[k] == 0 || kpList[k] == -(n as int)
  }

  /** The filtering stages of mk_design, lines 365 and 380-382. */
  function Filtered(raw: Table, rmList: seq<string>, retList: seq<string>, kpList: seq<int>, rmNan: bool): Result<Table>
    requires WellFormed(raw)
  {
    var init := LoadSorted(raw);
    var kept := SubsRetain(init, retList);
    var remaining := RmSub(kept, rmList);
    KeepColumns(remaining, kpList, rmNan)
  }

  /** mk_design with demeaning and the writers left out: the design table
      and the exclusion and inclusion lists with their file contents. The
      same table is passed as both arguments of mk_adj_sub_list. */
  function MkDesign(raw: Table, files: Files, rmArg: string, retArg: string, colArg: string, rmNan: bool): (r: Result<Design>)
    requires WellFormed(raw)
    ensures r.Ok? ==> SubjectArg(rmArg, files).Ok? && r.value.excluded == SubjectArg(rmArg, files).value
    ensures r.Ok? ==>
      && SubjectArg(retArg, files).Ok? && ColumnArg(colArg, files).Ok?
      && Filtered(raw, SubjectArg(rmArg, files).value, SubjectArg(retArg, files).value, ColumnArg(colArg, files).value, rmNan) == Ok(r.value.table)
    ensures r.Ok? ==> Sorted(r.value.included) && NoDuplicates(r.value.included)
    ensures r.Ok? ==> Elems(r.value.included) == IdSet(r.value.table.rows)
    ensures r.Ok? ==> forall row | row in r.value.table.rows :: row.id !in r.value.excluded
    ensures r.Ok? && rmNan ==> forall row | row in r.value.table.rows :: Complete(row)
    ensures r.Ok? ==> IdSet(r.value.table.rows) <= IdSet(raw.rows)
    ensures r.Ok? ==> r.value.excludeFile == ListToFile(r.value.excluded)
    ensures r.Ok? ==> r.value.includeFile == ListToFile(r.value.included)
    ensures r.Err? <==>
      || SubjectArg(rmArg, files).Err?
      || SubjectArg(retArg, files).Err?
      || ColumnArg(colArg, files).Err?
      || Filtered(raw, SubjectArg(rmArg, files).value, SubjectArg(retArg, files).value, ColumnArg(colArg, files).value, rmNan).Err?
      || PicksIdColumn(ColumnArg(colArg, files).value, |raw.header|)
    ensures
      && SubjectArg(rmArg, files).Ok? && SubjectArg(retArg, files).Ok? && ColumnArg(colArg, files).Ok?
      && Filtered(raw, SubjectArg(rmArg, files).value, SubjectArg(retArg, files).value, ColumnArg(colArg, files).value, rmNan).Ok?
      && PicksIdColumn(ColumnArg(colArg, files).value, |raw.header|)
      ==> r == Err(IdColumnSelectedTwice)
  {
    var rmList :- SubjectArg(rmArg, files);
    var retList :- SubjectArg(retArg, files);
    var kpList :- ColumnArg(colArg, files);
    var cols :- Filtered(raw, rmList, retList, kpList, rmNan);
    if PicksIdColumn(kpList, |raw.header|) then
      Err(IdColumnSelectedTwice)
    else
      var adj := MkAdjSubList(cols, cols, rmList);
      ExcludeWhenNothingDropped(cols, cols, rmList);
      SortOfSorted(rmList);
      FilteredIds(raw, rmList, retList, kpList, rmNan);
      Ok(Design(cols, adj.excluded, adj.included, ListToFile(adj.excluded), ListToFile(adj.included)))
  }

  /** The subjects that survive the filters are subjects of the input that
      are not removed, and are retained when a keep list is given. */
  lemma FilteredIds(raw: Table, rmList: seq<string>, retList: seq<string>, kpList: seq<int>, rmNan: bool)
    requires WellFormed(raw)
    requires Filtered(raw, rmList, retList, kpList, rmNan).Ok?
    ensures var out := Filtered(raw, rmList, retList, kpList, rmNan).value;
      && IdSet(out.rows) <= IdSet(raw.rows)
      && (forall row | row in out.rows :: row.id !in rmList)
      && (|retList| > 0 ==> forall row | row in out.rows :: row.id in retList)
  {
    var init := LoadSorted(raw);
    var kept := SubsRetain(init, retList);
    var remaining := RmSub(kept, rmList);
    var out := Filtered(raw, rmList, retList, kpList, rmNan).value;
    assert IdSet(remaining.rows) <= IdSet(raw.rows) by {
      forall id | id in IdSet(remaining.rows)
        ensures id in IdSet(raw.rows)
      {
        var row :| row in remaining.rows && row.id == id;
        assert row in init.rows;
        assert row in multiset(init.rows);
      }
    }
    forall row | row in out.rows
      ensures row.id !in rmList && (|retList| > 0 ==> row.id in retList)
    {
      assert row.id in IdSet(out.rows);
      assert row.id in IdSet(remaining.rows);
      var src :| src in remaining.rows && src.id == row.id;
    }
  }

  /** Which subjects survive the filters: exactly those with a row in the
      input that are not removed, are retained when a keep list is given,
      and (with `rmNan`) have no missing value in the kept columns. */
  lemma FilteredSubjects(raw: Table, rmList: seq<string>, retList: seq<string>, kpList: seq<int>, rmNan: bool, id: string)
    requires WellFormed(raw)
    requires Filtered(raw, rmList, retList, kpList, rmNan).Ok?
    ensures forall k | 0 <= k < |Requested(kpList, |raw.header|)| :: InRange(Requested(kpList, |raw.header|)[k], |raw.header|)
    ensures id in IdSet(Filtered(raw, rmList, retList, kpList, rmNan).value.rows) <==>
      && id !in rmList
      && (|retList| == 0 || id in retList)
      && exists row | row in raw.rows && row.id == id :: !rmNan || Complete(Project(row, Picked(kpList, |raw.header|)))
  {
    var n := |raw.header|;
    var remaining := RmSub(SubsRetain(LoadSorted(raw), retList), rmList);
    var out := Filtered(raw, rmList, retList, kpList, rmNan).value;
    var picked := Picked(kpList, n);
    KeepColumnsRows(remaining, kpList, rmNan);
    SelectedSubjects(remaining.rows, picked, n - 1, rmNan, id);
    forall row: Row | row.id == id
      ensures row in remaining.rows <==> row in raw.rows && id !in rmList && (|retList| == 0 || id in retList)
    {
      RemainingRows(raw, rmList, retList, row);
    }
  }

  /** The rows left after subs_retain and rm_sub: the input's rows that are
      retained and not removed. */
  lemma RemainingRows(raw: Table, rmList: seq<string>, retList: seq<string>, row: Row)
    ensures row in RmSub(SubsRetain(LoadSorted(raw), retList), rmList).rows <==>
      row in raw.rows && row.id !in rmList && (|retList| == 0 || row.id in retList)
  {
    var init := LoadSorted(raw);
    var kept := SubsRetain(init, retList);
    assert row in init.rows <==> row in raw.rows by {
      assert row in init.rows <==> row in multiset(init.rows);
    }
    assert row in kept.rows <==> row in init.rows && (|retList| == 0 || row.id in retList);
    assert row.id in Elems(rmList) <==> row.id in rmList;
  }

  /** The subjects keep_columns lets through: those with a row whose cut-down
      version is complete, or any row at all without `rmNan`. */
  lemma SelectedSubjects(rows: seq<Row>, picked: seq<nat>, width: nat, rmNan: bool, id: string)
    requires forall row | row in rows :: |row.values| == width
    requires forall k | 0 <= k < |picked| :: picked[k] <= width
    ensures var projected := ProjectAll(rows, picked, width);
      var out := if rmNan then CompleteRows(projected) else projected;
      id in IdSet(out) <==> exists row | row in rows && row.id == id :: !rmNan || Complete(Project(row, picked))
  {
  }

  /** The lists mk_design writes: the exclusion list is the parsed removal
      list and nothing else, and the inclusion list holds exactly the
      subjects that pass every filter. */
  lemma DesignLists(raw: Table, files: Files, rmArg: string, retArg: string, colArg: string, rmNan: bool, id: string)
    requires WellFormed(raw)
    ensures MkDesign(raw, files, rmArg, retArg, colArg, rmNan).Ok? ==>
      && SubjectArg(rmArg, files).Ok? && SubjectArg(retArg, files).Ok? && ColumnArg(colArg, files).Ok?
      && var d := MkDesign(raw, files, rmArg, retArg, colArg, rmNan).value;
         var rmList := SubjectArg(rmArg, files).value;
         var retList := SubjectArg(retArg, files).value;
         var kpList := ColumnArg(colArg, files).value;
         && (forall k | 0 <= k < |Requested(kpList, |raw.header|)| :: InRange(Requested(kpList, |raw.header|)[k], |raw.header|))
         && (id in d.excluded <==> id in rmList)
         && (id in d.included <==>
             && id !in rmList
             && (|retList| == 0 || id in retList)
             && exists row | row in raw.rows && row.id == id :: !rmNan || Complete(Project(row, Picked(kpList, |raw.header|))))
  {
    var r := MkDesign(raw, files, rmArg, retArg, colArg, rmNan);
    if r.Ok? {
      var rmList := SubjectArg(rmArg, files).value;
      var retList := SubjectArg(retArg, files).value;
      var kpList := ColumnArg(colArg, files).value;
      FilteredSubjects(raw, rmList, retList, kpList, rmNan, id);
      assert id in r.value.included <==> id in Elems(r.value.included);
    }
  }

  /** A subject that is not removed, but all of whose rows miss a value in
      a kept column, is dropped from the design and appears in neither the
      inclusion nor the exclusion list. */
  lemma MissingDataSubjectsUnlisted(raw: Table, files: Files, rmArg: string, retArg: string, colArg: string, id: string)
    requires WellFormed(raw)
    ensures MkDesign(raw, files, rmArg, retArg, colArg, true).Ok? ==>
      && SubjectArg(rmArg, files).Ok?
      && ColumnArg(colArg, files).Ok?
      && var d := MkDesign(raw, files, rmArg, retArg, colArg, true).value;
         var picked := Picked(ColumnArg(colArg, files).value, |raw.header|);
         id !in SubjectArg(rmArg, files).value
         && (forall row | row in raw.rows && row.id == id :: !Complete(Project(row, picked)))
         ==> id !in d.included && id !in d.excluded
  {
    DesignLists(raw, files, rmArg, retArg, colArg, true, id);
  }
}
