/** Worked inputs that show how the composed pipeline behaves. */
module Scenarios {
  import opened Strings
  import opened Sorting
  import opened Results
  import opened Delimiters
  import opened SubjectLists
  import opened Pipeline

  lemma SplitTwoColumns()
    ensures Split("2,10", ',') == ["2", "10"]
  {
    var pieces := ["2", "10"];
    assert Join(pieces[1..], ',') == "10";
    assert Join(pieces, ',') == "2,10";
    assert ',' !in pieces[0] && ',' !in pieces[1];
    SplitJoin(pieces, ',');
  }

  /** parse_str_list sorts the pieces as text: "10" comes before "2". */
  lemma ParseTwoColumns()
    ensures ParseStrList("2,10", map[]) == Ok(["10", "2"])
  {
    SplitTwoColumns();
    assert StringDelim("2,10") == ',';
    assert FindDelim("2,10", map[]) == Ok(',');
    ParseStrListSeveralPieces("2,10", map[], ',');
    SortTwoColumns();
  }

  lemma SortTwoColumns()
    ensures Sort(["2", "10"]) == ["10", "2"]
  {
  }

  lemma ParseColumnNumbers()
    ensures ParseInts(["10", "2"]) == Ok([10, 2])
  {
    assert DigitsValue("2") == 2 by {
      assert "2"[..0] == "";
    }
    assert DigitsValue("10") == 10 by {
      assert "10"[..1] == "1";
      assert "1"[..0] == "";
    }
    assert ParseInt("10") == Some(10) by {
      assert AllDigits("10");
    }
    assert ParseInt("2") == Some(2) by {
      assert AllDigits("2");
    }
    var xs := ["10", "2"];
    assert xs[1..] == ["2"];
    assert ["2"][1..] == [];
    assert ParseInts(["2"]) == Ok([2] + []);
    assert [2] + [] == [2];
    assert ParseInts(xs) == Ok([10] + [2]);
    assert [10] + [2] == [10, 2];
  }

  /** The columns "2,10" are kept in the order 10, 2: the index list is
      sorted as strings before int() converts it. */
  lemma ColumnsKeptInTextOrder()
    ensures ColumnArg("2,10", map[]) == Ok([10, 2])
  {
    ParseTwoColumns();
    ParseColumnNumbers();
  }
}
