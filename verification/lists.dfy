/** Subject and column lists: parse_str_list, list_to_file and file_to_list,
    with the file system abstracted as a map from paths to contents. */
module SubjectLists {
  import opened Strings
  import opened Sorting
  import opened Results
  import opened Delimiters

  /** list_to_file: each element followed by a newline. */
  function ListToFile(xs: seq<string>): (text: string)
    ensures |xs| > 0 ==> |text| > 0 && text[|text| - 1] == '\n'
    ensures |xs| == 0 ==> text == []
    ensures (forall k | 0 <= k < |xs| :: '\n' !in xs[k]) ==> Count(text, '\n') == |xs|
  {
    LinesEnd(xs);
    if forall k | 0 <= k < |xs| :: '\n' !in xs[k] then
      LinesCount(xs);
      Lines(xs)
    else
      Lines(xs)
  }

  /** file_to_list: the file's lines, sorted. */
  function FileToList(contents: string): (xs: seq<string>)
    ensures Sorted(xs)
    ensures multiset(xs) == multiset(SplitLines(contents))
    ensures forall k | 0 <= k < |xs| :: !HasLineBreak(xs[k])
  {
    var xs := Sort(SplitLines(contents));
    assert forall k | 0 <= k < |xs| :: xs[k] in SplitLines(contents) by {
      forall k | 0 <= k < |xs|
        ensures xs[k] in SplitLines(contents)
      {
        assert xs[k] in multiset(xs);
      }
    }
    xs
  }

  /** Reading back a written list yields it sorted, provided no element
      holds a line boundary. */
  lemma FileToListOfListToFile(xs: seq<string>)
    requires forall k | 0 <= k < |xs| :: !HasLineBreak(xs[k])
    ensures FileToList(ListToFile(xs)) == Sort(xs)
  {
    SplitLinesOfLines(xs);
  }

  /** parse_str_list: split on the inferred delimiter and sort; a single
      piece that names an existing file is replaced by that file's lines. */
  function ParseStrList(s: string, files: Files): (r: Result<seq<string>>)
    ensures r.Err? <==> FindDelim(s, files).Err?
    ensures r.Ok? ==> Sorted(r.value)
    ensures r.Ok? && s !in files ==> multiset(r.value) == multiset(Split(s, StringDelim(s)))
    ensures r.Ok? && FindDelim(s, files).value !in s ==> r.value == if s in files then FileToList(files[s]) else [s]
    ensures r.Ok? && FindDelim(s, files).value in s ==> multiset(r.value) == multiset(Split(s, FindDelim(s, files).value))
  {
    var delim :- FindDelim(s, files);
    var pieces := Split(s, delim);
    var sorted := Sort(pieces);
    assert |sorted| == |pieces| by {
      assert |multiset(sorted)| == |sorted| && |multiset(pieces)| == |pieces|;
    }
    if |sorted| == 1 then
      if s in files then Ok(FileToList(files[s]))
      else
        assert pieces == [s] by {
          assert Join(pieces, delim) == pieces[0];
        }
        assert sorted == [s] by {
          assert sorted[0] in multiset(pieces);
        }
        Ok(sorted)
    else
      Ok(sorted)
  }

  /** When the split yields several pieces the result is their sorted
      arrangement, and the pieces joined back give the input. */
  lemma ParseStrListSeveralPieces(s: string, files: Files, d: char)
    requires FindDelim(s, files) == Ok(d)
    requires |Split(s, d)| > 1
    ensures ParseStrList(s, files) == Ok(Sort(Split(s, d)))
    ensures Join(Split(s, d), d) == s
  {
  }
}
