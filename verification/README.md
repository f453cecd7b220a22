# mk_design: a Dafny model of the design-matrix filtering pipeline

`mk_design.py` builds an FSL design matrix from a delimited table. The
table's first column holds subject IDs and the other columns hold
covariates. The script drops subjects, keeps a selection of covariate
columns, optionally drops subjects with missing values, and writes an
inclusion list and an exclusion list of subject IDs.

This project models that pipeline as pure functions over an immutable
table and proves what each step guarantees.

- `Results`: the Python exceptions the steps can raise on their inputs,
  a `Result` type that carries them, and an `Option` type for `int()`.
- `Strings`: Python's string order, `str.split` with a one-character
  separator, `str.splitlines`, and decimal `int()`.
- `Sorting`: `list.sort()` as insertion sort by a string key. It proves
  that the result is sorted and a permutation of the input. Strings have
  exactly one sorted arrangement, so any sort of the same elements gives
  the same list.
- `Tables`: cells (missing, string or number), rows (subject ID plus
  covariate cells) and tables (header plus rows). It also holds the row
  sort of `mk_df`.
- `Delimiters`: `find_delim`. The file system is a map from the paths that
  exist to their contents as read in text mode.
- `SubjectLists`: `parse_str_list`, `list_to_file` and `file_to_list`,
  written as functions on strings.
- `Filters`: `rm_sub`, `subs_retain` and `keep_columns`. Each is tied to a
  reference definition: an order-preserving filter, concatenation in
  keep-list order, and projection followed by `dropna`.
- `Reconcile`: `mk_adj_sub_list`.
- `Pipeline`: the composition done by `mk_design`.
- `Scenarios`: a worked input showing how column indices are ordered.

Some behaviour the model follows from the code:

- Column indices are parsed by `parse_str_list`, which sorts them as text
  before `int()` converts them. So `"2,10"` keeps column 10 before
  column 2 (`Scenarios.ColumnsKeptInTextOrder`).
- Python's negative indices are accepted by `keep_columns`: an index `i`
  is valid when `-n <= i < n`.
- If an explicit index resolves to column 0, the ID column is selected
  twice. Then `df_all[col_names[0]]` at line 198 is a DataFrame and
  `.to_list()` fails. The model returns an error in that case.
- The docstring of `mk_adj_sub_list` says the exclusion list reflects
  subjects removed "as a result of manual exclusion or missing data". But
  line 397 passes the same filtered table as both `df_all` and `df_subs`,
  so the set difference is always empty. The exclusion list written is
  exactly the parsed removal list. A subject dropped for missing data
  appears in neither list. The model follows the code
  (`Pipeline.DesignLists`, `Pipeline.MissingDataSubjectsUnlisted`).

## Model

| member | source | states |
|---|---|---|
| `Sorting.Sort` | mk_design.py:273 | the sorted list is ordered by Python's string comparison and is a permutation of the input |
| `Sorting.SortedUnique` | mk_design.py:214-215 | two sorted lists with the same elements are equal, so sorting a list built from a set gives one answer whatever order the set was listed in |
| `Strings.Split` | mk_design.py:272 | `str.split` never yields zero pieces; it yields one piece more than there are separators; no piece holds the separator; joining the pieces gives back the input |
| `Strings.SplitJoin` | mk_design.py:272 | splitting the join of separator-free pieces gives back those pieces |
| `Strings.SplitLines` | mk_design.py:253 | `splitlines` yields lines free of line boundaries, and yields none exactly for the empty text |
| `Strings.SplitLinesUnterminated` | mk_design.py:253 | a text whose last line has no terminator yields that line too: the terminated lines, then the unterminated one |
| `Strings.SplitLinesOfLines` | mk_design.py:232-234 | splitting the written lines gives back the list when no element holds a line boundary |
| `Strings.ParseIntOfString` | mk_design.py:377 | `int()` reads back the decimal text of every integer |
| `Delimiters.StringDelim` | mk_design.py:59-70 | for an inline list the delimiter is `,` if present, else tab, else `:`, else `;`, else space, and is always one of those five |
| `Delimiters.StringDelimSplits` | mk_design.py:59-72 | the inline delimiter cuts the string into several pieces exactly when one of the five candidate characters occurs in it |
| `Delimiters.FileDelim` | mk_design.py:30-57 | for an existing file, `.tsv` in the name gives tab even if `.csv` is there too; then `.csv` gives comma; an empty file otherwise fails; the result is tab, comma, newline or space |
| `Delimiters.FileDelimByContents` | mk_design.py:42-55 | comma or tab counts only before the first newline; newline is chosen exactly when neither occurs there and the file has a newline; otherwise space |
| `Delimiters.FindDelim` | mk_design.py:30-72 | the delimiter is one of comma, tab, colon, semicolon, space or newline; it fails exactly for an existing empty file whose name has neither `.tsv` nor `.csv`; a path that exists is inspected as a file, anything else as an inline list |
| `Tables.LoadSorted` | mk_design.py:89-90 | the loaded rows are sorted ascending by subject ID and are a permutation of the rows read, with the header unchanged |
| `SubjectLists.ListToFile` | mk_design.py:231-234 | the written text ends in a newline exactly when the list is non-empty (it is empty for an empty list), and holds one newline per element when no element holds one |
| `SubjectLists.FileToList` | mk_design.py:251-256 | the list read from a file is sorted, is a permutation of the file's lines, and holds no line boundary |
| `SubjectLists.FileToListOfListToFile` | mk_design.py:231-256 | reading back a written list gives the list sorted, provided no element holds a line boundary |
| `SubjectLists.ParseStrList` | mk_design.py:271-283 | fails only when `find_delim` fails; the result is sorted; if the delimiter occurs, the result is a permutation of the split pieces; otherwise it is the named file's sorted lines, or the input itself as a single entry |
| `SubjectLists.ParseStrListSeveralPieces` | mk_design.py:271-283 | with more than one piece the result is exactly the pieces sorted, and the pieces joined give back the input |
| `Filters.KeepRows` | mk_design.py:110-111 | a row survives, with its multiplicity, exactly when its ID is not dropped |
| `Filters.DropEachIsKeepRows` | mk_design.py:109-111 | dropping the listed subjects one at a time equals one filter by the set of listed IDs |
| `Filters.KeepRowsAppend` | mk_design.py:110-111 | dropping rows keeps the relative order of the rest |
| `Filters.RmSub` | mk_design.py:107-113 | no remaining row has a listed ID; every other row is kept in order; an empty list returns the table unchanged |
| `Filters.RmSubIdempotent` | mk_design.py:107-113 | removing the same subjects twice is the same as removing them once |
| `Filters.Select` | mk_design.py:172 | a row is selected, with its multiplicity, exactly when it belongs to the subject; an absent subject selects nothing |
| `Filters.SelectAppend` | mk_design.py:172 | selecting from two stretches of rows selects from each in turn, so one subject's rows keep their table order |
| `Filters.Gather` | mk_design.py:170-172 | a row is gathered exactly when its ID is in the keep list |
| `Filters.GatherAppend` | mk_design.py:171-172 | rows come grouped in keep-list order |
| `Filters.GatherSkipsAbsent` | mk_design.py:171-172 | an ID absent from the table contributes nothing |
| `Filters.SubsRetain` | mk_design.py:167-176 | an empty keep list returns the table; otherwise every output ID is in the keep list; output rows come from the input; the header is unchanged |
| `Filters.KeepColumns` | mk_design.py:132-153 | fails exactly when an index is outside `-n..n-1`; the header is the ID column followed by the requested columns in request order, where none requested means `1..n-1`; with `rm_nan` no row has a missing value; without it the ID column is unchanged |
| `Filters.KeepColumnsRows` | mk_design.py:143-153 | the rows are the input rows cut down to the picked columns, in order, keeping exactly the complete ones under `rm_nan` |
| `Filters.CompleteRows` | mk_design.py:150-151 | a row survives `dropna`, with its multiplicity, exactly when it has no missing value |
| `Filters.CompleteRowsAppend` | mk_design.py:150-151 | `dropna` on two stretches of rows handles each in turn, so the surviving rows keep their order |
| `Reconcile.MkAdjSubList` | mk_design.py:195-217 | the keep list is sorted, duplicate-free and holds exactly the IDs of `df_subs`; the exclude list is sorted and, as a multiset, is the IDs of `df_all` missing from `df_subs` plus the given list |
| `Reconcile.ExcludeWhenNothingDropped` | mk_design.py:206-214 | when `df_subs` holds every subject of `df_all`, the exclude list is the given list sorted |
| `Pipeline.SubjectArg` | mk_design.py:369-374 | an empty argument stays an empty list; otherwise `parse_str_list` applies; the list is sorted |
| `Pipeline.ParseInts` | mk_design.py:377 | succeeds exactly when `int()` accepts every entry, giving their values in order; otherwise fails on an entry it rejects |
| `Pipeline.ColumnArg` | mk_design.py:375-377 | column indices are the `int()` values of the parsed (text-sorted) list, position by position; it fails exactly when the argument is non-empty and either `parse_str_list` fails or `int()` rejects an entry |
| `Pipeline.MkDesign` | mk_design.py:365-406 | it fails exactly when parsing an argument fails, the filters fail, or an index selects the ID column, the last giving the ID-column error; the exclusion list is exactly the parsed removal list; the inclusion list is sorted, duplicate-free and holds exactly the design's subjects; no design subject is excluded; under `rm_nan` no design row has a missing value; design subjects are input subjects; the list files are the lists as written |
| `Pipeline.FilteredSubjects` | mk_design.py:365-382 | a subject survives the filters exactly when it has an input row, is not removed, is retained when a keep list is given, and under `rm_nan` has a row complete in the kept columns |
| `Pipeline.DesignLists` | mk_design.py:380-397 | a subject is excluded exactly when it is in the removal list, and included exactly when it survives the filters |
| `Pipeline.MissingDataSubjectsUnlisted` | mk_design.py:382-397 | a subject that is not removed but all of whose rows miss a kept value is in neither the inclusion nor the exclusion list |
| `Scenarios.ColumnsKeptInTextOrder` | mk_design.py:375-377 | the column argument `"2,10"` yields the indices `[10, 2]` |

## Left out

- `demean_col` (mk_design.py:317-339) and the `--demean` argument: these are floating-point means and subtraction. Demeaning changes neither rows nor subject IDs, so the lists are unaffected.
- `write_design` and the `.all_info.txt` dump (mk_design.py:286-314, 409): CSV output with `%.3f` float formatting. The model stops at the design table handed to the writer.
- `pd.read_csv` in `mk_df` (mk_design.py:87) is an opaque library parser. The model starts from the table it returns.
- Tables.LoadSorted: claims only "sorted by ID and a permutation", because pandas' quicksort is not stable and the order of rows sharing an ID is unspecified.
- File access: `os.path.exists` and file reads are a map from existing paths to contents. Contents are taken as read in text mode, after newline translation. Directories, unreadable files and decoding errors are not modelled.
- Strings.ParseInt: accepts an optional sign and ASCII digits only. Python's `int()` also strips whitespace and accepts underscores and non-ASCII digits.
- Subject IDs are strings. pandas would read an all-numeric ID column as numbers, which never equal the string entries of the lists. A blank ID would be read as NaN.
- Column names are taken to be distinct, as `read_csv` makes them. Selecting by name then equals selecting by position. A non-ID column requested twice, which `write_design` would widen further, is not modelled beyond `keep_columns`.
- `subs_retain` keeps the full header. This assumes `DataFrame.append` takes the union of columns even for an empty selection. `DataFrame.append` itself was removed in pandas 2.0.
- The in-place mutation of `rm_sub` is not modelled: the table it changes is not used again by `mk_design`.
- `main` and argparse (mk_design.py:413-503), the `verbose` printing, and tests/tests.py (subprocess runs and file diffs) are left out.
