/** find_delim: the separator of a list given inline or as a file. */
module Delimiters {
  import opened Strings
  import opened Results

  /** The file system as the pipeline sees it: the files that exist, each
      with its contents as read in text mode. */
  type Files = map<string, string>

  /** For an inline string: the first of `,` tab `:` `;` that occurs, else a space. */
  function StringDelim(s: string): (d: char)
    ensures d in {',', '\t', ':', ';', ' '}
    ensures d == ',' <==> ',' in s
    ensures d == '\t' <==> ',' !in s && '\t' in s
    ensures d == ':' <==> ',' !in s && '\t' !in s && ':' in s
    ensures d == ';' <==> ',' !in s && '\t' !in s && ':' !in s && ';' in s
  {
    if ',' in s then ','
    else if '\t' in s then '\t'
    else if ':' in s then ':'
    else if ';' in s then ';'
    else ' '
  }

  /** The inline delimiter cuts the string into several pieces exactly when
      one of the five candidate characters occurs in it. */
  lemma StringDelimSplits(s: string)
    ensures |Split(s, StringDelim(s))| > 1 <==> exists c | c in ",\t:; " :: c in s
  {
  }

  /** readlines()[0]: the text up to and including the first newline. */
  function FirstLine(contents: string): (line: string)
    requires |contents| > 0
    ensures line <= contents
  {
    var i := IndexOf(contents, '\n');
    if i < |contents| then contents[..i + 1] else contents
  }

  /** For an existing file: the name's extension first (".tsv" before
      ".csv"), then the first line's comma, tab or newline, else a space.
      An empty file has no first line to look at. */
  function FileDelim(name: string, contents: string): (r: Result<char>)
    ensures Contains(name, ".tsv") ==> r == Ok('\t')
    ensures !Contains(name, ".tsv") && Contains(name, ".csv") ==> r == Ok(',')
    ensures r.Err? <==> !Contains(name, ".tsv") && !Contains(name, ".csv") && |contents| == 0
    ensures r.Ok? ==> r.value in {'\t', ',', '\n', ' '}
  {
    if Contains(name, ".tsv") then Ok('\t')
    else if Contains(name, ".csv") then Ok(',')
    else if |contents| == 0 then Err(EmptyFirstLine)
    else
      var line := FirstLine(contents);
      if ',' in line then Ok(',')
      else if '\t' in line then Ok('\t')
      else if '\n' in line then Ok('\n')
      else Ok(' ')
  }

  /** The content rules of FileDelim restated over the whole contents: a
      comma or tab counts only before the first newline, and the newline
      rule fires exactly when the file has a newline at all. */
  lemma FileDelimByContents(name: string, contents: string)
    requires !Contains(name, ".tsv") && !Contains(name, ".csv") && |contents| > 0
    ensures var head := contents[..IndexOf(contents, '\n')];
      && (FileDelim(name, contents) == Ok(',') <==> ',' in head)
      && (FileDelim(name, contents) == Ok('\t') <==> ',' !in head && '\t' in head)
      && (FileDelim(name, contents) == Ok('\n') <==> ',' !in head && '\t' !in head && '\n' in contents)
      && (FileDelim(name, contents) == Ok(' ') <==> ',' !in head && '\t' !in head && '\n' !in contents)
  {
    var head := contents[..IndexOf(contents, '\n')];
    FirstLineHolds(contents, ',');
    FirstLineHolds(contents, '\t');
    FirstLineHasNewline(contents);
    var line := FirstLine(contents);
    assert FileDelim(name, contents) ==
      if ',' in line then Ok(',') else if '\t' in line then Ok('\t') else if '\n' in line then Ok('\n') else Ok(' ');
  }

  /** A character other than newline is on the first line exactly when it
      occurs before the first newline. */
  lemma FirstLineHolds(contents: string, c: char)
    requires |contents| > 0 && c != '\n'
    ensures c in FirstLine(contents) <==> c in contents[..IndexOf(contents, '\n')]
  {
  }

  lemma FirstLineHasNewline(contents: string)
    requires |contents| > 0
    ensures '\n' in FirstLine(contents) <==> '\n' in contents
  {
  }

  /** find_delim(in_file): a name that exists is read as a file, anything
      else is inspected as an inline list. */
  function FindDelim(s: string, files: Files): (r: Result<char>)
    ensures r.Ok? ==> r.value in {',', '\t', ':', ';', ' ', '\n'}
    ensures r.Err? <==> s in files && |files[s]| == 0 && !Contains(s, ".tsv") && !Contains(s, ".csv")
    ensures s !in files ==> r == Ok(StringDelim(s))
    ensures s in files ==> r == FileDelim(s, files[s])
  {
    if s in files then FileDelim(s, files[s]) else Ok(StringDelim(s))
  }
}
