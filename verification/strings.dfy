/** Python's string order, str.split with a one-character separator,
    str.splitlines, and the decimal integers int() accepts. */
module Strings {
  import opened Results

  /** Python's `<=` on str: lexicographic by code point, a prefix first. */
  predicate StrLe(a: string, b: string)
    decreases |a|
  {
    |a| == 0 || (|b| > 0 && (a[0] < b[0] || (a[0] == b[0] && StrLe(a[1..], b[1..]))))
  }

  lemma {:induction false} StrLeReflexive(a: string)
    ensures StrLe(a, a)
    decreases |a|
  {
    if |a| > 0 {
      StrLeReflexive(a[1..]);
    }
  }

  lemma {:induction false} StrLeTotal(a: string, b: string)
    ensures StrLe(a, b) || StrLe(b, a)
    decreases |a|
  {
    if |a| > 0 && |b| > 0 && a[0] == b[0] {
      StrLeTotal(a[1..], b[1..]);
    }
  }

  lemma {:induction false} StrLeAntisymmetric(a: string, b: string)
    requires StrLe(a, b) && StrLe(b, a)
    ensures a == b
    decreases |a|
  {
    if |a| > 0 {
      StrLeAntisymmetric(a[1..], b[1..]);
      assert a == [a[0]] + a[1..];
      assert b == [b[0]] + b[1..];
    }
  }

  lemma {:induction false} StrLeTransitive(a: string, b: string, c: string)
    requires StrLe(a, b) && StrLe(b, c)
    ensures StrLe(a, c)
    decreases |a|
  {
    if |a| > 0 && a[0] == b[0] && b[0] == c[0] {
      StrLeTransitive(a[1..], b[1..], c[1..]);
    }
  }

  /** `t in s` for Python strings: t occurs as a contiguous substring. */
  predicate OccursAt(s: string, t: string, i: int)
  {
    0 <= i && i + |t| <= |s| && s[i..i + |t|] == t
  }

  predicate Contains(s: string, t: string)
  {
    exists i | 0 <= i <= |s| - |t| :: OccursAt(s, t, i)
  }

  /** Position of the first `c` in `s`, or |s| when there is none. */
  function IndexOf(s: string, c: char): (i: nat)
    ensures i <= |s|
    ensures c !in s[..i]
    ensures i < |s| ==> s[i] == c
    ensures i == |s| <==> c !in s
  {
    if |s| == 0 then 0
    else if s[0] == c then 0
    else
      var k := IndexOf(s[1..], c);
      assert s[1..][..k] == s[1..k + 1];
      assert s[..k + 1] == [s[0]] + s[1..k + 1];
      1 + k
  }

  /** str.join with a one-character separator. */
  function Join(pieces: seq<string>, sep: char): string
  {
    if |pieces| == 0 then []
    else if |pieces| == 1 then pieces[0]
    else pieces[0] + [sep] + Join(pieces[1..], sep)
  }

  /** The number of occurrences of `c` in `s`. */
  function Count(s: string, c: char): nat
  {
    multiset(s)[c]
  }

  /** str.split(sep) for a one-character sep: cut at every occurrence.
      Like Python, the empty string splits into one empty piece. */
  function Split(s: string, sep: char): (pieces: seq<string>)
    ensures |pieces| >= 1
    ensures |pieces| == 1 + Count(s, sep)
    ensures forall k | 0 <= k < |pieces| :: sep !in pieces[k]
    ensures Join(pieces, sep) == s
    decreases |s|
  {
    var i := IndexOf(s, sep);
    if i == |s| then
      [s]
    else
      var rest := Split(s[i + 1..], sep);
      CountAtFirst(s, sep, i);
      JoinCons(s[..i], rest, sep);
      assert s[..i] + [sep] + s[i + 1..] == s;
      [s[..i]] + rest
  }

  /** Cutting at the first separator removes exactly one of them. */
  lemma CountAtFirst(s: string, sep: char, i: nat)
    requires i < |s| && s[i] == sep && sep !in s[..i]
    ensures Count(s, sep) == 1 + Count(s[i + 1..], sep)
  {
    assert s == s[..i] + [sep] + s[i + 1..];
    assert multiset(s) == multiset(s[..i]) + multiset{sep} + multiset(s[i + 1..]);
  }

  lemma JoinCons(p: string, rest: seq<string>, sep: char)
    requires |rest| >= 1
    ensures Join([p] + rest, sep) == p + [sep] + Join(rest, sep)
  {
    assert ([p] + rest)[1..] == rest;
  }

  /** The converse round trip: pieces free of the separator are recovered. */
  lemma {:induction false} SplitJoin(pieces: seq<string>, sep: char)
    requires |pieces| >= 1
    requires forall k | 0 <= k < |pieces| :: sep !in pieces[k]
    ensures Split(Join(pieces, sep), sep) == pieces
    decreases |pieces|
  {
    if |pieces| == 1 {
      assert IndexOf(pieces[0], sep) == |pieces[0]|;
    } else {
      var tail := pieces[1..];
      assert forall k | 0 <= k < |tail| :: tail[k] == pieces[k + 1];
      assert Join(pieces, sep) == pieces[0] + [sep] + Join(tail, sep);
      SplitAfterPiece(pieces[0], Join(tail, sep), sep);
      SplitJoin(tail, sep);
      HeadTail(pieces);
    }
  }

  /** A non-empty sequence is its first element followed by the rest. */
  lemma HeadTail<T>(s: seq<T>)
    requires |s| > 0
    ensures s == [s[0]] + s[1..]
  {
  }

  /** A piece free of the separator, then the separator: the piece is the
      first result of the split. */
  lemma SplitAfterPiece(p: string, rest: string, sep: char)
    requires sep !in p
    ensures Split(p + [sep] + rest, sep) == [p] + Split(rest, sep)
  {
    var s := p + [sep] + rest;
    assert s[..|p|] == p;
    assert IndexOf(s, sep) == |p| by {
      assert sep !in s[..|p|];
      assert s[|p|] == sep;
    }
    assert s[|p| + 1..] == rest;
  }

  /** The characters str.splitlines treats as line boundaries. */
  predicate IsLineBreak(c: char)
  {
    c == '\n' || c == '\r' || c == '\U{0B}' || c == '\U{0C}' || c == '\U{1C}' || c == '\U{1D}'
    || c == '\U{1E}' || c == '\U{85}' || c == '\U{2028}' || c == '\U{2029}'
  }

  predicate HasLineBreak(s: string)
  {
    exists k | 0 <= k < |s| :: IsLineBreak(s[k])
  }

  /** Position of the first line boundary in `s`, or |s|. */
  function FirstBreak(s: string): (i: nat)
    ensures i <= |s|
    ensures forall k | 0 <= k < i :: !IsLineBreak(s[k])
    ensures i < |s| ==> IsLineBreak(s[i])
  {
    if |s| == 0 || IsLineBreak(s[0]) then 0 else 1 + FirstBreak(s[1..])
  }

  /** str.splitlines(): lines without their terminators; "\r\n" is one
      boundary, a final terminator opens no empty line, "" gives []. */
  function SplitLines(s: string): (lines: seq<string>)
    ensures forall k | 0 <= k < |lines| :: !HasLineBreak(lines[k])
    ensures |lines| == 0 <==> |s| == 0
    decreases |s|
  {
    if |s| == 0 then []
    else
      var i := FirstBreak(s);
      if i == |s| then [s]
      else
        var width := if s[i] == '\r' && i + 1 < |s| && s[i + 1] == '\n' then 2 else 1;
        [s[..i]] + SplitLines(s[i + width..])
  }

  /** What `"%s\n" % x` writes for each x of a list, concatenated. */
  function Lines(xs: seq<string>): (text: string)
    ensures |text| >= |xs|
  {
    if |xs| == 0 then [] else xs[0] + "\n" + Lines(xs[1..])
  }

  /** Every element is followed by a newline, so the text ends in one
      unless the list is empty. */
  lemma LinesEnd(xs: seq<string>)
    ensures |xs| == 0 ==> Lines(xs) == []
    ensures |xs| > 0 ==> |Lines(xs)| > 0 && Lines(xs)[|Lines(xs)| - 1] == '\n'
  {
    if |xs| > 0 {
      LinesEnd(xs[1..]);
    }
  }

  /** The text holds one newline per element when the elements hold none. */
  lemma {:induction false} LinesCount(xs: seq<string>)
    requires forall k | 0 <= k < |xs| :: '\n' !in xs[k]
    ensures Count(Lines(xs), '\n') == |xs|
    decreases |xs|
  {
    if |xs| > 0 {
      var tail := xs[1..];
      assert forall k | 0 <= k < |tail| :: tail[k] == xs[k + 1];
      LinesCount(tail);
      assert Lines(xs) == xs[0] + ("\n" + Lines(tail));
      assert multiset(xs[0])['\n'] == 0;
      assert multiset(Lines(xs)) == multiset(xs[0]) + multiset("\n") + multiset(Lines(tail));
    }
  }

  /** Writing lines and splitting them again gives the lines back, provided
      none of them holds a line boundary of its own. */
  lemma {:induction false} SplitLinesOfLines(xs: seq<string>)
    requires forall k | 0 <= k < |xs| :: !HasLineBreak(xs[k])
    ensures SplitLines(Lines(xs)) == xs
    decreases |xs|
  {
    if |xs| > 0 {
      var tail := xs[1..];
      assert forall k | 0 <= k < |tail| :: tail[k] == xs[k + 1];
      assert Lines(xs) == xs[0] + "\n" + Lines(tail);
      SplitLinesAfterLine(xs[0], Lines(tail));
      SplitLinesOfLines(tail);
      assert xs == [xs[0]] + tail;
    }
  }

  /** A last line without a terminator is still a line of its own: this is
      what a hand-written list file without a final newline yields. */
  lemma {:induction false} SplitLinesUnterminated(xs: seq<string>, x: string)
    requires forall k | 0 <= k < |xs| :: !HasLineBreak(xs[k])
    requires |x| > 0 && !HasLineBreak(x)
    ensures SplitLines(Lines(xs) + x) == xs + [x]
    decreases |xs|
  {
    if |xs| == 0 {
      assert Lines(xs) + x == x;
      SplitLinesOfLine(x);
    } else {
      var tail := xs[1..];
      assert forall k | 0 <= k < |tail| :: tail[k] == xs[k + 1];
      LinesThen(xs, x);
      SplitLinesAfterLine(xs[0], Lines(tail) + x);
      SplitLinesUnterminated(tail, x);
      assert xs + [x] == [xs[0]] + (tail + [x]);
    }
  }

  /** A non-empty text without a boundary is one line. */
  lemma SplitLinesOfLine(x: string)
    requires |x| > 0 && !HasLineBreak(x)
    ensures SplitLines(x) == [x]
  {
    assert FirstBreak(x) == |x|;
  }

  /** The written lines followed by more text, split at the first line. */
  lemma LinesThen(xs: seq<string>, x: string)
    requires |xs| > 0
    ensures Lines(xs) + x == xs[0] + "\n" + (Lines(xs[1..]) + x)
  {
  }

  /** A line free of boundaries, then "\n": the first line, then the rest. */
  lemma SplitLinesAfterLine(x: string, rest: string)
    requires !HasLineBreak(x)
    ensures SplitLines(x + "\n" + rest) == [x] + SplitLines(rest)
  {
    var s := x + "\n" + rest;
    FirstBreakOfLine(x, rest);
    assert s[..|x|] == x;
    assert s[|x| + 1..] == rest;
  }

  lemma {:induction false} FirstBreakOfLine(x: string, rest: string)
    requires !HasLineBreak(x)
    ensures FirstBreak(x + "\n" + rest) == |x|
    decreases |x|
  {
    var s := x + "\n" + rest;
    if |x| > 0 {
      assert !IsLineBreak(x[0]);
      assert s[1..] == x[1..] + "\n" + rest;
      FirstBreakOfLine(x[1..], rest);
    }
  }

  /** int() on decimal text: an optional sign and one or more ASCII digits. */
  predicate IsDigit(c: char)
  {
    '0' <= c <= '9'
  }

  predicate AllDigits(s: string)
  {
    forall k | 0 <= k < |s| :: IsDigit(s[k])
  }

  function DigitsValue(s: string): nat
    requires AllDigits(s)
  {
    if |s| == 0 then 0 else 10 * DigitsValue(s[..|s| - 1]) + (s[|s| - 1] - '0') as nat
  }

  function ParseInt(s: string): (r: Option<int>)
    ensures r.Some? <==> (AllDigits(s) && |s| > 0) || (|s| > 1 && (s[0] == '-' || s[0] == '+') && AllDigits(s[1..]))
    ensures r.Some? && s[0] == '-' ==> r.value <= 0
    ensures r.Some? && s[0] != '-' ==> r.value >= 0
  {
    if |s| > 1 && (s[0] == '-' || s[0] == '+') && AllDigits(s[1..]) then
      var magnitude: int := DigitsValue(s[1..]);
      Some(if s[0] == '-' then -magnitude else magnitude)
    else if |s| > 0 && AllDigits(s) then
      Some(DigitsValue(s))
    else
      None
  }

  /** Decimal text of a natural number (Python's str() on an int >= 0). */
  function NatToString(n: nat): (s: string)
    ensures |s| > 0 && AllDigits(s)
    ensures |s| > 1 ==> s[0] != '0'
  {
    var d := ['0' + (n % 10) as char];
    if n < 10 then d else NatToString(n / 10) + d
  }

  function IntToString(n: int): string
  {
    if n < 0 then "-" + NatToString(-n) else NatToString(n)
  }

  lemma {:induction false} DigitsValueOfNat(n: nat)
    ensures DigitsValue(NatToString(n)) == n
  {
    var s := NatToString(n);
    if n >= 10 {
      DigitsValueOfNat(n / 10);
      assert s[..|s| - 1] == NatToString(n / 10);
    }
  }

  /** int(str(n)) == n. */
  lemma ParseIntOfString(n: int)
    ensures ParseInt(IntToString(n)) == Some(n)
  {
    if n < 0 {
      ParseIntOfNegative(-n);
    } else {
      ParseIntOfNat(n);
    }
  }

  lemma ParseIntOfNat(n: nat)
    ensures ParseInt(NatToString(n)) == Some(n)
  {
    var s := NatToString(n);
    DigitsValueOfNat(n);
    assert IsDigit(s[0]);
  }

  lemma ParseIntOfNegative(m: nat)
    requires m > 0
    ensures ParseInt("-" + NatToString(m)) == Some(-(m as int))
  {
    var t := NatToString(m);
    var s := "-" + t;
    DigitsValueOfNat(m);
    assert s[1..] == t;
  }
}
