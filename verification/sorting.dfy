/** Sorting by a string key, as list.sort() and DataFrame.sort_values do it,
    and the facts about sorted sequences the pipeline needs. */
module Sorting {
  import opened Strings

  /** Every earlier element's key is at most every later element's key. */
  predicate SortedBy<T>(s: seq<T>, key: T -> string)
  {
    forall i, j | 0 <= i < j < |s| :: StrLe(key(s[i]), key(s[j]))
  }

  function Self(s: string): string
  {
    s
  }

  predicate Sorted(s: seq<string>)
  {
    SortedBy(s, Self)
  }

  predicate NoDuplicates<T(==)>(s: seq<T>)
  {
    forall i, j | 0 <= i < j < |s| :: s[i] != s[j]
  }

  function InsertBy<T>(x: T, s: seq<T>, key: T -> string): (r: seq<T>)
    requires SortedBy(s, key)
    ensures SortedBy(r, key)
    ensures multiset(r) == multiset(s) + multiset{x}
    ensures r[0] == x || (|s| > 0 && r[0] == s[0])
    decreases |s|
  {
    if |s| == 0 then
      [x]
    else if StrLe(key(x), key(s[0])) then
      assert forall j | 0 < j < |s| :: StrLe(key(x), key(s[j])) by {
        forall j | 0 < j < |s| {
          StrLeTransitive(key(x), key(s[0]), key(s[j]));
        }
      }
      [x] + s
    else
      var rest := InsertBy(x, s[1..], key);
      StrLeTotal(key(x), key(s[0]));
      assert s == [s[0]] + s[1..];
      assert forall j | 0 <= j < |rest| :: StrLe(key(s[0]), key(rest[j])) by {
        forall j | 0 <= j < |rest|
          ensures StrLe(key(s[0]), key(rest[j]))
        {
          assert rest[j] in multiset(rest);
          if rest[j] != x {
            assert rest[j] in s[1..];
          }
        }
      }
      [s[0]] + rest
  }

  /** Insertion sort: one deterministic sorted permutation. */
  function SortBy<T>(s: seq<T>, key: T -> string): (r: seq<T>)
    ensures SortedBy(r, key)
    ensures multiset(r) == multiset(s)
    ensures |r| == |s|
  {
    if |s| == 0 then []
    else
      assert s == [s[0]] + s[1..];
      InsertBy(s[0], SortBy(s[1..], key), key)
  }

  /** list.sort() on a list of str. */
  function Sort(s: seq<string>): (r: seq<string>)
    ensures Sorted(r)
    ensures multiset(r) == multiset(s)
  {
    SortBy(s, Self)
  }

  /** Strings have one sorted arrangement only: two sorted sequences with
      the same elements (counted with multiplicity) are equal. */
  lemma {:induction false} SortedUnique(a: seq<string>, b: seq<string>)
    requires Sorted(a) && Sorted(b)
    requires multiset(a) == multiset(b)
    ensures a == b
    decreases |a|
  {
    if |a| > 0 {
      assert |b| == |a| by {
        assert |multiset(a)| == |a| && |multiset(b)| == |b|;
      }
      assert a[0] in multiset(b) && b[0] in multiset(a);
      SortedHeadLeast(b, a[0]);
      SortedHeadLeast(a, b[0]);
      StrLeAntisymmetric(a[0], b[0]);
      SortedTail(a);
      SortedTail(b);
      MultisetTail(a);
      MultisetTail(b);
      SortedUnique(a[1..], b[1..]);
      assert a == [a[0]] + a[1..];
      assert b == [b[0]] + b[1..];
    }
  }

  /** The first element of a sorted sequence is at most any element. */
  lemma SortedHeadLeast(s: seq<string>, x: string)
    requires Sorted(s) && x in s
    ensures StrLe(s[0], x)
  {
    var i :| 0 <= i < |s| && s[i] == x;
    if i > 0 {
      assert Self(s[0]) == s[0] && Self(s[i]) == s[i];
    } else {
      StrLeReflexive(x);
    }
  }

  lemma SortedTail(s: seq<string>)
    requires Sorted(s) && |s| > 0
    ensures Sorted(s[1..])
  {
    forall i, j | 0 <= i < j < |s[1..]|
      ensures StrLe(Self(s[1..][i]), Self(s[1..][j]))
    {
      assert s[1..][i] == s[i + 1] && s[1..][j] == s[j + 1];
    }
  }

  lemma MultisetTail<T>(s: seq<T>)
    requires |s| > 0
    ensures multiset(s[1..]) == multiset(s) - multiset{s[0]}
  {
    assert s == [s[0]] + s[1..];
  }

  /** Sorting forgets the order of its input. */
  lemma SortIgnoresOrder(a: seq<string>, b: seq<string>)
    requires multiset(a) == multiset(b)
    ensures Sort(a) == Sort(b)
  {
    SortedUnique(Sort(a), Sort(b));
  }

  /** Sorting a sorted list changes nothing. */
  lemma SortOfSorted(a: seq<string>)
    requires Sorted(a)
    ensures Sort(a) == a
  {
    SortedUnique(Sort(a), a);
  }

  /** The first occurrence of each element, in order: an enumeration of the
      elements' set, as list(set(xs)) gives one up to order. */
  function Dedup<T(==)>(s: seq<T>): (r: seq<T>)
    ensures NoDuplicates(r)
    ensures forall i | 0 <= i < |r| :: r[i] in s
    ensures forall i | 0 <= i < |s| :: s[i] in r
  {
    if |s| == 0 then []
    else
      var d := Dedup(s[..|s| - 1]);
      var last := s[|s| - 1];
      assert s == s[..|s| - 1] + [last];
      if last in d then d else d + [last]
  }

  /** The elements of a sequence, as a set. */
  function Elems<T>(s: seq<T>): set<T>
  {
    set x | x in s
  }

  /** A sequence without duplicates holds each of its elements once. */
  lemma {:induction false} MultisetOfDistinct<T>(s: seq<T>)
    requires NoDuplicates(s)
    ensures multiset(s) == multiset(Elems(s))
    decreases |s|
  {
    if |s| > 0 {
      var init := s[..|s| - 1];
      var last := s[|s| - 1];
      assert s == init + [last];
      assert last !in init;
      MultisetOfDistinct(init);
      assert Elems(s) == Elems(init) + {last};
    }
  }

  /** Sorting preserves the absence of duplicates. */
  lemma DistinctPermutation<T>(a: seq<T>, b: seq<T>)
    requires NoDuplicates(a)
    requires multiset(a) == multiset(b)
    ensures NoDuplicates(b)
  {
    MultisetOfDistinct(a);
    forall i, j | 0 <= i < j < |b|
      ensures b[i] != b[j]
    {
      assert b == b[..j] + b[j..];
      assert b[i] in b[..j];
      assert multiset(b)[b[j]] == multiset(b[..j])[b[j]] + multiset(b[j..])[b[j]];
      assert b[j..][0] == b[j];
      assert multiset(b)[b[j]] <= 1;
    }
  }
}
