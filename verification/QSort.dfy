/** The C library's qsort: some rearrangement in the order of a comparator.
    An insertion sort stands for it; its users rely only on SortIsSort. */
module QSort {

  /** What a comparator must be for sorting to make sense. */
  ghost predicate TotalOrder<T(!new)>(le: (T, T) -> bool) {
    && (forall a, b :: le(a, b) || le(b, a))
    && (forall a, b, c :: le(a, b) && le(b, c) ==> le(a, c))
  }

  predicate Sorted<T>(le: (T, T) -> bool, s: seq<T>) {
    forall i, j :: 0 <= i < j < |s| ==> le(s[i], s[j])
  }

  function Insert<T>(le: (T, T) -> bool, x: T, s: seq<T>): seq<T> {
    if s == [] || le(x, s[0]) then [x] + s else [s[0]] + Insert(le, x, s[1..])
  }

  function Sort<T>(le: (T, T) -> bool, s: seq<T>): seq<T> {
    if s == [] then [] else Insert(le, s[0], Sort(le, s[1..]))
  }

  lemma {:induction false} InsertElements<T>(le: (T, T) -> bool, x: T, s: seq<T>)
    ensures multiset(Insert(le, x, s)) == multiset{x} + multiset(s)
  {
    if s == [] || le(x, s[0]) {
    } else {
      InsertElements(le, x, s[1..]);
      assert s == [s[0]] + s[1..];
    }
  }

  lemma InsertMembers<T>(le: (T, T) -> bool, x: T, s: seq<T>, y: T)
    requires y in Insert(le, x, s)
    ensures y == x || y in s
  {
    InsertElements(le, x, s);
    assert y in multiset(Insert(le, x, s));
  }

  lemma {:induction false} InsertSorted<T(!new)>(le: (T, T) -> bool, x: T, s: seq<T>)
    requires TotalOrder(le) && Sorted(le, s)
    ensures Sorted(le, Insert(le, x, s))
  {
    if s == [] || le(x, s[0]) {
    } else {
      var tail := Insert(le, x, s[1..]);
      InsertSorted(le, x, s[1..]);
      forall j | 0 <= j < |tail| ensures le(s[0], tail[j]) {
        InsertMembers(le, x, s[1..], tail[j]);
      }
    }
  }

  /** Sorting gives the same elements, as often, in order. */
  lemma {:induction false} SortIsSort<T(!new)>(le: (T, T) -> bool, s: seq<T>)
    requires TotalOrder(le)
    ensures Sorted(le, Sort(le, s))
    ensures multiset(Sort(le, s)) == multiset(s)
    ensures |Sort(le, s)| == |s|
  {
    if s == [] {
    } else {
      SortIsSort(le, s[1..]);
      InsertSorted(le, s[0], Sort(le, s[1..]));
      InsertElements(le, s[0], Sort(le, s[1..]));
      assert s == [s[0]] + s[1..];
    }
    assert |multiset(Sort(le, s))| == |multiset(s)|;
  }

  predicate DistinctBy<T, K(==)>(key: T -> K, s: seq<T>) {
    forall i, j :: 0 <= i < j < |s| ==> key(s[i]) != key(s[j])
  }

  /** An element that stands at two places counts twice. */
  lemma Twice<T>(s: seq<T>, i: nat, j: nat)
    requires i < j < |s| && s[i] == s[j]
    ensures multiset(s)[s[i]] >= 2
  {
    assert s == s[..i] + [s[i]] + s[i + 1..j] + [s[j]] + s[j + 1..];
  }

  /** Distinct keys: every element counts at most once. */
  lemma {:induction false} Once<T, K>(key: T -> K, s: seq<T>, x: T)
    requires DistinctBy(key, s)
    ensures multiset(s)[x] <= 1
    decreases |s|
  {
    if s == [] {
    } else {
      var front, last := s[..|s| - 1], s[|s| - 1];
      assert s == front + [last];
      Once(key, front, x);
      assert forall i :: 0 <= i < |front| ==> front[i] == s[i] && key(s[i]) != key(last);
    }
  }

  /** A rearrangement keeps keys distinct and elements the same. */
  lemma Rearranged<T(!new), K>(key: T -> K, s: seq<T>, s': seq<T>)
    requires DistinctBy(key, s) && multiset(s') == multiset(s)
    ensures DistinctBy(key, s')
    ensures forall x :: x in s' <==> x in s
  {
    forall x ensures x in s' <==> x in s {
      assert x in s' <==> x in multiset(s');
      assert x in s <==> x in multiset(s);
    }
    forall i, j | 0 <= i < j < |s'| ensures key(s'[i]) != key(s'[j]) {
      assert s'[i] in s && s'[j] in s;
      var p :| 0 <= p < |s| && s[p] == s'[i];
      var q :| 0 <= q < |s| && s[q] == s'[j];
      if p == q {
        Twice(s', i, j);
        Once(key, s, s'[i]);
      }
    }
  }

  lemma TailKept<T, K>(le: (T, T) -> bool, key: T -> K, s: seq<T>)
    requires |s| > 0
    ensures Sorted(le, s) ==> Sorted(le, s[1..])
    ensures DistinctBy(key, s) ==> DistinctBy(key, s[1..])
  {
  }
}
