/** Sorting by a key and the halving search, as the standard library's sort,
    lower_bound and binary_search do them. */
module Ordering {

  ghost predicate SortedBy<T>(xs: seq<T>, key: T -> nat) {
    forall i, j :: 0 <= i < j < |xs| ==> key(xs[i]) <= key(xs[j])
  }

  function Insert<T>(x: T, xs: seq<T>, key: T -> nat): seq<T> {
    if xs == [] then [x]
    else if key(x) <= key(xs[0]) then [x] + xs
    else [xs[0]] + Insert(x, xs[1..], key)
  }

  function Sort<T>(xs: seq<T>, key: T -> nat): seq<T> {
    if xs == [] then [] else Insert(xs[0], Sort(xs[1..], key), key)
  }

  lemma {:induction false} InsertPermutes<T>(x: T, xs: seq<T>, key: T -> nat)
    ensures multiset(Insert(x, xs, key)) == multiset(xs) + multiset{x}
  {
    if xs != [] && key(x) > key(xs[0]) {
      InsertPermutes(x, xs[1..], key);
      assert xs == [xs[0]] + xs[1..];
    }
  }

  lemma {:induction false} InsertSorts<T>(x: T, xs: seq<T>, key: T -> nat)
    requires SortedBy(xs, key)
    ensures SortedBy(Insert(x, xs, key), key)
  {
    if xs != [] && key(x) > key(xs[0]) {
      var rest := Insert(x, xs[1..], key);
      InsertSorts(x, xs[1..], key);
      InsertPermutes(x, xs[1..], key);
      forall k | 0 <= k < |rest| ensures key(xs[0]) <= key(rest[k]) {
        assert rest[k] in multiset(rest);
      }
    }
  }

  /** Sorting orders the sequence and keeps its elements. */
  lemma {:induction false} SortIsSorting<T>(xs: seq<T>, key: T -> nat)
    ensures SortedBy(Sort(xs, key), key) && multiset(Sort(xs, key)) == multiset(xs)
  {
    if xs != [] {
      SortIsSorting(xs[1..], key);
      InsertPermutes(xs[0], Sort(xs[1..], key), key);
      InsertSorts(xs[0], Sort(xs[1..], key), key);
      assert xs == [xs[0]] + xs[1..];
    }
  }

  lemma SamePermutedElements<T>(xs: seq<T>, ys: seq<T>, x: T)
    requires multiset(xs) == multiset(ys)
    ensures x in xs <==> x in ys
  {
    assert x in xs <==> x in multiset(xs);
  }

  // A number is its own key.
  function Value(v: nat): nat { v }

  // Where the halving search for the first element not below the probe ends
  // within xs[lo..lo + len], sorted or not.
  ghost function Bound<T>(xs: seq<T>, key: T -> nat, probe: nat, lo: nat, len: nat): (at: nat)
    requires lo + len <= |xs|
    ensures lo <= at <= lo + len
    ensures at < lo + len ==> probe <= key(xs[at])
    decreases len
  {
    var mid := lo + len / 2;
    if len == 0 then lo
    else if key(xs[mid]) < probe then Bound(xs, key, probe, mid + 1, len - len / 2 - 1)
    else Bound(xs, key, probe, lo, len / 2)
  }

  /** On a sorted sequence the search ends at the partition point. */
  lemma {:induction false} BoundPartitions<T>(xs: seq<T>, key: T -> nat, probe: nat, lo: nat, len: nat)
    requires SortedBy(xs, key) && lo + len <= |xs|
    ensures forall i :: lo <= i < Bound(xs, key, probe, lo, len) ==> key(xs[i]) < probe
    decreases len
  {
    var half := len / 2;
    if len > 0 && key(xs[lo + half]) < probe {
      BoundPartitions(xs, key, probe, lo + half + 1, len - half - 1);
    } else if len > 0 {
      BoundPartitions(xs, key, probe, lo, half);
    }
  }

  /** lower_bound, by halving. */
  method LowerBound<T>(xs: seq<T>, key: T -> nat, probe: nat) returns (lo: nat)
    ensures lo == Bound(xs, key, probe, 0, |xs|)
    ensures SortedBy(xs, key) ==> forall i :: 0 <= i < lo ==> key(xs[i]) < probe
    ensures SortedBy(xs, key) ==> forall i :: lo <= i < |xs| ==> probe <= key(xs[i])
  {
    lo := 0;
    var len := |xs|;
    while len > 0
      invariant 0 <= len && lo + len <= |xs|
      invariant Bound(xs, key, probe, lo, len) == Bound(xs, key, probe, 0, |xs|)
    {
      var half := len / 2;
      if key(xs[lo + half]) < probe {
        lo, len := lo + half + 1, len - half - 1;
      } else {
        len := half;
      }
    }
    if SortedBy(xs, key) {
      BoundPartitions(xs, key, probe, 0, |xs|);
    }
  }

  // What the halving search answers on any words, sorted or not.
  ghost predicate Found(xs: seq<nat>, x: nat) {
    var at := Bound(xs, Value, x, 0, |xs|);
    at < |xs| && xs[at] == x
  }

  /** binary_search: what the halving finds, which on a sorted sequence is
      membership. */
  method BinarySearch(xs: seq<nat>, x: nat) returns (found: bool)
    ensures found <==> Found(xs, x)
    ensures SortedBy(xs, Value) ==> (found <==> x in xs)
  {
    var i := LowerBound(xs, Value, x);
    found := i < |xs| && !(x < xs[i]);
  }

  lemma FoundInSorted(xs: seq<nat>, x: nat)
    requires SortedBy(xs, Value)
    ensures Found(xs, x) <==> x in xs
  {
    BoundPartitions(xs, Value, x, 0, |xs|);
  }

  ghost predicate Distinct<T(!new)>(xs: seq<T>) {
    forall i, j :: 0 <= i < j < |xs| ==> xs[i] != xs[j]
  }

  // Searching for each of xs[lo..lo + len] there ends at its own place.
  ghost predicate InPlace(xs: seq<nat>, lo: nat, len: nat)
    requires lo + len <= |xs|
  {
    forall i :: lo <= i < lo + len ==> EndsAt(xs, lo, len, i)
  }

  ghost predicate EndsAt(xs: seq<nat>, lo: nat, len: nat, i: nat)
    requires lo + len <= |xs| && lo <= i < lo + len
  {
    Bound(xs, Value, xs[i], lo, len) == i
  }

  lemma EndsInHalf(xs: seq<nat>, lo: nat, len: nat, i: nat)
    requires lo + len <= |xs| && lo <= i < lo + len && EndsAt(xs, lo, len, i)
    ensures var mid := lo + len / 2;
            && (i < mid ==> xs[i] <= xs[mid] && EndsAt(xs, lo, len / 2, i))
            && (i > mid ==> xs[mid] < xs[i] && EndsAt(xs, mid + 1, len - len / 2 - 1, i))
  {
  }

  lemma {:induction false} InPlaceIsSorted(xs: seq<nat>, lo: nat, len: nat)
    requires lo + len <= |xs| && InPlace(xs, lo, len)
    ensures forall i, j :: lo <= i < j < lo + len ==> xs[i] <= xs[j]
    decreases len
  {
    hide EndsAt;
    if len > 0 {
      var half := len / 2;
      var mid := lo + half;
      forall i | lo <= i < mid ensures xs[i] <= xs[mid] && EndsAt(xs, lo, half, i) {
        EndsInHalf(xs, lo, len, i);
      }
      InPlaceIsSorted(xs, lo, half);
      var next, rest := mid + 1, len - half - 1;
      forall i | next <= i < next + rest ensures xs[mid] < xs[i] && EndsAt(xs, next, rest, i) {
        EndsInHalf(xs, lo, len, i);
      }
      InPlaceIsSorted(xs, next, rest);
    }
  }

  /** For distinct words the halving search answers membership for every probe
      exactly when the words are sorted. */
  lemma SearchIsExact(xs: seq<nat>)
    requires Distinct(xs)
    ensures (forall x :: Found(xs, x) <==> x in xs) <==> SortedBy(xs, Value)
  {
    if SortedBy(xs, Value) {
      forall x ensures Found(xs, x) <==> x in xs {
        FoundInSorted(xs, x);
      }
    } else if forall x :: Found(xs, x) <==> x in xs {
      forall i | 0 <= i < |xs| ensures EndsAt(xs, 0, |xs|, i) {
        assert Found(xs, xs[i]);
      }
      InPlaceIsSorted(xs, 0, |xs|);
      assert false;
    }
  }
}
