/**
 * Array.prototype.sort with a numeric comparator, as the history and
 * dashboard views use it: a stable sort, here on the key the comparator
 * subtracts (negated for a descending order).
 */
module Sorting {
  import opened Lists

  /** Keys never decrease along `xs`. */
  predicate SortedBy<T>(xs: seq<T>, key: T -> real)
  {
    forall i, j :: 0 <= i < j < |xs| ==> key(xs[i]) <= key(xs[j])
  }

  /** Puts `x` into a list after every leading element whose key is not greater. */
  function Insert<T>(x: T, xs: seq<T>, key: T -> real): (r: seq<T>)
    ensures multiset(r) == multiset(xs) + multiset{x}
    ensures |r| == |xs| + 1
  {
    if xs == [] then [x]
    else if key(x) < key(xs[0]) then [x] + xs
    else
      assert xs == [xs[0]] + xs[1..];
      [xs[0]] + Insert(x, xs[1..], key)
  }

  /** Inserting into a sorted list keeps it sorted. */
  lemma {:induction false} InsertSorted<T>(x: T, xs: seq<T>, key: T -> real)
    requires SortedBy(xs, key)
    ensures SortedBy(Insert(x, xs, key), key)
  {
    if xs != [] && key(x) >= key(xs[0]) {
      InsertSorted(x, xs[1..], key);
      var rest := Insert(x, xs[1..], key);
      forall j | 0 <= j < |rest| ensures key(xs[0]) <= key(rest[j]) {
        assert rest[j] in multiset(rest);
        if rest[j] != x {
          assert rest[j] in xs[1..];
        }
      }
    }
  }

  /** The stable sort: each element in turn is inserted after the ones already placed with equal keys. */
  function SortBy<T>(xs: seq<T>, key: T -> real): (r: seq<T>)
    ensures SortedBy(r, key)
    ensures multiset(r) == multiset(xs)
    ensures |r| == |xs|
  {
    if xs == [] then []
    else
      var init, last := xs[..|xs| - 1], xs[|xs| - 1];
      assert xs == init + [last];
      InsertSorted(last, SortBy(init, key), key);
      Insert(last, SortBy(init, key), key)
  }

  /** The elements of `xs` whose key is `k`, in order. */
  function WithKey<T(!new)>(xs: seq<T>, key: T -> real, k: real): seq<T>
  {
    Filter(xs, HasKey(key, k))
  }

  /** The test "has key `k`". */
  function HasKey<T>(key: T -> real, k: real): T -> bool
  {
    x => key(x) == k
  }

  /** Inserting `x` adds it after the elements with its key and leaves the other keys' elements alone. */
  lemma {:induction false} InsertWithKey<T(!new)>(x: T, xs: seq<T>, key: T -> real, k: real)
    requires SortedBy(xs, key)
    ensures WithKey(Insert(x, xs, key), key, k)
         == WithKey(xs, key, k) + (if key(x) == k then [x] else [])
  {
    if xs == [] {
      FilterSingle(x, HasKey(key, k));
    } else if key(x) < key(xs[0]) {
      InsertFrontWithKey(x, xs, key, k);
    } else {
      InsertWithKey(x, xs[1..], key, k);
      ConsWithKey(xs[0], xs[1..], key, k);
      ConsWithKey(xs[0], Insert(x, xs[1..], key), key, k);
      assert xs == [xs[0]] + xs[1..];
    }
  }

  /** Filtering by key splits off the head of a list. */
  lemma ConsWithKey<T(!new)>(y: T, ys: seq<T>, key: T -> real, k: real)
    ensures WithKey([y] + ys, key, k) == WithKey([y], key, k) + WithKey(ys, key, k)
  {
    FilterAppend([y], ys, HasKey(key, k));
  }

  /** An element put in front of a sorted list whose keys all exceed its own. */
  lemma InsertFrontWithKey<T(!new)>(x: T, xs: seq<T>, key: T -> real, k: real)
    requires SortedBy(xs, key) && xs != [] && key(x) < key(xs[0])
    ensures WithKey([x] + xs, key, k) == WithKey(xs, key, k) + (if key(x) == k then [x] else [])
  {
    var p := HasKey(key, k);
    FilterAppend([x], xs, p);
    FilterSingle(x, p);
    if key(x) == k {
      forall i | 0 <= i < |xs| ensures !p(xs[i]) {
        assert i == 0 || key(xs[0]) <= key(xs[i]);
      }
      FilterNone(xs, p);
    }
  }

  /**
   * The sort is stable: the elements sharing any one key come out in the
   * order they went in.
   */
  lemma {:induction false} SortStable<T(!new)>(xs: seq<T>, key: T -> real, k: real)
    ensures WithKey(SortBy(xs, key), key, k) == WithKey(xs, key, k)
  {
    if xs != [] {
      var init, last := xs[..|xs| - 1], xs[|xs| - 1];
      assert xs == init + [last];
      SortByLast(xs, key);
      SortStable(init, key, k);
      InsertWithKey(last, SortBy(init, key), key, k);
      WithKeySnoc(init, last, key, k);
    }
  }

  /** Filtering by key splits off the last element of a list. */
  lemma WithKeySnoc<T(!new)>(init: seq<T>, last: T, key: T -> real, k: real)
    ensures WithKey(init + [last], key, k) == WithKey(init, key, k) + (if key(last) == k then [last] else [])
  {
    FilterAppend(init, [last], HasKey(key, k));
    FilterSingle(last, HasKey(key, k));
  }

  /** The sort places the last element into the sorted rest. */
  lemma SortByLast<T>(xs: seq<T>, key: T -> real)
    requires xs != []
    ensures SortBy(xs, key) == Insert(xs[|xs| - 1], SortBy(xs[..|xs| - 1], key), key)
  {
  }

  /** A list that is already sorted comes back unchanged. */
  lemma {:induction false} SortSorted<T>(xs: seq<T>, key: T -> real)
    requires SortedBy(xs, key)
    ensures SortBy(xs, key) == xs
  {
    if xs != [] {
      var init, last := xs[..|xs| - 1], xs[|xs| - 1];
      SortSorted(init, key);
      InsertLast(last, init, key);
    }
  }

  /** An element whose key is not below any key of the sorted list goes at its end. */
  lemma {:induction false} InsertLast<T>(x: T, xs: seq<T>, key: T -> real)
    requires SortedBy(xs, key)
    requires forall i :: 0 <= i < |xs| ==> key(xs[i]) <= key(x)
    ensures Insert(x, xs, key) == xs + [x]
  {
    if xs != [] {
      InsertLast(x, xs[1..], key);
    }
  }

  /** Any filtered part of a sorted list is sorted. */
  lemma FilterSorted<T(!new)>(xs: seq<T>, key: T -> real, p: T -> bool)
    requires SortedBy(xs, key)
    ensures SortedBy(Filter(xs, p), key)
    decreases |xs|
  {
    if xs != [] {
      FilterSorted(xs[1..], key, p);
      var rest := Filter(xs[1..], p);
      forall j | 0 <= j < |rest| ensures key(xs[0]) <= key(rest[j]) {
        FilterMember(xs[1..], p, rest[j]);
      }
    }
  }

  /** In a sorted list, nothing after position `m` has a smaller key than anything before it. */
  lemma PrefixLeast<T>(s: seq<T>, key: T -> real, m: nat)
    requires SortedBy(s, key) && m <= |s|
    ensures forall x, y :: x in s[m..] && y in s[..m] ==> key(y) <= key(x)
  {
    forall x, y | x in s[m..] && y in s[..m] ensures key(y) <= key(x) {
      var i :| 0 <= i < m && s[..m][i] == y;
      var j :| 0 <= j < |s| - m && s[m..][j] == x;
      assert s[i] == y && s[m + j] == x;
    }
  }

  /** What a prefix of a list leaves out is the rest of the list. */
  lemma PrefixRest<T>(s: seq<T>, m: nat)
    requires m <= |s|
    ensures multiset(s) - multiset(s[..m]) == multiset(s[m..])
    ensures multiset(s[..m]) <= multiset(s)
  {
    assert s == s[..m] + s[m..];
  }

  /**
   * The first `n` elements of the sorted list are drawn from the input, and
   * nothing left out has a smaller key than anything kept.
   */
  lemma SortedPrefixLeast<T>(xs: seq<T>, key: T -> real, n: nat)
    ensures var s := SortBy(xs, key);
            var r := s[..if n < |s| then n else |s|];
            multiset(r) <= multiset(xs)
            && forall x, y :: x in multiset(xs) - multiset(r) && y in r ==> key(y) <= key(x)
  {
    var s := SortBy(xs, key);
    var m := if n < |s| then n else |s|;
    PrefixRest(s, m);
    PrefixLeast(s, key, m);
  }
}
