/** Order-preserving selection from a sequence, the shape shared by the
    list comprehensions and `Array.filter` calls of both scrapers. */
module Seqs {

  /** The elements of `s` that satisfy `p`, in their original order. */
  function Filter<T(==)>(p: T -> bool, s: seq<T>): (r: seq<T>)
    ensures |r| <= |s|
  {
    if s == [] then []
    else (if p(s[0]) then [s[0]] else []) + Filter(p, s[1..])
  }

  /** What is kept is exactly the elements that pass the test. */
  lemma {:induction false} FilterMembers<T>(p: T -> bool, s: seq<T>)
    ensures forall i :: 0 <= i < |Filter(p, s)| ==> Filter(p, s)[i] in s && p(Filter(p, s)[i])
    ensures forall i :: 0 <= i < |s| && p(s[i]) ==> s[i] in Filter(p, s)
  {
    if s != [] {
      FilterMembers(p, s[1..]);
      var r, rest := Filter(p, s), Filter(p, s[1..]);
      forall i | 0 <= i < |r| ensures r[i] in s && p(r[i]) {
        if !p(s[0]) || i > 0 {
          var k := if p(s[0]) then i - 1 else i;
          assert r[i] == rest[k];
          assert rest[k] in s[1..];
        }
      }
      forall i | 0 <= i < |s| && p(s[i]) ensures s[i] in r {
        if i > 0 {
          assert s[i] == s[1..][i - 1];
        }
      }
    }
  }

  /** Filtering commutes with concatenation: what is kept from a prefix comes
      before what is kept from the rest, so the original order survives. */
  lemma {:induction false} FilterAppend<T>(p: T -> bool, a: seq<T>, b: seq<T>)
    ensures Filter(p, a + b) == Filter(p, a) + Filter(p, b)
  {
    if a == [] {
      assert a + b == b;
    } else {
      var head := if p(a[0]) then [a[0]] else [];
      assert (a + b)[0] == a[0];
      assert (a + b)[1..] == a[1..] + b;
      assert Filter(p, a + b) == head + Filter(p, a[1..] + b);
      FilterAppend(p, a[1..], b);
      assert Filter(p, a) == head + Filter(p, a[1..]);
    }
  }

  // -----------------------------------------------------------------------
  // Stable sort by a key, as `list.sort(key=...)`

  predicate SortedBy<T>(s: seq<T>, key: T -> int) {
    forall i, j :: 0 <= i < j < |s| ==> key(s[i]) <= key(s[j])
  }

  /** `x` placed before the first element whose key is greater than its
      own, so after every element with an equal key. */
  function InsertBy<T>(t: seq<T>, x: T, key: T -> int): (r: seq<T>)
    ensures |r| == |t| + 1
  {
    if t == [] then [x]
    else if key(x) < key(t[0]) then [x] + t
    else [t[0]] + InsertBy(t[1..], x, key)
  }

  /** Insertion sort by key, the last element inserted into the sorted rest. */
  function SortBy<T>(s: seq<T>, key: T -> int): (r: seq<T>)
    ensures |r| == |s|
  {
    if s == [] then [] else InsertBy(SortBy(s[..|s| - 1], key), s[|s| - 1], key)
  }

  /** Inserting adds exactly `x`. */
  lemma {:induction false} InsertByPermutation<T>(t: seq<T>, x: T, key: T -> int)
    ensures multiset(InsertBy(t, x, key)) == multiset(t) + multiset{x}
  {
    if t == [] {
    } else if key(x) < key(t[0]) {
      assert multiset([x] + t) == multiset{x} + multiset(t);
    } else {
      var rest := InsertBy(t[1..], x, key);
      InsertByPermutation(t[1..], x, key);
      assert multiset([t[0]] + rest) == multiset{t[0]} + multiset(rest);
      assert t == [t[0]] + t[1..];
      assert multiset(t) == multiset{t[0]} + multiset(t[1..]);
    }
  }

  /** A bound below every key of `t` and of `x` stays below every key after
      the insertion. */
  lemma {:induction false} InsertByLowerBound<T>(t: seq<T>, x: T, key: T -> int, b: int)
    requires forall i :: 0 <= i < |t| ==> b <= key(t[i])
    requires b <= key(x)
    ensures forall j :: 0 <= j < |t| + 1 ==> b <= key(InsertBy(t, x, key)[j])
  {
    if t != [] && key(x) >= key(t[0]) {
      InsertByLowerBound(t[1..], x, key, b);
    }
  }

  /** Inserting into a sorted sequence keeps it sorted. */
  lemma {:induction false} InsertByOrdered<T>(t: seq<T>, x: T, key: T -> int)
    requires SortedBy(t, key)
    ensures SortedBy(InsertBy(t, x, key), key)
  {
    if t != [] && key(x) >= key(t[0]) {
      InsertByOrdered(t[1..], x, key);
      InsertByLowerBound(t[1..], x, key, key(t[0]));
    }
  }

  /** The sorted sequence is ordered by key. */
  lemma {:induction false} SortByOrdered<T>(s: seq<T>, key: T -> int)
    ensures SortedBy(SortBy(s, key), key)
  {
    if s != [] {
      SortByOrdered(s[..|s| - 1], key);
      InsertByOrdered(SortBy(s[..|s| - 1], key), s[|s| - 1], key);
    }
  }

  /** The sorted sequence is a permutation of `s`. */
  lemma {:induction false} SortByPermutation<T>(s: seq<T>, key: T -> int)
    ensures multiset(SortBy(s, key)) == multiset(s)
  {
    if s != [] {
      var init, last := s[..|s| - 1], s[|s| - 1];
      assert SortBy(s, key) == InsertBy(SortBy(init, key), last, key);
      SortByPermutation(init, key);
      InsertByPermutation(SortBy(init, key), last, key);
      assert s == init + [last];
      assert multiset(s) == multiset(init) + multiset{last};
    }
  }

  /** The elements of `s` whose key is `k`, in order. */
  function WithKey<T>(s: seq<T>, key: T -> int, k: int): seq<T> {
    if s == [] then [] else (if key(s[0]) == k then [s[0]] else []) + WithKey(s[1..], key, k)
  }

  lemma {:induction false} WithKeyAppend<T>(a: seq<T>, b: seq<T>, key: T -> int, k: int)
    ensures WithKey(a + b, key, k) == WithKey(a, key, k) + WithKey(b, key, k)
  {
    if a == [] {
      assert a + b == b;
    } else {
      var head := if key(a[0]) == k then [a[0]] else [];
      assert (a + b)[0] == a[0];
      assert (a + b)[1..] == a[1..] + b;
      assert WithKey(a + b, key, k) == head + WithKey(a[1..] + b, key, k);
      WithKeyAppend(a[1..], b, key, k);
      assert WithKey(a, key, k) == head + WithKey(a[1..], key, k);
    }
  }

  lemma {:induction false} WithKeyAbsent<T>(s: seq<T>, key: T -> int, k: int)
    requires forall i :: 0 <= i < |s| ==> key(s[i]) != k
    ensures WithKey(s, key, k) == []
  {
    if s != [] {
      WithKeyAbsent(s[1..], key, k);
    }
  }

  /** Inserting `x` adds it after every element that shares its key. */
  lemma {:induction false} InsertByWithKey<T>(t: seq<T>, x: T, key: T -> int, k: int)
    requires SortedBy(t, key)
    ensures WithKey(InsertBy(t, x, key), key, k) == WithKey(t, key, k) + (if key(x) == k then [x] else [])
  {
    var mine := if key(x) == k then [x] else [];
    if t == [] {
      assert [x][1..] == [];
    } else if key(x) < key(t[0]) {
      assert ([x] + t)[1..] == t;
      assert WithKey([x] + t, key, k) == mine + WithKey(t, key, k);
      if key(x) == k {
        forall i | 0 <= i < |t| ensures key(t[i]) != k {
          assert key(t[0]) <= key(t[i]);
        }
        WithKeyAbsent(t, key, k);
      }
    } else {
      var head := if key(t[0]) == k then [t[0]] else [];
      var rest := InsertBy(t[1..], x, key);
      assert ([t[0]] + rest)[1..] == rest;
      assert WithKey([t[0]] + rest, key, k) == head + WithKey(rest, key, k);
      InsertByWithKey(t[1..], x, key, k);
      assert WithKey(t, key, k) == head + WithKey(t[1..], key, k);
    }
  }

  /** The sort is stable: for every key, the elements with that key keep
      their relative order, and none is lost or added. */
  lemma {:induction false} SortByStable<T>(s: seq<T>, key: T -> int, k: int)
    ensures WithKey(SortBy(s, key), key, k) == WithKey(s, key, k)
  {
    if s != [] {
      var init, last := s[..|s| - 1], s[|s| - 1];
      var sortedInit := SortBy(init, key);
      assert SortBy(s, key) == InsertBy(sortedInit, last, key);
      SortByOrdered(init, key);
      SortByStable(init, key, k);
      InsertByWithKey(sortedInit, last, key, k);
      assert s == init + [last];
      WithKeyAppend(init, [last], key, k);
      assert [last][1..] == [];
    }
  }
}
