/**
 * The stable sort behind `Array.prototype.sort` with a numeric comparator
 * `(a, b) => key(a) - key(b)`.  The page sorts twice with such a comparator:
 * the solar instants when the palette is built, and the palette plus the
 * query instant inside the colour lookup.
 *
 * The sort is written as an insertion sort.  `SortIsUnique` shows that a
 * sorted sequence keeping, for every key, the input's elements of that key in
 * their input order is unique, so any stable sort yields exactly `Sort`.
 */
module Sorting {

  /** `s` is in ascending order of `key`. */
  ghost predicate SortedBy<T>(s: seq<T>, key: T -> int) {
    forall i, j :: 0 <= i < j < |s| ==> key(s[i]) <= key(s[j])
  }

  /** Inserts `x` after every element whose key is at most `key(x)`. */
  function Insert<T>(s: seq<T>, x: T, key: T -> int): (r: seq<T>)
    ensures |r| == |s| + 1
    ensures multiset(r) == multiset(s) + multiset{x}
  {
    if s == [] || key(x) < key(s[0]) then [x] + s
    else
      assert s == [s[0]] + s[1..];
      [s[0]] + Insert(s[1..], x, key)
  }

  /** Stable sort: every element is inserted in input order. */
  function Sort<T>(xs: seq<T>, key: T -> int): (r: seq<T>)
    ensures |r| == |xs|
    ensures multiset(r) == multiset(xs)
    ensures SortedBy(r, key)
  {
    if xs == [] then []
    else
      var init, last := xs[..|xs| - 1], xs[|xs| - 1];
      assert xs == init + [last];
      var sorted := Sort(init, key);
      InsertSorted(sorted, last, key);
      Insert(sorted, last, key)
  }

  /** The number of elements of `s` whose key is at most `k`. */
  function CountAtMost<T>(s: seq<T>, key: T -> int, k: int): (n: nat)
    ensures n <= |s|
  {
    if s == [] then 0
    else (if key(s[0]) <= k then 1 else 0) + CountAtMost(s[1..], key, k)
  }

  /** The elements of `s` whose key is `k`, in their order in `s`. */
  function WithKey<T>(s: seq<T>, key: T -> int, k: int): (r: seq<T>)
    ensures |r| <= |s|
  {
    if s == [] then []
    else (if key(s[0]) == k then [s[0]] else []) + WithKey(s[1..], key, k)
  }

  lemma {:induction false} CountAllAbove<T>(s: seq<T>, key: T -> int, k: int)
    requires forall i :: 0 <= i < |s| ==> k < key(s[i])
    ensures CountAtMost(s, key, k) == 0
  {
    if s != [] {
      CountAllAbove(s[1..], key, k);
    }
  }

  /** In a sorted sequence the elements with key at most `k` are exactly a prefix. */
  lemma {:induction false} CountSplits<T>(s: seq<T>, key: T -> int, k: int)
    requires SortedBy(s, key)
    ensures var c := CountAtMost(s, key, k);
      && (forall j :: 0 <= j < c ==> key(s[j]) <= k)
      && (forall j :: c <= j < |s| ==> k < key(s[j]))
  {
    if s != [] {
      CountSplits(s[1..], key, k);
      if k < key(s[0]) {
        CountAllAbove(s[1..], key, k);
      }
    }
  }

  /** Inserting into a sorted sequence puts `x` right after the elements whose key is at most its own. */
  lemma {:induction false} InsertAt<T>(s: seq<T>, x: T, key: T -> int)
    requires SortedBy(s, key)
    ensures var c := CountAtMost(s, key, key(x));
      Insert(s, x, key) == s[..c] + [x] + s[c..]
  {
    var c := CountAtMost(s, key, key(x));
    if s == [] {
    } else if key(x) < key(s[0]) {
      CountAllAbove(s, key, key(x));
    } else {
      var rest := s[1..];
      assert SortedBy(rest, key);
      InsertAt(rest, x, key);
      var c' := CountAtMost(rest, key, key(x));
      assert c == c' + 1;
      assert s[..c] == [s[0]] + rest[..c'];
      assert s[c..] == rest[c'..];
      calc {
        Insert(s, x, key);
        [s[0]] + Insert(rest, x, key);
        [s[0]] + (rest[..c'] + [x] + rest[c'..]);
        ([s[0]] + rest[..c']) + [x] + rest[c'..];
      }
    }
  }

  /** Inserting into a sorted sequence keeps it sorted. */
  lemma {:induction false} InsertSorted<T>(s: seq<T>, x: T, key: T -> int)
    requires SortedBy(s, key)
    ensures SortedBy(Insert(s, x, key), key)
  {
    var c := CountAtMost(s, key, key(x));
    InsertAt(s, x, key);
    CountSplits(s, key, key(x));
    var r := Insert(s, x, key);
    assert forall i :: 0 <= i < |r| ==> r[i] == if i < c then s[i] else if i == c then x else s[i - 1];
    forall i, j | 0 <= i < j < |r| ensures key(r[i]) <= key(r[j]) {
      if i == c {
        assert key(r[j]) > key(x);
      } else if j == c {
        assert key(r[i]) <= key(x);
      }
    }
  }

  lemma {:induction false} CountConcat<T>(a: seq<T>, b: seq<T>, key: T -> int, k: int)
    ensures CountAtMost(a + b, key, k) == CountAtMost(a, key, k) + CountAtMost(b, key, k)
  {
    if a == [] {
      assert a + b == b;
    } else {
      assert (a + b)[0] == a[0] && (a + b)[1..] == a[1..] + b;
      CountConcat(a[1..], b, key, k);
    }
  }

  lemma {:induction false} WithKeyConcat<T>(a: seq<T>, b: seq<T>, key: T -> int, k: int)
    ensures WithKey(a + b, key, k) == WithKey(a, key, k) + WithKey(b, key, k)
  {
    if a == [] {
      assert a + b == b;
    } else {
      var head := if key(a[0]) == k then [a[0]] else [];
      assert (a + b)[0] == a[0] && (a + b)[1..] == a[1..] + b;
      calc {
        WithKey(a + b, key, k);
        head + WithKey(a[1..] + b, key, k);
        { WithKeyConcat(a[1..], b, key, k); }
        head + (WithKey(a[1..], key, k) + WithKey(b, key, k));
        (head + WithKey(a[1..], key, k)) + WithKey(b, key, k);
      }
    }
  }

  /** Inserting `x` adds one to the count of every key at or above its own. */
  lemma {:induction false} CountInsert<T>(s: seq<T>, x: T, key: T -> int, k: int)
    ensures CountAtMost(Insert(s, x, key), key, k) == CountAtMost(s, key, k) + CountAtMost([x], key, k)
  {
    assert [x][1..] == [];
    if s == [] {
    } else if key(x) < key(s[0]) {
      assert ([x] + s)[1..] == s;
    } else {
      CountInsert(s[1..], x, key, k);
      assert ([s[0]] + Insert(s[1..], x, key))[1..] == Insert(s[1..], x, key);
    }
  }

  /** Sorting keeps the number of elements at or below every key. */
  lemma {:induction false} CountSort<T>(xs: seq<T>, key: T -> int, k: int)
    ensures CountAtMost(Sort(xs, key), key, k) == CountAtMost(xs, key, k)
  {
    if xs != [] {
      var init, last := xs[..|xs| - 1], xs[|xs| - 1];
      assert xs == init + [last];
      CountSort(init, key, k);
      CountInsert(Sort(init, key), last, key, k);
      CountConcat(init, [last], key, k);
    }
  }

  lemma {:induction false} WithKeyInFront<T>(x: T, s: seq<T>, key: T -> int, k: int)
    requires forall i :: 0 <= i < |s| ==> key(x) < key(s[i])
    ensures WithKey([x] + s, key, k) == WithKey(s, key, k) + WithKey([x], key, k)
  {
    WithKeyConcat([x], s, key, k);
    if key(x) == k {
      WithKeyNone(s, key, k);
    } else {
      assert [x][1..] == [];
      assert WithKey([x], key, k) == [];
    }
  }

  /** Inserting `x` into a sorted sequence appends it to the elements of its key. */
  lemma {:induction false} InsertStable<T>(s: seq<T>, x: T, key: T -> int, k: int)
    requires SortedBy(s, key)
    ensures WithKey(Insert(s, x, key), key, k) == WithKey(s, key, k) + WithKey([x], key, k)
  {
    var mine := WithKey([x], key, k);
    assert [x][1..] == [];
    assert mine == if key(x) == k then [x] else [];
    if s == [] {
    } else if key(x) < key(s[0]) {
      assert forall i :: 0 <= i < |s| ==> key(s[0]) <= key(s[i]);
      WithKeyInFront(x, s, key, k);
    } else {
      var head := if key(s[0]) == k then [s[0]] else [];
      assert SortedBy(s[1..], key);
      InsertStable(s[1..], x, key, k);
      calc {
        WithKey(Insert(s, x, key), key, k);
        WithKey([s[0]] + Insert(s[1..], x, key), key, k);
        head + WithKey(Insert(s[1..], x, key), key, k);
        head + (WithKey(s[1..], key, k) + mine);
        (head + WithKey(s[1..], key, k)) + mine;
      }
    }
  }

  /** Sorting is stable: for every key, the elements of that key keep their input order. */
  lemma {:induction false} SortStable<T>(xs: seq<T>, key: T -> int, k: int)
    ensures WithKey(Sort(xs, key), key, k) == WithKey(xs, key, k)
  {
    if xs != [] {
      var init, last := xs[..|xs| - 1], xs[|xs| - 1];
      assert xs == init + [last];
      SortStable(init, key, k);
      InsertStable(Sort(init, key), last, key, k);
      WithKeyConcat(init, [last], key, k);
    }
  }

  lemma {:induction false} WithKeyNone<T>(s: seq<T>, key: T -> int, k: int)
    requires forall i :: 0 <= i < |s| ==> key(s[i]) != k
    ensures WithKey(s, key, k) == []
  {
    if s != [] {
      WithKeyNone(s[1..], key, k);
    }
  }

  lemma {:induction false} WithKeyMembers<T>(s: seq<T>, key: T -> int, k: int)
    ensures forall x :: x in WithKey(s, key, k) ==> x in s && key(x) == k
  {
    if s != [] {
      WithKeyMembers(s[1..], key, k);
    }
  }

  /**
   * Two sorted sequences that agree, key by key, on the order of their
   * elements are equal: a stable sort has exactly one possible output.
   */
  lemma {:induction false} SortedUnique<T>(t: seq<T>, u: seq<T>, key: T -> int)
    requires SortedBy(t, key) && SortedBy(u, key)
    requires forall k :: WithKey(t, key, k) == WithKey(u, key, k)
    ensures t == u
    decreases |t|
  {
    if t != [] {
      assert WithKey(u, key, key(t[0])) == WithKey(t, key, key(t[0])) != [];
    }
    if u != [] {
      assert WithKey(t, key, key(u[0])) == WithKey(u, key, key(u[0])) != [];
    }
    if t != [] && u != [] {
      var k0 := key(t[0]);
      WithKeyMembers(t, key, key(u[0]));
      WithKeyMembers(u, key, k0);
      assert u[0] in WithKey(t, key, key(u[0]));
      assert t[0] in WithKey(u, key, k0);
      assert key(u[0]) == k0;
      assert WithKey(t, key, k0) == [t[0]] + WithKey(t[1..], key, k0);
      assert WithKey(u, key, k0) == [u[0]] + WithKey(u[1..], key, k0);
      assert WithKey(t, key, k0)[0] == t[0] && WithKey(u, key, k0)[0] == u[0];
      forall k ensures WithKey(t[1..], key, k) == WithKey(u[1..], key, k) {
        var head := if key(t[0]) == k then [t[0]] else [];
        assert WithKey(t, key, k) == head + WithKey(t[1..], key, k);
        assert WithKey(u, key, k) == head + WithKey(u[1..], key, k);
        assert WithKey(t[1..], key, k) == WithKey(t, key, k)[|head|..];
      }
      SortedUnique(t[1..], u[1..], key);
      assert t == [t[0]] + t[1..] && u == [u[0]] + u[1..];
    }
  }

  /** Any sorted, stable rearrangement of `xs` is `Sort(xs)`. */
  lemma {:induction false} SortIsUnique<T>(xs: seq<T>, t: seq<T>, key: T -> int)
    requires SortedBy(t, key)
    requires forall k :: WithKey(t, key, k) == WithKey(xs, key, k)
    ensures t == Sort(xs, key)
  {
    forall k ensures WithKey(t, key, k) == WithKey(Sort(xs, key), key, k) {
      SortStable(xs, key, k);
    }
    SortedUnique(t, Sort(xs, key), key);
  }

  /** Sorting an already sorted sequence changes nothing. */
  lemma {:induction false} SortOfSorted<T>(xs: seq<T>, key: T -> int)
    requires SortedBy(xs, key)
    ensures Sort(xs, key) == xs
  {
    SortIsUnique(xs, xs, key);
  }
}
