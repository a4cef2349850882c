/** Python's `list.sort(key=...)`: a stable sort that compares the keys of the
    elements with `<`. Modelled as insertion of each element in turn into the
    sorted prefix, for any key function and any strict order on its keys. */
module StableSort {

  /** `less` is irreflexive and transitive on the keys of all elements. */
  ghost predicate StrictOrderOn<T(!new), K>(key: T -> K, less: (K, K) -> bool) {
    && (forall x :: !less(key(x), key(x)))
    && (forall x, y, z :: less(key(x), key(y)) && less(key(y), key(z)) ==> less(key(x), key(z)))
  }

  /** Inserts `x` just before the first element whose key is greater than its
      key, so after every element it ties with. */
  function Insert<T, K>(sorted: seq<T>, x: T, key: T -> K, less: (K, K) -> bool): seq<T> {
    if sorted == [] then [x]
    else if less(key(x), key(sorted[0])) then [x] + sorted
    else [sorted[0]] + Insert(sorted[1..], x, key, less)
  }

  function Sort<T, K>(xs: seq<T>, key: T -> K, less: (K, K) -> bool): seq<T> {
    if xs == [] then []
    else Insert(Sort(xs[..|xs| - 1], key, less), xs[|xs| - 1], key, less)
  }

  lemma {:induction false} InsertPermutes<T, K>(sorted: seq<T>, x: T, key: T -> K, less: (K, K) -> bool)
    ensures multiset(Insert(sorted, x, key, less)) == multiset(sorted) + multiset{x}
  {
    if sorted != [] && !less(key(x), key(sorted[0])) {
      InsertPermutes(sorted[1..], x, key, less);
      assert sorted == [sorted[0]] + sorted[1..];
    }
  }

  lemma {:induction false} SortPermutes<T, K>(xs: seq<T>, key: T -> K, less: (K, K) -> bool)
    ensures multiset(Sort(xs, key, less)) == multiset(xs)
  {
    if xs != [] {
      SortPermutes(xs[..|xs| - 1], key, less);
      InsertPermutes(Sort(xs[..|xs| - 1], key, less), xs[|xs| - 1], key, less);
      assert xs == xs[..|xs| - 1] + [xs[|xs| - 1]];
    }
  }

  /** The elements of an insertion are `x` and the elements of the list. */
  lemma {:induction false} InsertMember<T, K>(sorted: seq<T>, x: T, key: T -> K, less: (K, K) -> bool, y: T)
    requires y in Insert(sorted, x, key, less)
    ensures y == x || y in sorted
  {
    if sorted != [] && !less(key(x), key(sorted[0])) {
      if y != sorted[0] {
        InsertMember(sorted[1..], x, key, less, y);
      }
    }
  }

  /** No element has a smaller key than an element before it. */
  ghost predicate Sorted<T, K>(xs: seq<T>, key: T -> K, less: (K, K) -> bool) {
    forall i, j :: 0 <= i < j < |xs| ==> !less(key(xs[j]), key(xs[i]))
  }

  /** The elements whose key is `k`, in list order. */
  function WithKey<T, K(==)>(xs: seq<T>, key: T -> K, k: K): seq<T> {
    if xs == [] then []
    else (if key(xs[0]) == k then [xs[0]] else []) + WithKey(xs[1..], key, k)
  }

  lemma {:induction false} WithKeyAppend<T, K>(a: seq<T>, b: seq<T>, key: T -> K, k: K)
    ensures WithKey(a + b, key, k) == WithKey(a, key, k) + WithKey(b, key, k)
  {
    if a == [] {
      assert a + b == b;
    } else {
      var head := if key(a[0]) == k then [a[0]] else [];
      assert (a + b)[0] == a[0] && (a + b)[1..] == a[1..] + b;
      assert WithKey(a + b, key, k) == head + WithKey(a[1..] + b, key, k);
      WithKeyAppend(a[1..], b, key, k);
      assert WithKey(a, key, k) == head + WithKey(a[1..], key, k);
    }
  }

  lemma {:induction false} WithKeyNone<T, K>(xs: seq<T>, key: T -> K, k: K)
    requires forall i :: 0 <= i < |xs| ==> key(xs[i]) != k
    ensures WithKey(xs, key, k) == []
  {
    if xs != [] {
      WithKeyNone(xs[1..], key, k);
    }
  }

  /** An element that is smaller than none of a sorted list stays sorted in front of it. */
  lemma SortedCons<T, K>(x: T, xs: seq<T>, key: T -> K, less: (K, K) -> bool)
    requires Sorted(xs, key, less)
    requires forall j :: 0 <= j < |xs| ==> !less(key(xs[j]), key(x))
    ensures Sorted([x] + xs, key, less)
  {
    var r := [x] + xs;
    forall i, j | 0 <= i < j < |r| ensures !less(key(r[j]), key(r[i])) {
      if i > 0 {
        assert r[i] == xs[i - 1];
      }
      assert r[j] == xs[j - 1];
    }
  }

  /** Inserting in front: x is smaller than the head, hence than every element,
      and no element ties with it. */
  lemma InsertFront<T(!new), K>(sorted: seq<T>, x: T, key: T -> K, less: (K, K) -> bool)
    requires StrictOrderOn(key, less)
    requires Sorted(sorted, key, less) && sorted != [] && less(key(x), key(sorted[0]))
    ensures Sorted([x] + sorted, key, less)
    ensures forall i :: 0 <= i < |sorted| ==> key(sorted[i]) != key(x)
  {
    forall j | 0 <= j < |sorted| ensures !less(key(sorted[j]), key(x)) && key(sorted[j]) != key(x) {
      assert !less(key(sorted[j]), key(sorted[0]));
    }
    SortedCons(x, sorted, key, less);
  }

  /** Inserting further on: the head stays first and is smaller than nothing after it. */
  lemma InsertLater<T, K>(sorted: seq<T>, x: T, key: T -> K, less: (K, K) -> bool)
    requires Sorted(sorted, key, less) && sorted != [] && !less(key(x), key(sorted[0]))
    requires Sorted(Insert(sorted[1..], x, key, less), key, less)
    ensures Sorted([sorted[0]] + Insert(sorted[1..], x, key, less), key, less)
  {
    var head, tail := sorted[0], sorted[1..];
    var rest := Insert(tail, x, key, less);
    forall j | 0 <= j < |rest| ensures !less(key(rest[j]), key(head)) {
      InsertMember(tail, x, key, less, rest[j]);
      if rest[j] != x {
        var k :| 0 <= k < |tail| && tail[k] == rest[j];
        assert sorted[k + 1] == rest[j];
      }
    }
    SortedCons(head, rest, key, less);
  }

  /** Insertion into a sorted list keeps it sorted. */
  lemma {:induction false} InsertSorted<T(!new), K>(sorted: seq<T>, x: T, key: T -> K, less: (K, K) -> bool)
    requires StrictOrderOn(key, less)
    requires Sorted(sorted, key, less)
    ensures Sorted(Insert(sorted, x, key, less), key, less)
    decreases |sorted|
  {
    if sorted == [] {
    } else if less(key(x), key(sorted[0])) {
      InsertFront(sorted, x, key, less);
    } else {
      var tail := sorted[1..];
      assert Sorted(tail, key, less) by {
        forall i, j | 0 <= i < j < |tail| ensures !less(key(tail[j]), key(tail[i])) {
          assert tail[i] == sorted[i + 1] && tail[j] == sorted[j + 1];
        }
      }
      InsertSorted(tail, x, key, less);
      InsertLater(sorted, x, key, less);
    }
  }

  /** Insertion into a sorted list puts `x` after every element with its key. */
  lemma {:induction false} InsertWithKey<T(!new), K>(sorted: seq<T>, x: T, key: T -> K, less: (K, K) -> bool, k: K)
    requires StrictOrderOn(key, less)
    requires Sorted(sorted, key, less)
    ensures WithKey(Insert(sorted, x, key, less), key, k)
      == WithKey(sorted, key, k) + (if key(x) == k then [x] else [])
    decreases |sorted|
  {
    var r := Insert(sorted, x, key, less);
    if sorted == [] {
      assert r == [x];
      assert WithKey(r, key, k) == (if key(x) == k then [x] else []) + WithKey(r[1..], key, k);
    } else if less(key(x), key(sorted[0])) {
      assert r == [x] + sorted && r[1..] == sorted;
      if key(x) == k {
        InsertFront(sorted, x, key, less);
        WithKeyNone(sorted, key, k);
      }
    } else {
      var tail := sorted[1..];
      assert Sorted(tail, key, less) by {
        forall i, j | 0 <= i < j < |tail| ensures !less(key(tail[j]), key(tail[i])) {
          assert tail[i] == sorted[i + 1] && tail[j] == sorted[j + 1];
        }
      }
      InsertWithKey(tail, x, key, less, k);
      assert r == [sorted[0]] + Insert(tail, x, key, less);
      assert r[1..] == Insert(tail, x, key, less);
    }
  }

  lemma {:induction false} SortSorted<T(!new), K>(xs: seq<T>, key: T -> K, less: (K, K) -> bool)
    requires StrictOrderOn(key, less)
    ensures Sorted(Sort(xs, key, less), key, less)
  {
    if xs != [] {
      var init := xs[..|xs| - 1];
      SortSorted(init, key, less);
      InsertSorted(Sort(init, key, less), xs[|xs| - 1], key, less);
    }
  }

  lemma {:induction false} SortWithKey<T(!new), K>(xs: seq<T>, key: T -> K, less: (K, K) -> bool, k: K)
    requires StrictOrderOn(key, less)
    ensures WithKey(Sort(xs, key, less), key, k) == WithKey(xs, key, k)
  {
    if xs != [] {
      var init, last := xs[..|xs| - 1], xs[|xs| - 1];
      var tally := if key(last) == k then [last] else [];
      assert WithKey(Sort(xs, key, less), key, k) == WithKey(Sort(init, key, less), key, k) + tally by {
        SortSorted(init, key, less);
        InsertWithKey(Sort(init, key, less), last, key, less, k);
      }
      assert WithKey(Sort(init, key, less), key, k) == WithKey(init, key, k) by {
        SortWithKey(init, key, less, k);
      }
      assert WithKey(xs, key, k) == WithKey(init, key, k) + tally by {
        assert xs == init + [last];
        WithKeyAppend(init, [last], key, k);
        assert WithKey([last], key, k) == tally + WithKey([last][1..], key, k);
      }
    }
  }

  /** The sort returns a permutation of its input, ordered by key, and keeps the
      elements of each key in their input order (stability). */
  lemma SortCorrect<T(!new), K>(xs: seq<T>, key: T -> K, less: (K, K) -> bool)
    requires StrictOrderOn(key, less)
    ensures multiset(Sort(xs, key, less)) == multiset(xs)
    ensures Sorted(Sort(xs, key, less), key, less)
    ensures forall k :: WithKey(Sort(xs, key, less), key, k) == WithKey(xs, key, k)
  {
    SortPermutes(xs, key, less);
    SortSorted(xs, key, less);
    forall k ensures WithKey(Sort(xs, key, less), key, k) == WithKey(xs, key, k) {
      SortWithKey(xs, key, less, k);
    }
  }

  /** Three elements with increasing keys, given first, last, middle (the order
      in which a character-by-character listing returns `img1`, `img10`, `img2`),
      come out in key order. */
  lemma SortThree<T(!new), K>(a: T, b: T, c: T, key: T -> K, less: (K, K) -> bool)
    requires StrictOrderOn(key, less)
    requires less(key(a), key(b)) && less(key(b), key(c))
    ensures Sort([a, c, b], key, less) == [a, b, c]
  {
    var xs := [a, c, b];
    assert !less(key(c), key(a)) && !less(key(b), key(a));
    assert [a][..0] == [] && Sort([a], key, less) == [a];
    assert [a, c][..1] == [a] && [a][1..] == [];
    assert Sort([a, c], key, less) == Insert([a], c, key, less);
    assert Insert([a], c, key, less) == [a] + Insert([], c, key, less);
    assert xs[..2] == [a, c];
    assert Sort(xs, key, less) == Insert([a, c], b, key, less);
    assert [a, c][1..] == [c];
    assert Insert([a, c], b, key, less) == [a] + Insert([c], b, key, less);
  }

  /** Three elements with increasing keys, given middle, last, first, come out
      in key order. */
  lemma SortMiddleFirst<T(!new), K>(a: T, b: T, c: T, key: T -> K, less: (K, K) -> bool)
    requires StrictOrderOn(key, less)
    requires less(key(a), key(b)) && less(key(b), key(c))
    ensures Sort([b, c, a], key, less) == [a, b, c]
  {
    var xs := [b, c, a];
    assert !less(key(c), key(b));
    assert [b][..0] == [] && Sort([b], key, less) == [b];
    assert [b, c][..1] == [b] && [b][1..] == [];
    assert Sort([b, c], key, less) == Insert([b], c, key, less);
    assert Insert([b], c, key, less) == [b] + Insert([], c, key, less);
    assert xs[..2] == [b, c];
    assert Sort(xs, key, less) == Insert([b, c], a, key, less);
  }
}
