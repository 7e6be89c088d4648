/**
 * A stable sort on an integer key. `Array.prototype.sort` (stable since
 * ECMAScript 2019) and lodash `orderBy` (which breaks ties by original
 * position) are both stable sorts; an insertion sort stands for them here,
 * and `StableSortUnique` shows that every stable sort on the same key gives
 * the same result, so the choice of algorithm is not observable.
 */
module StableSort {
  import opened Seqs

  predicate SortedBy<T>(key: T -> int, s: seq<T>) {
    forall i, j :: 0 <= i < j < |s| ==> key(s[i]) <= key(s[j])
  }

  /** The predicate "has key `k`". */
  function KeyIs<T>(key: T -> int, k: int): T -> bool { x => key(x) == k }

  /**
   * `r` is `s` sorted by `key`, where elements with equal keys keep their
   * relative order in `s`.
   */
  ghost predicate IsStableSortOf<T>(key: T -> int, r: seq<T>, s: seq<T>) {
    && SortedBy(key, r)
    && forall k :: Filter(KeyIs(key, k), r) == Filter(KeyIs(key, k), s)
  }

  /** Put `x` before the first element of sorted `s` whose key is not smaller. */
  function Insert<T>(key: T -> int, x: T, s: seq<T>): (r: seq<T>)
    ensures |r| == |s| + 1
  {
    if s == [] || key(x) <= key(s[0]) then [x] + s
    else [s[0]] + Insert(key, x, s[1..])
  }

  function SortBy<T>(key: T -> int, s: seq<T>): (r: seq<T>)
    ensures |r| == |s|
  {
    if s == [] then [] else Insert(key, s[0], SortBy(key, s[1..]))
  }

  lemma {:induction false} InsertMultiset<T>(key: T -> int, x: T, s: seq<T>)
    ensures multiset(Insert(key, x, s)) == multiset{x} + multiset(s)
  {
    if s != [] && key(x) > key(s[0]) {
      InsertMultiset(key, x, s[1..]);
      assert s == [s[0]] + s[1..];
    }
  }

  lemma {:induction false} InsertSorted<T>(key: T -> int, x: T, s: seq<T>)
    requires SortedBy(key, s)
    ensures SortedBy(key, Insert(key, x, s))
  {
    if s != [] && key(x) > key(s[0]) {
      var t := Insert(key, x, s[1..]);
      InsertSorted(key, x, s[1..]);
      InsertMultiset(key, x, s[1..]);
      forall j | 0 <= j < |t| ensures key(s[0]) <= key(t[j]) {
        assert t[j] in multiset(t);
        if t[j] != x {
          assert t[j] in s[1..];
        }
      }
      assert Insert(key, x, s) == [s[0]] + t;
    }
  }

  /** Inserting `x` keeps it ahead of every element of `s` with the same key. */
  lemma {:induction false} InsertStable<T>(key: T -> int, x: T, s: seq<T>, k: int)
    ensures Filter(KeyIs(key, k), Insert(key, x, s)) == Filter(KeyIs(key, k), [x] + s)
  {
    var f := KeyIs(key, k);
    if s != [] && key(x) > key(s[0]) {
      var t := Insert(key, x, s[1..]);
      InsertStable(key, x, s[1..], k);
      FilterAppend(f, [s[0]], t);
      FilterAppend(f, [x], s[1..]);
      FilterAppend(f, [x], s);
      assert s == [s[0]] + s[1..];
      FilterAppend(f, [s[0]], s[1..]);
      assert Filter(f, [s[0]]) == [] || Filter(f, [x]) == [];
    }
  }

  lemma {:induction false} SortByMultiset<T>(key: T -> int, s: seq<T>)
    ensures multiset(SortBy(key, s)) == multiset(s)
  {
    if s != [] {
      SortByMultiset(key, s[1..]);
      InsertMultiset(key, s[0], SortBy(key, s[1..]));
      assert s == [s[0]] + s[1..];
    }
  }

  lemma {:induction false} SortBySorted<T>(key: T -> int, s: seq<T>)
    ensures SortedBy(key, SortBy(key, s))
  {
    if s != [] {
      SortBySorted(key, s[1..]);
      InsertSorted(key, s[0], SortBy(key, s[1..]));
    }
  }

  lemma {:induction false} SortByStable<T>(key: T -> int, s: seq<T>, k: int)
    ensures Filter(KeyIs(key, k), SortBy(key, s)) == Filter(KeyIs(key, k), s)
  {
    if s != [] {
      var f := KeyIs(key, k);
      var t := SortBy(key, s[1..]);
      SortByStable(key, s[1..], k);
      InsertStable(key, s[0], t, k);
      FilterAppend(f, [s[0]], t);
      FilterAppend(f, [s[0]], s[1..]);
      assert s == [s[0]] + s[1..];
    }
  }

  /** `SortBy` is a stable sort: sorted, a permutation, equal keys in input order. */
  lemma SortByIsStableSort<T>(key: T -> int, s: seq<T>)
    ensures IsStableSortOf(key, SortBy(key, s), s)
    ensures multiset(SortBy(key, s)) == multiset(s)
  {
    SortBySorted(key, s);
    SortByMultiset(key, s);
    forall k ensures Filter(KeyIs(key, k), SortBy(key, s)) == Filter(KeyIs(key, k), s) {
      SortByStable(key, s, k);
    }
  }

  /** A filter selects the head of `s` first when the head has the key it asks for. */
  lemma FilterKeyHead<T>(key: T -> int, s: seq<T>)
    requires s != []
    ensures Filter(KeyIs(key, key(s[0])), s) == [s[0]] + Filter(KeyIs(key, key(s[0])), s[1..])
  {
  }

  /** A sequence is empty exactly when no filter by key selects anything from it. */
  lemma NonEmptyByKey<T>(key: T -> int, a: seq<T>)
    ensures |a| > 0 ==> Filter(KeyIs(key, key(a[0])), a) != []
  {
    if |a| > 0 {
      FilterKeyHead(key, a);
    }
  }

  /**
   * Two sorted sequences with the same elements of each key, in the same
   * order, start with the same element.
   */
  lemma SortedSameHead<T>(key: T -> int, a: seq<T>, b: seq<T>)
    requires SortedBy(key, a) && SortedBy(key, b)
    requires forall k :: Filter(KeyIs(key, k), a) == Filter(KeyIs(key, k), b)
    requires a != [] && b != []
    ensures a[0] == b[0]
  {
    var ka, kb := key(a[0]), key(b[0]);
    var fa, fb := KeyIs(key, ka), KeyIs(key, kb);
    FilterKeyHead(key, a);
    FilterKeyHead(key, b);
    FilterMembers(fa, b);
    FilterMembers(fb, a);
    var y := Filter(fa, b)[0];
    assert y in Filter(fa, b);
    var j :| 0 <= j < |b| && b[j] == y;
    assert kb <= ka;
    var z := Filter(fb, a)[0];
    assert z in Filter(fb, a);
    var i :| 0 <= i < |a| && a[i] == z;
    assert ka <= kb;
  }

  /** Removing the same head from both keeps the elements of each key in the same order. */
  lemma SameTails<T>(key: T -> int, a: seq<T>, b: seq<T>, k: int)
    requires a != [] && b != [] && a[0] == b[0]
    requires Filter(KeyIs(key, k), a) == Filter(KeyIs(key, k), b)
    ensures Filter(KeyIs(key, k), a[1..]) == Filter(KeyIs(key, k), b[1..])
  {
    var h := Filter(KeyIs(key, k), [a[0]]);
    var ta, tb := Filter(KeyIs(key, k), a[1..]), Filter(KeyIs(key, k), b[1..]);
    assert a == [a[0]] + a[1..];
    assert b == [b[0]] + b[1..];
    FilterAppend(KeyIs(key, k), [a[0]], a[1..]);
    FilterAppend(KeyIs(key, k), [b[0]], b[1..]);
    assert h + ta == h + tb;
    assert (h + ta)[|h|..] == ta && (h + tb)[|h|..] == tb;
  }

  /**
   * Two sequences sorted by `key` that hold, for every key, the same elements
   * in the same order are equal: a stable sort has only one possible result.
   */
  lemma {:induction false} SortedUnique<T>(key: T -> int, a: seq<T>, b: seq<T>)
    requires SortedBy(key, a) && SortedBy(key, b)
    requires forall k :: Filter(KeyIs(key, k), a) == Filter(KeyIs(key, k), b)
    ensures a == b
    decreases |a|
  {
    NonEmptyByKey(key, a);
    NonEmptyByKey(key, b);
    assert |a| > 0 <==> |b| > 0;
    if a != [] {
      SortedSameHead(key, a, b);
      forall k ensures Filter(KeyIs(key, k), a[1..]) == Filter(KeyIs(key, k), b[1..]) {
        SameTails(key, a, b, k);
      }
      SortedUnique(key, a[1..], b[1..]);
    }
  }

  /** Any stable sort of `s` by `key` is `SortBy(key, s)`. */
  lemma StableSortUnique<T>(key: T -> int, r: seq<T>, s: seq<T>)
    requires IsStableSortOf(key, r, s)
    ensures r == SortBy(key, s)
  {
    SortByIsStableSort(key, s);
    SortedUnique(key, r, SortBy(key, s));
  }

  /** Filtering a sorted sequence leaves it sorted. */
  lemma {:induction false} FilterSorted<T>(key: T -> int, f: T -> bool, s: seq<T>)
    requires SortedBy(key, s)
    ensures SortedBy(key, Filter(f, s))
  {
    if s != [] {
      FilterSorted(key, f, s[1..]);
      var t := Filter(f, s[1..]);
      FilterMembers(f, s[1..]);
      forall j | 0 <= j < |t| ensures key(s[0]) <= key(t[j]) {
        assert t[j] in t;
        assert t[j] in s[1..];
        var i :| 0 <= i < |s[1..]| && s[1..][i] == t[j];
        assert s[i + 1] == t[j];
      }
      assert Filter(f, s) == (if f(s[0]) then [s[0]] else []) + t;
    }
  }

  /**
   * Cutting a sorted sequence after `m` elements: nothing cut off has a
   * smaller key than anything kept, and what is cut off is exactly the
   * multiset difference.
   */
  lemma SortedPrefix<T>(key: T -> int, t: seq<T>, m: nat)
    requires SortedBy(key, t) && m <= |t|
    ensures forall x, y :: x in t[..m] && y in multiset(t) - multiset(t[..m]) ==> key(x) <= key(y)
  {
    assert t == t[..m] + t[m..];
    assert multiset(t) - multiset(t[..m]) == multiset(t[m..]);
    forall x, y | x in t[..m] && y in t[m..] ensures key(x) <= key(y) {
      var i :| 0 <= i < m && t[..m][i] == x;
      var j :| 0 <= j < |t| - m && t[m..][j] == y;
      assert t[i] == x && t[m + j] == y;
    }
  }
}
