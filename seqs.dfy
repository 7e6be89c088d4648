/**
 * Sequence operations behind the lodash pipeline steps of the post helpers:
 * `filter`, `take` / `slice(0, n)`, `flatMap`, `uniqBy` and the occurrence
 * counts of `countBy`, each with the lemmas the post helpers rely on.
 */
module Seqs {

  function Min(a: int, b: int): int { if a <= b then a else b }

  function Id<T>(x: T): T { x }

  /** The first `n` elements of `s`, or all of `s` when it is shorter. */
  function Take<T>(s: seq<T>, n: nat): (r: seq<T>)
    ensures |r| == Min(n, |s|) && r <= s
  {
    s[..Min(n, |s|)]
  }

  /** The elements of `s` that satisfy `f`, in their order in `s`. */
  function Filter<T>(f: T -> bool, s: seq<T>): (r: seq<T>)
    ensures |r| <= |s|
  {
    if s == [] then [] else (if f(s[0]) then [s[0]] else []) + Filter(f, s[1..])
  }

  /** The predicate "differs from `n`". */
  function Other<T(==)>(n: T): T -> bool { x => x != n }

  /** `a` is obtained from `b` by deleting elements. */
  predicate IsSubseq<T(==)>(a: seq<T>, b: seq<T>)
    decreases |b|
  {
    if a == [] then true
    else if b == [] then false
    else (a[0] == b[0] && IsSubseq(a[1..], b[1..])) || IsSubseq(a, b[1..])
  }

  predicate Distinct<T(==)>(s: seq<T>) {
    forall i, j :: 0 <= i < j < |s| ==> s[i] != s[j]
  }

  lemma {:induction false} FilterAppend<T>(f: T -> bool, a: seq<T>, b: seq<T>)
    ensures Filter(f, a + b) == Filter(f, a) + Filter(f, b)
  {
    if a == [] {
      assert a + b == b;
    } else {
      var h := if f(a[0]) then [a[0]] else [];
      assert (a + b)[0] == a[0];
      assert (a + b)[1..] == a[1..] + b;
      FilterAppend(f, a[1..], b);
      assert Filter(f, a + b) == h + Filter(f, a[1..] + b);
    }
  }

  /** Filtering keeps every occurrence of a selected value and none of the others. */
  lemma {:induction false} FilterMultiset<T>(f: T -> bool, s: seq<T>)
    ensures forall x :: multiset(Filter(f, s))[x] == if f(x) then multiset(s)[x] else 0
  {
    if s != [] {
      FilterMultiset(f, s[1..]);
      assert s == [s[0]] + s[1..];
    }
  }

  lemma FilterMembers<T>(f: T -> bool, s: seq<T>)
    ensures forall x | x in Filter(f, s) :: x in s && f(x)
    ensures forall x | x in s && f(x) :: x in Filter(f, s)
  {
    FilterMultiset(f, s);
    forall x ensures x in Filter(f, s) <==> x in s && f(x) {
      assert x in Filter(f, s) <==> x in multiset(Filter(f, s));
      assert x in s <==> x in multiset(s);
    }
  }

  /** A filter that selects nothing of `s` yields the empty sequence. */
  lemma {:induction false} FilterNone<T>(f: T -> bool, s: seq<T>)
    requires forall x :: x in s ==> !f(x)
    ensures Filter(f, s) == []
  {
    if s != [] {
      assert s[0] in s;
      FilterNone(f, s[1..]);
    }
  }

  /** Two predicates that agree everywhere select the same elements. */
  lemma {:induction false} FilterExt<T>(f: T -> bool, g: T -> bool, s: seq<T>)
    requires forall x :: f(x) == g(x)
    ensures Filter(f, s) == Filter(g, s)
  {
    if s != [] {
      FilterExt(f, g, s[1..]);
    }
  }

  lemma {:induction false} FilterCommute<T>(f: T -> bool, g: T -> bool, s: seq<T>)
    ensures Filter(f, Filter(g, s)) == Filter(g, Filter(f, s))
  {
    if s != [] {
      FilterCommute(f, g, s[1..]);
      var x := s[0];
      var fs, gs := Filter(f, s[1..]), Filter(g, s[1..]);
      FilterAppend(f, if g(x) then [x] else [], gs);
      FilterAppend(g, if f(x) then [x] else [], fs);
    }
  }

  /** Filtering a prefix yields a prefix of the filtered whole. */
  lemma FilterPrefix<T>(f: T -> bool, s: seq<T>, n: nat)
    requires n <= |s|
    ensures Filter(f, s[..n]) <= Filter(f, s)
  {
    assert s == s[..n] + s[n..];
    FilterAppend(f, s[..n], s[n..]);
  }

  lemma {:induction false} FilterIsSubseq<T>(f: T -> bool, s: seq<T>)
    ensures IsSubseq(Filter(f, s), s)
  {
    if s != [] {
      FilterIsSubseq(f, s[1..]);
      var r := Filter(f, s);
      if f(s[0]) {
        assert r[0] == s[0] && r[1..] == Filter(f, s[1..]);
      } else {
        assert r == Filter(f, s[1..]);
      }
    }
  }

  /** `rank` grows strictly along `s`. */
  predicate IncreasingBy<T>(rank: T -> int, s: seq<T>) {
    forall i, j :: 0 <= i < j < |s| ==> rank(s[i]) < rank(s[j])
  }

  /** Filtering keeps the elements in their order, as measured by a `rank` that grows along `s`. */
  lemma {:induction false} FilterKeepsOrder<T>(f: T -> bool, rank: T -> int, s: seq<T>)
    requires IncreasingBy(rank, s)
    ensures IncreasingBy(rank, Filter(f, s))
  {
    if s != [] {
      FilterKeepsOrder(f, rank, s[1..]);
      var t := Filter(f, s[1..]);
      FilterMembers(f, s[1..]);
      forall j | 0 <= j < |t| ensures rank(s[0]) < rank(t[j]) {
        assert t[j] in t;
        var i :| 0 <= i < |s[1..]| && s[1..][i] == t[j];
        assert s[i + 1] == t[j];
      }
      assert Filter(f, s) == (if f(s[0]) then [s[0]] else []) + t;
    }
  }

  /** Removing every occurrence of `n` shortens `s` by the number of those occurrences. */
  lemma {:induction false} FilterOtherLength<T>(n: T, s: seq<T>)
    ensures |Filter(Other(n), s)| + multiset(s)[n] == |s|
  {
    if s != [] {
      FilterOtherLength(n, s[1..]);
      assert s == [s[0]] + s[1..];
    }
  }

  /** lodash `flatMap`: the concatenation of `f` applied to each element. */
  function FlatMap<T, U>(f: T -> seq<U>, s: seq<T>): seq<U> {
    if s == [] then [] else f(s[0]) + FlatMap(f, s[1..])
  }

  lemma {:induction false} FlatMapAppend<T, U>(f: T -> seq<U>, a: seq<T>, b: seq<T>)
    ensures FlatMap(f, a + b) == FlatMap(f, a) + FlatMap(f, b)
  {
    if a == [] {
      assert a + b == b;
    } else {
      assert (a + b)[1..] == a[1..] + b;
      FlatMapAppend(f, a[1..], b);
    }
  }

  /** Reordering the input does not change what `flatMap` produces, up to order. */
  lemma {:induction false} FlatMapPermutation<T, U>(f: T -> seq<U>, a: seq<T>, b: seq<T>)
    requires multiset(a) == multiset(b)
    ensures multiset(FlatMap(f, a)) == multiset(FlatMap(f, b))
    decreases |a|
  {
    if a == [] {
      assert |b| == |multiset(b)| == 0;
    } else {
      var x := a[0];
      assert x in multiset(b);
      var i :| 0 <= i < |b| && b[i] == x;
      var b' := b[..i] + b[i + 1..];
      assert b == b[..i] + [x] + b[i + 1..];
      assert a == [x] + a[1..];
      assert multiset(a) == multiset{x} + multiset(a[1..]);
      assert multiset(b) == multiset(b[..i]) + multiset{x} + multiset(b[i + 1..]);
      assert multiset(b') == multiset(b[..i]) + multiset(b[i + 1..]);
      forall y ensures multiset(a[1..])[y] == multiset(b')[y] {
        assert multiset(a)[y] == multiset{x}[y] + multiset(a[1..])[y];
        assert multiset(b)[y] == multiset(b[..i])[y] + multiset{x}[y] + multiset(b[i + 1..])[y];
      }
      assert multiset(a[1..]) == multiset(b');
      FlatMapPermutation(f, a[1..], b');
      FlatMapAppend(f, b[..i] + [x], b[i + 1..]);
      FlatMapAppend(f, b[..i], [x]);
      FlatMapAppend(f, b[..i], b[i + 1..]);
      assert FlatMap(f, [x]) == f(x) + FlatMap(f, []);
    }
  }

  /** The set of keys of the elements of `s`. */
  function KeySet<T(==), K>(key: T -> K, s: seq<T>): set<K> {
    set x | x in s :: key(x)
  }

  lemma KeySetPermutation<T, K>(key: T -> K, a: seq<T>, b: seq<T>)
    requires multiset(a) == multiset(b)
    ensures KeySet(key, a) == KeySet(key, b)
  {
    forall x ensures x in a <==> x in b {
      assert x in a <==> x in multiset(a);
      assert x in b <==> x in multiset(b);
    }
  }

  /**
   * The position of the first element of `s` whose key is `k`, or `|s|` when
   * there is none.
   */
  function FirstIndex<T(==), K(==)>(key: T -> K, s: seq<T>, k: K): (i: nat)
    ensures i <= |s|
    ensures i < |s| ==> key(s[i]) == k
    ensures forall j :: 0 <= j < i ==> key(s[j]) != k
    ensures i == |s| <==> k !in KeySet(key, s)
  {
    if s == [] then 0
    else if key(s[0]) == k then 0
    else
      var i := 1 + FirstIndex(key, s[1..], k);
      assert k in KeySet(key, s) ==> k in KeySet(key, s[1..]) by {
        if k in KeySet(key, s) {
          var x :| x in s && key(x) == k;
          assert x in s[1..];
        }
      }
      i
  }

  /** Extending `s` at the end does not move the first occurrence of a key already present. */
  lemma FirstIndexSnoc<T, K>(key: T -> K, s: seq<T>, x: T, k: K)
    ensures FirstIndex(key, s + [x], k) ==
      if k in KeySet(key, s) then FirstIndex(key, s, k)
      else if key(x) == k then |s| else |s| + 1
  {
    var i, j := FirstIndex(key, s + [x], k), FirstIndex(key, s, k);
    assert (s + [x])[..|s|] == s;
    if j < |s| {
      assert (s + [x])[j] == s[j];
    }
    if i < |s| {
      assert (s + [x])[i] == s[i];
    }
  }

  /**
   * Keys that agree position by position have the same first occurrences:
   * `FirstIndex` and `KeySet` depend only on the sequence of keys.
   */
  lemma {:induction false} FirstIndexSameKeys<T, U, K>(key1: T -> K, s1: seq<T>, key2: U -> K, s2: seq<U>, k: K)
    requires |s1| == |s2|
    requires forall i :: 0 <= i < |s1| ==> key1(s1[i]) == key2(s2[i])
    ensures FirstIndex(key1, s1, k) == FirstIndex(key2, s2, k)
    ensures KeySet(key1, s1) == KeySet(key2, s2)
  {
    if s1 != [] {
      FirstIndexSameKeys(key1, s1[1..], key2, s2[1..], k);
    }
    forall k' | k' in KeySet(key1, s1) ensures k' in KeySet(key2, s2) {
      var x :| x in s1 && key1(x) == k';
      var i :| 0 <= i < |s1| && s1[i] == x;
      assert s2[i] in s2;
    }
    forall k' | k' in KeySet(key2, s2) ensures k' in KeySet(key1, s1) {
      var y :| y in s2 && key2(y) == k';
      var i :| 0 <= i < |s2| && s2[i] == y;
      assert s1[i] in s1;
    }
  }

  /**
   * lodash `uniqBy`: scanning `s` from the left, keep an element only when no
   * earlier kept element has the same key.
   */
  function UniqBy<T(==), K(==)>(key: T -> K, s: seq<T>): seq<T>
    decreases |s|
  {
    if s == [] then []
    else
      var r := UniqBy(key, s[..|s| - 1]);
      if key(s[|s| - 1]) in KeySet(key, r) then r else r + [s[|s| - 1]]
  }

  /** `uniqBy` keeps one element per key of `s`, and no key twice. */
  lemma {:induction false} UniqByKeys<T, K>(key: T -> K, s: seq<T>)
    ensures var r := UniqBy(key, s);
      && (forall i, j :: 0 <= i < j < |r| ==> key(r[i]) != key(r[j]))
      && KeySet(key, r) == KeySet(key, s)
    decreases |s|
  {
    if s != [] {
      var p, x := s[..|s| - 1], s[|s| - 1];
      assert s == p + [x];
      UniqByKeys(key, p);
      var r' := UniqBy(key, p);
      assert KeySet(key, s) == KeySet(key, p) + {key(x)};
      if key(x) !in KeySet(key, r') {
        var r := r' + [x];
        assert KeySet(key, r) == KeySet(key, r') + {key(x)};
        forall i | 0 <= i < |r'| ensures key(r'[i]) != key(x) {
          assert r'[i] in r';
        }
      }
    }
  }

  /**
   * Each element `uniqBy` keeps is the first element of `s` with its key, and
   * the kept elements come in the order of those first occurrences.
   */
  lemma {:induction false} UniqByFirst<T, K>(key: T -> K, s: seq<T>)
    ensures var r := UniqBy(key, s);
      && (forall i :: 0 <= i < |r| ==>
            FirstIndex(key, s, key(r[i])) < |s| && r[i] == s[FirstIndex(key, s, key(r[i]))])
      && (forall i, j :: 0 <= i < j < |r| ==>
            FirstIndex(key, s, key(r[i])) < FirstIndex(key, s, key(r[j])))
    decreases |s|
  {
    if s != [] {
      var p, x := s[..|s| - 1], s[|s| - 1];
      assert s == p + [x];
      UniqByKeys(key, p);
      UniqByFirst(key, p);
      var r' := UniqBy(key, p);
      forall i | 0 <= i < |r'|
        ensures FirstIndex(key, s, key(r'[i])) == FirstIndex(key, p, key(r'[i])) < |p|
      {
        assert r'[i] in r';
        assert key(r'[i]) in KeySet(key, p);
        FirstIndexSnoc(key, p, x, key(r'[i]));
      }
      if key(x) !in KeySet(key, r') {
        FirstIndexSnoc(key, p, x, key(x));
      }
    }
  }

  /** The total number of occurrences in `s` of the values listed in `names`. */
  function CountSum<T(==)>(names: seq<T>, s: seq<T>): nat {
    if names == [] then 0 else multiset(s)[names[0]] + CountSum(names[1..], s)
  }

  lemma {:induction false} CountSumSame<T>(names: seq<T>, s: seq<T>, t: seq<T>)
    requires forall x :: x in names ==> multiset(s)[x] == multiset(t)[x]
    ensures CountSum(names, s) == CountSum(names, t)
  {
    if names != [] {
      CountSumSame(names[1..], s, t);
    }
  }

  /**
   * Counting each distinct value of `s` once and adding the counts up gives
   * the length of `s`.
   */
  lemma {:induction false} CountSumOfDistinct<T>(names: seq<T>, s: seq<T>)
    requires Distinct(names)
    requires forall x :: x in names <==> x in s
    ensures CountSum(names, s) == |s|
  {
    if names == [] {
      forall x ensures multiset(s)[x] == 0 {
        assert x !in names;
      }
      assert multiset(s) == multiset{};
      assert |s| == |multiset(s)|;
    } else {
      var n := names[0];
      var rest := Filter(Other(n), s);
      FilterMembers(Other(n), s);
      FilterMultiset(Other(n), s);
      assert forall x :: x in names[1..] ==> x in names && x != n by {
        forall x | x in names[1..] ensures x in names && x != n {
          var j :| 0 <= j < |names[1..]| && names[1..][j] == x;
          assert names[j + 1] == x;
        }
      }
      assert forall x :: x in names && x != n ==> x in names[1..] by {
        forall x | x in names && x != n ensures x in names[1..] {
          var j :| 0 <= j < |names| && names[j] == x;
          assert j != 0;
          assert names[1..][j - 1] == x;
        }
      }
      CountSumSame(names[1..], s, rest);
      CountSumOfDistinct(names[1..], rest);
      FilterOtherLength(n, s);
    }
  }

  /** A sequence is free of duplicates exactly when no value occurs in it twice. */
  lemma {:induction false} DistinctMultiset<T>(s: seq<T>)
    ensures Distinct(s) <==> forall x :: multiset(s)[x] <= 1
  {
    if Distinct(s) {
      if s != [] {
        assert Distinct(s[1..]);
        DistinctMultiset(s[1..]);
        assert s == [s[0]] + s[1..];
        assert forall j :: 0 <= j < |s[1..]| ==> s[1..][j] == s[j + 1] != s[0];
      }
    }
    if !Distinct(s) {
      var i, j :| 0 <= i < j < |s| && s[i] == s[j];
      assert s == s[..i] + [s[i]] + s[i + 1..j] + [s[j]] + s[j + 1..];
      assert multiset(s)[s[i]] >= 2;
    }
  }

  lemma DistinctPermutation<T>(a: seq<T>, b: seq<T>)
    requires Distinct(a) && multiset(a) == multiset(b)
    ensures Distinct(b)
  {
    DistinctMultiset(a);
    DistinctMultiset(b);
  }
}
