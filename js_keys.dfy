/**
 * The order in which JavaScript enumerates the own string keys of an
 * ordinary object (ECMA-262, OrdinaryOwnPropertyKeys): first the keys that
 * are array indices, in ascending numeric order, then the other string keys
 * in the order they were created. lodash `countBy` builds such an object and
 * lodash `map` walks its keys in this order.
 */
module JsKeys {
  import opened Seqs
  import opened StableSort

  predicate IsDigit(c: char) { '0' <= c <= '9' }

  /** The value of `s` read as decimal digits. */
  function DecimalValue(s: string): nat {
    if s == [] then 0
    else
      var c := s[|s| - 1];
      DecimalValue(s[..|s| - 1]) * 10 + (if IsDigit(c) then c as int - '0' as int else 0)
  }

  /** Array indices are the integers below 2^32 - 1. */
  const ArrayIndexBound: nat := 0x1_0000_0000 - 1

  /**
   * A key is an array index when it is the canonical decimal form of an
   * integer below 2^32 - 1: digits only, no leading zero except "0" itself.
   */
  predicate IsArrayIndex(s: string) {
    && |s| > 0
    && (forall i :: 0 <= i < |s| ==> IsDigit(s[i]))
    && (s[0] == '0' ==> |s| == 1)
    && DecimalValue(s) < ArrayIndexBound
  }

  predicate NotArrayIndex(s: string) { !IsArrayIndex(s) }

  /**
   * The sort key of array indices. `SortBy` takes an `int`-valued key while
   * `DecimalValue` yields a `nat`; this wrapper also keeps the recursive
   * `DecimalValue` from being unfolded wherever the key is applied.
   */
  function IndexValue(s: string): int { DecimalValue(s) }

  /** The enumeration order of an object whose keys were created in the order `created`. */
  function OwnKeyOrder(created: seq<string>): seq<string> {
    SortBy(IndexValue, Filter(IsArrayIndex, created)) + Filter(NotArrayIndex, created)
  }

  lemma OwnKeyOrderPermutation(created: seq<string>)
    ensures multiset(OwnKeyOrder(created)) == multiset(created)
  {
    var a, b := SortBy(IndexValue, Filter(IsArrayIndex, created)), Filter(NotArrayIndex, created);
    SortByIsStableSort(IndexValue, Filter(IsArrayIndex, created));
    FilterMultiset(IsArrayIndex, created);
    FilterMultiset(NotArrayIndex, created);
    forall x ensures multiset(a + b)[x] == multiset(created)[x] {
      assert multiset(a + b)[x] == multiset(a)[x] + multiset(b)[x];
    }
    assert multiset(a + b) == multiset(created);
  }

  /** The sorted front part holds array indices only, the back part none. */
  lemma OwnKeyOrderParts(created: seq<string>)
    ensures var a := SortBy(IndexValue, Filter(IsArrayIndex, created));
      && OwnKeyOrder(created) == a + Filter(NotArrayIndex, created)
      && SortedBy(IndexValue, a)
      && (forall x | x in a :: IsArrayIndex(x))
      && (forall x | x in Filter(NotArrayIndex, created) :: !IsArrayIndex(x))
  {
    var indices := Filter(IsArrayIndex, created);
    var a := SortBy(IndexValue, indices);
    SortByIsStableSort(IndexValue, indices);
    FilterMembers(IsArrayIndex, created);
    FilterMembers(NotArrayIndex, created);
    forall x | x in a ensures IsArrayIndex(x) {
      assert x in multiset(a);
      assert x in indices;
    }
  }

  /**
   * In `a + b`, where every element of `a` satisfies `p` and none of `b`
   * does, the elements satisfying `p` come first and keep the order of `a`,
   * and the others keep the order of `b`.
   */
  lemma ConcatOrder<T>(p: T -> bool, key: T -> int, rank: T -> int, a: seq<T>, b: seq<T>)
    requires forall x | x in a :: p(x)
    requires forall x | x in b :: !p(x)
    requires SortedBy(key, a) && IncreasingBy(rank, b)
    ensures var r := a + b;
      && (forall i, j :: 0 <= i < j < |r| && p(r[j]) ==> p(r[i]) && key(r[i]) <= key(r[j]))
      && (forall i, j :: 0 <= i < j < |r| && !p(r[i]) && !p(r[j]) ==> rank(r[i]) < rank(r[j]))
  {
    var r := a + b;
    assert forall k | 0 <= k < |a| :: r[k] == a[k] && r[k] in a;
    assert forall k | |a| <= k < |r| :: r[k] == b[k - |a|] && r[k] in b;
    forall i, j | 0 <= i < j < |r| && p(r[j]) ensures p(r[i]) && key(r[i]) <= key(r[j]) {
      assert j < |a|;
    }
    forall i, j | 0 <= i < j < |r| && !p(r[i]) && !p(r[j]) ensures rank(r[i]) < rank(r[j]) {
      assert |a| <= i;
    }
  }

  /**
   * The enumeration lists each created key once; array indices come first in
   * ascending value; the other keys keep their creation order, here given by
   * any `rank` that grows along `created`.
   */
  lemma OwnKeyOrderProperties(created: seq<string>, rank: string -> int)
    requires IncreasingBy(rank, created)
    ensures var r := OwnKeyOrder(created);
      && multiset(r) == multiset(created)
      && Distinct(r)
      && (forall i, j :: 0 <= i < j < |r| && IsArrayIndex(r[j]) ==>
            IsArrayIndex(r[i]) && DecimalValue(r[i]) <= DecimalValue(r[j]))
      && (forall i, j :: 0 <= i < j < |r| && !IsArrayIndex(r[i]) && !IsArrayIndex(r[j]) ==>
            rank(r[i]) < rank(r[j]))
  {
    var a, b := SortBy(IndexValue, Filter(IsArrayIndex, created)), Filter(NotArrayIndex, created);
    OwnKeyOrderPermutation(created);
    OwnKeyOrderParts(created);
    assert Distinct(created);
    DistinctPermutation(created, OwnKeyOrder(created));
    FilterKeepsOrder(NotArrayIndex, rank, created);
    ConcatOrder(IsArrayIndex, IndexValue, rank, a, b);
  }
}
