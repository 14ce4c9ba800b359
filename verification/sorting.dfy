/**
 * Ordering for `ORDER BY`: a stable insertion sort over any total preorder, the ordinal string
 * order, and the orders on optional dates. The database promises no order among equal keys, so
 * what the rest of the model relies on is only the contract: the result is sorted and is a
 * permutation of the input.
 */
module Sorting {
  import opened Wrappers

  /** `le` relates every pair one way or the other and is transitive. */
  ghost predicate IsTotalPreorder<T(!new)>(le: (T, T) -> bool) {
    && (forall a, b :: le(a, b) || le(b, a))
    && (forall a, b, c :: le(a, b) && le(b, c) ==> le(a, c))
  }

  predicate SortedBy<T(!new)>(s: seq<T>, le: (T, T) -> bool) {
    forall i, j :: 0 <= i < j < |s| ==> le(s[i], s[j])
  }

  /** The reverse order: what `OrderByDescending` uses. */
  function Flip<T(!new)>(le: (T, T) -> bool): (r: (T, T) -> bool)
    ensures forall a, b :: r(a, b) == le(b, a)
  {
    (a, b) => le(b, a)
  }

  lemma FlipIsTotalPreorder<T(!new)>(le: (T, T) -> bool)
    requires IsTotalPreorder(le)
    ensures IsTotalPreorder(Flip(le))
  {
  }

  /** Every element of `rest` is at or above `h`, so `h` can go in front. */
  lemma {:induction false} PrependLowerBound<T(!new)>(h: T, x: T, tail: seq<T>, rest: seq<T>, le: (T, T) -> bool)
    requires SortedBy(rest, le)
    requires multiset(rest) == multiset(tail) + multiset{x}
    requires le(h, x)
    requires forall k :: 0 <= k < |tail| ==> le(h, tail[k])
    ensures SortedBy([h] + rest, le)
  {
    forall j | 0 <= j < |rest|
      ensures le(h, rest[j])
    {
      assert rest[j] in multiset(rest);
      if rest[j] != x {
        assert rest[j] in multiset(tail);
        var k :| 0 <= k < |tail| && tail[k] == rest[j];
      }
    }
    var r := [h] + rest;
    forall i, j | 0 <= i < j < |r|
      ensures le(r[i], r[j])
    {
      if i > 0 {
        assert r[i] == rest[i - 1] && r[j] == rest[j - 1];
      }
    }
  }

  /** Inserts `x` before the first element it is at or below. */
  function Insert<T(!new)>(x: T, s: seq<T>, le: (T, T) -> bool): (r: seq<T>)
    requires IsTotalPreorder(le)
    requires SortedBy(s, le)
    ensures SortedBy(r, le)
    ensures multiset(r) == multiset(s) + multiset{x}
    decreases |s|
  {
    if |s| == 0 then [x]
    else if le(x, s[0]) then [x] + s
    else
      var tail := s[1..];
      assert s == [s[0]] + tail;
      var rest := Insert(x, tail, le);
      PrependLowerBound(s[0], x, tail, rest, le);
      [s[0]] + rest
  }

  /** A sorted permutation of `s`. */
  function SortBy<T(!new)>(s: seq<T>, le: (T, T) -> bool): (r: seq<T>)
    requires IsTotalPreorder(le)
    ensures SortedBy(r, le)
    ensures multiset(r) == multiset(s)
    ensures |r| == |s|
    decreases |s|
  {
    if |s| == 0 then []
    else
      assert s == [s[0]] + s[1..];
      Insert(s[0], SortBy(s[1..], le), le)
  }

  /** A run of consecutive elements of a sorted sequence is sorted. */
  lemma SortedWindow<T(!new)>(s: seq<T>, r: seq<T>, start: nat, le: (T, T) -> bool)
    requires SortedBy(s, le)
    requires forall i :: 0 <= i < |r| ==> start + i < |s| && r[i] == s[start + i]
    ensures SortedBy(r, le)
  {
    forall i, j | 0 <= i < j < |r| ensures le(r[i], r[j]) {
      var x, y := r[i], r[j];
      assert start + i < |s| && start + j < |s|;
      assert x == s[start + i] && y == s[start + j];
    }
  }

  // ---------------------------------------------------------------------------------------------
  // Keys
  // ---------------------------------------------------------------------------------------------

  /** Ordinal string order: by character code, a proper prefix first. */
  predicate StrLe(a: string, b: string) {
    if |a| == 0 then true
    else if |b| == 0 then false
    else if a[0] != b[0] then a[0] < b[0]
    else StrLe(a[1..], b[1..])
  }

  lemma {:induction false} StrLeTotal(a: string, b: string)
    ensures StrLe(a, b) || StrLe(b, a)
  {
    if |a| > 0 && |b| > 0 && a[0] == b[0] {
      StrLeTotal(a[1..], b[1..]);
    }
  }

  lemma {:induction false} StrLeTransitive(a: string, b: string, c: string)
    requires StrLe(a, b) && StrLe(b, c)
    ensures StrLe(a, c)
  {
    if |a| > 0 && |b| > 0 && |c| > 0 && a[0] == b[0] && b[0] == c[0] {
      StrLeTransitive(a[1..], b[1..], c[1..]);
    }
  }

  lemma {:induction false} StrLeAntisymmetric(a: string, b: string)
    requires StrLe(a, b) && StrLe(b, a)
    ensures a == b
  {
    if |a| > 0 && |b| > 0 {
      StrLeAntisymmetric(a[1..], b[1..]);
      assert a == [a[0]] + a[1..] && b == [b[0]] + b[1..];
    }
  }

  /** An absent value first, then present values ascending (the ascending order of a nullable column). */
  predicate OptionLe(a: Option<int>, b: Option<int>) {
    a.None? || (b.Some? && a.value <= b.value)
  }

  lemma TextKeyIsTotalPreorder<T(!new)>(key: T -> string)
    ensures IsTotalPreorder((x: T, y: T) => StrLe(key(x), key(y)))
  {
    forall x: T, y: T
      ensures StrLe(key(x), key(y)) || StrLe(key(y), key(x))
    {
      StrLeTotal(key(x), key(y));
    }
    forall x: T, y: T, z: T | StrLe(key(x), key(y)) && StrLe(key(y), key(z))
      ensures StrLe(key(x), key(z))
    {
      StrLeTransitive(key(x), key(y), key(z));
    }
  }

  /** `OrderBy(key)` on a text key (ordinal comparison). */
  function ByText<T(!new)>(key: T -> string): (le: (T, T) -> bool)
    ensures IsTotalPreorder(le)
    ensures forall a, b :: le(a, b) == StrLe(key(a), key(b))
  {
    TextKeyIsTotalPreorder(key);
    (x: T, y: T) => StrLe(key(x), key(y))
  }

  /** `OrderBy(key)` on an integer (or timestamp) key. */
  function ByInt<T(!new)>(key: T -> int): (le: (T, T) -> bool)
    ensures IsTotalPreorder(le)
    ensures forall a, b :: le(a, b) == (key(a) <= key(b))
  {
    (x: T, y: T) => key(x) <= key(y)
  }

  /** `OrderBy(key)` on a nullable key, absent values first. */
  function ByOption<T(!new)>(key: T -> Option<int>): (le: (T, T) -> bool)
    ensures IsTotalPreorder(le)
    ensures forall a, b :: le(a, b) == OptionLe(key(a), key(b))
  {
    (x: T, y: T) => OptionLe(key(x), key(y))
  }

  /** Sorting a sequence that is already in order leaves it as it is. */
  lemma {:induction false} SortBySorted<T(!new)>(s: seq<T>, le: (T, T) -> bool)
    requires IsTotalPreorder(le)
    requires SortedBy(s, le)
    ensures SortBy(s, le) == s
    decreases |s|
  {
    if |s| > 0 {
      SortBySorted(s[1..], le);
      assert s == [s[0]] + s[1..];
    }
  }
}
