/**
 * The sequence operators the repositories' queries are built from: `Where`, `Skip`, `Take`,
 * and the first match of a predicate (`FirstOrDefault`).
 */
module SeqOps {
  import opened Wrappers

  /** `Where(p)`: the elements satisfying `p`, in their original order. */
  function Where<T(!new)>(s: seq<T>, p: T -> bool): (r: seq<T>)
    ensures |r| <= |s|
    ensures forall x {:trigger multiset(r)[x]} :: multiset(r)[x] == if p(x) then multiset(s)[x] else 0
    decreases |s|
  {
    if |s| == 0 then []
    else
      assert s == [s[0]] + s[1..];
      (if p(s[0]) then [s[0]] else []) + Where(s[1..], p)
  }

  /** `Count(p)`: how many elements satisfy `p`. */
  function Count<T>(s: seq<T>, p: T -> bool): nat
    decreases |s|
  {
    if |s| == 0 then 0 else (if p(s[0]) then 1 else 0) + Count(s[1..], p)
  }

  /** Counting the elements that satisfy `p` is measuring what `Where(p)` keeps. */
  lemma {:induction false} CountIsWhereLength<T(!new)>(s: seq<T>, p: T -> bool)
    ensures Count(s, p) == |Where(s, p)|
    decreases |s|
  {
    if |s| > 0 {
      CountIsWhereLength(s[1..], p);
    }
  }

  /** Filtering with a predicate every element meets keeps the sequence as it is. */
  lemma {:induction false} WhereAll<T(!new)>(s: seq<T>, p: T -> bool)
    requires forall i :: 0 <= i < |s| ==> p(s[i])
    ensures Where(s, p) == s
    decreases |s|
  {
    if |s| > 0 {
      WhereAll(s[1..], p);
      assert s == [s[0]] + s[1..];
    }
  }

  /** Everything `Where` returns satisfies the predicate and comes from the input. */
  lemma WhereMembers<T(!new)>(s: seq<T>, p: T -> bool, x: T)
    ensures x in Where(s, p) <==> x in s && p(x)
  {
    assert x in Where(s, p) <==> x in multiset(Where(s, p));
    assert x in s <==> x in multiset(s);
  }

  /** Filtering a concatenation filters each part. */
  lemma {:induction false} WhereConcat<T(!new)>(a: seq<T>, b: seq<T>, p: T -> bool)
    ensures Where(a + b, p) == Where(a, p) + Where(b, p)
    decreases |a|
  {
    if |a| > 0 {
      var ab := a + b;
      assert ab[0] == a[0] && ab[1..] == a[1..] + b;
      WhereConcat(a[1..], b, p);
      var head := if p(a[0]) then [a[0]] else [];
      assert Where(ab, p) == head + Where(ab[1..], p);
      assert Where(a, p) == head + Where(a[1..], p);
      assert Where(ab, p) == head + (Where(a[1..], p) + Where(b, p));
    } else {
      assert a + b == b;
    }
  }

  /** Two predicates that agree on every element select the same subsequence. */
  lemma {:induction false} WhereAgree<T(!new)>(s: seq<T>, p: T -> bool, q: T -> bool)
    requires forall i :: 0 <= i < |s| ==> p(s[i]) == q(s[i])
    ensures Where(s, p) == Where(s, q)
    decreases |s|
  {
    if |s| > 0 {
      WhereAgree(s[1..], p, q);
    }
  }

  /** Two `Where`s in a row are one `Where` on the conjunction. */
  lemma {:induction false} WhereWhere<T(!new)>(s: seq<T>, p: T -> bool, q: T -> bool)
    ensures Where(Where(s, p), q) == Where(s, x => p(x) && q(x))
    decreases |s|
  {
    if |s| > 0 {
      WhereWhere(s[1..], p, q);
      var head := if p(s[0]) then [s[0]] else [];
      WhereConcat(head, Where(s[1..], p), q);
    }
  }

  /** `Skip(n)`, run as SQL `OFFSET n`: drops the first `n` elements; a negative offset drops nothing. */
  function Skip<T>(s: seq<T>, n: int): (r: seq<T>)
    ensures |r| == if n <= 0 then |s| else if n >= |s| then 0 else |s| - n
    ensures forall i :: 0 <= i < |r| ==> r[i] == s[i + (if n <= 0 then 0 else n)]
  {
    if n <= 0 then s else if n >= |s| then [] else s[n..]
  }

  /**
   * `Take(n)`, run as SQL `LIMIT n`: keeps at most the first `n` elements. SQLite reads a
   * negative limit as no limit at all, so then every element is kept.
   */
  function Take<T>(s: seq<T>, n: int): (r: seq<T>)
    ensures |r| == if n < 0 || n >= |s| then |s| else n
    ensures forall i :: 0 <= i < |r| ==> r[i] == s[i]
  {
    if n < 0 || n >= |s| then s else s[..n]
  }

  /** The position of the first element satisfying `p`, at or after `from`. */
  function FindFirst<T>(s: seq<T>, p: T -> bool, from: nat): (r: Option<nat>)
    requires from <= |s|
    ensures r.Some? ==> from <= r.value < |s| && p(s[r.value])
    ensures r.Some? ==> forall k :: from <= k < r.value ==> !p(s[k])
    ensures r.None? ==> forall k :: from <= k < |s| ==> !p(s[k])
    decreases |s| - from
  {
    if from == |s| then None
    else if p(s[from]) then Some(from)
    else FindFirst(s, p, from + 1)
  }

  /** `FirstOrDefault(p)`: the first element satisfying `p`, or null. */
  function FirstWhere<T>(s: seq<T>, p: T -> bool): (r: Option<T>)
    ensures r.Some? ==> r.value in s && p(r.value)
    ensures r.None? <==> forall k :: 0 <= k < |s| ==> !p(s[k])
  {
    match FindFirst(s, p, 0)
    case Some(k) => Some(s[k])
    case None => None
  }

  /** The element `FirstWhere` returns is the one at the first position satisfying `p`. */
  lemma FirstWhereIsFirst<T>(s: seq<T>, p: T -> bool)
    ensures forall k :: 0 <= k < |s| && p(s[k]) && (forall j :: 0 <= j < k ==> !p(s[j])) ==> FirstWhere(s, p) == Some(s[k])
  {
    forall k | 0 <= k < |s| && p(s[k]) && (forall j :: 0 <= j < k ==> !p(s[j]))
      ensures FirstWhere(s, p) == Some(s[k])
    {
      var r := FindFirst(s, p, 0);
      assert r.Some? && r.value == k;
    }
  }
}
