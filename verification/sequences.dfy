/**
 * Small sequence toolkit shared by the roster model: the Option/Result
 * wrappers, counting, filtering (Python list comprehensions with an `if`),
 * `list.remove`, and the cardinality facts the phase proofs rest on.
 */
module Sequences {

  datatype Option<T> = None | Some(value: T)

  datatype Result<T, E> = Ok(value: T) | Err(error: E)

  function Min(a: int, b: int): int { if a <= b then a else b }

  function Max(a: int, b: int): int { if a >= b then a else b }

  /** `[0, 1, ..., n-1]`, Python's `list(range(n))`. */
  function Range(n: nat): (r: seq<int>)
    ensures |r| == n && forall i :: 0 <= i < n ==> r[i] == i
    ensures forall i :: i in r <==> 0 <= i < n
  {
    var r := seq(n, i => i);
    assert forall i :: 0 <= i < n ==> r[i] == i;
    forall i | 0 <= i < n
      ensures i in r
    {
      assert r[i] == i;
    }
    r
  }

  /** Number of occurrences of `x` in `s` (Python's `list.count`). */
  function Count<T(==)>(s: seq<T>, x: T): (n: nat)
    ensures n <= |s|
  {
    if s == [] then 0
    else Count(s[..|s| - 1], x) + (if s[|s| - 1] == x then 1 else 0)
  }

  /** The indices at which `x` occurs in `s`. */
  ghost function Positions<T>(s: seq<T>, x: T): set<int>
  {
    set i | 0 <= i < |s| && s[i] == x
  }

  /** The elements of `s` as a set. */
  ghost function Elements<T>(s: seq<T>): set<T>
  {
    set x | x in s
  }

  predicate Distinct<T(==)>(s: seq<T>)
  {
    forall i, j :: 0 <= i < j < |s| ==> s[i] != s[j]
  }

  /** `p` lists every integer of `[0, n)` exactly once. */
  predicate IsPermutation(p: seq<int>, n: nat)
  {
    && |p| == n
    && (forall i :: 0 <= i < |p| ==> 0 <= p[i] < n)
    && (forall v :: 0 <= v < n ==> v in p)
    && Distinct(p)
  }

  /** The elements of `s` that satisfy `p`, in order (`[x for x in s if p(x)]`). */
  function Filter(s: seq<int>, p: int -> bool): (r: seq<int>)
    ensures |r| <= |s|
    ensures forall x :: x in r <==> x in s && p(x)
  {
    if s == [] then []
    else (if p(s[0]) then [s[0]] else []) + Filter(s[1..], p)
  }

  /** Python's `list.remove`: drops the first occurrence of `x`. */
  function Remove<T(==)>(s: seq<T>, x: T): (r: seq<T>)
    requires x in s
    ensures |r| == |s| - 1
    ensures multiset(r) == multiset(s) - multiset{x}
  {
    assert s == [s[0]] + s[1..];
    if s[0] == x then s[1..]
    else [s[0]] + Remove(s[1..], x)
  }

  lemma {:induction false} CountIsCard<T>(s: seq<T>, x: T)
    ensures Count(s, x) == |Positions(s, x)|
  {
    if s != [] {
      var n := |s| - 1;
      var t := s[..n];
      CountIsCard(t, x);
      assert Count(s, x) == Count(t, x) + (if s[n] == x then 1 else 0);
      var extra: set<int> := if s[n] == x then {n} else {};
      forall i
        ensures i in Positions(s, x) <==> i in Positions(t, x) + extra
      {
        if 0 <= i < n {
          assert s[i] == t[i];
        }
      }
      assert Positions(s, x) == Positions(t, x) + extra;
      assert n !in Positions(t, x);
      assert |Positions(t, x) + extra| == |Positions(t, x)| + |extra|;
    }
  }

  /** Fewer occurrences than elements: some element is not `x`. */
  lemma {:induction false} CountBelowLength<T>(s: seq<T>, x: T)
    requires Count(s, x) < |s|
    ensures exists k :: 0 <= k < |s| && s[k] != x
  {
    var t := s[..|s| - 1];
    if s[|s| - 1] == x {
      CountBelowLength(t, x);
      var k :| 0 <= k < |t| && t[k] != x;
      assert s[k] == t[k];
    }
  }

  /** Counting over one more element of a prefix. */
  lemma CountPrefix<T>(s: seq<T>, i: int, x: T)
    requires 0 <= i < |s|
    ensures Count(s[..i + 1], x) == Count(s[..i], x) + (if s[i] == x then 1 else 0)
  {
    assert s[..i + 1][..i] == s[..i];
  }

  /** Two sequences holding `x` at the same indices hold it equally often. */
  lemma {:induction false} CountSameMarks<T>(s: seq<T>, t: seq<T>, x: T)
    requires |s| == |t|
    requires forall k :: 0 <= k < |s| ==> (s[k] == x <==> t[k] == x)
    ensures Count(s, x) == Count(t, x)
  {
    if s != [] {
      var n := |s| - 1;
      CountSameMarks(s[..n], t[..n], x);
    }
  }

  lemma {:induction false} DistinctCard<T>(s: seq<T>)
    requires Distinct(s)
    ensures |Elements(s)| == |s|
  {
    if s != [] {
      var t := s[1..];
      assert Distinct(t);
      DistinctCard(t);
      assert s[0] !in t;
      assert Elements(s) == {s[0]} + Elements(t);
    }
  }

  lemma {:induction false} FilterDistinct(s: seq<int>, p: int -> bool)
    requires Distinct(s)
    ensures Distinct(Filter(s, p))
  {
    if s != [] {
      assert Distinct(s[1..]);
      FilterDistinct(s[1..], p);
      assert s[0] !in s[1..];
    }
  }

  lemma {:induction false} FilterAppend(s: seq<int>, t: seq<int>, p: int -> bool)
    ensures Filter(s + t, p) == Filter(s, p) + Filter(t, p)
  {
    if s == [] {
      assert s + t == t;
    } else {
      assert (s + t)[1..] == s[1..] + t;
      FilterAppend(s[1..], t, p);
    }
  }

  /** Filtering depends on the predicate only at the elements of the sequence. */
  lemma {:induction false} FilterSame(s: seq<int>, p: int -> bool, q: int -> bool)
    requires forall i :: 0 <= i < |s| ==> p(s[i]) == q(s[i])
    ensures Filter(s, p) == Filter(s, q)
  {
    if s != [] {
      assert p(s[0]) == q(s[0]);
      FilterSame(s[1..], p, q);
      assert Filter(s[1..], p) == Filter(s[1..], q);
      assert Filter(s, p) == (if p(s[0]) then [s[0]] else []) + Filter(s[1..], p);
      assert Filter(s, q) == (if q(s[0]) then [s[0]] else []) + Filter(s[1..], q);
    }
  }

  /** Filtering twice is filtering once by the conjunction. */
  lemma {:induction false} FilterFilter(s: seq<int>, p: int -> bool, q: int -> bool, pq: int -> bool)
    requires forall i :: 0 <= i < |s| ==> pq(s[i]) == (p(s[i]) && q(s[i]))
    ensures Filter(Filter(s, p), q) == Filter(s, pq)
  {
    if s != [] {
      assert pq(s[0]) == (p(s[0]) && q(s[0]));
      FilterFilter(s[1..], p, q, pq);
      var f := Filter(s[1..], p);
      assert Filter(f, q) == Filter(s[1..], pq);
      if p(s[0]) {
        assert Filter(s, p) == [s[0]] + f;
        assert ([s[0]] + f)[1..] == f;
        assert Filter([s[0]] + f, q) == (if q(s[0]) then [s[0]] else []) + Filter(f, q);
      } else {
        assert Filter(s, p) == f;
      }
      assert Filter(s, pq) == (if pq(s[0]) then [s[0]] else []) + Filter(s[1..], pq);
    }
  }

  /** On a sequence without repetitions, `list.remove(x)` filters `x` out. */
  lemma {:induction false} RemoveIsFilter(s: seq<int>, x: int)
    requires Distinct(s) && x in s
    ensures Remove(s, x) == Filter(s, y => y != x)
  {
    assert s == [s[0]] + s[1..];
    assert Distinct(s[1..]);
    if s[0] == x {
      assert x !in s[1..];
      FilterSame(s[1..], y => y != x, y => true);
      FilterAll(s[1..]);
    } else {
      RemoveIsFilter(s[1..], x);
    }
  }

  /** Splitting off the head of the left operand of a concatenation. */
  lemma ConsAppend<T>(a: seq<T>, b: seq<T>)
    requires |a| > 0
    ensures a + b == [a[0]] + (a[1..] + b)
  {
    var u := [a[0]] + (a[1..] + b);
    forall i | 0 <= i < |u|
      ensures (a + b)[i] == u[i]
    {
      if 0 < i < |a| {
        assert u[i] == a[1..][i - 1];
      }
    }
  }

  /** `list.remove(x)` on a list whose first `x` follows the prefix `a`. */
  /** Concatenation is associative. */
  lemma AppendAssoc<T>(a: seq<T>, b: seq<T>, c: seq<T>)
    ensures a + b + c == a + (b + c)
  {
    var u := a + (b + c);
    forall i | 0 <= i < |u| ensures (a + b + c)[i] == u[i] {
      if |a| <= i < |a| + |b| { assert u[i] == (b + c)[i - |a|]; }
    }
  }

  lemma {:induction false} RemoveAfterPrefix<T>(a: seq<T>, x: T, b: seq<T>)
    requires x !in a
    ensures Remove(a + [x] + b, x) == a + b
  {
    var s := a + [x] + b;
    if a == [] {
      assert s == [x] + b;
    } else {
      var t := a[1..];
      assert x !in t by {
        assert forall i :: 0 <= i < |t| ==> t[i] == a[i + 1];
      }
      RemoveAfterPrefix(t, x, b);
      ConsAppend(a + [x], b);
      ConsAppend(a, [x]);
      assert s == [a[0]] + (t + [x] + b);
      ConsAppend(a, b);
    }
  }


  /** Filtering one more element of `s` appends it when it passes. */
  lemma FilterExtend(s: seq<int>, k: int, p: int -> bool)
    requires 0 <= k < |s|
    ensures Filter(s[..k + 1], p) == Filter(s[..k], p) + (if p(s[k]) then [s[k]] else [])
  {
    assert s[..k + 1] == s[..k] + [s[k]];
    FilterAppend(s[..k], [s[k]], p);
    assert Filter([s[k]], p) == (if p(s[k]) then [s[k]] else []) + Filter([], p);
  }

  /** In a list without repetitions, an element is not among those before it. */
  lemma FilterPrefixExcludes(s: seq<int>, k: int, p: int -> bool)
    requires Distinct(s) && 0 <= k < |s|
    ensures s[k] !in Filter(s[..k], p)
  {
    assert forall i :: 0 <= i < k ==> s[..k][i] != s[k];
  }

  /**
   * One step of a walk over a list without repetitions that drops the
   * elements failing `p`: the kept prefix followed by the elements not yet
   * visited.
   */
  lemma FilterStep(s: seq<int>, k: int, p: int -> bool)
    requires Distinct(s) && 0 <= k < |s|
    ensures p(s[k]) ==> Filter(s[..k], p) + s[k..] == Filter(s[..k + 1], p) + s[k + 1..]
    ensures !p(s[k]) ==> && s[k] in Filter(s[..k], p) + s[k..]
                         && Remove(Filter(s[..k], p) + s[k..], s[k]) == Filter(s[..k + 1], p) + s[k + 1..]
  {
    var x := s[k];
    var kept := Filter(s[..k], p);
    var rest := s[k + 1..];
    FilterExtend(s, k, p);
    assert s[k..] == [x] + rest;
    AppendAssoc(kept, [x], rest);
    if !p(x) {
      FilterPrefixExcludes(s, k, p);
      RemoveAfterPrefix(kept, x, rest);
      assert (kept + s[k..])[|kept|] == x;
    }
  }

  /** A filter that no element passes is empty. */
  lemma FilterNone(s: seq<int>, p: int -> bool)
    requires forall i :: 0 <= i < |s| ==> !p(s[i])
    ensures Filter(s, p) == []
  {
    var r := Filter(s, p);
    assert forall x :: x !in r;
  }

  lemma {:induction false} FilterAll(s: seq<int>)
    ensures Filter(s, y => true) == s
  {
    if s != [] {
      FilterAll(s[1..]);
      assert s == [s[0]] + s[1..];
    }
  }

  /** Removing one more element from a filtered list that has no repetitions. */
  lemma RemoveFromFilter(s: seq<int>, p: int -> bool, x: int, q: int -> bool)
    requires Distinct(s) && x in s && p(x)
    requires forall i :: 0 <= i < |s| ==> q(s[i]) == (p(s[i]) && s[i] != x)
    ensures Remove(Filter(s, p), x) == Filter(s, q)
  {
    FilterDistinct(s, p);
    RemoveIsFilter(Filter(s, p), x);
    FilterFilter(s, p, y => y != x, q);
  }

  /** The elements of a permutation of `[0, n)` that satisfy `p` are as many as there are such integers. */
  lemma FilterPermutationCard(perm: seq<int>, n: nat, p: int -> bool)
    requires IsPermutation(perm, n)
    ensures Distinct(Filter(perm, p))
    ensures Elements(Filter(perm, p)) == set v | 0 <= v < n && p(v)
    ensures |Filter(perm, p)| == |set v | 0 <= v < n && p(v)|
  {
    FilterDistinct(perm, p);
    DistinctCard(Filter(perm, p));
  }

  /** The indices at which `x` occurs in `s`, in increasing order (`[i for i in range(len(s)) if s[i] == x]`). */
  function IndicesOf<T(==)>(s: seq<T>, x: T): (r: seq<int>)
    ensures forall i :: i in r <==> 0 <= i < |s| && s[i] == x
  {
    Filter(Range(|s|), i => 0 <= i < |s| && s[i] == x)
  }

  lemma RangeIsPermutation(n: nat)
    ensures IsPermutation(Range(n), n)
  {
    var r := Range(n);
    forall v | 0 <= v < n
      ensures v in r
    {
      assert r[v] == v;
    }
  }

  /** There are as many indices of `x` as occurrences of `x`, none repeated. */
  lemma IndicesOfCount<T>(s: seq<T>, x: T)
    ensures Distinct(IndicesOf(s, x))
    ensures |IndicesOf(s, x)| == Count(s, x)
  {
    var p := i => 0 <= i < |s| && s[i] == x;
    RangeIsPermutation(|s|);
    FilterPermutationCard(Range(|s|), |s|, p);
    CountIsCard(s, x);
    var a := set v | 0 <= v < |s| && p(v);
    forall v
      ensures v in a <==> v in Positions(s, x)
    {
      assert p(v) <==> 0 <= v < |s| && s[v] == x;
    }
    assert a == Positions(s, x);
  }
}
