/**
 * Counting, searching and filtering a sequence by a predicate. The rules
 * count candidates, remember the last candidate index and collect
 * sub-lists as they scan; these definitions follow a scan from the front
 * (each is defined by its value on the sequence without its last element),
 * and the lemmas give their declarative meaning.
 */
module Counting {
  /** How many elements satisfy p. */
  function Count<T>(l: seq<T>, p: T -> bool): nat
  {
    if |l| == 0 then 0 else Count(l[..|l| - 1], p) + (if p(l[|l| - 1]) then 1 else 0)
  }

  /** The index of the last element satisfying p, or -1. */
  function LastIndex<T>(l: seq<T>, p: T -> bool): (r: int)
    ensures -1 <= r < |l|
    ensures r >= 0 ==> p(l[r])
    ensures r == -1 <==> Count(l, p) == 0
  {
    if |l| == 0 then -1
    else if p(l[|l| - 1]) then |l| - 1
    else LastIndex(l[..|l| - 1], p)
  }

  /** The elements satisfying p, in order. */
  function Filter<T>(l: seq<T>, p: T -> bool): (r: seq<T>)
    ensures |r| == Count(l, p)
  {
    if |l| == 0 then [] else Filter(l[..|l| - 1], p) + (if p(l[|l| - 1]) then [l[|l| - 1]] else [])
  }

  /** One more element scanned. */
  lemma Snoc<T>(l: seq<T>, p: T -> bool, j: nat)
    requires j < |l|
    ensures Count(l[..j + 1], p) == Count(l[..j], p) + (if p(l[j]) then 1 else 0)
    ensures LastIndex(l[..j + 1], p) == if p(l[j]) then j else LastIndex(l[..j], p)
    ensures Filter(l[..j + 1], p) == Filter(l[..j], p) + (if p(l[j]) then [l[j]] else [])
  {
    assert l[..j + 1][..j] == l[..j];
  }

  /** A prefix has no more matches than the whole. */
  lemma {:induction false} CountPrefix<T>(l: seq<T>, p: T -> bool, j: nat)
    requires j <= |l|
    ensures Count(l[..j], p) <= Count(l, p)
    decreases |l|
  {
    if j < |l| {
      assert l[..|l| - 1][..j] == l[..j];
      CountPrefix(l[..|l| - 1], p, j);
    } else {
      assert l[..j] == l;
    }
  }

  /** No element matches exactly when the count is zero. */
  lemma {:induction false} CountZero<T>(l: seq<T>, p: T -> bool)
    ensures Count(l, p) == 0 <==> forall i :: 0 <= i < |l| ==> !p(l[i])
    decreases |l|
  {
    if |l| > 0 {
      CountZero(l[..|l| - 1], p);
    }
  }

  /** Some element matches exactly when the count is positive. */
  lemma CountPositive<T>(l: seq<T>, p: T -> bool, i: nat)
    requires i < |l| && p(l[i])
    ensures Count(l, p) > 0
  {
    CountZero(l, p);
  }

  /** At most one index matches exactly when the count is at most one. */
  lemma {:induction false} CountAtMostOne<T>(l: seq<T>, p: T -> bool)
    ensures Count(l, p) <= 1 <==> forall i, j :: 0 <= i < |l| && 0 <= j < |l| && p(l[i]) && p(l[j]) ==> i == j
    decreases |l|
  {
    if |l| > 0 {
      var init := l[..|l| - 1];
      CountAtMostOne(init, p);
      CountZero(init, p);
      if p(l[|l| - 1]) && Count(init, p) == 1 {
        var k := LastIndex(init, p);
        assert p(l[k]) && k != |l| - 1;
      }
    }
  }

  /** Exactly one index matches, namely the last matching one, when the count is one. */
  lemma CountOne<T>(l: seq<T>, p: T -> bool)
    requires Count(l, p) == 1
    ensures forall i :: 0 <= i < |l| && p(l[i]) ==> i == LastIndex(l, p)
  {
    CountAtMostOne(l, p);
  }

  /** The filter keeps exactly the matching elements. */
  lemma {:induction false} FilterMembers<T>(l: seq<T>, p: T -> bool)
    ensures forall x :: x in Filter(l, p) <==> x in l && p(x)
    decreases |l|
  {
    if |l| > 0 {
      var init := l[..|l| - 1];
      FilterMembers(init, p);
      assert l == init + [l[|l| - 1]];
    }
  }

  /** Sequences that match at the same positions have the same count. */
  lemma {:induction false} CountPointwise<T>(a: seq<T>, b: seq<T>, p: T -> bool)
    requires |a| == |b| && forall k :: 0 <= k < |a| ==> (p(a[k]) <==> p(b[k]))
    ensures Count(a, p) == Count(b, p)
    decreases |a|
  {
    if |a| > 0 {
      CountPointwise(a[..|a| - 1], b[..|b| - 1], p);
    }
  }

  /** Every element matches exactly when the count is the length. */
  lemma {:induction false} CountAll<T>(l: seq<T>, p: T -> bool)
    ensures Count(l, p) == |l| <==> forall k :: 0 <= k < |l| ==> p(l[k])
    decreases |l|
  {
    if |l| > 0 {
      var init := l[..|l| - 1];
      CountAll(init, p);
      CountPrefix(l, p, |l| - 1);
      CountBound(init, p);
    }
  }

  /** The count never exceeds the length. */
  lemma {:induction false} CountBound<T>(l: seq<T>, p: T -> bool)
    ensures Count(l, p) <= |l|
    decreases |l|
  {
    if |l| > 0 {
      CountBound(l[..|l| - 1], p);
    }
  }

  /** No element occurs twice. */
  predicate Distinct<T(==)>(l: seq<T>)
  {
    forall i, j :: 0 <= i < j < |l| ==> l[i] != l[j]
  }

  /** A sequence without repetitions has as many elements as its set. */
  lemma {:induction false} DistinctCard<T>(l: seq<T>)
    requires Distinct(l)
    ensures |set x | x in l| == |l|
    decreases |l|
  {
    if |l| > 0 {
      var init := l[..|l| - 1];
      var last := l[|l| - 1];
      DistinctCard(init);
      assert (set x | x in l) == (set x | x in init) + {last};
      assert last !in (set x | x in init);
    }
  }
}
