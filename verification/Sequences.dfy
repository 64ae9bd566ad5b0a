/** Sequences without repetition. */
module Sequences {
  import opened Basics

  ghost predicate Distinct<T>(s: seq<T>) {
    forall i, j | 0 <= i < j < |s| :: s[i] != s[j]
  }

  lemma DistinctConcatenation<T>(a: seq<T>, b: seq<T>)
    requires Distinct(a) && Distinct(b) && forall x <- a :: x !in b
    ensures Distinct(a + b)
  {
    forall i, j | 0 <= i < j < |a + b| ensures (a + b)[i] != (a + b)[j] {
      if i < |a| <= j {
        assert (a + b)[i] in a && (a + b)[j] in b;
      }
    }
  }

  /** The sequence without the elements equal to x. */
  function Without<T(==,!new)>(s: seq<T>, x: T): (r: seq<T>)
    ensures forall y :: y in r <==> y in s && y != x
  {
    if s == [] then []
    else Without(ButLast(s), x) + (if Last(s) == x then [] else [Last(s)])
  }

  lemma {:induction false} WithoutDistinct<T(!new)>(s: seq<T>, x: T)
    requires Distinct(s)
    ensures Distinct(Without(s, x))
  {
    if s != [] {
      WithoutDistinct(ButLast(s), x);
      assert Last(s) !in ButLast(s);
    }
  }

  /** Of a sequence with one element equal to x, what is before and behind it is left in its order. */
  lemma {:induction false} WithoutOnly<T(!new)>(a: seq<T>, x: T, b: seq<T>)
    requires x !in a && x !in b
    ensures Without(a + [x] + b, x) == a + b
    decreases |b|
  {
    var s := a + [x] + b;
    if b == [] {
      assert ButLast(s) == a;
      WithoutAbsent(a, x);
    } else {
      assert ButLast(s) == a + [x] + ButLast(b) && Last(b) in b;
      WithoutOnly(a, x, ButLast(b));
      assert (a + ButLast(b)) + [Last(b)] == a + b;
    }
  }

  lemma {:induction false} WithoutAbsent<T(!new)>(s: seq<T>, x: T)
    requires x !in s
    ensures Without(s, x) == s
  {
    if s != [] {
      assert Last(s) in s && s == ButLast(s) + [Last(s)];
      WithoutAbsent(ButLast(s), x);
    }
  }

  /** The sequence in reverse order. */
  function Reversed<T>(s: seq<T>): (r: seq<T>)
    ensures |r| == |s| && forall k | 0 <= k < |s| :: r[k] == s[|s| - 1 - k]
  {
    if s == [] then [] else [Last(s)] + Reversed(ButLast(s))
  }
}
