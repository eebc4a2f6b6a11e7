/**
 Equality and ordering of polynomials: degree first, then coefficients,
 independent of capacity.
 */
module Ordering {
  import opened Poly

  /** Two sequences agree on their degree and on every coefficient up to it
      exactly when they denote the same polynomial. */
  lemma SameCoefficientsIffEquiv(a: seq<int>, b: seq<int>)
    ensures (Degree(a, 0) == Degree(b, 0) &&
             forall i :: 0 <= i <= Degree(a, 0) ==> a[i] == b[i]) <==> Equiv(a, b)
  {
    var n := Degree(a, 0);
    if n == Degree(b, 0) && forall i :: 0 <= i <= n ==> a[i] == b[i] {
      forall i | 0 <= i
        ensures At(a, i) == At(b, i)
      {
        if i > n {
          assert At(a, i) == 0 && At(b, i) == 0;
        }
      }
    }
    if Equiv(a, b) {
      EquivDegree(a, b);
      forall i | 0 <= i <= n
        ensures a[i] == b[i]
      {
        assert At(a, i) == At(b, i);
      }
    }
  }

  /** `operator ==` as written: the degrees must match and the coefficients
      are compared at indices 0 .. n - 1 only (loop bound `i < n`), so the
      leading coefficients are never compared. Two sequences denoting the
      same polynomial still compare equal. */
  function EqualAsWritten(a: seq<int>, b: seq<int>): (r: bool)
    ensures Equiv(a, b) ==> r
    ensures r ==> Degree(a, 0) == Degree(b, 0)
  {
    SameCoefficientsIffEquiv(a, b);
    var n := Degree(a, 0);
    n == Degree(b, 0) && forall i :: 0 <= i < n ==> a[i] == b[i]
  }

  /** x^2 + 1 and 2x^2 + 1 compare equal under the loop bound as written. */
  lemma EqualAsWrittenIgnoresLead()
    ensures EqualAsWritten([1, 0, 1], [1, 0, 2])
    ensures !Equiv([1, 0, 1], [1, 0, 2])
  {
    assert Degree([1, 0, 1], 0) == 2;
    assert Degree([1, 0, 2], 0) == 2;
    assert At([1, 0, 1], 2) != At([1, 0, 2], 2);
  }

  /** `operator ==` with the evidently intended bound `i <= n`: it holds
      exactly when the two sequences denote the same polynomial, whatever
      their capacities. */
  function Equal(a: seq<int>, b: seq<int>): (r: bool)
    ensures r <==> Equiv(a, b)
  {
    SameCoefficientsIffEquiv(a, b);
    var n := Degree(a, 0);
    n == Degree(b, 0) && forall i :: 0 <= i <= n ==> a[i] == b[i]
  }

  /** Equality is an equivalence relation. */
  lemma EqualIsEquivalence(a: seq<int>, b: seq<int>, c: seq<int>)
    ensures Equal(a, a)
    ensures Equal(a, b) ==> Equal(b, a)
    ensures Equal(a, b) && Equal(b, c) ==> Equal(a, c)
  {
  }

  /** Capacity does not matter: {1,0,1} equals {1,0,1,0,0}. */
  lemma EqualAcrossCapacities()
    ensures Equal([1, 0, 1], [1, 0, 1, 0, 0])
  {
    assert Degree([1, 0, 1], 0) == 2;
    assert Degree([1, 0, 1, 0, 0], 0) == 2;
  }

  /** `operator !=`: the two sequences denote different polynomials. */
  function NotEqual(a: seq<int>, b: seq<int>): (r: bool)
    ensures r <==> !Equiv(a, b)
  {
    !Equal(a, b)
  }

  /** `std::lexicographical_compare` on the coefficients below index `i`,
      read from the top index down. */
  function LexLessFromTop(a: seq<int>, b: seq<int>, i: nat): bool
    requires i <= |a| == |b|
  {
    if i == 0 then false
    else if a[i - 1] != b[i - 1] then a[i - 1] < b[i - 1]
    else LexLessFromTop(a, b, i - 1)
  }

  /** `operator <` on two polynomials of the same capacity: the lower degree
      is smaller; equal degrees compare coefficients from the top down. */
  function Less(a: seq<int>, b: seq<int>): (r: bool)
    requires |a| == |b|
    ensures Degree(a, 0) < Degree(b, 0) ==> r
    ensures Degree(a, 0) > Degree(b, 0) ==> !r
  {
    if Degree(a, 0) != Degree(b, 0) then Degree(a, 0) < Degree(b, 0)
    else LexLessFromTop(a, b, |a|)
  }

  lemma {:induction false} LexTrichotomy(a: seq<int>, b: seq<int>, i: nat)
    requires i <= |a| == |b|
    ensures (a[..i] == b[..i]) || LexLessFromTop(a, b, i) || LexLessFromTop(b, a, i)
    ensures !(LexLessFromTop(a, b, i) && LexLessFromTop(b, a, i))
    ensures a[..i] == b[..i] ==> !LexLessFromTop(a, b, i)
  {
    if i > 0 {
      LexTrichotomy(a, b, i - 1);
      if a[i - 1] == b[i - 1] && a[..i - 1] == b[..i - 1] {
        assert a[..i] == a[..i - 1] + [a[i - 1]];
        assert b[..i] == b[..i - 1] + [b[i - 1]];
      }
      if a[..i] == b[..i] {
        assert a[i - 1] == a[..i][i - 1] == b[..i][i - 1] == b[i - 1];
        assert a[..i - 1] == a[..i][..i - 1];
        assert b[..i - 1] == b[..i][..i - 1];
      }
    }
  }

  /** On equal capacities exactly one of `a < b`, `a == b`, `b < a` holds. */
  lemma LessTrichotomy(a: seq<int>, b: seq<int>)
    requires |a| == |b|
    ensures Less(a, b) || Equal(a, b) || Less(b, a)
    ensures !(Less(a, b) && Equal(a, b))
    ensures !(Less(a, b) && Less(b, a))
  {
    LexTrichotomy(a, b, |a|);
    assert a[..|a|] == a && b[..|b|] == b;
    var n := Degree(a, 0);
    if Degree(b, 0) == n {
      if a == b {
        assert Equal(a, b);
      }
      if Equal(a, b) {
        forall i | 0 <= i < |a|
          ensures a[i] == b[i]
        {
          if i > n {
            assert a[i] == 0 && b[i] == 0;
          }
        }
        assert a == b;
      }
    }
  }

  lemma {:induction false} LexTrans(a: seq<int>, b: seq<int>, c: seq<int>, i: nat)
    requires i <= |a| == |b| == |c|
    requires LexLessFromTop(a, b, i) && LexLessFromTop(b, c, i)
    ensures LexLessFromTop(a, c, i)
  {
    if a[i - 1] == b[i - 1] && b[i - 1] == c[i - 1] {
      LexTrans(a, b, c, i - 1);
    }
  }

  /** `<` is transitive on equal capacities, so with `LessTrichotomy` it is
      a strict total order. */
  lemma LessTransitive(a: seq<int>, b: seq<int>, c: seq<int>)
    requires |a| == |b| == |c|
    requires Less(a, b) && Less(b, c)
    ensures Less(a, c)
  {
    if Degree(a, 0) == Degree(b, 0) == Degree(c, 0) {
      LexTrans(a, b, c, |a|);
    }
  }

  /** `operator <=`: either `<` or `==`; on equal capacities this is
      exactly "not b < a". */
  function LessEq(a: seq<int>, b: seq<int>): (r: bool)
    requires |a| == |b|
    ensures r <==> !Less(b, a)
  {
    LessTrichotomy(a, b);
    LessTrichotomy(b, a);
    Less(a, b) || Equal(a, b)
  }

  /** `operator >=`, defined as not `<`: it is `b <= a`. */
  function GreaterEq(a: seq<int>, b: seq<int>): (r: bool)
    requires |a| == |b|
    ensures r <==> LessEq(b, a)
  {
    !Less(a, b)
  }

  /** `operator >`, defined as not `<=`: it is `b < a`. */
  function Greater(a: seq<int>, b: seq<int>): (r: bool)
    requires |a| == |b|
    ensures r <==> Less(b, a)
  {
    !LessEq(a, b)
  }
}
