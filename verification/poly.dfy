/**
 The fixed-capacity polynomial container `static_poly<T, N>`: a sequence of
 exactly N coefficients, index 0 being the constant term. The capacity of a
 value is the length of its sequence and never changes; operations that need
 a different capacity build a new sequence.
 */
module Poly {
  import opened Arith

  /** Coefficient `i`, with every index outside the capacity reading as zero. */
  function At(p: seq<int>, i: int): int
  {
    if 0 <= i < |p| then p[i] else 0
  }

  /** The same polynomial, whatever the two capacities. */
  ghost predicate Equiv(p: seq<int>, q: seq<int>)
  {
    forall i :: 0 <= i ==> At(p, i) == At(q, i)
  }

  /** Every coefficient above index `d` is zero. */
  ghost predicate HighZero(p: seq<int>, d: int)
  {
    forall i :: 0 <= i < |p| && d < i ==> p[i] == 0
  }

  /** `degree()`: the highest index holding a nonzero coefficient, or -1 for
      the zero polynomial. Generic in the coefficient type so that the field
      division can use it on `real` coefficients. */
  function Degree<T(==)>(p: seq<T>, zero: T): (d: int)
    ensures -1 <= d < |p|
    ensures d >= 0 ==> p[d] != zero
    ensures forall i :: d < i < |p| ==> p[i] == zero
  {
    if |p| == 0 then -1
    else if p[|p| - 1] != zero then |p| - 1
    else Degree(p[..|p| - 1], zero)
  }

  /** `explicit operator bool`: true exactly when some coefficient is nonzero. */
  function IsNonzero(p: seq<int>): (b: bool)
    ensures b <==> exists i :: 0 <= i < |p| && p[i] != 0
  {
    Degree(p, 0) >= 0
  }

  /** The default constructor: N zero coefficients. */
  function Zeros(n: nat): (r: seq<int>)
    ensures |r| == n && !IsNonzero(r)
  {
    seq(n, i => 0)
  }

  /** Construction from an iterator range, an array, or another polynomial of
      capacity `|data|`: the first min(n, |data|) coefficients are copied and
      the rest are zero, so high terms are dropped when `n < |data|`. */
  function Resize(data: seq<int>, n: nat): (r: seq<int>)
    ensures |r| == n
    ensures forall i :: 0 <= i < n ==> r[i] == At(data, i)
  {
    seq(n, i => At(data, i))
  }

  /** Construction from a single value, which becomes the constant term. */
  function FromScalar(c: int, n: nat): (r: seq<int>)
    requires n >= 1
    ensures |r| == n && r[0] == c
    ensures Degree(r, 0) == if c == 0 then -1 else 0
  {
    Resize([c], n)
  }

  /** `p += c`; a capacity-0 polynomial cannot be modified. */
  function AddScalar(p: seq<int>, c: int): (r: seq<int>)
    requires |p| >= 1
    ensures |r| == |p| && r[0] == p[0] + c
    ensures forall i :: 1 <= i < |p| ==> r[i] == p[i]
  {
    p[0 := p[0] + c]
  }

  /** `p -= c`. */
  function SubScalar(p: seq<int>, c: int): (r: seq<int>)
    requires |p| >= 1
    ensures |r| == |p| && r[0] == p[0] - c
    ensures forall i :: 1 <= i < |p| ==> r[i] == p[i]
  {
    p[0 := p[0] - c]
  }

  /** `p *= c`: every coefficient is scaled. */
  function MulScalar(p: seq<int>, c: int): (r: seq<int>)
    ensures |r| == |p|
    ensures forall i :: 0 <= i < |p| ==> r[i] == p[i] * c
  {
    seq(|p|, i requires 0 <= i < |p| => p[i] * c)
  }

  /** `p /= c` over integer coefficients: each coefficient divided by `c`,
      truncating toward zero. */
  function DivScalar(p: seq<int>, c: int): (r: seq<int>)
    requires c != 0
    ensures |r| == |p|
    ensures forall i :: 0 <= i < |p| && p[i] >= 0 ==> 0 <= p[i] - c * r[i] < Abs(c)
    ensures forall i :: 0 <= i < |p| && p[i] < 0 ==> 0 <= c * r[i] - p[i] < Abs(c)
  {
    seq(|p|, i requires 0 <= i < |p| => TruncDiv(p[i], c))
  }

  /** `p %= c` over integer coefficients: each coefficient becomes
      `i - c * (i / c)`, a remainder smaller than `c` with the sign of `i`. */
  function ModScalar(p: seq<int>, c: int): (r: seq<int>)
    requires c != 0
    ensures |r| == |p|
    ensures forall i :: 0 <= i < |p| ==> Abs(r[i]) < Abs(c)
    ensures forall i :: 0 <= i < |p| ==> r[i] == 0 || (r[i] < 0 <==> p[i] < 0)
  {
    seq(|p|, i requires 0 <= i < |p| => p[i] - c * TruncDiv(p[i], c))
  }

  /** `p /= c` over a field. */
  function FieldDivScalar(p: seq<real>, c: real): (r: seq<real>)
    requires c != 0.0
    ensures |r| == |p|
    ensures forall i :: 0 <= i < |p| ==> r[i] * c == p[i]
  {
    seq(|p|, i requires 0 <= i < |p| => p[i] / c)
  }

  /** `p %= c` over a coefficient type that is not an integer: no remainder
      exists in a field, so every coefficient becomes zero. */
  function FieldModScalar(p: seq<real>, c: real): (r: seq<real>)
    ensures |r| == |p| && Degree(r, 0.0) == -1
  {
    seq(|p|, i => 0.0)
  }

  /** `p + c` and `c + p`: a capacity-0 polynomial yields a new capacity-1
      polynomial holding `c`. */
  function PlusScalar(p: seq<int>, c: int): (r: seq<int>)
    ensures |r| == Max(|p|, 1)
    ensures At(r, 0) == At(p, 0) + c
    ensures forall i :: 1 <= i < |r| ==> r[i] == p[i]
  {
    if |p| == 0 then FromScalar(c, 1) else AddScalar(p, c)
  }

  /** `p - c`. */
  function MinusScalar(p: seq<int>, c: int): (r: seq<int>)
    ensures |r| == Max(|p|, 1)
    ensures At(r, 0) == At(p, 0) - c
    ensures forall i :: 1 <= i < |r| ==> r[i] == p[i]
  {
    if |p| == 0 then FromScalar(-c, 1) else SubScalar(p, c)
  }

  /** `c - p`: the scalar is made a polynomial of capacity max(N, 1), from
      which `p` is subtracted. */
  function ScalarMinus(c: int, p: seq<int>): (r: seq<int>)
    ensures |r| == Max(|p|, 1)
    ensures At(r, 0) == c - At(p, 0)
    ensures forall i :: 1 <= i < |r| ==> r[i] == -p[i]
  {
    Sub(FromScalar(c, Max(|p|, 1)), p)
  }

  /** Unary minus: every coefficient multiplied by -1. */
  function Neg(p: seq<int>): (r: seq<int>)
    ensures |r| == |p|
    ensures forall i :: 0 <= i < |p| ==> r[i] == -p[i]
  {
    seq(|p|, i requires 0 <= i < |p| => p[i] * -1)
  }

  /** `a + b`: `a` is copied into capacity max(N1, N2), then each of the N2
      coefficients of `b` is added in. */
  function Add(a: seq<int>, b: seq<int>): (r: seq<int>)
    ensures |r| == Max(|a|, |b|)
    ensures forall i :: 0 <= i ==> At(r, i) == At(a, i) + At(b, i)
  {
    var sum := Resize(a, Max(|a|, |b|));
    seq(|sum|, i requires 0 <= i < |sum| => if i < |b| then sum[i] + b[i] else sum[i])
  }

  /** `a - b`, laid out like `a + b`. */
  function Sub(a: seq<int>, b: seq<int>): (r: seq<int>)
    ensures |r| == Max(|a|, |b|)
    ensures forall i :: 0 <= i ==> At(r, i) == At(a, i) - At(b, i)
  {
    var diff := Resize(a, Max(|a|, |b|));
    seq(|diff|, i requires 0 <= i < |diff| => if i < |b| then diff[i] - b[i] else diff[i])
  }

  // Properties of the container operations.

  /** Truncating to capacity `n` keeps the polynomial exactly when every
      dropped coefficient is zero. */
  lemma ResizeKeepsValue(p: seq<int>, n: nat)
    ensures Equiv(Resize(p, n), p) <==> HighZero(p, n - 1)
  {
    var r := Resize(p, n);
    if HighZero(p, n - 1) {
      forall i | 0 <= i
        ensures At(r, i) == At(p, i)
      {
        if i >= n && i < |p| {
          assert p[i] == 0;
        }
      }
    }
    if Equiv(r, p) {
      forall i | 0 <= i < |p| && n - 1 < i
        ensures p[i] == 0
      {
        assert At(r, i) == At(p, i);
      }
    }
  }

  /** Extending to a larger capacity and converting back gives the original. */
  lemma ResizeRoundTrip(p: seq<int>, n: nat)
    requires n >= |p|
    ensures Resize(Resize(p, n), |p|) == p
  {
  }

  lemma AddSubScalarRoundTrip(p: seq<int>, c: int)
    requires |p| >= 1
    ensures SubScalar(AddScalar(p, c), c) == p
  {
  }

  /** Scaling by a nonzero integer keeps the degree; scaling by zero gives
      the zero polynomial of the same capacity. */
  lemma MulScalarDegree(p: seq<int>, c: int)
    ensures Degree(MulScalar(p, c), 0) == if c == 0 then -1 else Degree(p, 0)
  {
    var r := MulScalar(p, c);
    var d := Degree(p, 0);
    if c != 0 {
      if d >= 0 {
        assert r[d] != 0;
      }
      assert HighZero(r, d);
    } else {
      assert HighZero(r, -1);
    }
  }

  /** `p == c * (p / c) + (p % c)` for integer coefficients. */
  lemma DivModIdentity(p: seq<int>, c: int)
    requires c != 0
    ensures Equiv(p, Add(MulScalar(DivScalar(p, c), c), ModScalar(p, c)))
  {
    var q := DivScalar(p, c);
    var r := Add(MulScalar(q, c), ModScalar(p, c));
    forall i | 0 <= i
      ensures At(p, i) == At(r, i)
    {
      if i < |p| {
        assert q[i] * c == c * q[i];
      }
    }
  }

  lemma NegInvolutive(p: seq<int>)
    ensures Neg(Neg(p)) == p
  {
  }

  lemma NegDegree(p: seq<int>)
    ensures Degree(Neg(p), 0) == Degree(p, 0)
  {
    var d := Degree(p, 0);
    assert HighZero(Neg(p), d);
    if d >= 0 {
      assert Neg(p)[d] != 0;
    }
  }

  lemma AddCommutes(a: seq<int>, b: seq<int>)
    ensures Add(a, b) == Add(b, a)
  {
    var r, s := Add(a, b), Add(b, a);
    forall i | 0 <= i < |r|
      ensures r[i] == s[i]
    {
      assert At(r, i) == At(s, i);
    }
  }

  /** Subtracting `b` again undoes adding it. */
  lemma AddSubRoundTrip(a: seq<int>, b: seq<int>)
    ensures Equiv(Sub(Add(a, b), b), a)
  {
  }

  /** `a + (-a)` is the zero polynomial. */
  lemma AddNegIsZero(a: seq<int>)
    ensures !IsNonzero(Add(a, Neg(a)))
  {
    var r := Add(a, Neg(a));
    forall i | 0 <= i < |r|
      ensures r[i] == 0
    {
      assert At(r, i) == At(a, i) + At(Neg(a), i);
    }
  }

  /** A sum never has a higher degree than both operands. */
  lemma AddDegree(a: seq<int>, b: seq<int>)
    ensures Degree(Add(a, b), 0) <= Max(Degree(a, 0), Degree(b, 0))
  {
    var r := Add(a, b);
    var d := Max(Degree(a, 0), Degree(b, 0));
    forall i | d < i < |r|
      ensures r[i] == 0
    {
      assert At(r, i) == At(a, i) + At(b, i);
    }
  }

  // Polynomial equality is an equivalence that the operations respect.

  lemma EquivRefl(p: seq<int>)
    ensures Equiv(p, p)
  {
  }

  lemma AddEquivLeft(a: seq<int>, a': seq<int>, b: seq<int>)
    requires Equiv(a, a')
    ensures Equiv(Add(a, b), Add(a', b))
  {
  }

  lemma AddEquivRight(a: seq<int>, b: seq<int>, b': seq<int>)
    requires Equiv(b, b')
    ensures Equiv(Add(a, b), Add(a, b'))
  {
  }

  /** Equal polynomials have equal degrees, whatever their capacities. */
  lemma EquivDegree(p: seq<int>, q: seq<int>)
    requires Equiv(p, q)
    ensures Degree(p, 0) == Degree(q, 0)
  {
    var dp, dq := Degree(p, 0), Degree(q, 0);
    if dp >= 0 {
      assert At(q, dp) == At(p, dp) != 0;
    }
    if dq >= 0 {
      assert At(p, dq) == At(q, dq) != 0;
    }
  }
}
