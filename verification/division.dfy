/**
 Division of integer-coefficient polynomials: Algorithm R (pseudo-division)
 of Knuth, The Art of Computer Programming, Vol. 2, 3rd ed., section 4.6.1,
 and the `quotient_remainder`, `/` and `%` operators built on it.

 The division block of the original was written for a polynomial whose size
 is its degree plus one. Here m = deg u and n = deg v are the degrees, the
 divisor must be nonzero, the quotient has m - n + 1 coefficients and the
 remainder n.
 */
module Division {
  import opened Arith
  import opened Poly
  import opened Multiplication

  /** `integer_power(t, n)`: the small exponents are spelled out, larger ones
      square the power for n / 2 and multiply by t once more when n is odd. */
  function IntegerPower(t: int, n: nat): (r: int)
    ensures r == Pow(t, n)
  {
    if n == 0 then 1
    else if n == 1 then t
    else if n == 2 then
      PowSmall(t);
      t * t
    else if n == 3 then
      PowSmall(t);
      t * t * t
    else
      var half := IntegerPower(t, n / 2);
      PowAdd(t, n / 2, n / 2);
      if n % 2 == 1 then
        PowAdd(t, n / 2 + n / 2, 1);
        PowSmall(t);
        half * half * t
      else
        half * half
  }

  lemma PowSmall(t: int)
    ensures Pow(t, 1) == t && Pow(t, 2) == t * t && Pow(t, 3) == t * t * t
  {
    assert Pow(t, 1) == t * Pow(t, 0);
    assert Pow(t, 2) == t * Pow(t, 1);
    assert Pow(t, 3) == t * Pow(t, 2);
  }

  /** The live part of the working dividend: indices below `len`. */
  function Live(w: seq<int>, len: int, j: int): int
  {
    if 0 <= j < len && j < |w| then w[j] else 0
  }

  /** The identity Algorithm R keeps while `k` quotient coefficients remain:
      lc^(m-n+1) * u == lc^k * (w below n + k) + q * v, coefficient by coefficient. */
  ghost predicate PseudoInvariant(u: seq<int>, v: seq<int>, w: seq<int>, q: seq<int>,
                                  lc: int, e: nat, n: nat, k: nat)
  {
    && (forall i :: 0 <= i < k && i < |q| ==> q[i] == 0)
    && forall j :: 0 <= j < |u| ==>
         Pow(lc, e) * u[j] == Pow(lc, k) * Live(w, n + k, j) + ConvAt(q, v, j)
  }

  /** One round of Algorithm R keeps the identity. */
  lemma PseudoStep(u: seq<int>, v: seq<int>, w0: seq<int>, w1: seq<int>,
                   q0: seq<int>, e: nat, n: nat, k: nat)
    requires |w0| == |w1| == |u| && n + k < |u| && k < |q0| && n < |v|
    requires Degree(v, 0) == n
    requires PseudoInvariant(u, v, w0, q0, v[n], e, n, k + 1)
    requires forall i :: 0 <= i < n + k ==>
      w1[i] == v[n] * w0[i] - (if i < k then 0 else w0[n + k] * v[i - k])
    ensures PseudoInvariant(u, v, w1, q0[k := w0[n + k] * Pow(v[n], k)], v[n], e, n, k)
  {
    var q1 := q0[k := w0[n + k] * Pow(v[n], k)];
    forall j | 0 <= j < |u|
      ensures Pow(v[n], e) * u[j] == Pow(v[n], k) * Live(w1, n + k, j) + ConvAt(q1, v, j)
    {
      PseudoCoefficient(u, v, w0, w1, q0, e, n, k, j);
    }
  }

  /** One coefficient of one round of Algorithm R. */
  lemma PseudoCoefficient(u: seq<int>, v: seq<int>, w0: seq<int>, w1: seq<int>,
                          q0: seq<int>, e: nat, n: nat, k: nat, j: nat)
    requires |w0| == |w1| == |u| && n + k < |u| && k < |q0| && n < |v| && j < |u|
    requires Degree(v, 0) == n && q0[k] == 0
    requires Pow(v[n], e) * u[j] == Pow(v[n], k + 1) * Live(w0, n + k + 1, j) + ConvAt(q0, v, j)
    requires j < n + k ==>
      w1[j] == v[n] * w0[j] - (if j < k then 0 else w0[n + k] * v[j - k])
    ensures Pow(v[n], e) * u[j] ==
      Pow(v[n], k) * Live(w1, n + k, j) + ConvAt(q0[k := w0[n + k] * Pow(v[n], k)], v, j)
  {
    var lc, c := v[n], w0[n + k];
    ConvAtUpdate(q0, k, c * Pow(lc, k), v, j);
    var l0, l1, a := Live(w0, n + k + 1, j), Live(w1, n + k, j), At(v, j - k);
    assert lc * l0 == l1 + c * a by {
      if j > n + k && j - k < |v| {
        assert v[j - k] == 0;
      }
    }
    ScaledStep(lc, k, l0, l1, c, a);
  }

  /** The arithmetic of one coefficient in a round of Algorithm R. */
  lemma ScaledStep(lc: int, k: nat, l0: int, l1: int, c: int, a: int)
    requires lc * l0 == l1 + c * a
    ensures Pow(lc, k + 1) * l0 == Pow(lc, k) * l1 + (c * Pow(lc, k)) * a
  {
    var p := Pow(lc, k);
    calc {
      Pow(lc, k + 1) * l0;
      (lc * p) * l0;
      p * (lc * l0);
      p * (l1 + c * a);
      p * l1 + (c * p) * a;
    }
  }

  /** Before the first round the working dividend is `u` itself and the
      quotient is zero. */
  lemma PseudoStart(u: seq<int>, v: seq<int>, q: seq<int>, lc: int, e: nat, n: nat)
    requires forall i :: n + e <= i < |u| ==> u[i] == 0
    requires forall i :: 0 <= i < |q| ==> q[i] == 0
    ensures PseudoInvariant(u, v, u, q, lc, e, n, e)
  {
    forall j | 0 <= j < |u|
      ensures Pow(lc, e) * u[j] == Pow(lc, e) * Live(u, n + e, j) + ConvAt(q, v, j)
    {
      ConvAtZeroLeft(q, v, j);
    }
  }

  /** After the last round the live part below n is the remainder. */
  lemma PseudoFinish(u: seq<int>, v: seq<int>, w: seq<int>, q: seq<int>, lc: int, e: nat, n: nat)
    requires n == Degree(v, 0) && Degree(u, 0) == n + e - 1 && e >= 1
    requires |w| == |u| && |q| == e && n <= |w|
    requires PseudoInvariant(u, v, w, q, lc, e, n, 0)
    ensures Equiv(MulScalar(u, Pow(lc, e)), Add(Product(q, v), w[..n]))
  {
    var r := w[..n];
    forall j | 0 <= j
      ensures At(MulScalar(u, Pow(lc, e)), j) == At(Add(Product(q, v), r), j)
    {
      AtProduct(q, v, j);
      if j >= |u| {
        ConvAtHigh(q, v, e - 1, n, j);
      } else {
        assert u[j] * Pow(lc, e) == Pow(lc, e) * u[j];
      }
    }
  }

  /** `detail::division` on integer coefficients, Algorithm R: for k from
      m - n down to 0, q[k] = u[n+k] * lc^k and every lower coefficient j
      becomes lc * u[j] - u[n+k] * v[j-k] (the subtrahend is 0 for j < k).
      The result satisfies lc^(m-n+1) * u == q * v + r with deg r < n. */
  method PseudoDivide(u: seq<int>, v: seq<int>) returns (q: seq<int>, r: seq<int>)
    requires IsNonzero(v) && Degree(u, 0) >= Degree(v, 0)
    ensures |q| == Degree(u, 0) - Degree(v, 0) + 1 && |r| == Degree(v, 0)
    ensures Equiv(MulScalar(u, Pow(v[Degree(v, 0)], |q|)), Add(Product(q, v), r))
  {
    var m, n := Degree(u, 0), Degree(v, 0);
    var lc := v[n];
    var e := m - n + 1;
    q := Zeros(e);
    var w := u;
    PseudoStart(u, v, q, lc, e, n);
    var k := e;
    while k > 0
      invariant 0 <= k <= e && |w| == |u| && |q| == e
      invariant PseudoInvariant(u, v, w, q, lc, e, n, k)
    {
      k := k - 1;
      ghost var w0, q0 := w, q;
      q := q[k := w[n + k] * IntegerPower(lc, k)];
      var j := n + k;
      while j > 0
        invariant 0 <= j <= n + k && |w| == |u|
        invariant forall i :: 0 <= i < j ==> w[i] == w0[i]
        invariant forall i :: j <= i < n + k ==>
          w[i] == lc * w0[i] - (if i < k then 0 else w0[n + k] * v[i - k])
        invariant forall i :: n + k <= i < |w| ==> w[i] == w0[i]
      {
        j := j - 1;
        w := w[j := lc * w[j] - (if j < k then 0 else w[n + k] * v[j - k])];
      }
      PseudoStep(u, v, w0, w, q0, e, n, k);
    }
    r := w[..n];
    PseudoFinish(u, v, w, q, lc, e, n);
  }

  /** `quotient_remainder`: a dividend of lower degree than the divisor gives
      an empty (zero) quotient and the dividend itself as remainder; otherwise
      Algorithm R runs. The original compares capacities here, which with the
      degree-based sizing above becomes a comparison of degrees. */
  method QuotientRemainder(u: seq<int>, v: seq<int>) returns (q: seq<int>, r: seq<int>)
    requires IsNonzero(v)
    ensures Degree(r, 0) < Degree(v, 0)
    ensures Degree(u, 0) < Degree(v, 0) ==> q == [] && r == u
    ensures Degree(u, 0) >= Degree(v, 0) ==> |q| == Degree(u, 0) - Degree(v, 0) + 1
    ensures Equiv(MulScalar(u, Pow(v[Degree(v, 0)], |q|)), Add(Product(q, v), r))
  {
    if Degree(u, 0) < Degree(v, 0) {
      q, r := [], u;
      forall j | 0 <= j
        ensures At(MulScalar(u, Pow(v[Degree(v, 0)], 0)), j) == At(Add(Product(q, v), r), j)
      {
        AtProduct(q, v, j);
      }
    } else {
      q, r := PseudoDivide(u, v);
    }
  }

  /** Capacity of `a / b` as declared by the original: max(N1 - N2, 0). */
  function QuotientCapacityAsWritten(n1: nat, n2: nat): nat
  {
    Max(n1 - n2, 0)
  }

  /** Capacity of `a / b` used here: max(N1 - N2 + 1, 1), one more than the
      declared capacity, so that all m - n + 1 quotient coefficients fit. */
  function QuotientCapacity(n1: nat, n2: nat): (c: nat)
    ensures c >= 1
    ensures n1 >= n2 ==> c == n1 - n2 + 1
    ensures c == QuotientCapacityAsWritten(n1, n2) + 1
  {
    Max(n1 - n2 + 1, 1)
  }

  /** The quotient of x (capacity 2) by the constant 1 (capacity 1) is x,
      whose two coefficients do not fit the declared capacity 1, so the
      original's `/` returns the zero polynomial. */
  lemma QuotientCapacityAsWrittenDropsTerm(q: seq<int>)
    requires Equiv(MulScalar([0, 1], 1), Add(Product(q, [1]), []))
    ensures !Equiv(Resize(q, QuotientCapacityAsWritten(2, 1)), q)
  {
    assert At(MulScalar([0, 1], 1), 1) == At(Add(Product(q, [1]), []), 1);
    AtProduct(q, [1], 1);
    ConvAtUnitRight(q, 1);
    assert At(Resize(q, 1), 1) == 0;
  }

  /** The quotient produced by `quotient_remainder` always fits the corrected
      capacity when the divisor's top coefficient is nonzero. */
  lemma QuotientFits(u: seq<int>, v: seq<int>)
    requires IsNonzero(v) && |v| == Degree(v, 0) + 1
    ensures Degree(u, 0) - Degree(v, 0) + 1 <= QuotientCapacity(|u|, |v|)
  {
  }

  /** `a / b`: the quotient of `quotient_remainder` in capacity N1 - N2 + 1.
      It is the whole quotient when the divisor's top coefficient is nonzero. */
  method Quotient(u: seq<int>, v: seq<int>) returns (q: seq<int>)
    requires IsNonzero(v)
    ensures |q| == QuotientCapacity(|u|, |v|)
    ensures |v| == Degree(v, 0) + 1 ==> exists r ::
      Degree(r, 0) < Degree(v, 0) &&
      Equiv(MulScalar(u, Pow(v[Degree(v, 0)], Max(Degree(u, 0) - Degree(v, 0) + 1, 0))),
            Add(Product(q, v), r))
  {
    var q0, r0 := QuotientRemainder(u, v);
    q := Resize(q0, QuotientCapacity(|u|, |v|));
    if |v| == Degree(v, 0) + 1 {
      ResizeKeepsValue(q0, |q|);
      EquivRefl(v);
      ProductCongruence(q, q0, v, v);
      AddEquivLeft(Product(q, v), Product(q0, v), r0);
    }
  }

  /** `a % b`: the remainder of `quotient_remainder` in capacity min(N1, N2),
      which always holds it whole. */
  method Remainder(u: seq<int>, v: seq<int>) returns (r: seq<int>)
    requires IsNonzero(v)
    ensures |r| == Min(|u|, |v|)
    ensures Degree(r, 0) < Degree(v, 0)
    ensures exists q :: (|q| == Max(Degree(u, 0) - Degree(v, 0) + 1, 0) &&
      Equiv(MulScalar(u, Pow(v[Degree(v, 0)], |q|)), Add(Product(q, v), r)))
  {
    var q0, r0 := QuotientRemainder(u, v);
    assert |q0| == Max(Degree(u, 0) - Degree(v, 0) + 1, 0);
    r := Resize(r0, Min(|u|, |v|));
    ResizeKeepsValue(r0, |r|);
    EquivDegree(r, r0);
    EquivRefl(Product(q0, v));
    AddEquivRight(Product(q0, v), r, r0);
  }
}
