/**
 Division over a field: Algorithm D of Knuth, The Art of Computer
 Programming, Vol. 2, 3rd ed., section 4.6.1, with `real` standing for the
 exact field of coefficients. As for the integer engine, m = deg u, n = deg v,
 the divisor is nonzero, the quotient has m - n + 1 coefficients and the
 remainder n.
 */
module FieldDivision {
  import opened Poly

  /** Coefficient `i`, zero outside the capacity. */
  function RAt(p: seq<real>, i: int): real
  {
    if 0 <= i < |p| then p[i] else 0.0
  }

  /** Coefficient `k` of the product `a * b` over the field. */
  function RConvAt(a: seq<real>, b: seq<real>, k: int): real
    decreases |a|
  {
    if |a| == 0 then 0.0 else a[0] * RAt(b, k) + RConvAt(a[1..], b, k - 1)
  }

  lemma {:induction false} RConvAtZeroLeft(a: seq<real>, b: seq<real>, k: int)
    requires forall i :: 0 <= i < |a| ==> a[i] == 0.0
    ensures RConvAt(a, b, k) == 0.0
    decreases |a|
  {
    if |a| > 0 {
      RConvAtZeroLeft(a[1..], b, k - 1);
    }
  }

  /** Past index |a| + deg b the product has no coefficient. */
  lemma {:induction false} RConvAtAbove(a: seq<real>, b: seq<real>, k: int)
    requires k >= |a| + Degree(b, 0.0)
    ensures RConvAt(a, b, k) == 0.0
    decreases |a|
  {
    if |a| > 0 {
      assert RAt(b, k) == 0.0;
      RConvAtAbove(a[1..], b, k - 1);
    }
  }

  lemma {:induction false} RConvAtUpdate(a: seq<real>, i: nat, c: real, b: seq<real>, k: int)
    requires i < |a|
    ensures RConvAt(a[i := c], b, k) == RConvAt(a, b, k) + (c - a[i]) * RAt(b, k - i)
    decreases |a|
  {
    if i > 0 {
      assert a[i := c][1..] == a[1..][i - 1 := c];
      RConvAtUpdate(a[1..], i - 1, c, b, k - 1);
    } else {
      assert a[i := c][1..] == a[1..];
    }
  }

  /** The live part of the working dividend: indices below `len`. */
  function RLive(w: seq<real>, len: int, j: int): real
  {
    if 0 <= j < len && j < |w| then w[j] else 0.0
  }

  /** The identity Algorithm D keeps while `k` quotient coefficients remain:
      u == (w below n + k) + q * v, coefficient by coefficient. */
  ghost predicate FieldInvariant(u: seq<real>, v: seq<real>, w: seq<real>, q: seq<real>,
                                 n: nat, k: nat)
  {
    && (forall i :: 0 <= i < k && i < |q| ==> q[i] == 0.0)
    && forall j :: 0 <= j < |u| ==> u[j] == RLive(w, n + k, j) + RConvAt(q, v, j)
  }

  /** One coefficient of one round of Algorithm D. */
  lemma FieldCoefficient(u: seq<real>, v: seq<real>, w0: seq<real>, w1: seq<real>,
                         q0: seq<real>, n: nat, k: nat, j: nat)
    requires |w0| == |w1| == |u| && n + k < |u| && k < |q0| && n < |v| && j < |u|
    requires Degree(v, 0.0) == n && q0[k] == 0.0
    requires u[j] == RLive(w0, n + k + 1, j) + RConvAt(q0, v, j)
    requires j < k ==> w1[j] == w0[j]
    requires k <= j < n + k ==> w1[j] == w0[j] - (w0[n + k] / v[n]) * v[j - k]
    ensures u[j] == RLive(w1, n + k, j) + RConvAt(q0[k := w0[n + k] / v[n]], v, j)
  {
    var c := w0[n + k] / v[n];
    RConvAtUpdate(q0, k, c, v, j);
    if j > n + k && j - k < |v| {
      assert v[j - k] == 0.0;
    }
  }

  lemma FieldStep(u: seq<real>, v: seq<real>, w0: seq<real>, w1: seq<real>,
                  q0: seq<real>, n: nat, k: nat)
    requires |w0| == |w1| == |u| && n + k < |u| && k < |q0| && n < |v|
    requires Degree(v, 0.0) == n
    requires FieldInvariant(u, v, w0, q0, n, k + 1)
    requires forall i :: 0 <= i < k ==> w1[i] == w0[i]
    requires forall i :: k <= i < n + k ==> w1[i] == w0[i] - (w0[n + k] / v[n]) * v[i - k]
    ensures FieldInvariant(u, v, w1, q0[k := w0[n + k] / v[n]], n, k)
  {
    forall j | 0 <= j < |u|
      ensures u[j] == RLive(w1, n + k, j) + RConvAt(q0[k := w0[n + k] / v[n]], v, j)
    {
      FieldCoefficient(u, v, w0, w1, q0, n, k, j);
    }
  }

  /** `detail::division` on field coefficients, Algorithm D: for k from m - n
      down to 0, q[k] = u[n+k] / v[n] and u[j] -= q[k] * v[j-k] for j from
      n+k-1 down to k. The result satisfies u == q * v + r with deg r < n. */
  method FieldDivide(u: seq<real>, v: seq<real>) returns (q: seq<real>, r: seq<real>)
    requires Degree(v, 0.0) >= 0 && Degree(u, 0.0) >= Degree(v, 0.0)
    ensures |q| == Degree(u, 0.0) - Degree(v, 0.0) + 1 && |r| == Degree(v, 0.0)
    ensures forall j :: 0 <= j ==> RAt(u, j) == RAt(r, j) + RConvAt(q, v, j)
  {
    var m, n := Degree(u, 0.0), Degree(v, 0.0);
    var e := m - n + 1;
    q := seq(e, i => 0.0);
    var w := u;
    forall j | 0 <= j < |u|
      ensures u[j] == RLive(w, n + e, j) + RConvAt(q, v, j)
    {
      RConvAtZeroLeft(q, v, j);
    }
    var k := e;
    while k > 0
      invariant 0 <= k <= e && |w| == |u| && |q| == e
      invariant FieldInvariant(u, v, w, q, n, k)
    {
      k := k - 1;
      ghost var w0, q0 := w, q;
      q := q[k := w[n + k] / v[n]];
      var j := n + k;
      while j > k
        invariant k <= j <= n + k && |w| == |u|
        invariant forall i :: 0 <= i < j ==> w[i] == w0[i]
        invariant forall i :: j <= i < n + k ==> w[i] == w0[i] - q[k] * v[i - k]
        invariant forall i :: n + k <= i < |w| ==> w[i] == w0[i]
      {
        j := j - 1;
        w := w[j := w[j] - q[k] * v[j - k]];
      }
      FieldStep(u, v, w0, w, q0, n, k);
    }
    r := w[..n];
    forall j | 0 <= j
      ensures RAt(u, j) == RAt(r, j) + RConvAt(q, v, j)
    {
      if j >= |u| {
        RConvAtAbove(q, v, j);
      }
    }
  }

  /** `quotient_remainder` on field coefficients: a dividend of lower degree
      gives an empty (zero) quotient and the dividend as remainder. */
  method FieldQuotientRemainder(u: seq<real>, v: seq<real>) returns (q: seq<real>, r: seq<real>)
    requires Degree(v, 0.0) >= 0
    ensures Degree(r, 0.0) < Degree(v, 0.0)
    ensures Degree(u, 0.0) < Degree(v, 0.0) ==> q == [] && r == u
    ensures Degree(u, 0.0) >= Degree(v, 0.0) ==> |q| == Degree(u, 0.0) - Degree(v, 0.0) + 1
    ensures forall j :: 0 <= j ==> RAt(u, j) == RAt(r, j) + RConvAt(q, v, j)
  {
    if Degree(u, 0.0) < Degree(v, 0.0) {
      q, r := [], u;
    } else {
      q, r := FieldDivide(u, v);
    }
  }
}
