/**
 Polynomial evaluation by Horner's rule (`evaluate_polynomial`), and the
 fixed-size forwarder used by `static_poly::operator()`.
 */
module Evaluate {
  import opened Arith
  import opened Poly

  /** The reference value: the sum of `p[i] * z^i` over all indices. */
  function PolyValue(p: seq<int>, z: int): int
  {
    if |p| == 0 then 0 else PolyValue(p[..|p| - 1], z) + p[|p| - 1] * Pow(z, |p| - 1)
  }

  /** Prepending a constant term: `c + z * p(z)`. */
  lemma {:induction false} PolyValueCons(c: int, p: seq<int>, z: int)
    ensures PolyValue([c] + p, z) == c + z * PolyValue(p, z)
    decreases |p|
  {
    if |p| > 0 {
      var init := p[..|p| - 1];
      assert ([c] + p)[..|p|] == [c] + init;
      PolyValueCons(c, init, z);
      assert Pow(z, |p|) == z * Pow(z, |p| - 1);
      calc {
        PolyValue([c] + p, z);
        PolyValue([c] + init, z) + p[|p| - 1] * Pow(z, |p|);
        c + z * PolyValue(init, z) + p[|p| - 1] * (z * Pow(z, |p| - 1));
        c + z * (PolyValue(init, z) + p[|p| - 1] * Pow(z, |p| - 1));
      }
    }
  }

  /** One round of Horner's rule extends the evaluated suffix by one index. */
  lemma HornerStep(poly: seq<int>, z: int, i: nat, count: nat, sum: int)
    requires i < count <= |poly|
    requires sum == PolyValue(poly[i + 1..count], z)
    ensures sum * z + poly[i] == PolyValue(poly[i..count], z)
  {
    assert poly[i..count] == [poly[i]] + poly[i + 1..count];
    PolyValueCons(poly[i], poly[i + 1..count], z);
  }

  /** `evaluate_polynomial(poly, z, count)`: starting from the top
      coefficient, multiply by z and add the next lower one. After handling
      index i the running sum is the value of poly[i..count]. */
  method Horner(poly: seq<int>, z: int, count: nat) returns (sum: int)
    requires 0 < count <= |poly|
    ensures sum == PolyValue(poly[..count], z)
  {
    sum := poly[count - 1];
    assert poly[count - 1..count] == [poly[count - 1]];
    PolyValueSingle(poly[count - 1], z);
    var i: int := count - 2;
    while i >= 0
      invariant -1 <= i <= count - 2
      invariant sum == PolyValue(poly[i + 1..count], z)
    {
      HornerStep(poly, z, i, count, sum);
      sum := sum * z;
      sum := sum + poly[i];
      i := i - 1;
    }
    assert poly[0..count] == poly[..count];
  }

  /** The fixed-size forwarder: evaluation over all N coefficients, which is
      what calling a polynomial `p(z)` does. */
  method EvaluateAll(p: seq<int>, z: int) returns (v: int)
    requires |p| >= 1
    ensures v == PolyValue(p, z)
  {
    v := Horner(p, z, |p|);
    assert p[..|p|] == p;
  }

  /** High zero coefficients do not change the value. */
  lemma {:induction false} PolyValueZeroExtend(p: seq<int>, k: nat, z: int)
    ensures PolyValue(p + seq(k, i => 0), z) == PolyValue(p, z)
    decreases k
  {
    if k > 0 {
      var ext := p + seq(k, i => 0);
      assert ext[..|ext| - 1] == p + seq(k - 1, i => 0);
      assert ext[|ext| - 1] == 0;
      assert PolyValue(ext, z) == PolyValue(ext[..|ext| - 1], z) + 0 * Pow(z, |ext| - 1);
      PolyValueZeroExtend(p, k - 1, z);
    } else {
      assert p + seq(k, i => 0) == p;
    }
  }

  /** At z = 0 only the constant term remains. */
  lemma {:induction false} PolyValueAtZero(p: seq<int>)
    requires |p| >= 1
    ensures PolyValue(p, 0) == p[0]
    decreases |p|
  {
    if |p| > 1 {
      PolyValueAtZero(p[..|p| - 1]);
      assert Pow(0, |p| - 1) == 0 * Pow(0, |p| - 2);
    }
  }

  /** With a single coefficient the value is that coefficient at every z. */
  lemma PolyValueSingle(c: int, z: int)
    ensures PolyValue([c], z) == c
  {
    assert [c][..0] == [];
  }

  /** The value of a polynomial depends only on the polynomial, not on its
      capacity. */
  lemma {:induction false} PolyValueEquiv(p: seq<int>, q: seq<int>, z: int)
    requires Equiv(p, q)
    ensures PolyValue(p, z) == PolyValue(q, z)
    decreases |p| + |q|, if |p| < |q| then 0 else 1
  {
    if |p| < |q| {
      forall j | |p| <= j < |q|
        ensures q[j] == 0
      {
        assert At(q, j) == At(p, j);
      }
      var zs := seq(|q| - |p|, i => 0);
      assert q == q[..|p|] + zs by {
        forall j | 0 <= j < |q|
          ensures q[j] == (q[..|p|] + zs)[j]
        {
          if j >= |p| {
            assert zs[j - |p|] == 0;
          }
        }
      }
      PolyValueZeroExtend(q[..|p|], |q| - |p|, z);
      assert q[..|p|] == p by {
        forall i | 0 <= i < |p|
          ensures q[i] == p[i]
        {
          assert At(q, i) == At(p, i);
        }
      }
    } else if |q| < |p| {
      PolyValueEquiv(q, p, z);
    } else {
      assert p == q by {
        forall i | 0 <= i < |p|
          ensures p[i] == q[i]
        {
          assert At(q, i) == At(p, i);
        }
      }
    }
  }
}
