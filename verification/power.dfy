/**
 `power<e>(b)`: exponentiation by squaring in capacity N * e, using the
 headroom product. The exponent is a local copy here; the original shifts
 its template parameter in place, which cannot compile.
 */
module Power {
  import opened Arith
  import opened Poly
  import opened Multiplication

  /** The reference power: `b` multiplied by itself `e` times. */
  function PowP(b: seq<int>, e: nat): seq<int>
  {
    if e == 0 then [1] else Product(b, PowP(b, e - 1))
  }

  /** `b^x * b^y` is `b^(x + y)`. */
  lemma {:induction false} PowPAdd(b: seq<int>, x: nat, y: nat)
    ensures Equiv(Product(PowP(b, x), PowP(b, y)), PowP(b, x + y))
    decreases x
  {
    if x == 0 {
      ProductOneLeft(PowP(b, y));
    } else {
      var px, py := PowP(b, x - 1), PowP(b, y);
      ProductAssociative(b, px, py);
      PowPAdd(b, x - 1, y);
      EquivRefl(b);
      ProductCongruence(b, b, Product(px, py), PowP(b, x - 1 + y));
    }
  }

  lemma MulSucc(x: nat, d: int)
    requires x >= 1
    ensures x * d == d + (x - 1) * d
  {
  }

  /** `b^x` has no coefficient above `x * deg b`. */
  lemma {:induction false} PowPHigh(b: seq<int>, x: nat)
    ensures HighZero(PowP(b, x), x * Degree(b, 0))
    decreases x
  {
    if x > 0 {
      var d := Degree(b, 0);
      var prev := PowP(b, x - 1);
      PowPHigh(b, x - 1);
      MulSucc(x, d);
      var p := Product(b, prev);
      assert HighZero(b, d);
      forall k | 0 <= k < |p| && x * d < k
        ensures p[k] == 0
      {
        ConvAtHigh(b, prev, d, (x - 1) * d, k);
      }
    }
  }

  lemma MulMonoLeft(a: int, b: int, c: nat)
    requires a <= b
    ensures a * c <= b * c
  {
    MulNonneg(b - a, c);
    assert b * c - a * c == (b - a) * c;
  }

  /** The arithmetic behind `DegreeFits`, free of sequences. */
  lemma FitsBelow(x: nat, e: nat, d: int, n: nat)
    requires x <= e && 1 <= e && 1 <= n && -1 <= d < n
    ensures x * d < n * e
  {
    if d >= 0 {
      MulMonoLeft(x, e, d);
      MulAtLeast(e, n - d);
      assert e * n - e * d == e * (n - d);
    } else {
      assert x * d == 0 - x;
      MulAtLeast(n, e);
    }
  }

  /** For `x <= e`, `x * deg b` fits below the capacity `N * e`. */
  lemma DegreeFits(b: seq<int>, x: nat, e: nat)
    requires x <= e && |b| >= 1 && e >= 1
    ensures x * Degree(b, 0) < |b| * e
  {
    FitsBelow(x, e, Degree(b, 0), |b|);
  }

  /** One headroom product of two powers of `b` inside capacity `cap`. */
  lemma HeadroomStep(b: seq<int>, p: seq<int>, q: seq<int>, x: nat, y: nat, e: nat)
    requires |b| >= 1 && e >= 1 && x + y <= e
    requires |p| == |q| == |b| * e
    requires Equiv(p, PowP(b, x)) && Equiv(q, PowP(b, y))
    ensures Equiv(Product(p, q)[..|p|], PowP(b, x + y))
  {
    var cap := |p|;
    var full := Product(p, q);
    ProductCongruence(p, PowP(b, x), q, PowP(b, y));
    PowPAdd(b, x, y);
    PowPHigh(b, x + y);
    DegreeFits(b, x + y, e);
    var top := (x + y) * Degree(b, 0);
    forall k | 0 <= k
      ensures At(full[..cap], k) == At(PowP(b, x + y), k)
    {
      assert At(full, k) == At(Product(PowP(b, x), PowP(b, y)), k);
      if cap <= k < |full| {
        assert At(PowP(b, x + y), k) == 0;
      }
    }
  }

  /** The bookkeeping of one squaring round: `e == rp + 2 * bp * exp`. */
  lemma SquaringStep(rp: nat, bp: nat, exp: nat, e: nat)
    requires exp >= 1 && bp >= 1 && rp + 2 * bp * exp == e
    ensures 2 * bp <= e
    ensures exp % 2 == 1 ==> rp + 2 * bp <= e
    ensures var rp' := if exp % 2 == 1 then rp + 2 * bp else rp;
            rp' + 2 * (2 * bp) * (exp / 2) == e
  {
    MulAtLeast(2 * bp, exp);
    var h := exp / 2;
    assert exp == 2 * h + exp % 2;
    assert 2 * bp * exp == 2 * (2 * bp) * h + 2 * bp * (exp % 2);
  }

  /** Converting `b` to capacity N * e keeps its value `b^1`. */
  lemma WidenedBase(b: seq<int>, cap: nat)
    requires cap >= |b|
    ensures Equiv(Resize(b, cap), PowP(b, 1))
  {
    ResizeKeepsValue(b, cap);
    forall k | 0 <= k
      ensures At(b, k) == At(PowP(b, 1), k)
    {
      AtProduct(b, [1], k);
      ConvAtUnitRight(b, k);
    }
  }

  /** What the squaring loop keeps: `base` is b^bp, `result` is b^rp, both
      in capacity N * e, and the exponent still to apply makes up the rest. */
  ghost predicate PowerState(b: seq<int>, e: nat, base: seq<int>, result: seq<int>,
                             bp: nat, rp: nat, exp: nat)
  {
    && |result| == |base| == |b| * e
    && bp >= 1 && rp + 2 * bp * exp == e
    && Equiv(base, PowP(b, bp)) && Equiv(result, PowP(b, rp))
  }

  /** One round of the squaring loop, with the headroom products it takes. */
  lemma PowerRound(b: seq<int>, e: nat, base: seq<int>, result: seq<int>,
                   bp: nat, rp: nat, exp: nat)
    requires |b| >= 1 && e >= 1 && exp >= 1
    requires PowerState(b, e, base, result, bp, rp, exp)
    ensures var base' := Product(base, base)[..|base|];
            var odd := exp % 2 == 1;
            var result' := if odd then Product(result, base')[..|result|] else result;
            var rp' := if odd then rp + 2 * bp else rp;
            PowerState(b, e, base', result', 2 * bp, rp', exp / 2)
  {
    SquaringStep(rp, bp, exp, e);
    HeadroomStep(b, base, base, bp, bp, e);
    var base' := Product(base, base)[..|base|];
    if exp % 2 == 1 {
      HeadroomStep(b, result, base', rp, 2 * bp, e);
    }
  }

  /** `power<e>(b)`: capacity N * e, and the value of `b` multiplied by itself
      `e` times. */
  method Power(b: seq<int>, e: nat) returns (result: seq<int>)
    requires e >= 1 && |b| >= 1
    ensures |result| == |b| * e
    ensures Equiv(result, PowP(b, e))
  {
    var cap := |b| * e;
    MulAtLeast(|b|, e);
    result := FromScalar(1, cap);
    var base := Resize(b, cap);
    WidenedBase(b, cap);
    ghost var bp: nat := 1;
    ghost var rp: nat := 0;
    assert Equiv(result, PowP(b, 0));
    var exp: nat := e;
    if exp % 2 == 1 {
      result := base;
      rp := 1;
    }
    exp := exp / 2;
    while exp > 0
      invariant PowerState(b, e, base, result, bp, rp, exp)
    {
      PowerRound(b, e, base, result, bp, rp, exp);
      base := MulHeadroom(base, base);
      if exp % 2 == 1 {
        result := MulHeadroom(result, base);
        rp := rp + 2 * bp;
      }
      bp := 2 * bp;
      exp := exp / 2;
    }
    assert 2 * bp * exp == 0;
  }
}
