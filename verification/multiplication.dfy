/**
 Polynomial multiplication: the full product `a * b` of capacity N1 + N2,
 and the same-capacity "headroom" product `detail::mul` that `power` uses.
 Both are checked against one reference definition, the convolution
 `ConvAt(a, b, k)` = sum of `a[i] * b[k - i]` over the indices of `a`.
 */
module Multiplication {
  import opened Arith
  import opened Poly

  /** Coefficient `k` of the product: the sum of `a[i] * b[j]` over `i + j == k`. */
  function ConvAt(a: seq<int>, b: seq<int>, k: int): int
    decreases |a|
  {
    if |a| == 0 then 0 else a[0] * At(b, k) + ConvAt(a[1..], b, k - 1)
  }

  /** The reference product, with the capacity N1 + N2 of `operator *`. */
  function Product(a: seq<int>, b: seq<int>): (r: seq<int>)
    ensures |r| == |a| + |b|
  {
    seq(|a| + |b|, k => ConvAt(a, b, k))
  }

  /** The tail of a coefficient sequence, empty for the empty one. */
  function Tail(p: seq<int>): seq<int>
  {
    if |p| == 0 then [] else p[1..]
  }

  // Facts about the convolution sum.

  lemma {:induction false} ConvAtSnoc(a: seq<int>, c: int, b: seq<int>, k: int)
    ensures ConvAt(a + [c], b, k) == ConvAt(a, b, k) + c * At(b, k - |a|)
    decreases |a|
  {
    if |a| > 0 {
      assert (a + [c])[1..] == a[1..] + [c];
      ConvAtSnoc(a[1..], c, b, k - 1);
    }
  }

  lemma {:induction false} ConvAtZeroLeft(a: seq<int>, b: seq<int>, k: int)
    requires forall i :: 0 <= i < |a| ==> a[i] == 0
    ensures ConvAt(a, b, k) == 0
    decreases |a|
  {
    if |a| > 0 {
      ConvAtZeroLeft(a[1..], b, k - 1);
    }
  }

  lemma {:induction false} ConvAtZeroRight(a: seq<int>, b: seq<int>, k: int)
    requires forall i :: 0 <= i < |b| ==> b[i] == 0
    ensures ConvAt(a, b, k) == 0
    decreases |a|
  {
    if |a| > 0 {
      ConvAtZeroRight(a[1..], b, k - 1);
    }
  }

  /** No pair of indices adds up to `k` outside 0 .. N1 + N2 - 2. */
  lemma {:induction false} ConvAtOutside(a: seq<int>, b: seq<int>, k: int)
    requires k < 0 || k >= |a| + |b| - 1
    ensures ConvAt(a, b, k) == 0
    decreases |a|
  {
    if |a| > 0 {
      ConvAtOutside(a[1..], b, k - 1);
    }
  }

  lemma AtProduct(a: seq<int>, b: seq<int>, k: int)
    ensures At(Product(a, b), k) == ConvAt(a, b, k)
  {
    if !(0 <= k < |a| + |b|) {
      ConvAtOutside(a, b, k);
    }
  }

  /** Above `da + db` every coefficient of the product is zero. */
  lemma {:induction false} ConvAtHigh(a: seq<int>, b: seq<int>, da: int, db: int, k: int)
    requires HighZero(a, da) && HighZero(b, db) && k > da + db
    ensures ConvAt(a, b, k) == 0
    decreases |a|
  {
    if |a| > 0 {
      assert a[0] * At(b, k) == 0 by {
        if da < 0 {
          assert a[0] == 0;
        } else {
          assert At(b, k) == 0;
        }
      }
      ConvAtHigh(a[1..], b, da - 1, db, k - 1);
    }
  }

  /** At `da + db` only the product of the two top coefficients remains. */
  lemma {:induction false} ConvAtTop(a: seq<int>, b: seq<int>, da: int, db: int)
    requires 0 <= da < |a| && 0 <= db < |b| && HighZero(a, da) && HighZero(b, db)
    ensures ConvAt(a, b, da + db) == a[da] * b[db]
    decreases |a|
  {
    if da == 0 {
      ConvAtZeroLeft(a[1..], b, db - 1);
    } else {
      assert At(b, da + db) == 0;
      ConvAtTop(a[1..], b, da - 1, db);
    }
  }

  // The operations.

  /** `a * b`: a zero operand short-circuits to the zero polynomial; otherwise
      every product `a[i] * b[j]` is accumulated into index `i + j`. */
  method Mul(a: seq<int>, b: seq<int>) returns (prod: seq<int>)
    ensures prod == Product(a, b)
  {
    prod := Zeros(|a| + |b|);
    if !IsNonzero(a) || !IsNonzero(b) {
      forall k | 0 <= k < |prod|
        ensures prod[k] == ConvAt(a, b, k)
      {
        if !IsNonzero(a) {
          ConvAtZeroLeft(a, b, k);
        } else {
          ConvAtZeroRight(a, b, k);
        }
      }
      return;
    }
    var i := 0;
    while i < |a|
      invariant 0 <= i <= |a| && |prod| == |a| + |b|
      invariant forall k :: 0 <= k < |prod| ==> prod[k] == ConvAt(a[..i], b, k)
    {
      var j := 0;
      while j < |b|
        invariant 0 <= j <= |b| && |prod| == |a| + |b|
        invariant forall k :: 0 <= k < |prod| ==>
          prod[k] == ConvAt(a[..i], b, k) + (if i <= k < i + j then a[i] * b[k - i] else 0)
      {
        prod := prod[i + j := prod[i + j] + a[i] * b[j]];
        j := j + 1;
      }
      forall k | 0 <= k < |prod|
        ensures prod[k] == ConvAt(a[..i + 1], b, k)
      {
        assert a[..i + 1] == a[..i] + [a[i]];
        ConvAtSnoc(a[..i], a[i], b, k);
      }
      i := i + 1;
    }
    assert a[..i] == a;
  }

  /** `detail::mul`: the product of two capacity-N polynomials kept in capacity
      N; only the pairs with `i + j < N` are accumulated. */
  method MulHeadroom(a: seq<int>, b: seq<int>) returns (prod: seq<int>)
    requires |a| == |b|
    ensures prod == Product(a, b)[..|a|]
  {
    var n := |a|;
    prod := Zeros(n);
    if !IsNonzero(a) || !IsNonzero(b) {
      forall k | 0 <= k < n
        ensures prod[k] == ConvAt(a, b, k)
      {
        if !IsNonzero(a) {
          ConvAtZeroLeft(a, b, k);
        } else {
          ConvAtZeroRight(a, b, k);
        }
      }
      return;
    }
    var i := 0;
    while i < n
      invariant 0 <= i <= n && |prod| == n
      invariant forall k :: 0 <= k < n ==> prod[k] == ConvAt(a[..i], b, k)
    {
      var j := 0;
      while j < n - i
        invariant 0 <= j <= n - i && |prod| == n
        invariant forall k :: 0 <= k < n ==>
          prod[k] == ConvAt(a[..i], b, k) + (if i <= k < i + j then a[i] * b[k - i] else 0)
      {
        prod := prod[i + j := prod[i + j] + a[i] * b[j]];
        j := j + 1;
      }
      forall k | 0 <= k < n
        ensures prod[k] == ConvAt(a[..i + 1], b, k)
      {
        assert a[..i + 1] == a[..i] + [a[i]];
        ConvAtSnoc(a[..i], a[i], b, k);
      }
      i := i + 1;
    }
    assert a[..i] == a;
  }

  // Properties of the product.

  /** A zero operand gives the zero polynomial, and the top index N1 + N2 - 1
      of the product is always zero. */
  lemma ProductZeros(a: seq<int>, b: seq<int>)
    ensures !IsNonzero(a) || !IsNonzero(b) ==> !IsNonzero(Product(a, b))
    ensures |a| + |b| > 0 ==> Product(a, b)[|a| + |b| - 1] == 0
  {
    var p := Product(a, b);
    if !IsNonzero(a) || !IsNonzero(b) {
      forall k | 0 <= k < |p|
        ensures p[k] == 0
      {
        if !IsNonzero(a) {
          ConvAtZeroLeft(a, b, k);
        } else {
          ConvAtZeroRight(a, b, k);
        }
      }
    }
    if |a| + |b| > 0 {
      ConvAtOutside(a, b, |a| + |b| - 1);
    }
  }

  /** Over the integers the degree of a product of nonzero polynomials is the
      sum of their degrees. */
  lemma ProductDegree(a: seq<int>, b: seq<int>)
    requires IsNonzero(a) && IsNonzero(b)
    ensures Degree(Product(a, b), 0) == Degree(a, 0) + Degree(b, 0)
  {
    var da, db := Degree(a, 0), Degree(b, 0);
    var p := Product(a, b);
    ConvAtTop(a, b, da, db);
    assert a[da] * b[db] != 0;
    assert p[da + db] != 0;
    forall k | 0 <= k < |p| && da + db < k
      ensures p[k] == 0
    {
      ConvAtHigh(a, b, da, db, k);
    }
  }

  /** The headroom product agrees with the full product below N, so the two
      are the same polynomial whenever deg a + deg b < N. */
  lemma HeadroomExact(a: seq<int>, b: seq<int>, da: int, db: int, n: nat)
    requires HighZero(a, da) && HighZero(b, db) && da + db < n <= |a| + |b|
    ensures Equiv(Product(a, b)[..n], Product(a, b))
  {
    var p := Product(a, b);
    forall k | 0 <= k
      ensures At(p[..n], k) == At(p, k)
    {
      if n <= k < |p| {
        ConvAtHigh(a, b, da, db, k);
      }
    }
  }

  // The ring laws that `power` needs.

  lemma {:induction false} ConvAtLeftEquiv(p: seq<int>, q: seq<int>, c: seq<int>, k: int)
    requires Equiv(p, q)
    ensures ConvAt(p, c, k) == ConvAt(q, c, k)
    decreases |p| + |q|
  {
    if |p| == 0 && |q| == 0 {
    } else if |p| == 0 {
      forall i | 0 <= i < |q|
        ensures q[i] == 0
      {
        assert At(q, i) == At(p, i);
      }
      ConvAtZeroLeft(q, c, k);
    } else if |q| == 0 {
      forall i | 0 <= i < |p|
        ensures p[i] == 0
      {
        assert At(p, i) == At(q, i);
      }
      ConvAtZeroLeft(p, c, k);
    } else {
      assert p[0] == At(p, 0) == At(q, 0) == q[0];
      forall i | 0 <= i
        ensures At(p[1..], i) == At(q[1..], i)
      {
        assert At(p, i + 1) == At(q, i + 1);
      }
      ConvAtLeftEquiv(p[1..], q[1..], c, k - 1);
    }
  }

  lemma {:induction false} ConvAtRightEquiv(a: seq<int>, x: seq<int>, y: seq<int>, k: int)
    requires Equiv(x, y)
    ensures ConvAt(a, x, k) == ConvAt(a, y, k)
    decreases |a|
  {
    if |a| > 0 {
      assert At(x, k) == At(y, k);
      ConvAtRightEquiv(a[1..], x, y, k - 1);
    }
  }

  /** The recursion of `ConvAt` through `At` and `Tail`, empty operand included. */
  lemma ConvAtFront(p: seq<int>, c: seq<int>, k: int)
    ensures ConvAt(p, c, k) == At(p, 0) * At(c, k) + ConvAt(Tail(p), c, k - 1)
  {
  }

  lemma {:induction false} ConvAtAdd(p: seq<int>, q: seq<int>, c: seq<int>, k: int)
    ensures ConvAt(Add(p, q), c, k) == ConvAt(p, c, k) + ConvAt(q, c, k)
    decreases |p| + |q|
  {
    var s := Add(p, q);
    if |s| > 0 {
      var t := Add(Tail(p), Tail(q));
      forall i | 0 <= i
        ensures At(s[1..], i) == At(t, i)
      {
        assert At(s, i + 1) == At(p, i + 1) + At(q, i + 1);
      }
      ConvAtLeftEquiv(s[1..], t, c, k - 1);
      ConvAtAdd(Tail(p), Tail(q), c, k - 1);
      ConvAtFront(p, c, k);
      ConvAtFront(q, c, k);
      var x := At(c, k);
      assert ConvAt(s, c, k) == s[0] * x + ConvAt(s[1..], c, k - 1);
      assert s[0] * x == At(p, 0) * x + At(q, 0) * x by {
        assert s[0] == At(p, 0) + At(q, 0);
      }
    }
  }

  lemma {:induction false} ConvAtScale(p: seq<int>, s: int, c: seq<int>, k: int)
    ensures ConvAt(MulScalar(p, s), c, k) == s * ConvAt(p, c, k)
    decreases |p|
  {
    if |p| > 0 {
      assert MulScalar(p, s)[1..] == MulScalar(p[1..], s);
      ConvAtScale(p[1..], s, c, k - 1);
    }
  }

  /** `a * b` is `a[0] * b` plus `x * (a[1..] * b)`. */
  lemma ProductFront(a: seq<int>, b: seq<int>)
    requires |a| > 0
    ensures Equiv(Product(a, b), Add(MulScalar(b, a[0]), [0] + Product(a[1..], b)))
  {
    var rhs := Add(MulScalar(b, a[0]), [0] + Product(a[1..], b));
    forall k | 0 <= k
      ensures At(Product(a, b), k) == At(rhs, k)
    {
      AtProduct(a, b, k);
      AtProduct(a[1..], b, k - 1);
      assert At([0] + Product(a[1..], b), k) == At(Product(a[1..], b), k - 1);
    }
  }

  lemma {:induction false} ConvAtAssoc(a: seq<int>, b: seq<int>, c: seq<int>, k: int)
    ensures ConvAt(Product(a, b), c, k) == ConvAt(a, Product(b, c), k)
    decreases |a|
  {
    if |a| == 0 {
      ConvAtZeroLeft(Product(a, b), c, k);
    } else {
      var front := Add(MulScalar(b, a[0]), [0] + Product(a[1..], b));
      ProductFront(a, b);
      ConvAtLeftEquiv(Product(a, b), front, c, k);
      ConvAtAdd(MulScalar(b, a[0]), [0] + Product(a[1..], b), c, k);
      ConvAtScale(b, a[0], c, k);
      assert ([0] + Product(a[1..], b))[1..] == Product(a[1..], b);
      ConvAtAssoc(a[1..], b, c, k - 1);
      AtProduct(b, c, k);
    }
  }

  /** Multiplication is associative, as polynomials. */
  lemma ProductAssociative(a: seq<int>, b: seq<int>, c: seq<int>)
    ensures Equiv(Product(Product(a, b), c), Product(a, Product(b, c)))
  {
    forall k | 0 <= k
      ensures At(Product(Product(a, b), c), k) == At(Product(a, Product(b, c)), k)
    {
      AtProduct(Product(a, b), c, k);
      AtProduct(a, Product(b, c), k);
      ConvAtAssoc(a, b, c, k);
    }
  }

  /** Multiplication respects polynomial equality in both operands. */
  lemma ProductCongruence(a: seq<int>, a': seq<int>, b: seq<int>, b': seq<int>)
    requires Equiv(a, a') && Equiv(b, b')
    ensures Equiv(Product(a, b), Product(a', b'))
  {
    forall k | 0 <= k
      ensures At(Product(a, b), k) == At(Product(a', b'), k)
    {
      AtProduct(a, b, k);
      AtProduct(a', b', k);
      ConvAtLeftEquiv(a, a', b, k);
      ConvAtRightEquiv(a', b, b', k);
    }
  }

  /** The constant polynomial 1 is a left identity. */
  lemma ProductOneLeft(b: seq<int>)
    ensures Equiv(Product([1], b), b)
  {
    forall k | 0 <= k
      ensures At(Product([1], b), k) == At(b, k)
    {
      AtProduct([1], b, k);
    }
  }

  /** The constant polynomial 1 is a right identity. */
  lemma {:induction false} ConvAtUnitRight(b: seq<int>, k: int)
    ensures ConvAt(b, [1], k) == At(b, k)
    decreases |b|
  {
    if |b| > 0 {
      ConvAtUnitRight(b[1..], k - 1);
      assert At(b[1..], k - 1) == if k >= 1 then At(b, k) else 0;
    }
  }

  /** Changing one coefficient of `a` changes each product coefficient by the
      difference times the matching coefficient of `b`. */
  lemma {:induction false} ConvAtUpdate(a: seq<int>, i: nat, c: int, b: seq<int>, k: int)
    requires i < |a|
    ensures ConvAt(a[i := c], b, k) == ConvAt(a, b, k) + (c - a[i]) * At(b, k - i)
    decreases |a|
  {
    if i > 0 {
      assert a[i := c][1..] == a[1..][i - 1 := c];
      ConvAtUpdate(a[1..], i - 1, c, b, k - 1);
    } else {
      assert a[i := c][1..] == a[1..];
    }
  }
}
