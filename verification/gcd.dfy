/**
 Euclid's greatest common divisor on C++ `int`, with the truncating `%` of
 C++ and the early exit of the original loop.
 */
module Gcd {
  import opened Arith

  /** `m` and `n` have exactly the common divisors of `m0` and `n0`. */
  ghost predicate SameCommonDivisors(m: int, n: int, m0: int, n0: int)
  {
    forall d :: Divides(d, m) && Divides(d, n) <==> Divides(d, m0) && Divides(d, n0)
  }

  /** Replacing `m` by `m % n` keeps the common divisors of the pair. */
  lemma ReduceKeepsDivisors(m: int, n: int)
    requires n != 0
    ensures forall d :: Divides(d, m) && Divides(d, n) <==> Divides(d, TruncMod(m, n)) && Divides(d, n)
  {
    forall d
      ensures Divides(d, m) && Divides(d, n) <==> Divides(d, TruncMod(m, n)) && Divides(d, n)
    {
      if Divides(d, n) {
        DividesTruncMod(d, m, n);
      }
    }
  }

  /** `gcd(m, n)`: alternately reduce `m` modulo `n` and `n` modulo `m`,
      returning the other operand as soon as one becomes zero. The absolute
      value of the operand that is about to become the divisor strictly
      decreases, so the loop ends. */
  method Gcd(m0: int, n0: int) returns (g: int)
    ensures n0 == 0 ==> g == m0
    ensures Divides(g, m0) && Divides(g, n0)
    ensures forall d :: Divides(d, m0) && Divides(d, n0) ==> Divides(d, g)
    ensures m0 >= 0 && n0 >= 0 ==> g >= 0
  {
    var m, n := m0, n0;
    while n != 0
      invariant SameCommonDivisors(m, n, m0, n0)
      invariant m0 >= 0 && n0 >= 0 ==> m >= 0 && n >= 0
      invariant n0 == 0 ==> m == m0 && n == 0
      decreases Abs(n)
    {
      ReduceKeepsDivisors(m, n);
      m := TruncMod(m, n);
      if m == 0 {
        assert Divides(n, n) && Divides(n, 0);
        return n;
      }
      ReduceKeepsDivisors(n, m);
      n := TruncMod(n, m);
    }
    assert Divides(m, m) && Divides(m, 0);
    g := m;
  }
}
