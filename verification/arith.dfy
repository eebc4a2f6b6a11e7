/**
 Integer helpers shared by the polynomial modules: natural powers, the
 truncating division and remainder of C++ integer `/` and `%` (Dafny's own
 operators are Euclidean), and divisibility.
 */
module Arith {

  function Abs(x: int): (r: nat)
    ensures r == x || r == -x
  {
    if x < 0 then -x else x
  }

  function Max(a: int, b: int): (r: int)
    ensures r >= a && r >= b && (r == a || r == b)
  {
    if a < b then b else a
  }

  function Min(a: int, b: int): (r: int)
    ensures r <= a && r <= b && (r == a || r == b)
  {
    if a < b then a else b
  }

  /** The reference power: `b` multiplied by itself `e` times. */
  function Pow(b: int, e: nat): int
  {
    if e == 0 then 1 else b * Pow(b, e - 1)
  }

  lemma {:induction false} PowAdd(b: int, x: nat, y: nat)
    ensures Pow(b, x + y) == Pow(b, x) * Pow(b, y)
    decreases x
  {
    if x > 0 {
      PowAdd(b, x - 1, y);
      assert Pow(b, x + y) == b * Pow(b, x - 1 + y);
    }
  }

  /** C++ integer division: the quotient rounded toward zero. */
  function TruncDiv(a: int, b: int): (q: int)
    requires b != 0
    ensures var rem := a - b * q;
            (a >= 0 ==> 0 <= rem < Abs(b)) && (a < 0 ==> 0 <= -rem < Abs(b))
  {
    var q0 := Abs(a) / Abs(b);
    var q := if (a < 0) == (b < 0) then q0 else -q0;
    TruncDivCases(a, b, q0, q);
    q
  }

  lemma TruncDivCases(a: int, b: int, q0: int, q: int)
    requires b != 0 && q0 == Abs(a) / Abs(b)
    requires q == if (a < 0) == (b < 0) then q0 else -q0
    ensures var rem := a - b * q;
            (a >= 0 ==> 0 <= rem < Abs(b)) && (a < 0 ==> 0 <= -rem < Abs(b))
  {
    var rho := Abs(a) - Abs(b) * q0;
    assert 0 <= rho < Abs(b);
    var p := b * q0;
    if b > 0 {
      assert p == Abs(b) * q0;
    } else {
      assert p == -(Abs(b) * q0);
    }
    assert b * -q0 == -p;
  }

  /** C++ integer remainder: `a - b * (a / b)` with truncating `/`. */
  function TruncMod(a: int, b: int): (r: int)
    requires b != 0
    ensures Abs(r) < Abs(b)
    ensures r == 0 || (r < 0 <==> a < 0)
  {
    a - b * TruncDiv(a, b)
  }

  /** `d` divides `x`; zero divides only zero. */
  predicate Divides(d: int, x: int)
  {
    if d == 0 then x == 0 else x % d == 0
  }

  lemma MulAtLeast(d: int, j: int)
    requires d > 0 && j >= 1
    ensures d * j >= d
  {
    assert d * j == d * (j - 1) + d;
  }

  lemma MulNonneg(a: nat, b: nat)
    ensures a * b >= 0
  {
  }

  lemma MulAbsAtLeast(d: int, j: int)
    requires d != 0 && j != 0
    ensures Abs(d * j) >= Abs(d)
  {
    if d > 0 && j > 0 {
      MulAtLeast(d, j);
    } else if d > 0 {
      MulAtLeast(d, -j);
      assert d * j == -(d * -j);
    } else if j > 0 {
      MulAtLeast(-d, j);
      assert d * j == -((-d) * j);
    } else {
      MulAtLeast(-d, -j);
      assert d * j == (-d) * (-j);
    }
  }

  /** The Euclidean remainder is determined by any decomposition `x == d * q + r`. */
  lemma ModUnique(x: int, d: int, q: int, r: int)
    requires d != 0 && x == d * q + r && 0 <= r < Abs(d)
    ensures x % d == r
  {
    var q1 := x / d;
    assert d * (q - q1) == x % d - r;
    if q != q1 {
      MulAbsAtLeast(d, q - q1);
    }
  }

  lemma MultipleDivisible(d: int, k: int)
    ensures Divides(d, d * k)
  {
    if d != 0 {
      ModUnique(d * k, d, k, 0);
    }
  }

  /** A common divisor of `a` and `b` divides `a - b * q`. */
  lemma DividesCombination(d: int, a: int, b: int, q: int)
    requires Divides(d, a) && Divides(d, b)
    ensures Divides(d, a - b * q)
  {
    if d != 0 {
      var ka := a / d;
      var kb := b / d;
      assert a == d * ka;
      assert b == d * kb;
      assert a - b * q == d * (ka - kb * q);
      MultipleDivisible(d, ka - kb * q);
    }
  }

  /** When `d` divides `b`, it divides `a` exactly when it divides `a % b` (C++ `%`). */
  lemma DividesTruncMod(d: int, a: int, b: int)
    requires b != 0 && Divides(d, b)
    ensures Divides(d, a) <==> Divides(d, TruncMod(a, b))
  {
    var q := TruncDiv(a, b);
    if Divides(d, a) {
      DividesCombination(d, a, b, q);
    }
    if Divides(d, TruncMod(a, b)) {
      DividesCombination(d, TruncMod(a, b), b, -q);
      assert TruncMod(a, b) - b * -q == a;
    }
  }
}
