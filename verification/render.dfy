/**
 The canonical text form of a polynomial with exact integer coefficients,
 the output of the polynomial stream inserter written here as a pure
 function to `string`, with its helpers `xpow`, `ifnotone` and the
 `is_negative` overloads.
 */
module Render {
  import opened Poly
  import opened Multiplication

  // ---------------------------------------------------------------------
  // Decimal integers, as `std::ostream` writes an `int`
  // ---------------------------------------------------------------------

  predicate IsDigit(c: char)
  {
    '0' <= c <= '9'
  }

  function DigitChar(d: nat): (c: char)
    requires d < 10
    ensures IsDigit(c)
  {
    (48 + d) as char
  }

  function DigitValue(c: char): nat
    requires IsDigit(c)
  {
    c as int - 48
  }

  /** The decimal digits of `n`, most significant first, without leading
      zeros. */
  function NatToString(n: nat): (s: string)
    ensures |s| >= 1
    ensures forall i :: 0 <= i < |s| ==> IsDigit(s[i])
    ensures s[0] == '0' ==> n == 0 && |s| == 1
  {
    if n < 10 then [DigitChar(n)] else NatToString(n / 10) + [DigitChar(n % 10)]
  }

  /** The value of a string of decimal digits. */
  function DigitsValue(s: string): nat
    requires forall i :: 0 <= i < |s| ==> IsDigit(s[i])
  {
    if |s| == 0 then 0 else 10 * DigitsValue(s[..|s| - 1]) + DigitValue(s[|s| - 1])
  }

  lemma {:induction false} NatToStringRoundTrip(n: nat)
    ensures DigitsValue(NatToString(n)) == n
    decreases n
  {
    if n >= 10 {
      var s := NatToString(n);
      var hi := NatToString(n / 10);
      assert s[..|s| - 1] == hi;
      NatToStringRoundTrip(n / 10);
    }
  }

  /** An `int` as the stream writes it: a minus sign for negatives. */
  function IntToString(n: int): (s: string)
    ensures |s| >= 1
    ensures s[0] == '-' <==> n < 0
  {
    if n < 0 then "-" + NatToString(-n) else NatToString(n)
  }

  /** Reading a rendered integer back. */
  function ParseInt(s: string): int
    requires |s| >= 1
    requires s[0] == '-' ==> forall i :: 1 <= i < |s| ==> IsDigit(s[i])
    requires s[0] != '-' ==> forall i :: 0 <= i < |s| ==> IsDigit(s[i])
  {
    if s[0] == '-' then -(DigitsValue(s[1..]) as int) else DigitsValue(s)
  }

  lemma IntToStringRoundTrip(n: int)
    ensures ParseInt(IntToString(n)) == n
  {
    var s := IntToString(n);
    if n < 0 {
      var t := NatToString(-n);
      assert s == "-" + t;
      assert s[1..] == t;
      NatToStringRoundTrip(-n);
      assert ParseInt(s) == -(DigitsValue(t) as int);
    } else {
      NatToStringRoundTrip(n);
      assert s[0] != '-';
    }
  }

  /** Zero is the only integer written "0". */
  lemma IntToStringZero(n: int)
    ensures IntToString(n) == "0" <==> n == 0
  {
    if IntToString(n) == "0" {
      IntToStringRoundTrip(n);
      assert DigitsValue("0"[..0]) == 0;
    }
  }

  // ---------------------------------------------------------------------
  // Helpers
  // ---------------------------------------------------------------------

  /** `xpow{k}`: "x" for k = 1, "x^k" for k > 1 and nothing otherwise. */
  function XPow(k: int): (s: string)
    ensures s == "" <==> k <= 0
    ensures k >= 1 ==> s[0] == 'x'
  {
    if k == 1 then "x" else if k > 1 then "x^" + IntToString(k) else ""
  }

  /** `xpow` writes a bare "x" exactly for k = 1; above that the exponent
      after the caret reads back as `k`. */
  lemma XPowShape(k: int)
    ensures k == 1 <==> XPow(k) == "x"
    ensures k > 1 ==> XPow(k)[..2] == "x^" && ParseInt(XPow(k)[2..]) == k
  {
    if k > 1 {
      assert XPow(k)[2..] == IntToString(k);
      IntToStringRoundTrip(k);
    }
  }

  /** The exact-type `is_zero` and `isone`. */
  predicate IsZero(n: int)
  {
    n == 0
  }

  predicate IsOne(n: int)
  {
    n == 1
  }

  /** `ifnotone(c)`: a lone minus sign for -1, nothing for 1, and the
      coefficient itself otherwise. */
  function IfNotOne(c: int): (s: string)
    ensures s == "" <==> IsOne(c)
    ensures s == "-" <==> IsOne(-c)
  {
    if IsOne(-c) then "-" else if IsOne(c) then "" else IntToString(c)
  }

  /** What `ifnotone(c)` prints reads back as `c`, with an empty string
      standing for 1 and a lone "-" for -1. */
  lemma IfNotOneRecovers(c: int)
    ensures c != 1 && c != -1 ==> ParseInt(IfNotOne(c)) == c
  {
    IntToStringRoundTrip(c);
  }

  // ---------------------------------------------------------------------
  // Sign tests
  // ---------------------------------------------------------------------

  /** Index of the first nonzero component (`find_if`), or |vals| if none. */
  function FirstNonzero(vals: seq<int>): (i: nat)
    ensures i <= |vals|
    ensures i < |vals| ==> vals[i] != 0
    ensures forall j :: 0 <= j < i ==> vals[j] == 0
  {
    if |vals| == 0 then 0
    else if !IsZero(vals[0]) then 0
    else 1 + FirstNonzero(vals[1..])
  }

  /** `count_if(vals, val < 0 && !is_zero(val))`. */
  function CountNegative(vals: seq<int>): nat
  {
    if |vals| == 0 then 0
    else (if vals[0] < 0 && !IsZero(vals[0]) then 1 else 0) + CountNegative(vals[1..])
  }

  /** `count_if(vals, val > 0 && !is_zero(val))`. */
  function CountPositive(vals: seq<int>): nat
  {
    if |vals| == 0 then 0
    else (if vals[0] > 0 && !IsZero(vals[0]) then 1 else 0) + CountPositive(vals[1..])
  }

  /** The component rule of the quaternion and octonion overloads: the first
      nonzero component is negative and negative components are at least as
      many as positive ones; false when every component is zero. */
  predicate IsNegativeComponents(vals: seq<int>)
  {
    var k := FirstNonzero(vals);
    k < |vals| && vals[k] < 0 && CountNegative(vals) >= CountPositive(vals)
  }

  function NegComponents(vals: seq<int>): (r: seq<int>)
    ensures |r| == |vals| && forall i :: 0 <= i < |vals| ==> r[i] == -vals[i]
  {
    seq(|vals|, i requires 0 <= i < |vals| => -vals[i])
  }

  lemma {:induction false} NegSwapsCounts(vals: seq<int>)
    ensures CountNegative(NegComponents(vals)) == CountPositive(vals)
    ensures CountPositive(NegComponents(vals)) == CountNegative(vals)
    ensures FirstNonzero(NegComponents(vals)) == FirstNonzero(vals)
    decreases |vals|
  {
    if |vals| > 0 {
      assert NegComponents(vals)[1..] == NegComponents(vals[1..]);
      NegSwapsCounts(vals[1..]);
    }
  }

  /** A value and its negation are never both negative; a value with all
      components zero is not negative. */
  lemma IsNegativeAntisymmetric(vals: seq<int>)
    ensures IsNegativeComponents(vals) ==> !IsNegativeComponents(NegComponents(vals))
    ensures (forall i :: 0 <= i < |vals| ==> vals[i] == 0) ==> !IsNegativeComponents(vals)
  {
    NegSwapsCounts(vals);
  }

  /** Scalar `is_negative`, `t < 0 && !is_zero(t)`: the component rule on a
      single component. */
  function IsNegativeScalar(t: int): (b: bool)
    ensures b <==> IsNegativeComponents([t])
  {
    assert [t][1..] == [];
    assert CountNegative([t]) == (if t < 0 then 1 else 0);
    assert CountPositive([t]) == (if t > 0 then 1 else 0);
    t < 0 && !IsZero(t)
  }

  /** Complex `is_negative` on the parts (re, im): the real part is
      negative, or it is zero and the imaginary part is negative. This is
      the component rule on two components. */
  function IsNegativeComplex(re: int, im: int): (b: bool)
    ensures b <==> IsNegativeComponents([re, im])
  {
    assert [re, im][1..] == [im];
    assert [im][1..] == [];
    assert FirstNonzero([im]) == if im != 0 then 0 else 1;
    assert FirstNonzero([re, im]) == if re != 0 then 0 else 1 + FirstNonzero([im]);
    assert CountNegative([im]) == (if im < 0 then 1 else 0);
    assert CountPositive([im]) == (if im > 0 then 1 else 0);
    assert CountNegative([re, im]) == (if re < 0 then 1 else 0) + (if im < 0 then 1 else 0);
    assert CountPositive([re, im]) == (if re > 0 then 1 else 0) + (if im > 0 then 1 else 0);
    (re < 0 && !IsZero(re)) || (IsZero(re) && im < 0 && !IsZero(im))
  }

  /** Quaternion `is_negative`, on the four real components: a quaternion
      and its negation are never both negative, and zero is not negative. */
  function IsNegativeQuaternion(q: seq<int>): (b: bool)
    requires |q| == 4
    ensures b ==> !IsNegativeComponents(NegComponents(q))
    ensures (forall i :: 0 <= i < 4 ==> q[i] == 0) ==> !b
  {
    IsNegativeAntisymmetric(q);
    IsNegativeComponents(q)
  }

  /** Octonion `is_negative`, on the eight real components, with the same
      two guarantees. */
  function IsNegativeOctonion(o: seq<int>): (b: bool)
    requires |o| == 8
    ensures b ==> !IsNegativeComponents(NegComponents(o))
    ensures (forall i :: 0 <= i < 8 ==> o[i] == 0) ==> !b
  {
    IsNegativeAntisymmetric(o);
    IsNegativeComponents(o)
  }

  /** An even split follows the first nonzero component: (-1, 1, 0, 0) is
      negative and its negation is not. */
  lemma IsNegativeEvenSplitQuaternion()
    ensures IsNegativeQuaternion([-1, 1, 0, 0])
    ensures !IsNegativeQuaternion([1, -1, 0, 0])
  {
  }

  /** The rule can say "neither": (-1, 1, 1, 0) has a negative first
      component but more positive ones, and its negation (1, -1, -1, 0) has a
      positive first component, so neither is negative. */
  lemma IsNegativeNeitherQuaternion()
    ensures !IsNegativeQuaternion([-1, 1, 1, 0])
    ensures !IsNegativeQuaternion([1, -1, -1, 0])
  {
    assert CountPositive([-1, 1, 1, 0]) == 2;
    assert CountNegative([1, -1, -1, 0]) == 2;
  }

  /** An octonion whose first nonzero component is negative but whose
      positive components are in the majority is not negative. */
  lemma IsNegativeMajorityOctonion()
    ensures !IsNegativeOctonion([0, 0, -1, 1, 1, 0, 0, 0])
  {
    var s := [0, 0, -1, 1, 1, 0, 0, 0];
    var tail := [1, 1, 0, 0, 0];
    assert s[1..][1..][1..] == tail;
    assert tail[1..] == [1, 0, 0, 0];
    assert tail[1..][1..] == [0, 0, 0];
    assert tail[1..][1..][1..] == [0, 0];
    assert tail[1..][1..][1..][1..] == [0];
    assert CountPositive(tail) == 2;
    assert CountPositive(s) == 2;
    assert CountNegative(s) == 1 by {
      assert CountNegative(tail) == 0;
    }
  }

  // ---------------------------------------------------------------------
  // The polynomial inserter
  // ---------------------------------------------------------------------

  /** A separator is " + " or " - ". */
  predicate IsSeparator(s: string)
  {
    s == " + " || s == " - "
  }

  /** One middle term for coefficient `c` of x^i: nothing for zero,
      otherwise a separator carrying the sign of `c`. */
  function MiddleTerm(c: int, i: int): (s: string)
    ensures s == "" <==> c == 0
    ensures c != 0 ==> |s| >= 3 && IsSeparator(s[..3]) && (s[..3] == " - " <==> c < 0)
  {
    if IsNegativeScalar(c) then
      var s := " - " + IfNotOne(-c) + XPow(i); assert s[..3] == " - "; s
    else if !IsZero(c) then
      var s := " + " + IfNotOne(c) + XPow(i); assert s[..3] == " + "; s
    else ""
  }

  /** The middle terms for indices i down to 1, followed by the text
      `after` that the stream receives next: they add nothing exactly when
      all of those coefficients are zero, and they open with a space. */
  function MiddleTerms(p: seq<int>, i: int, after: string): (s: string)
    requires i < |p|
    ensures |s| >= |after|
    ensures |s| == |after| <==> forall j :: 1 <= j <= i ==> p[j] == 0
    ensures (|after| == 0 || after[0] == ' ') ==> (|s| == 0 || s[0] == ' ')
    decreases i
  {
    if i <= 0 then after else MiddleTerm(p[i], i) + MiddleTerms(p, i - 1, after)
  }

  /** The constant term after a leading term: nothing for zero, otherwise a
      separator carrying the sign of `c`. */
  function ConstantTerm(c: int): (s: string)
    ensures s == "" <==> c == 0
    ensures c != 0 ==> |s| > 3 && IsSeparator(s[..3]) && (s[..3] == " - " <==> c < 0)
  {
    if IsNegativeScalar(c) then
      var s := " - " + IntToString(-c); assert s[..3] == " - "; s
    else if c != 0 then
      var s := " + " + IntToString(c); assert s[..3] == " + "; s
    else ""
  }

  /** The text `os << poly` writes: "0" for the zero polynomial, the bare
      constant for degree 0, and otherwise the leading term followed by the
      nonzero lower terms from the top down. The text is "0" exactly for the
      zero polynomial. */
  function Render(p: seq<int>): (s: string)
    ensures s == "0" <==> !IsNonzero(p)
  {
    var d := Degree(p, 0);
    if d == -1 then "0"
    else if d == 0 then IntToStringZero(p[0]); IntToString(p[0])
    else
      NotZeroText(IfNotOne(p[d]), XPow(d), MiddleTerms(p[..d], d - 1, ConstantTerm(p[0])));
      IfNotOne(p[d]) + XPow(d) + MiddleTerms(p[..d], d - 1, ConstantTerm(p[0]))
  }

  /** A text with an "x" after a prefix is not "0". */
  lemma NotZeroText(lead: string, x: string, rest: string)
    requires |x| >= 1 && x[0] == 'x'
    ensures lead + x + rest != "0"
  {
    var s := lead + x + rest;
    assert s[|lead|] == 'x';
  }

  /** A degree-0 polynomial renders as its constant alone. */
  lemma RenderConstant(p: seq<int>)
    requires Degree(p, 0) == 0
    ensures ParseInt(Render(p)) == p[0]
  {
    IntToStringRoundTrip(p[0]);
  }

  /** Two polynomials of the same degree agreeing up to it render alike. */
  lemma RenderSameCoefficients(p: seq<int>, q: seq<int>, d: int)
    requires d == Degree(p, 0) == Degree(q, 0)
    requires forall j :: 0 <= j <= d ==> p[j] == q[j]
    ensures Render(p) == Render(q)
  {
    if d > 0 {
      assert p[..d] == q[..d];
      assert p[d] == q[d] && p[0] == q[0];
    } else if d == 0 {
      assert p[0] == q[0];
    }
  }

  /** The text depends only on the polynomial, not on its capacity. */
  lemma RenderEquiv(p: seq<int>, q: seq<int>)
    requires Equiv(p, q)
    ensures Render(p) == Render(q)
  {
    EquivDegree(p, q);
    var d := Degree(p, 0);
    forall j | 0 <= j <= d
      ensures p[j] == q[j]
    {
      assert At(p, j) == At(q, j);
    }
    RenderSameCoefficients(p, q, d);
  }

  // ---------------------------------------------------------------------
  // Reading the text back
  // ---------------------------------------------------------------------

  /** No character of `s` is `ch`. */
  predicate Avoids(s: string, ch: char)
  {
    forall i :: 0 <= i < |s| ==> s[i] != ch
  }

  /** Index of the first `ch` in `t`, or |t| if there is none. */
  function IndexOf(t: string, ch: char): (k: nat)
    ensures k <= |t|
    ensures k < |t| ==> t[k] == ch
  {
    if |t| == 0 then 0 else if t[0] == ch then 0 else 1 + IndexOf(t[1..], ch)
  }

  /** The first `ch` of `pre + rest` is where `rest` starts, when `pre` has
      none and `rest` is empty or opens with one. */
  lemma IndexOfJoin(pre: string, rest: string, ch: char)
    requires Avoids(pre, ch)
    requires |rest| == 0 || rest[0] == ch
    ensures IndexOf(pre + rest, ch) == |pre|
    decreases |pre|
  {
    if |pre| > 0 {
      assert (pre + rest)[0] == pre[0];
      assert (pre + rest)[1..] == pre[1..] + rest;
      IndexOfJoin(pre[1..], rest, ch);
    } else {
      assert pre + rest == rest;
    }
  }

  /** Every character of `s` is a decimal digit. */
  predicate AllDigits(s: string)
  {
    forall i :: 0 <= i < |s| ==> IsDigit(s[i])
  }

  /** The magnitude written before the "x": 1 when nothing is written. */
  function ReadMagnitude(m: string): int
  {
    if |m| == 0 then 1 else if AllDigits(m) then DigitsValue(m) as int else 0
  }

  /** The power written from the "x" on: "x" is 1, "x^k" is k, and no "x"
      at all is 0. */
  function ReadPower(x: string): int
  {
    if |x| == 0 then 0
    else if |x| == 1 then 1
    else if x[1] == '^' && AllDigits(x[2..]) then DigitsValue(x[2..]) as int
    else 0
  }

  /** Reads an unsigned term, split at its first "x". */
  function ReadUnsigned(t: string): (int, int)
  {
    var k := IndexOf(t, 'x');
    (ReadMagnitude(t[..k]), ReadPower(t[k..]))
  }

  /** Reads one term as (coefficient, power); a leading "-" negates. */
  function ReadTerm(t: string): (int, int)
  {
    if |t| > 0 && t[0] == '-' then
      var m := ReadUnsigned(t[1..]); (-m.0, m.1)
    else ReadUnsigned(t)
  }

  /** Reads the lower terms: each is a three-character separator, " - "
      negating, followed by a term running up to the next space. */
  function ReadTail(t: string): seq<(int, int)>
    decreases |t|
  {
    if |t| < 3 then []
    else
      var rest := t[3..];
      var k := IndexOf(rest, ' ');
      var term := ReadTerm(rest[..k]);
      [(if t[..3] == " - " then -term.0 else term.0, term.1)] + ReadTail(rest[k..])
  }

  /** Reads a whole rendered polynomial: the leading term up to the first
      space, then the lower terms. */
  function ReadText(t: string): seq<(int, int)>
  {
    var k := IndexOf(t, ' ');
    [ReadTerm(t[..k])] + ReadTail(t[k..])
  }

  /** The coefficient of x^j collected from (coefficient, power) terms. */
  function CoefficientOf(terms: seq<(int, int)>, j: int): int
  {
    if |terms| == 0 then 0
    else (if terms[0].1 == j then terms[0].0 else 0) + CoefficientOf(terms[1..], j)
  }

  lemma {:induction false} CoefficientOfAppend(a: seq<(int, int)>, b: seq<(int, int)>, j: int)
    ensures CoefficientOf(a + b, j) == CoefficientOf(a, j) + CoefficientOf(b, j)
    decreases |a|
  {
    if |a| > 0 {
      assert (a + b)[0] == a[0];
      assert (a + b)[1..] == a[1..] + b;
      CoefficientOfAppend(a[1..], b, j);
    } else {
      assert a + b == b;
    }
  }

  /** Digits are neither spaces, nor "x", nor a minus sign. */
  lemma DigitsAvoid(s: string)
    requires AllDigits(s)
    ensures Avoids(s, ' ') && Avoids(s, 'x') && Avoids(s, '-')
  {
  }

  lemma AvoidsJoin(a: string, b: string, ch: char)
    requires Avoids(a, ch) && Avoids(b, ch)
    ensures Avoids(a + b, ch)
  {
  }

  /** An unsigned term splits at its first "x" into magnitude and power. */
  lemma ReadUnsignedJoin(m: string, x: string)
    requires Avoids(m, 'x')
    requires |x| == 0 || x[0] == 'x'
    ensures ReadUnsigned(m + x) == (ReadMagnitude(m), ReadPower(x))
  {
    IndexOfJoin(m, x, 'x');
    assert (m + x)[..|m|] == m;
    assert (m + x)[|m|..] == x;
  }

  /** A nonnegative integer is written as digits and reads back as (n, 0). */
  lemma NatTextReadBack(n: nat)
    ensures AllDigits(NatToString(n))
    ensures ReadTerm(NatToString(n)) == (n, 0)
  {
    var t := NatToString(n);
    DigitsAvoid(t);
    ReadUnsignedJoin(t, "");
    assert t + "" == t;
    NatToStringRoundTrip(n);
  }

  /** An integer as the stream writes it has no space and reads back as
      (n, 0). */
  lemma IntTextReadBack(n: int)
    ensures Avoids(IntToString(n), ' ')
    ensures ReadTerm(IntToString(n)) == (n, 0)
  {
    var t := NatToString(if n < 0 then -n else n);
    NatTextReadBack(if n < 0 then -n else n);
    DigitsAvoid(t);
    if n < 0 {
      assert IntToString(n) == "-" + t;
      assert IntToString(n)[1..] == t;
    }
  }

  /** `ifnotone(a)` for a >= 1 is digits giving the magnitude a. */
  lemma IfNotOneMagnitude(a: int)
    requires a >= 1
    ensures AllDigits(IfNotOne(a))
    ensures ReadMagnitude(IfNotOne(a)) == a
  {
    if a > 1 {
      assert IfNotOne(a) == NatToString(a);
      NatToStringRoundTrip(a);
    }
  }

  /** `xpow{i}` for i >= 1 opens with "x", has no space and gives power i. */
  lemma XPowPower(i: int)
    requires i >= 1
    ensures |XPow(i)| >= 1 && XPow(i)[0] == 'x'
    ensures Avoids(XPow(i), ' ')
    ensures ReadPower(XPow(i)) == i
  {
    if i > 1 {
      var t := NatToString(i);
      assert XPow(i) == "x^" + t;
      assert XPow(i)[2..] == t;
      DigitsAvoid(t);
      NatToStringRoundTrip(i);
    }
  }

  /** `ifnotone(a) << xpow{i}` for a >= 1 and i >= 1 has no space, does not
      open with "-", and reads back as (a, i). */
  lemma UnsignedWordReadBack(a: int, i: int)
    requires a >= 1 && i >= 1
    ensures Avoids(IfNotOne(a) + XPow(i), ' ')
    ensures (IfNotOne(a) + XPow(i))[0] != '-'
    ensures ReadTerm(IfNotOne(a) + XPow(i)) == (a, i)
  {
    var m := IfNotOne(a);
    IfNotOneMagnitude(a);
    XPowPower(i);
    DigitsAvoid(m);
    AvoidsJoin(m, XPow(i), ' ');
    ReadUnsignedJoin(m, XPow(i));
    assert |m| > 0 ==> (m + XPow(i))[0] == m[0];
  }

  /** For a negative coefficient `ifnotone` writes a minus sign before what
      it writes for the magnitude. */
  lemma IfNotOneNegative(c: int, a: int)
    requires c <= -1 && a == -c
    ensures IfNotOne(c) == "-" + IfNotOne(a)
  {
    if c < -1 {
      assert IfNotOne(a) == NatToString(a);
    }
  }

  /** The leading term of a negative coefficient is a minus sign before the
      term of its magnitude. */
  lemma NegativeWord(c: int, a: int, i: int)
    requires c <= -1 && a == -c
    ensures IfNotOne(c) + XPow(i) == "-" + (IfNotOne(a) + XPow(i))
  {
    IfNotOneNegative(c, a);
    JoinAssociates("-", IfNotOne(a), XPow(i));
  }

  lemma JoinAssociates(a: string, b: string, c: string)
    ensures (a + b) + c == a + (b + c)
  {
  }

  /** A minus sign before an unsigned term negates what it reads as. */
  lemma ReadTermNegated(t: string, w: string, a: int, c: int, i: int)
    requires t == "-" + w && c == -a
    requires |w| > 0 ==> w[0] != '-'
    requires Avoids(w, ' ')
    requires ReadTerm(w) == (a, i)
    ensures ReadTerm(t) == (c, i)
    ensures Avoids(t, ' ')
  {
    assert t[1..] == w;
    assert forall k :: 1 <= k < |t| ==> t[k] == w[k - 1];
  }

  /** The leading term `ifnotone(c) << xpow{i}` for c != 0 and i >= 1 has no
      space and reads back as (c, i), sign included. */
  lemma LeadingWordReadBack(c: int, i: int)
    requires c != 0 && i >= 1
    ensures Avoids(IfNotOne(c) + XPow(i), ' ')
    ensures ReadTerm(IfNotOne(c) + XPow(i)) == (c, i)
  {
    if c > 0 {
      UnsignedWordReadBack(c, i);
    } else {
      var a := -c;
      UnsignedWordReadBack(a, i);
      NegativeWord(c, a, i);
      ReadTermNegated(IfNotOne(c) + XPow(i), IfNotOne(a) + XPow(i), a, c, i);
    }
  }

  /** One separator-led term followed by more text opening with a space. */
  lemma ReadTailJoin(sep: string, word: string, rest: string)
    requires IsSeparator(sep)
    requires Avoids(word, ' ')
    requires |rest| == 0 || rest[0] == ' '
    ensures ReadTail(sep + word + rest) ==
      [(if sep == " - " then -ReadTerm(word).0 else ReadTerm(word).0, ReadTerm(word).1)] + ReadTail(rest)
  {
    var t := sep + word + rest;
    assert t[..3] == sep;
    assert t[3..] == word + rest;
    IndexOfJoin(word, rest, ' ');
    assert (word + rest)[..|word|] == word;
    assert (word + rest)[|word|..] == rest;
  }

  /** The same with the term's reading known: the separator " - " negates
      it. */
  lemma ReadTailStep(t: string, sep: string, word: string, rest: string, a: int, e: int)
    requires t == sep + word + rest
    requires IsSeparator(sep)
    requires Avoids(word, ' ')
    requires |rest| == 0 || rest[0] == ' '
    requires ReadTerm(word) == (a, e)
    ensures ReadTail(t) == [(if sep == " - " then -a else a, e)] + ReadTail(rest)
  {
    ReadTailJoin(sep, word, rest);
  }

  /** A positive middle term is " + " before the term of c. */
  lemma PositiveMiddleShape(c: int, i: int)
    requires c > 0
    ensures MiddleTerm(c, i) == " + " + (IfNotOne(c) + XPow(i))
  {
  }

  /** " + " before the term of magnitude a at power i reads back as (a, i). */
  lemma PlusTermReadBack(a: int, i: int, m: string, rest: string)
    requires a >= 1 && i >= 1
    requires m == " + " + (IfNotOne(a) + XPow(i))
    requires |rest| == 0 || rest[0] == ' '
    ensures ReadTail(m + rest) == [(a, i)] + ReadTail(rest)
  {
    UnsignedWordReadBack(a, i);
    ReadTailStep(m + rest, " + ", IfNotOne(a) + XPow(i), rest, a, i);
    assert " + " != " - " by {
      assert " + "[1] != " - "[1];
    }
  }

  /** " - " before the term of magnitude a at power i reads back as
      (c, i) with c = -a. */
  lemma MinusTermReadBack(a: int, c: int, i: int, w: string, m: string, rest: string)
    requires a >= 1 && i >= 1 && c == -a
    requires w == IfNotOne(a) + XPow(i) && m == " - " + w
    requires |rest| == 0 || rest[0] == ' '
    ensures ReadTail(m + rest) == [(c, i)] + ReadTail(rest)
  {
    UnsignedWordReadBack(a, i);
    ReadTailStep(m + rest, " - ", w, rest, a, i);
  }

  /** A positive middle term at power i >= 1 reads back as (c, i). */
  lemma PositiveMiddleTermReadBack(c: int, i: int, rest: string)
    requires c > 0 && i >= 1
    requires |rest| == 0 || rest[0] == ' '
    ensures ReadTail(MiddleTerm(c, i) + rest) == [(c, i)] + ReadTail(rest)
  {
    PositiveMiddleShape(c, i);
    PlusTermReadBack(c, i, MiddleTerm(c, i), rest);
  }

  /** A negative middle term is " - " before the term of its magnitude a. */
  lemma NegativeMiddleShape(c: int, a: int, i: int)
    requires c < 0 && a == -c
    ensures MiddleTerm(c, i) == " - " + (IfNotOne(a) + XPow(i))
  {
  }

  /** A negative middle term at power i >= 1 reads back as (c, i): the
      " - " separator restores the sign the term's text leaves out. */
  lemma NegativeMiddleTermReadBack(c: int, i: int, rest: string)
    requires c < 0 && i >= 1
    requires |rest| == 0 || rest[0] == ' '
    ensures ReadTail(MiddleTerm(c, i) + rest) == [(c, i)] + ReadTail(rest)
  {
    var a := -c;
    NegativeMiddleShape(c, a, i);
    MinusTermReadBack(a, c, i, IfNotOne(a) + XPow(i), MiddleTerm(c, i), rest);
  }

  /** A middle term for c != 0 at power i >= 1 reads back as (c, i), its
      sign carried by the separator; a zero coefficient writes nothing. */
  lemma MiddleTermReadBack(c: int, i: int, rest: string)
    requires i >= 1
    requires |rest| == 0 || rest[0] == ' '
    ensures ReadTail(MiddleTerm(c, i) + rest) == (if c == 0 then [] else [(c, i)]) + ReadTail(rest)
  {
    if c > 0 {
      PositiveMiddleTermReadBack(c, i, rest);
    } else if c < 0 {
      NegativeMiddleTermReadBack(c, i, rest);
    } else {
      assert MiddleTerm(c, i) + rest == rest;
    }
  }

  /** The constant term reads back as (c, 0), its sign carried by the
      separator; zero writes nothing. */
  lemma ConstantTermReadBack(c: int)
    ensures ReadTail(ConstantTerm(c)) == if c == 0 then [] else [(c, 0)]
  {
    if c != 0 {
      var a := if c > 0 then c else -c;
      var sep := if c > 0 then " + " else " - ";
      IntTextReadBack(a);
      assert ConstantTerm(c) == sep + IntToString(a) + "";
      ReadTailStep(ConstantTerm(c), sep, IntToString(a), "", a, 0);
      assert ReadTail("") == [];
    }
  }

  /** A middle term adds its coefficient at its own power to whatever
      the text after it reads back as. */
  lemma MiddleTermCoefficient(c: int, i: int, lower: string, j: int)
    requires i >= 1
    requires |lower| == 0 || lower[0] == ' '
    ensures CoefficientOf(ReadTail(MiddleTerm(c, i) + lower), j) ==
      (if j == i then c else 0) + CoefficientOf(ReadTail(lower), j)
  {
    var terms: seq<(int, int)> := if c == 0 then [] else [(c, i)];
    MiddleTermReadBack(c, i, lower);
    CoefficientOfAppend(terms, ReadTail(lower), j);
    if c != 0 {
      CoefficientOfSingle(c, i, j);
    }
  }

  /** The middle terms for indices i down to 1 read back as those nonzero
      coefficients at their powers. */
  lemma {:induction false} MiddleTermsReadBack(p: seq<int>, i: int, after: string, j: int)
    requires i < |p|
    requires |after| == 0 || after[0] == ' '
    ensures CoefficientOf(ReadTail(MiddleTerms(p, i, after)), j) ==
      (if 1 <= j <= i then p[j] else 0) + CoefficientOf(ReadTail(after), j)
    decreases i
  {
    if i > 0 {
      var lower := MiddleTerms(p, i - 1, after);
      assert MiddleTerms(p, i, after) == MiddleTerm(p[i], i) + lower;
      MiddleTermCoefficient(p[i], i, lower, j);
      MiddleTermsReadBack(p, i - 1, after, j);
    } else {
      assert MiddleTerms(p, i, after) == after;
    }
  }

  /** A leading word with no space, followed by text opening with a space,
      reads back as that word's term and then the lower terms. */
  lemma ReadTextJoin(lead: string, rest: string, a: int, e: int)
    requires Avoids(lead, ' ')
    requires |rest| == 0 || rest[0] == ' '
    requires ReadTerm(lead) == (a, e)
    ensures ReadText(lead + rest) == [(a, e)] + ReadTail(rest)
  {
    IndexOfJoin(lead, rest, ' ');
    assert (lead + rest)[..|lead|] == lead;
    assert (lead + rest)[|lead|..] == rest;
  }

  /** Above degree 0 the text is the leading word and then the lower terms. */
  lemma RenderShape(p: seq<int>, d: int)
    requires d == Degree(p, 0) >= 1
    ensures Render(p) == IfNotOne(p[d]) + XPow(d) + MiddleTerms(p[..d], d - 1, ConstantTerm(p[0]))
  {
  }

  /** The lower terms open with a space when there are any. */
  lemma LowerTermsOpen(p: seq<int>, d: int)
    requires 1 <= d < |p|
    ensures var rest := MiddleTerms(p[..d], d - 1, ConstantTerm(p[0]));
      |rest| == 0 || rest[0] == ' '
  {
  }

  /** Above degree 0 the text opens with the leading term (p[d], d) at
      d = deg p, and the lower terms follow. */
  lemma RenderLeadingTerm(p: seq<int>, d: int, rest: string)
    requires d == Degree(p, 0) >= 1
    requires rest == MiddleTerms(p[..d], d - 1, ConstantTerm(p[0]))
    ensures ReadText(Render(p)) == [(p[d], d)] + ReadTail(rest)
  {
    var lead := IfNotOne(p[d]) + XPow(d);
    RenderShape(p, d);
    LowerTermsOpen(p, d);
    LeadingWordReadBack(p[d], d);
    ReadTextJoin(lead, rest, p[d], d);
    assert ReadText(Render(p)) == ReadText(lead + rest);
  }

  /** The zero polynomial's text "0" reads back as the constant 0. */
  lemma ZeroReadBack(p: seq<int>, j: nat)
    requires Degree(p, 0) == -1
    ensures CoefficientOf(ReadText(Render(p)), j) == At(p, j)
  {
    IntTextReadBack(0);
    IndexOfJoin("0", "", ' ');
    assert "0" + "" == "0" && "0"[..1] == "0" && "0"[1..] == "";
    assert ReadText("0") == [(0, 0)] + ReadTail("");
  }

  /** A constant's text reads back as that constant at power 0. */
  lemma ConstantReadBack(p: seq<int>, j: nat)
    requires Degree(p, 0) == 0
    ensures CoefficientOf(ReadText(Render(p)), j) == At(p, j)
  {
    var t := IntToString(p[0]);
    IntTextReadBack(p[0]);
    IndexOfJoin(t, "", ' ');
    assert t + "" == t && t[..|t|] == t && t[|t|..] == "";
    assert ReadText(t) == [(p[0], 0)] + ReadTail("");
    assert Render(p) == t;
  }

  /** The constant term contributes c at power 0 and nothing elsewhere. */
  lemma ConstantCoefficient(c: int, j: int)
    ensures CoefficientOf(ReadTail(ConstantTerm(c)), j) == if j == 0 then c else 0
  {
    ConstantTermReadBack(c);
    if c == 0 {
      assert ReadTail(ConstantTerm(c)) == [];
    } else {
      CoefficientOfSingle(c, 0, j);
    }
  }

  /** A single term (c, e) contributes c to the coefficient of x^e only. */
  lemma CoefficientOfSingle(c: int, e: int, j: int)
    ensures CoefficientOf([(c, e)], j) == if e == j then c else 0
  {
    assert [(c, e)][1..] == [];
  }

  /** The leading, middle and constant contributions add up to the
      coefficient at j. */
  lemma CoefficientSplit(p: seq<int>, j: nat, top: int, middle: int, bottom: int)
    requires Degree(p, 0) >= 1
    requires top == if j == Degree(p, 0) then p[j] else 0
    requires middle == if 1 <= j <= Degree(p, 0) - 1 then p[j] else 0
    requires bottom == if j == 0 then p[0] else 0
    ensures top + middle + bottom == At(p, j)
  {
  }

  /** Above degree 0 the leading term contributes p[d] at d = deg p, on top
      of what the lower terms read back as. */
  lemma LeadingCoefficient(p: seq<int>, d: int, rest: string, j: int)
    requires d == Degree(p, 0) >= 1
    requires rest == MiddleTerms(p[..d], d - 1, ConstantTerm(p[0]))
    ensures CoefficientOf(ReadText(Render(p)), j) == (if j == d then p[d] else 0) + CoefficientOf(ReadTail(rest), j)
  {
    RenderLeadingTerm(p, d, rest);
    CoefficientOfAppend([(p[d], d)], ReadTail(rest), j);
    CoefficientOfSingle(p[d], d, j);
  }

  /** Below the leading term the text reads back as the coefficients at
      powers d - 1 down to 0. */
  lemma LowerCoefficients(p: seq<int>, d: int, rest: string, j: int)
    requires 1 <= d < |p|
    requires rest == MiddleTerms(p[..d], d - 1, ConstantTerm(p[0]))
    ensures CoefficientOf(ReadTail(rest), j) ==
      (if 1 <= j <= d - 1 then p[j] else 0) + (if j == 0 then p[0] else 0)
  {
    MiddleTermsReadBack(p[..d], d - 1, ConstantTerm(p[0]), j);
    ConstantCoefficient(p[0], j);
  }

  /** Above degree 0 the leading term, the middle terms and the constant
      term together give back every coefficient. */
  lemma HigherReadBack(p: seq<int>, j: nat)
    requires Degree(p, 0) >= 1
    ensures CoefficientOf(ReadText(Render(p)), j) == At(p, j)
  {
    var d := Degree(p, 0);
    var rest := MiddleTerms(p[..d], d - 1, ConstantTerm(p[0]));
    LeadingCoefficient(p, d, rest, j);
    LowerCoefficients(p, d, rest, j);
    CoefficientSplit(p, j, if j == d then p[d] else 0, if 1 <= j <= d - 1 then p[j] else 0, if j == 0 then p[0] else 0);
  }

  /** Reading the text back gives every coefficient of the polynomial. */
  lemma RenderReadBack(p: seq<int>, j: nat)
    ensures CoefficientOf(ReadText(Render(p)), j) == At(p, j)
  {
    var d := Degree(p, 0);
    if d == -1 {
      ZeroReadBack(p, j);
    } else if d == 0 {
      ConstantReadBack(p, j);
    } else {
      HigherReadBack(p, j);
    }
  }

  /** Two polynomials are written alike exactly when they are the same
      polynomial, whatever their capacities. */
  lemma RenderIffSamePolynomial(p: seq<int>, q: seq<int>)
    ensures Render(p) == Render(q) <==> Equiv(p, q)
  {
    if Render(p) == Render(q) {
      forall j | 0 <= j
        ensures At(p, j) == At(q, j)
      {
        RenderReadBack(p, j);
        RenderReadBack(q, j);
      }
    }
    if Equiv(p, q) {
      RenderEquiv(p, q);
    }
  }

  /** The product in the example program: (x^2 + 1)(x - 1) = x^3 - x^2 + x - 1,
      in capacity 3 + 2. */
  lemma ExampleProduct()
    ensures Product([1, 0, 1], [-1, 1]) == [-1, 1, -1, 1, 0]
  {
    assert [1, 0, 1][1..] == [0, 1];
    assert [0, 1][1..] == [1];
    assert [1][1..] == [];
  }

  lemma ExampleTerms()
    ensures XPow(2) == "x^2" && XPow(3) == "x^3"
    ensures MiddleTerm(-1, 2) == " - x^2" && MiddleTerm(1, 1) == " + x"
    ensures ConstantTerm(-1) == " - 1" && IfNotOne(1) == ""
  {
    assert IntToString(2) == "2" && IntToString(3) == "3" && IntToString(1) == "1";
  }

  lemma ExampleLayout()
    ensures Degree([-1, 1, -1, 1, 0], 0) == 3
    ensures MiddleTerms([-1, 1, -1], 2, " - 1") == " - x^2 + x - 1"
  {
    var p := [-1, 1, -1, 1, 0];
    assert p[..4] == [-1, 1, -1, 1];
    ExampleTerms();
    assert MiddleTerms([-1, 1, -1], 0, " - 1") == " - 1";
    assert MiddleTerms([-1, 1, -1], 1, " - 1") == " + x - 1";
  }

  /** The example program prints "x^3 - x^2 + x - 1". */
  lemma RenderExample()
    ensures Render(Product([1, 0, 1], [-1, 1])) == "x^3 - x^2 + x - 1"
  {
    ExampleProduct();
    ExampleTerms();
    ExampleLayout();
    var p := [-1, 1, -1, 1, 0];
    assert p[..3] == [-1, 1, -1];
    assert Render(p) == "" + "x^3" + " - x^2 + x - 1";
  }
}
