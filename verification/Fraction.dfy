/** Fractions over 64-bit integers with overflow checks, kept in lowest terms. */
module Fractions {
  import opened Rationals

  const MAX: int := 0x7FFF_FFFF_FFFF_FFFF
  const MIN: int := -0x8000_0000_0000_0000

  predicate Fits(x: int) {
    MIN <= x <= MAX
  }

  datatype Checked = Just(value: int) | Overflow

  datatype Outcome = Done | Invalid | Overflowed

  /** Division of signed machine integers: towards zero. */
  function Truncated(a: int, b: int): int
    requires b != 0
  {
    if a >= 0 then a / b else -((-a) / b)
  }

  // ----- checked arithmetic: fails exactly when the true result does not fit -----

  function SafeNegate(x: int): (r: Checked)
    requires Fits(x)
    ensures r == if Fits(-x) then Just(-x) else Overflow
  {
    if x == MIN then Overflow else Just(-x)
  }

  function SafeAdd(a: int, b: int): (r: Checked)
    requires Fits(a) && Fits(b)
    ensures r == if Fits(a + b) then Just(a + b) else Overflow
  {
    if b > 0 && a > MAX - b then Overflow
    else if b < 0 && a < MIN - b then Overflow
    else Just(a + b)
  }

  /** Subtracting the least integer is refused even where the difference fits. */
  function SafeSub(a: int, b: int): (r: Checked)
    requires Fits(a) && Fits(b)
    ensures r == if Fits(a - b) && b != MIN then Just(a - b) else Overflow
  {
    if b == MIN then Overflow else SafeAdd(a, -b)
  }

  /** Subtracting MIN is refused even where the difference fits. */
  lemma SubRefusesMin()
    ensures SafeSub(-1, MIN) == Overflow && Fits(-1 - MIN)
  {
  }

  function SafeMul(a: int, b: int): (r: Checked)
    requires Fits(a) && Fits(b)
    ensures r == if Fits(a * b) then Just(a * b) else Overflow
  {
    if a == 0 || b == 0 then Just(0)
    else if a == 1 then Just(b)
    else if b == 1 then Just(a)
    else if a == -1 then SafeNegate(b)
    else if b == -1 then SafeNegate(a)
    else
      (MulBounds(Abs(a), Abs(b));
       SignedProduct(a, b);
       if a > 0 && b > 0 then (if a > Truncated(MAX, b) then Overflow else Just(a * b))
       else if a > 0 then (if b < Truncated(MIN, a) then Overflow else Just(a * b))
       else if b > 0 then (if a < Truncated(MIN, b) then Overflow else Just(a * b))
       else if a < Truncated(MAX, b) then Overflow else Just(a * b))
  }

  lemma SignedProduct(a: int, b: int)
    ensures a * b == if (a < 0) == (b < 0) then Abs(a) * Abs(b) else -(Abs(a) * Abs(b))
  {
    if a < 0 {
      assert a * b == -(-a * b);
    }
    if b < 0 {
      assert Abs(a) * b == -(Abs(a) * -b);
    }
  }

  lemma MulBounds(a: int, b: int)
    requires a > 0 && b > 0
    ensures a > MAX / b <==> a * b > MAX
    ensures a > -MIN / b <==> a * b > -MIN
    ensures b > -MIN / a <==> a * b > -MIN
    ensures MAX / -b == -(MAX / b)
  {
    ProductBound(a, b, MAX);
    ProductBound(a, b, -MIN);
    ProductBound(b, a, -MIN);
    NegatedDivisor(MAX, b);
  }

  lemma ProductBound(a: nat, b: nat, m: nat)
    requires b > 0
    ensures a > m / b <==> a * b > m
  {
    var q := m / b;
    assert m == b * q + m % b;
    MulMonotone(q + 1, a, b);
    MulMonotone(a, q, b);
    Spread(b, q, 1);
  }

  lemma MulMonotone(x: int, y: int, b: nat)
    ensures x <= y ==> b * x <= b * y
    ensures b * x == x * b && b * y == y * b
  {
    if x <= y {
      assert b * (y - x) >= 0;
      Spread(b, y, -x);
    }
  }

  lemma NegatedDivisor(m: nat, b: int)
    requires b > 0
    ensures m / -b == -(m / b)
  {
    var q := m / -b;
    assert m == -b * q + m % -b;
    assert 0 <= m % -b < b;
    assert m == b * -q + m % -b;
    var k, e := m / b, -q - m / b;
    assert m == b * k + m % b;
    assert b * -q == b * k + b * e;
    assert e >= 1 ==> b * e >= b;
    assert e <= -1 ==> b * e <= -b;
  }

  function SafeCast(x: nat): (r: Checked)
    ensures r == if Fits(x) then Just(x) else Overflow
  {
    if x == 0 then Just(0) else if x > MAX then Overflow else Just(x)
  }

  /** Euclid's algorithm. */
  method GcdLoop(x: nat, y: nat) returns (g: nat)
    ensures g == Gcd(x, y)
  {
    var a, b := x, y;
    while b != 0
      invariant Gcd(a, b) == Gcd(x, y)
      decreases b
    {
      a, b := b, a % b;
    }
    g := a;
  }

  // ----- order -----

  datatype Order = Less | Equal | Greater

  function OrderOf(x: int, y: int): Order {
    if x < y then Less else if x > y then Greater else Equal
  }

  /** Compares a/b with c/d by their continued fractions: the order of the cross products, which are
      never formed. */
  method CompareUnsigned(p: nat, q: nat, u: nat, v: nat) returns (o: Order)
    requires q > 0 && v > 0
    ensures o == OrderOf(p * v, u * q)
  {
    var reversed := false;
    var a, b, c, d := p, q, u, v;
    while true
      invariant b > 0 && d > 0
      invariant OrderOf(p * v, u * q) == if reversed then OrderOf(c * b, a * d) else OrderOf(a * d, c * b)
      decreases b
    {
      var q1, q2 := a / b, c / d;
      if q1 != q2 {
        QuotientDecides(a, b, c, d);
        var less := q1 < q2;
        if !reversed {
          return if less then Less else Greater;
        }
        return if less then Greater else Less;
      }
      var r1, r2 := a % b, c % d;
      RemaindersCross(a, b, c, d);
      if r1 == 0 || r2 == 0 {
        Positive(r1, d);
        Positive(r2, b);
        if r1 == 0 && r2 == 0 {
          return Equal;
        }
        var less := r1 == 0;
        if !reversed {
          return if less then Less else Greater;
        }
        return if less then Greater else Less;
      }
      a, b, c, d := b, r1, d, r2;
      reversed := !reversed;
    }
  }

  lemma Positive(r: nat, d: nat)
    requires d > 0
    ensures r > 0 ==> d * r > 0
    ensures r == 0 ==> d * r == 0
  {
  }

  lemma QuotientDecides(a: nat, b: nat, c: nat, d: nat)
    requires b > 0 && d > 0 && a / b != c / d
    ensures OrderOf(a * d, c * b) == OrderOf(a / b, c / d)
    ensures OrderOf(c * b, a * d) == OrderOf(c / d, a / b)
  {
    Below(a, b, c, d);
    Below(c, d, a, b);
  }

  lemma Below(a: nat, b: nat, c: nat, d: nat)
    requires b > 0 && d > 0
    ensures a / b < c / d ==> a * d < c * b
  {
    var q1, q2 := a / b, c / d;
    if q1 < q2 {
      assert a < b * (q1 + 1) by { assert a == b * q1 + a % b; assert b * (q1 + 1) == b * q1 + b; }
      assert b * (q1 + 1) <= b * q2;
      assert c >= d * q2 by { assert c == d * q2 + c % d; }
      assert a * d < (b * q2) * d;
      assert (b * q2) * d == (d * q2) * b;
      assert (d * q2) * b <= c * b;
    }
  }

  lemma RemaindersCross(a: nat, b: nat, c: nat, d: nat)
    requires b > 0 && d > 0 && a / b == c / d
    ensures OrderOf(a * d, c * b) == OrderOf(d * (a % b), b * (c % d))
    ensures OrderOf(c * b, a * d) == OrderOf(b * (c % d), d * (a % b))
  {
    var q, r1, r2 := a / b, a % b, c % d;
    assert a == b * q + r1;
    assert c == d * q + r2;
    assert (b * q + r1) * d == (b * q) * d + d * r1;
    assert (d * q + r2) * b == (d * q) * b + b * r2;
    assert (b * q) * d == (d * q) * b;
  }

  // ----- the rational of a quotient -----

  /** The reduced form of n/m has numerator and denominator in range. */
  ghost predicate Representable(n: int, m: int) {
    exists p, q :: Reduced(p, q) && p * m == n * q && Fits(p) && Fits(q)
  }

  lemma RepresentableAs(n: int, m: int, p: int, q: int)
    requires m != 0 && Reduced(p, q) && p * m == n * q
    ensures Representable(n, m) <==> Fits(p) && Fits(q)
  {
    if Representable(n, m) {
      var x, y :| Reduced(x, y) && x * m == n * y && Fits(x) && Fits(y);
      SameRational(x, y, p, q, n, m);
      ReducedUnique(x, y, p, q);
    }
  }

  lemma ExactQuotient(a: int, g: nat)
    requires g > 0 && a == g * (a / g)
    ensures Truncated(a, g) == a / g
  {
    if a < 0 {
      assert -a == g * -(a / g);
      Rationals.Multiple(g, -(a / g));
    }
  }

  lemma GcdFits(n: int, m: int)
    requires Fits(n) && Fits(m) && n != 0 && m != 0
    ensures Fits(Gcd(Abs(n), Abs(m))) <==> !(n == MIN && m == MIN)
  {
    var g := Gcd(Abs(n), Abs(m));
    GcdDivides(Abs(n), Abs(m));
    DivisorAtMost(g, Abs(n));
    DivisorAtMost(g, Abs(m));
    if n == MIN && m == MIN {
      assert Gcd(-MIN, -MIN) == Gcd(-MIN, 0);
    }
  }

  class Fraction {
    var num: int
    var den: int

    ghost predicate Valid()
      reads this
    {
      Fits(num) && Fits(den) && Reduced(num, den)
    }

    ghost function V(): real
      reads this
      requires den != 0
    {
      Value(num, den)
    }

    constructor (n: int)
      requires Fits(n)
      ensures Valid() && V() == n as real
    {
      num, den := n, 1;
      new;
      Whole(n);
    }

    /** Construction from any two integers. It succeeds exactly when the denominator is not zero and the
        reduced fraction fits, except that MIN/MIN is refused. */
    method Assign(n: int, d: int) returns (r: Outcome)
      requires Fits(n) && Fits(d)
      modifies this
      ensures r == Invalid <==> d == 0
      ensures r == Done <==> d != 0 && Representable(n, d) && !(n == MIN && d == MIN)
      ensures r == Done ==> Valid() && num * d == n * den
    {
      num, den := n, d;
      r := Normalize();
    }

    method Normalize() returns (r: Outcome)
      requires Fits(num) && Fits(den)
      modifies this
      ensures r == Invalid <==> old(den) == 0
      ensures r == Done <==> old(den) != 0 && Representable(old(num), old(den)) && !(old(num) == MIN && old(den) == MIN)
      ensures r == Done ==> Valid() && num * old(den) == old(num) * den
    {
      if den == 0 {
        return Invalid;
      }
      ghost var n, m := num, den;
      if num == 0 {
        den := 1;
        RepresentableAs(0, m, 0, 1);
        return Done;
      }
      var g := GcdLoop(Abs(num), Abs(den));
      DividedOut(n, m);
      GcdFits(n, m);
      var cast := SafeCast(g);
      if cast == Overflow {
        return Overflowed;
      }
      ExactQuotient(n, g);
      ExactQuotient(m, g);
      Smaller(n, g);
      Smaller(m, g);
      num := Truncated(num, g);
      den := Truncated(den, g);
      LowestTerms(n, m, g);
      hide Gcd;
      if den < 0 {
        if den == MIN {
          return Overflowed;
        }
        var negated := SafeNegate(num);
        if negated == Overflow {
          return Overflowed;
        }
        num := negated.value;
        den := -den;
      }
      r := Done;
    }

    /** Addition over the least common denominator. It succeeds exactly when its two products, their sum and
        the common denominator fit; a failure changes nothing. */
    method Add(other: Fraction) returns (r: Outcome)
      requires Valid() && other.Valid()
      modifies this
      ensures r != Invalid
      ensures r == Done <==> SumFits(old(num), old(den), old(other.num), old(other.den))
      ensures r == Done ==> Valid() && V() == old(V()) + old(other.V())
      ensures r != Done ==> num == old(num) && den == old(den)
    {
      ghost var a, b, c, d := num, den, other.num, other.den;
      var leftMul, rightMul := Multipliers(other);
      hide Gcd;
      var left := SafeMul(num, leftMul);
      var right := SafeMul(other.num, rightMul);
      if left == Overflow || right == Overflow {
        return Overflowed;
      }
      var newNum := SafeAdd(left.value, right.value);
      if newNum == Overflow {
        return Overflowed;
      }
      var newDen := SafeMul(den, leftMul);
      if newDen == Overflow {
        return Overflowed;
      }
      num, den := newNum.value, newDen.value;
      SumExact(a, b, c, d);
      WholeNormal(num, den);
      ghost var n, m := num, den;
      r := Normalize();
      CrossOrder(num, den, n, m);
    }

    method Subtract(other: Fraction) returns (r: Outcome)
      requires Valid() && other.Valid()
      modifies this
      ensures r != Invalid
      ensures r == Done <==> DifferenceFits(old(num), old(den), old(other.num), old(other.den))
      ensures r == Done ==> Valid() && V() == old(V()) - old(other.V())
      ensures r != Done ==> num == old(num) && den == old(den)
    {
      ghost var a, b, c, d := num, den, other.num, other.den;
      var leftMul, rightMul := Multipliers(other);
      hide Gcd;
      var left := SafeMul(num, leftMul);
      var right := SafeMul(other.num, rightMul);
      if left == Overflow || right == Overflow {
        return Overflowed;
      }
      var newNum := SafeSub(left.value, right.value);
      if newNum == Overflow {
        return Overflowed;
      }
      var newDen := SafeMul(den, leftMul);
      if newDen == Overflow {
        return Overflowed;
      }
      num, den := newNum.value, newDen.value;
      DifferenceExact(a, b, c, d);
      WholeNormal(num, den);
      ghost var n, m := num, den;
      r := Normalize();
      CrossOrder(num, den, n, m);
    }

    /** What each numerator is multiplied by to reach the least common denominator. */
    method Multipliers(other: Fraction) returns (left: int, right: int)
      requires Valid() && other.Valid()
      ensures var g := Gcd(den, other.den);
              g > 0 && left == other.den / g && right == den / g && Fits(left) && Fits(right)
    {
      var g := GcdLoop(Abs(den), Abs(other.den));
      DividedOut(den, other.den);
      GcdFits(den, other.den);
      var cast := SafeCast(g);
      ExactQuotient(den, g);
      ExactQuotient(other.den, g);
      Smaller(den, g);
      Smaller(other.den, g);
      left, right := Truncated(other.den, cast.value), Truncated(den, cast.value);
    }

    /** Multiplication with cross-cancellation: the exact product, which is the product of the values
        (ProductValue). It fails if and only if the reduced exact product does not fit. A failure may leave the
        numerator changed. */
    method Multiply(other: Fraction) returns (r: Outcome)
      requires Valid() && other.Valid()
      modifies this
      ensures r != Invalid
      ensures r == Done <==> Representable(old(num) * old(other.num), old(den) * old(other.den))
      ensures r == Done ==> Valid() && V() == Value(old(num) * old(other.num), old(den) * old(other.den))
      ensures r != Done ==> den == old(den)
    {
      ghost var a0, b0, c0, d0 := num, den, other.num, other.den;
      hide Gcd;
      hide Value;
      hide Representable;
      if num == 0 || other.num == 0 {
        num, den := 0, 1;
        ZeroProduct(a0, b0, c0, d0);
        return Done;
      }
      var a, d := CancelCommon(num, other.den);
      var c, b := CancelCommon(other.num, den);
      ProductExact(a0, b0, c0, d0);
      r := StoreProducts(a, c, b, d);
    }

    method StoreProducts(a: int, c: int, b: int, d: int) returns (r: Outcome)
      requires Fits(a) && Fits(b) && Fits(c) && Fits(d) && Reduced(a * c, b * d)
      modifies this
      ensures r == if Fits(a * c) && Fits(b * d) then Done else Overflowed
      ensures r == Done ==> Valid() && V() == Value(a * c, b * d)
      ensures r != Done ==> den == old(den)
    {
      hide Gcd;
      hide Value;
      hide Representable;
      var product := SafeMul(a, c);
      if product == Overflow {
        return Overflowed;
      }
      num := product.value;
      product := SafeMul(b, d);
      if product == Overflow {
        return Overflowed;
      }
      den := product.value;
      WholeNormal(num, den);
      r := Normalize();
      CrossOrder(num, den, a * c, b * d);
    }

    /** Division. It fails if and only if the divisor is zero, the reduced exact quotient does not fit, both
        numerators are MIN, or the divisor is negative and the reduced numerator is MIN. */
    method Divide(other: Fraction) returns (r: Outcome)
      requires Valid() && other.Valid()
      modifies this
      ensures r == Invalid <==> old(other.num) == 0
      ensures r == Done <==>
                && old(other.num) != 0
                && Representable(old(num) * old(other.den), old(den) * old(other.num))
                && !(old(num) == MIN && old(other.num) == MIN)
                && !(old(other.num) < 0 && MinNumerator(old(num) * old(other.den), old(den) * old(other.num)))
      ensures r == Done ==> Valid() && V() == old(V()) / old(other.V())
    {
      ghost var a0, b0, c0, d0 := num, den, other.num, other.den;
      if other.num == 0 {
        return Invalid;
      }
      NonZero(b0, c0);
      if num == 0 {
        den := 1;
        ZeroQuotient(b0, c0, d0);
        return Done;
      }
      GcdFits(num, other.num);
      var g := GcdLoop(Abs(num), Abs(other.num));
      if SafeCast(g) == Overflow {
        return Overflowed;
      }
      var a, c := CancelCommon(num, other.num);
      var d, b := CancelCommon(other.den, den);
      QuotientReduced(a0, b0, c0, d0);
      hide Gcd;
      var product := SafeMul(a, d);
      if product == Overflow {
        return Overflowed;
      }
      num := product.value;
      product := SafeMul(b, c);
      if product == Overflow {
        return Overflowed;
      }
      den := product.value;
      r := Normalize();
      if r == Done {
        SameRational(num, den, a * d, b * c, a * d, b * c);
        QuotientValue(a0, b0, c0, d0, a * d, b * c, num, den);
      }
    }

    /** Divides both by their greatest common divisor. */
    static method CancelCommon(x: int, y: int) returns (x': int, y': int)
      requires Fits(x) && Fits(y) && x != 0 && y != 0 && !(x == MIN && y == MIN)
      ensures var g := Gcd(Abs(x), Abs(y)); g > 0 && x' == x / g && y' == y / g && Fits(x') && Fits(y')
    {
      var g := GcdLoop(Abs(x), Abs(y));
      DividedOut(x, y);
      GcdFits(x, y);
      var cast := SafeCast(g);
      ExactQuotient(x, g);
      ExactQuotient(y, g);
      Smaller(x, g);
      Smaller(y, g);
      x', y' := Truncated(x, cast.value), Truncated(y, cast.value);
    }

    /** The order of the rationals themselves; equal exactly when the fields are equal. */
    method Compare(other: Fraction) returns (o: Order)
      requires Valid() && other.Valid()
      ensures o == Less <==> V() < other.V()
      ensures o == Equal <==> V() == other.V()
      ensures o == Equal <==> num == other.num && den == other.den
    {
      CrossOrder(num, den, other.num, other.den);
      CrossSigns(num, den, other.num, other.den);
      if num * other.den == other.num * den {
        ReducedUnique(num, den, other.num, other.den);
      }
      hide Coprime;
      hide Value;
      if num == other.num && den == other.den {
        return Equal;
      }
      if num < 0 && other.num >= 0 {
        return Less;
      }
      if num >= 0 && other.num < 0 {
        return Greater;
      }
      o := CompareUnsigned(Abs(num), den, Abs(other.num), other.den);
      if num < 0 {
        if o == Less {
          return Greater;
        }
        if o == Greater {
          return Less;
        }
      }
    }
  }

  lemma Whole(n: int)
    ensures Reduced(n, 1) && Value(n, 1) == n as real
  {
  }

  lemma Smaller(n: int, g: nat)
    requires g > 0 && n == g * (n / g) && Fits(n)
    ensures Fits(n / g) && (n != 0 ==> n / g != 0) && (n > 0 ==> n / g > 0) && (n < 0 ==> n / g < 0)
  {
    Scale(g, n / g);
  }

  lemma Scale(g: nat, k: int)
    requires g > 0
    ensures k > 0 ==> g * k >= k
    ensures k < 0 ==> g * k <= k
    ensures k == 0 ==> g * k == 0
  {
  }

  /** The reduced form of n/m, with the sign moved to the numerator. */
  lemma LowestTerms(n: int, m: int, g: nat)
    requires g > 0 && m != 0 && n == g * (n / g) && m == g * (m / g) && Coprime(n / g, m / g)
    ensures var p, q := n / g, m / g;
            && q != 0
            && (q > 0 ==> Reduced(p, q) && p * m == n * q && (Representable(n, m) <==> Fits(p) && Fits(q)))
            && (q < 0 ==> Reduced(-p, -q) && -p * m == n * -q && (Representable(n, m) <==> Fits(-p) && Fits(-q)))
  {
    var p, q := n / g, m / g;
    assert q != 0 by {
      assert q == 0 ==> g * q == 0;
    }
    assert p * m == n * q by {
      Regroup(p, g, q);
    }
    CoprimeNegate(p, q);
    hide Gcd;
    if q > 0 {
      RepresentableAs(n, m, p, q);
    } else {
      assert -p * m == n * -q;
      RepresentableAs(n, m, -p, -q);
    }
  }

  // ----- sums -----

  ghost predicate SumFits(a: int, b: int, c: int, d: int)
    requires b > 0 && d > 0
  {
    var g := Gcd(b, d);
    g > 0 && Fits(a * (d / g)) && Fits(c * (b / g)) && Fits(a * (d / g) + c * (b / g)) && Fits(b * (d / g))
  }

  ghost predicate DifferenceFits(a: int, b: int, c: int, d: int)
    requires b > 0 && d > 0
  {
    var g := Gcd(b, d);
    g > 0 && Fits(a * (d / g)) && Fits(c * (b / g)) && c * (b / g) != MIN && Fits(a * (d / g) - c * (b / g))
    && Fits(b * (d / g))
  }

  lemma {:induction false} SumExact(a: int, b: int, c: int, d: int)
    requires b > 0 && d > 0
    ensures var g := Gcd(b, d);
            && g > 0 && b * (d / g) > 0
            && Value(a * (d / g) + c * (b / g), b * (d / g)) == Value(a, b) + Value(c, d)
  {
    DividedOut(b, d);
    var g := Gcd(b, d);
    hide Gcd;
    hide Value;
    SumOver(a, b, c, d, g, d / g, b / g);
  }

  lemma SumOver(a: int, b: int, c: int, d: int, g: int, x: int, y: int)
    requires b > 0 && d > 0 && g > 0 && b == g * y && d == g * x
    ensures b * x > 0 && Value(a * x + c * y, b * x) == Value(a, b) + Value(c, d)
  {
    hide Value;
    assert x <= 0 ==> g * x <= 0;
    assert b * x > 0;
    ScaledSum(a, b, c, g, x, y);
    SumValue(a, b, c, d);
    CrossOrder(a * x + c * y, b * x, a * d + c * b, b * d);
  }

  lemma ScaledSum(a: int, b: int, c: int, g: int, x: int, y: int)
    requires b == g * y
    ensures (a * x + c * y) * (b * (g * x)) == (a * (g * x) + c * b) * (b * x)
  {
    assert a * (g * x) + c * (g * y) == g * (a * x + c * y) by {
      Regroup(a, g, x);
      Regroup(c, g, y);
      Spread(g, a * x, c * y);
    }
    var n := a * x + c * y;
    Regroup(b, g, x);
    assert n * (g * (b * x)) == (g * n) * (b * x) by {
      Regroup(n, g, b * x);
    }
  }

  lemma DifferenceExact(a: int, b: int, c: int, d: int)
    requires b > 0 && d > 0
    ensures var g := Gcd(b, d);
            && g > 0 && b * (d / g) > 0
            && Value(a * (d / g) - c * (b / g), b * (d / g)) == Value(a, b) - Value(c, d)
  {
    SumExact(a, b, -c, d);
    var g := Gcd(b, d);
    assert -c * (b / g) == -(c * (b / g));
    assert Value(-c, d) == -Value(c, d);
  }

  /** A fraction with positive denominator always has a reduced form that fits. */
  lemma WholeNormal(n: int, m: int)
    requires Fits(n) && Fits(m) && m > 0
    ensures Representable(n, m)
  {
    DividedOut(n, m);
    var g := Gcd(Abs(n), Abs(m));
    Smaller(n, g);
    Smaller(m, g);
    LowestTerms(n, m, g);
  }

  // ----- products -----

  lemma ZeroProduct(a: int, b: int, c: int, d: int)
    requires b > 0 && d > 0 && (a == 0 || c == 0)
    ensures Representable(a * c, b * d) && Reduced(0, 1) && b * d > 0 && Value(0, 1) == Value(a * c, b * d)
  {
    assert a * c == 0;
    assert b * d > 0;
    assert Reduced(0, 1) && 0 * (b * d) == 0 * 1 && Fits(0) && Fits(1);
  }

  lemma {:induction false} ProductExact(a: int, b: int, c: int, d: int)
    requires Reduced(a, b) && Reduced(c, d) && a != 0 && c != 0
    ensures var g, h := Gcd(Abs(a), d), Gcd(Abs(c), b);
            && g > 0 && h > 0
            && var n, m := a / g * (c / h), b / h * (d / g);
               && Reduced(n, m) && (Representable(a * c, b * d) <==> Fits(n) && Fits(m))
               && b * d > 0 && Value(n, m) == Value(a * c, b * d)
  {
    CrossReduced(a, b, c, d);
    var g, h := Gcd(Abs(a), d), Gcd(Abs(c), b);
    hide Gcd;
    hide Value;
    hide Representable;
    var n, m := a / g * (c / h), b / h * (d / g);
    assert b * d > 0;
    RepresentableAs(a * c, b * d, n, m);
    CrossOrder(n, m, a * c, b * d);
  }

  /** Cross-cancellation leaves the product in lowest terms. */
  lemma {:induction false} CrossReduced(a: int, b: int, c: int, d: int)
    requires Reduced(a, b) && Reduced(c, d) && a != 0 && c != 0
    ensures var g, h := Gcd(Abs(a), d), Gcd(Abs(c), b);
            && g > 0 && h > 0
            && Reduced(a / g * (c / h), b / h * (d / g))
            && a / g * (c / h) * (b * d) == a * c * (b / h * (d / g))
  {
    var g, h := Gcd(Abs(a), d), Gcd(Abs(c), b);
    DividedOut(a, d);
    DividedOut(c, b);
    var x, y, u, v := a / g, d / g, c / h, b / h;
    hide Gcd;
    Parts(g, x, h, v);
    Parts(h, u, g, y);
    CoprimeProducts(x, u, v, y);
    assert v > 0 by {
      assert v <= 0 ==> h * v <= 0;
    }
    assert y > 0 by {
      assert y <= 0 ==> g * y <= 0;
    }
    Shuffle(g, h, x, u, v, y);
  }

  lemma Parts(g: int, x: int, h: int, v: int)
    requires Coprime(g * x, h * v)
    ensures Coprime(x, v)
  {
    CoprimeFactor(g, x, h * v);
    CoprimeSwap(x, h * v);
    CoprimeFactor(h, v, x);
    CoprimeSwap(v, x);
  }

  lemma CoprimeProducts(x: int, u: int, v: int, y: int)
    requires Coprime(x, v) && Coprime(u, v) && Coprime(x, y) && Coprime(u, y)
    ensures Coprime(x * u, v * y)
  {
    hide Coprime;
    CoprimeProduct(x, u, v);
    CoprimeProduct(x, u, y);
    CoprimeSwap(x * u, v);
    CoprimeSwap(x * u, y);
    CoprimeProduct(v, y, x * u);
    CoprimeSwap(v * y, x * u);
  }

  lemma Shuffle(g: int, h: int, x: int, u: int, v: int, y: int)
    ensures x * u * ((h * v) * (g * y)) == (g * x) * (h * u) * (v * y)
  {
    assert (h * v) * (g * y) == (g * h) * (v * y) by {
      Regroup(h * v, g, y);
      Regroup(h, v, y);
      Regroup(g, h, v * y);
    }
    assert (g * x) * (h * u) == (g * h) * (x * u) by {
      Regroup(g * x, h, u);
      Regroup(g, x, u);
      Regroup(h, g, x * u);
    }
    Regroup(x * u, g * h, v * y);
  }

  // ----- quotients -----

  /** The reduced form of n/m has numerator MIN. */
  ghost predicate MinNumerator(n: int, m: int) {
    exists q :: Reduced(MIN, q) && MIN * m == n * q
  }

  lemma MinNumeratorAs(n: int, m: int, p: int, q: int)
    requires m != 0 && Reduced(p, q) && p * m == n * q
    ensures MinNumerator(n, m) <==> p == MIN
  {
    if MinNumerator(n, m) {
      var y :| Reduced(MIN, y) && MIN * m == n * y;
      SameRational(MIN, y, p, q, n, m);
      ReducedUnique(MIN, y, p, q);
    }
  }

  lemma ZeroQuotient(b: int, c: int, d: int)
    requires b > 0 && c != 0 && d > 0
    ensures b * c != 0 && 0 * d == 0
    ensures Representable(0, b * c) && !MinNumerator(0, b * c) && Reduced(0, 1)
    ensures Value(0, 1) == Value(0, b) / Value(c, d)
  {
    NonZero(b, c);
    assert Reduced(0, 1) && 0 * (b * c) == 0 * 1;
    RepresentableAs(0, b * c, 0, 1);
    MinNumeratorAs(0, b * c, 0, 1);
    assert Value(c, d) != 0.0 by {
      CrossOrder(c, d, 0, 1);
    }
  }

  /** Cancelling numerators and denominators leaves the quotient in lowest terms up to sign; when the machine
      form fits is then decided by the reduced form. */
  lemma QuotientReduced(a: int, b: int, c: int, d: int)
    requires Reduced(a, b) && Reduced(c, d) && a != 0 && c != 0 && Fits(a) && Fits(c) && !(a == MIN && c == MIN)
    ensures var g, h := Gcd(Abs(a), Abs(c)), Gcd(d, b);
            && g > 0 && h > 0
            && var n, m := a / g * (d / h), b / h * (c / g);
               && m != 0 && b * c != 0 && Coprime(n, m) && n * (b * c) == a * d * m
               && (Fits(n) && Fits(m) && Representable(n, m) <==>
                   Representable(a * d, b * c) && !(c < 0 && MinNumerator(a * d, b * c)))
               && !(n == MIN && m == MIN)
  {
    var g, h := Gcd(Abs(a), Abs(c)), Gcd(d, b);
    DividedOut(a, c);
    DividedOut(d, b);
    Smaller(c, g);
    hide Gcd;
    CoprimeSwap(c, d);
    QuotientOver(a, b, c, d, g, h, a / g, c / g, d / h, b / h);
    FitsEitherSign(a / g * (d / h), b / h * (c / g), a * d, b * c);
  }

  lemma QuotientOver(a: int, b: int, c: int, d: int, g: int, h: int, x: int, z: int, y: int, v: int)
    requires a == g * x && c == g * z && d == h * y && b == h * v && g > 0 && h > 0 && b > 0 && c != 0
    requires Coprime(a, b) && Coprime(d, c) && Coprime(x, z) && Coprime(y, v)
    ensures b * c != 0 && v * z != 0 && (v * z < 0 <==> c < 0)
    ensures Coprime(x * y, v * z) && x * y * (b * c) == a * d * (v * z)
  {
    hide Coprime;
    NonZero(b, c);
    Parts(g, x, h, v);
    Parts(h, y, g, z);
    CoprimeProducts(x, y, v, z);
    Shuffle(g, h, x, y, v, z);
    assert v <= 0 ==> h * v <= 0;
    assert z > 0 ==> g * z > 0;
    assert z < 0 ==> g * z < 0;
    assert z == 0 ==> g * z == 0;
    SignOf(v, z);
  }

  lemma SignOf(v: int, z: int)
    requires v > 0 && z != 0
    ensures v * z != 0 && (v * z < 0 <==> z < 0)
  {
  }

  lemma FitsEitherSign(n: int, m: int, n0: int, m0: int)
    requires m != 0 && m0 != 0 && Coprime(n, m) && n * m0 == n0 * m
    ensures Fits(n) && Fits(m) && Representable(n, m) <==> Representable(n0, m0) && !(m < 0 && MinNumerator(n0, m0))
    ensures !(n == MIN && m == MIN)
  {
    NotBothMin(n, m);
    CoprimeNegate(n, m);
    hide Gcd;
    if m > 0 {
      RepresentableAs(n, m, n, m);
      RepresentableAs(n0, m0, n, m);
    } else {
      Negated(n, m0, n0, m);
      NegativeFits(n, m, n0, m0);
    }
  }

  lemma Negated(n: int, m0: int, n0: int, m: int)
    requires n * m0 == n0 * m
    ensures -n * m0 == n0 * -m && -n * m == n * -m
  {
  }

  lemma NegativeFits(n: int, m: int, n0: int, m0: int)
    requires m < 0 && m0 != 0 && Reduced(-n, -m) && -n * m0 == n0 * -m && -n * m == n * -m
    ensures Fits(n) && Fits(m) && Representable(n, m) <==> Representable(n0, m0) && !MinNumerator(n0, m0)
  {
    hide Reduced;
    hide Representable;
    hide MinNumerator;
    RepresentableAs(n, m, -n, -m);
    RepresentableAs(n0, m0, -n, -m);
    MinNumeratorAs(n0, m0, -n, -m);
  }

  lemma NotBothMin(n: int, m: int)
    requires Coprime(n, m)
    ensures !(n == MIN && m == MIN)
  {
    assert Gcd(-MIN, -MIN) == Gcd(-MIN, 0) == -MIN;
  }

  /** From the cross products to the quotient of the values. */
  lemma QuotientValue(a: int, b: int, c: int, d: int, n: int, m: int, p: int, q: int)
    requires b > 0 && c != 0 && d > 0 && m != 0 && q > 0
    requires n * (b * c) == a * d * m && p * m == n * q
    ensures Value(c, d) != 0.0 && Value(p, q) == Value(a, b) / Value(c, d)
  {
    assert p * (b * c) == a * d * q by {
      calc {
        (p * (b * c)) * m;
        { Regroup(p, b * c, m); Regroup(b * c, p, m); }
        (b * c) * (n * q);
        { Regroup(b * c, n, q); }
        (n * (b * c)) * q;
        { Regroup(a * d, m, q); Regroup(m, a * d, q); }
        (a * d * q) * m;
      }
      CancelFactor(p * (b * c), a * d * q, m);
    }
    assert (p * c) * b == a * (q * d) by {
      Regroup(p, c, b);
      Regroup(a, d, q);
    }
    assert q * d > 0;
    CrossOrder(p * c, q * d, a, b);
    ProductValue(p, q, c, d);
    CrossOrder(c, d, 0, 1);
    Undo(Value(p, q), Value(c, d), Value(a, b));
  }

  lemma Undo(x: real, y: real, z: real)
    requires y != 0.0 && x * y == z
    ensures x == z / y
  {
  }

  // ----- signs -----

  lemma CrossSigns(a: int, b: int, c: int, d: int)
    requires b > 0 && d > 0
    ensures a < 0 <= c ==> a * d < c * b
    ensures c < 0 <= a ==> a * d > c * b
    ensures a < 0 && c < 0 ==> OrderOf(a * d, c * b) == OrderOf(Abs(c) * b, Abs(a) * d)
  {
    assert a < 0 ==> a * d < 0;
    assert c >= 0 ==> c * b >= 0;
    assert c < 0 ==> c * b < 0;
    assert a >= 0 ==> a * d >= 0;
    assert -a * d == -(a * d);
    assert -c * b == -(c * b);
  }
}
