/** Greatest common divisors and reduced fractions over unbounded integers. */
module Rationals {

  function Abs(x: int): (r: nat)
    ensures r == x || r == -x
  {
    if x < 0 then -x else x
  }

  function Gcd(a: nat, b: nat): nat
    decreases b
  {
    if b == 0 then a else Gcd(b, a % b)
  }

  predicate Divides(d: nat, n: int) {
    d > 0 && n % d == 0
  }

  predicate Coprime(a: int, b: int) {
    Gcd(Abs(a), Abs(b)) == 1
  }

  /** A rational number has exactly one reduced form. */
  predicate Reduced(p: int, q: int) {
    q > 0 && Coprime(p, q)
  }

  lemma Multiple(d: nat, k: int)
    requires d > 0
    ensures (d * k) % d == 0 && (d * k) / d == k
  {
    var q, r := (d * k) / d, (d * k) % d;
    assert d * k == d * q + r;
    assert d * (k - q) == r;
    var e := k - q;
    assert e >= 1 ==> d * e >= d;
    assert e <= -1 ==> d * e + d <= 0;
  }

  lemma Quotient(d: nat, n: int)
    requires Divides(d, n)
    ensures n == d * (n / d)
  {
  }

  lemma DividesSum(d: nat, a: int, x: int, b: int, y: int)
    requires Divides(d, a) && Divides(d, b)
    ensures Divides(d, a * x + b * y)
  {
    Quotient(d, a);
    Quotient(d, b);
    var k := a / d * x + b / d * y;
    assert a * x + b * y == d * k by {
      assert (d * (a / d)) * x == d * (a / d * x);
      assert (d * (b / d)) * y == d * (b / d * y);
    }
    Multiple(d, k);
  }

  lemma Remainder(a: nat, b: nat)
    requires b > 0
    ensures a == b * (a / b) + a % b
  {
  }

  lemma {:induction false} Bezout(a: nat, b: nat) returns (x: int, y: int)
    ensures a * x + b * y == Gcd(a, b)
    decreases b
  {
    if b == 0 {
      x, y := 1, 0;
    } else {
      var u, v := Bezout(b, a % b);
      x, y := v, u - a / b * v;
      Remainder(a, b);
      calc {
        a * x + b * y;
        (b * (a / b) + a % b) * v + b * (u - a / b * v);
        { Expand(b, a / b, a % b, u, v); }
        b * u + a % b * v;
      }
    }
  }

  lemma Expand(b: int, q: int, r: int, u: int, v: int)
    ensures (b * q + r) * v + b * (u - q * v) == b * u + r * v
  {
    assert (b * q + r) * v == b * q * v + r * v;
    assert b * (u - q * v) == b * u - b * (q * v);
    assert b * q * v == b * (q * v);
  }

  lemma {:induction false} GcdDivides(a: nat, b: nat)
    requires a > 0 || b > 0
    ensures Gcd(a, b) > 0 && Divides(Gcd(a, b), a) && Divides(Gcd(a, b), b)
    decreases b
  {
    if b == 0 {
      Multiple(a, 1);
    } else {
      GcdDivides(b, a % b);
      Remainder(a, b);
      DividesSum(Gcd(a, b), b, a / b, a % b, 1);
    }
  }

  /** The greatest: any common divisor divides it. */
  lemma GcdGreatest(a: nat, b: nat, d: nat)
    requires Divides(d, a) && Divides(d, b)
    ensures Gcd(a, b) % d == 0
  {
    var x, y := Bezout(a, b);
    DividesSum(d, a, x, b, y);
  }

  lemma DivisorAtMost(d: nat, n: int)
    requires Divides(d, n) && n > 0
    ensures d <= n
  {
  }

  lemma BezoutSigned(a: int, b: int) returns (x: int, y: int)
    ensures a * x + b * y == Gcd(Abs(a), Abs(b))
  {
    x, y := Bezout(Abs(a), Abs(b));
    if a < 0 {
      assert -a * x == a * -x;
      x := -x;
    }
    if b < 0 {
      assert -b * y == b * -y;
      y := -y;
    }
  }

  /** A combination equal to 1 leaves no common divisor. */
  lemma CoprimeFrom(a: int, b: int, x: int, y: int)
    requires a * x + b * y == 1
    ensures Coprime(a, b)
  {
    assert a != 0 || b != 0;
    var g := Gcd(Abs(a), Abs(b));
    GcdDivides(Abs(a), Abs(b));
    DividesAbs(g, a);
    DividesAbs(g, b);
    DividesSum(g, a, x, b, y);
    DivisorAtMost(g, 1);
  }

  lemma DividesAbs(d: nat, a: int)
    requires Divides(d, Abs(a))
    ensures Divides(d, a)
  {
    if a < 0 {
      Quotient(d, -a);
      assert a == d * -((-a) / d);
      Multiple(d, -((-a) / d));
    }
  }

  lemma CoprimeProduct(a: int, c: int, m: int)
    requires Coprime(a, m) && Coprime(c, m)
    ensures Coprime(a * c, m)
  {
    var x, y := BezoutSigned(a, m);
    var u, v := BezoutSigned(c, m);
    Product(a, c, m, x, y, u, v);
    CoprimeFrom(a * c, m, x * u, a * x * v + y * c * u + m * y * v);
  }

  lemma Product(a: int, c: int, m: int, x: int, y: int, u: int, v: int)
    requires a * x + m * y == 1 && c * u + m * v == 1
    ensures a * c * (x * u) + m * (a * x * v + y * c * u + m * y * v) == 1
  {
    calc {
      1;
      (a * x + m * y) * (c * u + m * v);
      (a * x) * (c * u) + (a * x) * (m * v) + (m * y) * (c * u) + (m * y) * (m * v);
      { assert (a * x) * (c * u) == a * c * (x * u);
        assert (a * x) * (m * v) == m * (a * x * v);
        assert (m * y) * (c * u) == m * (y * c * u);
        assert (m * y) * (m * v) == m * (m * y * v); }
      a * c * (x * u) + m * (a * x * v) + m * (y * c * u) + m * (m * y * v);
      { assert m * (a * x * v + y * c * u + m * y * v) == m * (a * x * v) + m * (y * c * u) + m * (m * y * v); }
      a * c * (x * u) + m * (a * x * v + y * c * u + m * y * v);
    }
  }

  lemma CoprimeSwap(a: int, b: int)
    requires Coprime(a, b)
    ensures Coprime(b, a)
  {
    var x, y := BezoutSigned(a, b);
    CoprimeFrom(b, a, y, x);
  }

  lemma CoprimeNegate(a: int, b: int)
    requires Coprime(a, b)
    ensures Coprime(-a, -b)
  {
  }

  /** Dropping a factor keeps coprimality. */
  lemma CoprimeFactor(k: int, a: int, b: int)
    requires Coprime(k * a, b)
    ensures Coprime(a, b)
  {
    var x, y := BezoutSigned(k * a, b);
    assert k * a * x == a * (k * x);
    CoprimeFrom(a, b, k * x, y);
  }

  /** Dividing by the greatest common divisor leaves coprime numbers. */
  lemma DividedOut(a: int, b: int)
    requires a != 0 || b != 0
    ensures var g := Gcd(Abs(a), Abs(b));
            && g > 0 && a == g * (a / g) && b == g * (b / g) && Coprime(a / g, b / g)
  {
    var g := Gcd(Abs(a), Abs(b));
    GcdDivides(Abs(a), Abs(b));
    DividesAbs(g, a);
    DividesAbs(g, b);
    Quotient(g, a);
    Quotient(g, b);
    var x, y := BezoutSigned(a, b);
    Cancel(g, a / g, b / g, x, y);
    CoprimeFrom(a / g, b / g, x, y);
  }

  lemma Cancel(g: nat, a: int, b: int, x: int, y: int)
    requires g > 0 && g * a * x + g * b * y == g
    ensures a * x + b * y == 1
  {
    var k := a * x + b * y;
    assert g * k == g * a * x + g * b * y;
    assert k > 1 ==> g * k >= g * 2;
    assert k < 1 ==> g * k <= 0;
  }

  /** Two reduced fractions of the same value are the same. */
  lemma ReducedUnique(p: int, q: int, p': int, q': int)
    requires Reduced(p, q) && Reduced(p', q') && p * q' == p' * q
    ensures p == p' && q == q'
  {
    hide Gcd;
    var x, y := BezoutSigned(p, q);
    var u, v := BezoutSigned(p', q');
    var k := p' * x + q' * y;
    Scaled(p, q, p', q', x, y);
    Unit(k, p, q, u, v);
  }

  /** The second fraction is the first one scaled. */
  lemma Scaled(p: int, q: int, p': int, q': int, x: int, y: int)
    requires p * x + q * y == 1 && p * q' == p' * q
    ensures p' == p * (p' * x + q' * y) && q' == q * (p' * x + q' * y)
  {
    calc {
      p * (p' * x + q' * y);
      { Spread(p, p' * x, q' * y); Regroup(p, p', x); Regroup(p, q', y); }
      p' * (p * x) + (p * q') * y;
      { Regroup(p', q, y); }
      p' * (p * x) + p' * (q * y);
      { Spread(p', p * x, q * y); }
      p';
    }
    calc {
      q * (p' * x + q' * y);
      { Spread(q, p' * x, q' * y); Regroup(q, p', x); Regroup(q, q', y); }
      (p' * q) * x + q' * (q * y);
      { Regroup(q', p, x); }
      q' * (p * x) + q' * (q * y);
      { Spread(q', p * x, q * y); }
      q';
    }
  }

  lemma Spread(a: int, b: int, c: int)
    ensures a * (b + c) == a * b + a * c
  {
  }

  lemma Regroup(a: int, b: int, c: int)
    ensures a * (b * c) == b * (a * c) == (a * b) * c == (b * a) * c
  {
  }

  lemma Unit(k: int, p: int, q: int, u: int, v: int)
    requires (p * k) * u + (q * k) * v == 1 && q > 0 && q * k > 0
    ensures k == 1
  {
    var w := p * u + q * v;
    assert k * w == 1 by {
      Spread(k, p * u, q * v);
      Regroup(k, p, u);
      Regroup(k, q, v);
    }
    assert k <= 0 ==> q * k <= 0;
    assert k > 1 && w >= 1 ==> k * w >= k;
    assert k > 1 && w <= 0 ==> k * w <= 0;
  }

  /** Fractions equal to the same quotient are equal. */
  lemma SameRational(p: int, q: int, p': int, q': int, n: int, m: int)
    requires m != 0 && p * m == n * q && p' * m == n * q'
    ensures p * q' == p' * q
  {
    calc {
      (p * q') * m;
      { Regroup(p, q', m); Regroup(q', p, m); }
      q' * (n * q);
      { Regroup(q', n, q); Regroup(q, n, q'); }
      q * (n * q');
      { Regroup(q, p', m); }
      (p' * q) * m;
    }
    CancelFactor(p * q', p' * q, m);
  }

  lemma CancelFactor(x: int, y: int, m: int)
    requires m != 0 && x * m == y * m
    ensures x == y
  {
    assert (x - y) * m == 0;
    assert x - y >= 1 && m >= 1 ==> (x - y) * m >= 1;
    assert x - y >= 1 && m <= -1 ==> (x - y) * m <= -1;
    assert x - y <= -1 && m >= 1 ==> (x - y) * m <= -1;
    assert x - y <= -1 && m <= -1 ==> (x - y) * m >= 1;
  }

  // ----- values -----

  function Value(p: int, q: int): real
    requires q != 0
  {
    p as real / q as real
  }

  /** Comparing fractions is comparing cross products. */
  lemma CrossOrder(a: int, b: int, c: int, d: int)
    requires b > 0 && d > 0
    ensures Value(a, b) < Value(c, d) <==> a * d < c * b
    ensures Value(a, b) == Value(c, d) <==> a * d == c * b
  {
    var x, y := Value(a, b), Value(c, d);
    var rb, rd := b as real, d as real;
    assert x * rb == a as real && y * rd == c as real;
    assert (a * d) as real == (x * rb) * rd by {
      assert (a * d) as real == a as real * rd;
    }
    assert (c * b) as real == (y * rd) * rb by {
      assert (c * b) as real == c as real * rb;
    }
    var m := rb * rd;
    assert m > 0.0;
    assert (x * rb) * rd == x * m;
    assert (y * rd) * rb == y * m;
    if x < y {
      assert x * m < y * m;
    } else if x > y {
      assert x * m > y * m;
    }
  }

  lemma SumValue(a: int, b: int, c: int, d: int)
    requires b > 0 && d > 0
    ensures b * d > 0 && Value(a * d + c * b, b * d) == Value(a, b) + Value(c, d)
  {
    var x, y, rb, rd := Value(a, b), Value(c, d), b as real, d as real;
    assert x * rb == a as real && y * rd == c as real;
    assert (a * d + c * b) as real == a as real * rd + c as real * rb;
    assert (b * d) as real == rb * rd && rb * rd > 0.0;
    assert (x + y) * (rb * rd) == (x * rb) * rd + (y * rd) * rb by {
      assert x * (rb * rd) == (x * rb) * rd;
      assert y * (rb * rd) == (y * rd) * rb;
    }
    Ratio((a * d + c * b) as real, rb * rd, x + y);
  }

  lemma ProductValue(a: int, b: int, c: int, d: int)
    requires b != 0 && d != 0
    ensures b * d != 0 && Value(a * c, b * d) == Value(a, b) * Value(c, d)
  {
    var x, y, rb, rd := Value(a, b), Value(c, d), b as real, d as real;
    assert x * rb == a as real && y * rd == c as real;
    assert (a * c) as real == a as real * c as real;
    assert (b * d) as real == rb * rd;
    NonZero(b, d);
    assert (x * y) * (rb * rd) == (x * rb) * (y * rd) by {
      assert (x * y) * (rb * rd) == x * (y * (rb * rd));
      assert y * (rb * rd) == rb * (y * rd);
      assert x * (rb * (y * rd)) == (x * rb) * (y * rd);
    }
    Ratio((a * c) as real, rb * rd, x * y);
  }

  lemma NonZero(b: int, d: int)
    requires b != 0 && d != 0
    ensures b * d != 0
  {
  }

  lemma Ratio(n: real, m: real, x: real)
    requires m != 0.0 && x * m == n
    ensures n / m == x
  {
  }
}
