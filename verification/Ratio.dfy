/**
 Rational numbers (yuv4mpeg_ratio.c): Euclid's loop and the reduction of a ratio in place.

 The specification of a reduced ratio is not how it is computed but what it is: the one coprime
 pair that stands for the same rational.
 */
module Ratio {
  import opened CInt

  datatype Ratio = Ratio(n: int, d: int)

  const UNKNOWN_RATIO := Ratio(0, 0)

  /** A `y4m_ratio_t` held by reference. */
  class RatioCell {
    var n: int
    var d: int

    function Value(): Ratio
      reads this
    {
      Ratio(n, d)
    }

    constructor (r: Ratio)
      ensures Value() == r
    {
      n, d := r.n, r.d;
    }

    /** y4m_ratio_reduce */
    method Reduce()
      modifies this
      ensures Value() == Reduced(old(Value()))
    {
      if n == 0 && d == 0 {
        return;
      }
      var g := ComputeGcd(n, d);
      GcdDivides(Abs(n), Abs(d));
      n := TruncDiv(n, g);
      d := TruncDiv(d, g);
    }
  }

  function Abs(a: int): nat {
    if a >= 0 then a else -a
  }

  function Gcd(a: nat, b: nat): nat
    decreases b
  {
    if b == 0 then a else Gcd(b, a % b)
  }

  /** gcd */
  method ComputeGcd(a0: int, b0: int) returns (g: int)
    ensures g == Gcd(Abs(a0), Abs(b0))
  {
    var a, b := if a0 >= 0 then a0 else -a0, if b0 >= 0 then b0 else -b0;
    while b > 0
      invariant a >= 0 && b >= 0 && Gcd(a, b) == Gcd(Abs(a0), Abs(b0))
    {
      var x := b;
      b := a % b;
      a := x;
    }
    g := a;
  }

  ghost predicate Divides(k: nat, a: nat) {
    exists q: nat :: a == Product(q, k)
  }

  function Product(q: int, k: int): int {
    q * k
  }

  lemma Multiple(q: nat, k: nat)
    ensures Divides(k, q * k)
  {
    assert q * k == Product(q, k);
  }

  lemma DividesSum(k: nat, a: nat, b: nat, m: nat)
    requires Divides(k, a) && Divides(k, b)
    ensures Divides(k, m * b + a)
  {
    var p: nat :| a == Product(p, k);
    var q: nat :| b == Product(q, k);
    assert m * b + a == (m * q + p) * k by {
      assert m * (q * k) == m * q * k;
    }
    Multiple(m * q + p, k);
  }

  lemma DividesRemainder(k: nat, a: nat, b: nat, m: nat)
    requires Divides(k, a) && Divides(k, b) && a >= m * b
    ensures Divides(k, a - m * b)
  {
    var p: nat :| a == Product(p, k);
    var q: nat :| b == Product(q, k);
    assert a - m * b == (p - m * q) * k by {
      assert m * (q * k) == m * q * k;
    }
    if p < m * q {
      assert (p - m * q) * k <= 0;
      assert a - m * b == 0 * k;
      Multiple(0, k);
    } else {
      Multiple(p - m * q, k);
    }
  }

  lemma DivisionSplit(a: nat, b: nat)
    requires b > 0
    ensures a == a / b * b + a % b && 0 <= a % b < b && a / b >= 0
  {
  }

  /** Euclid: `Gcd` divides both numbers, and every number that does divides it. */
  lemma {:induction false} GcdDivides(a: nat, b: nat)
    ensures Divides(Gcd(a, b), a) && Divides(Gcd(a, b), b)
    ensures a != 0 || b != 0 ==> Gcd(a, b) > 0
    decreases b
  {
    var g := Gcd(a, b);
    if b == 0 {
      Multiple(1, a);
      Multiple(0, a);
    } else {
      GcdDivides(b, a % b);
      DivisionSplit(a, b);
      DividesSum(g, a % b, b, a / b);
    }
  }

  lemma {:induction false} GcdIsGreatest(a: nat, b: nat, k: nat)
    requires Divides(k, a) && Divides(k, b)
    ensures Divides(k, Gcd(a, b))
    decreases b
  {
    if b == 0 {
    } else {
      DivisionSplit(a, b);
      DividesRemainder(k, a, b, a / b);
      GcdIsGreatest(b, a % b, k);
    }
  }

  // ------------------------------------------------------------ reduced ratios

  function Reduced(r: Ratio): Ratio {
    if r == UNKNOWN_RATIO then r
    else
      GcdDivides(Abs(r.n), Abs(r.d));
      var g := Gcd(Abs(r.n), Abs(r.d));
      Ratio(TruncDiv(r.n, g), TruncDiv(r.d, g))
  }

  predicate Coprime(r: Ratio) {
    Gcd(Abs(r.n), Abs(r.d)) == 1
  }

  /** The two ratios stand for the same rational. */
  predicate SameRational(a: Ratio, b: Ratio) {
    a.n * b.d == b.n * a.d
  }

  lemma ExactDivision(g: nat, a: int) returns (q: int)
    requires g > 0 && Divides(g, Abs(a))
    ensures a == q * g && TruncDiv(a, g) == q && Abs(q) * g == Abs(a) && (a >= 0 <==> q >= 0)
  {
    var p: nat :| Abs(a) == Product(p, g);
    QuotientIs(Abs(a), g, p, 0);
    q := p;
    if a < 0 {
      q := -q;
      assert q * g == -(p * g);
    }
  }

  /** The sign and size of a product with a positive number. */
  lemma TimesPositive(m: int, g: int)
    requires g > 0
    ensures m > 0 ==> m * g >= g
    ensures m < 0 ==> m * g <= -g
    ensures m > 1 ==> m * g >= 2 * g
  {
    if m > 0 {
      assert m * g == g + (m - 1) * g;
    } else if m < 0 {
      assert m * g == -g - (-m - 1) * g;
    }
    if m > 1 {
      assert m * g == 2 * g + (m - 2) * g;
    }
  }

  lemma QuotientIs(a: nat, b: nat, q: nat, r: nat)
    requires b > 0 && a == q * b + r && r < b
    ensures a / b == q && a % b == r
  {
    DivisionSplit(a, b);
    var p := a / b;
    assert (p - q) * b == p * b - q * b;
    TimesPositive(p - q, b);
  }

  /** Both fields lose exactly their greatest common divisor. */
  lemma ReducedFields(r: Ratio)
    requires r != UNKNOWN_RATIO
    ensures var g := Gcd(Abs(r.n), Abs(r.d));
            g > 0 && r.n == Reduced(r).n * g && r.d == Reduced(r).d * g
            && (r.n >= 0 <==> Reduced(r).n >= 0) && (r.d >= 0 <==> Reduced(r).d >= 0)
    ensures Coprime(Reduced(r))
  {
    hide Gcd, TruncDiv, Divides;
    GcdDivides(Abs(r.n), Abs(r.d));
    var g := Gcd(Abs(r.n), Abs(r.d));
    var n := ExactDivision(g, r.n);
    var d := ExactDivision(g, r.d);
    assert Reduced(r) == Ratio(n, d);
    QuotientsAreCoprime(Abs(n), Abs(d), g);
  }

  lemma QuotientsAreCoprime(n: nat, d: nat, g: nat)
    requires g > 0 && Gcd(n * g, d * g) == g
    ensures Gcd(n, d) == 1
  {
    hide Gcd;
    assert n * g == g * n && d * g == g * d;
    GcdScales(g, n, d);
    var c := Gcd(n, d);
    assert g * c == c * g;
    OnlyUnit(c, g);
  }

  lemma OnlyUnit(m: nat, g: nat)
    requires g > 0 && m * g == g
    ensures m == 1
  {
    TimesPositive(m, g);
  }

  lemma UnitFactors(a: nat, b: nat)
    requires a * b == 1
    ensures a == b == 1
  {
    assert a > 0 && b > 0;
    TimesPositive(a, b);
    TimesPositive(b, a);
  }

  /** A common factor comes out of the greatest common divisor. */
  lemma {:induction false} GcdScales(k: nat, a: nat, b: nat)
    ensures Gcd(k * a, k * b) == k * Gcd(a, b)
    decreases b
  {
    if b == 0 {
    } else if k == 0 {
    } else {
      DivisionSplit(a, b);
      var q, r := a / b, a % b;
      assert k * a == q * (k * b) + k * r by {
        assert k * (q * b + r) == k * (q * b) + k * r;
        assert k * (q * b) == q * (k * b);
      }
      assert k * b > 0 && k * r < k * b;
      QuotientIs(k * a, k * b, q, k * r);
      GcdScales(k, b, r);
    }
  }

  /** A number coprime to a factor of a product divides the other factor. */
  lemma CoprimeFactor(a: nat, b: nat, k: nat)
    requires Gcd(a, b) == 1 && Divides(a, k * b)
    ensures Divides(a, k)
  {
    GcdScales(k, a, b);
    Multiple(k, a);
    GcdIsGreatest(k * a, k * b, a);
  }

  lemma MutualDivisors(a: nat, b: nat)
    requires Divides(a, b) && Divides(b, a)
    ensures a == b
  {
    var p: nat :| b == Product(p, a);
    var q: nat :| a == Product(q, b);
    if a > 0 {
      assert q * (p * a) == q * p * a;
      OnlyUnit(q * p, a);
      UnitFactors(q, p);
    }
  }

  /** Two coprime ratios with positive denominators that stand for the same rational are the same pair. */
  lemma CoprimeIsUnique(a: Ratio, b: Ratio)
    requires a.d > 0 && b.d > 0 && Coprime(a) && Coprime(b) && SameRational(a, b)
    ensures a == b
  {
    AbsProduct(a.n, b.d);
    AbsProduct(b.n, a.d);
    assert Abs(a.n) * b.d == Abs(b.n) * a.d;
    GcdCommutes(Abs(a.n), a.d);
    GcdCommutes(Abs(b.n), b.d);
    Multiple(Abs(a.n), b.d);
    Multiple(Abs(b.n), a.d);
    assert b.d * Abs(a.n) == Abs(a.n) * b.d && a.d * Abs(b.n) == Abs(b.n) * a.d;
    CoprimeFactor(b.d, Abs(b.n), a.d);
    CoprimeFactor(a.d, Abs(a.n), b.d);
    MutualDivisors(a.d, b.d);
    SameFactor(a.n, b.n, a.d);
  }

  lemma SameFactor(x: int, y: int, d: int)
    requires d > 0 && x * d == y * d
    ensures x == y
  {
    assert (x - y) * d == 0;
    TimesPositive(x - y, d);
  }

  lemma AbsProduct(x: int, d: int)
    requires d > 0
    ensures Abs(x * d) == Abs(x) * d
  {
    if x >= 0 { assert x * d >= 0; } else { assert (-x) * d > 0; assert x * d == -((-x) * d); }
  }

  lemma GcdCommutes(a: nat, b: nat)
    ensures Gcd(a, b) == Gcd(b, a)
  {
    GcdDivides(a, b);
    GcdDivides(b, a);
    GcdIsGreatest(a, b, Gcd(b, a));
    GcdIsGreatest(b, a, Gcd(a, b));
    MutualDivisors(Gcd(a, b), Gcd(b, a));
  }

  /** Reducing keeps the rational, and two ratios reduce to the same pair exactly when they are the same rational. */
  lemma ReducedIsCanonical(a: Ratio, b: Ratio)
    requires a.d > 0 && b.d > 0
    ensures Reduced(a).d > 0 && Coprime(Reduced(a)) && SameRational(Reduced(a), a)
    ensures Reduced(a) == Reduced(b) <==> SameRational(a, b)
  {
    ReducedFields(a);
    ReducedFields(b);
    var g, h := Gcd(Abs(a.n), a.d), Gcd(Abs(b.n), b.d);
    var p, q := Reduced(a), Reduced(b);
    Cross(p.n, a.n, g, p.d, a.d);
    assert p.d > 0 && q.d > 0;
    CrossScaled(p, q, g, h);
    assert a.n * b.d == p.n * g * (q.d * h) && b.n * a.d == q.n * h * (p.d * g);
    if SameRational(p, q) {
      CoprimeIsUnique(p, q);
    }
  }

  lemma Cross(x: int, x': int, g: int, y: int, y': int)
    requires x' == x * g && y' == y * g
    ensures x * y' == x' * y
  {
    assert x * (y * g) == x * g * y;
  }

  lemma CrossScaled(p: Ratio, q: Ratio, g: int, h: int)
    requires g > 0 && h > 0
    ensures SameRational(p, q) <==> p.n * g * (q.d * h) == q.n * h * (p.d * g)
  {
    assert p.n * g * (q.d * h) == p.n * q.d * (g * h);
    assert q.n * h * (p.d * g) == q.n * p.d * (g * h);
    assert g * h > 0;
    if p.n * q.d * (g * h) == q.n * p.d * (g * h) {
      SameFactor(p.n * q.d, q.n * p.d, g * h);
    }
  }

  /** A coprime ratio is left alone, so reducing twice is reducing once. */
  lemma ReducedTwice(r: Ratio)
    ensures Reduced(Reduced(r)) == Reduced(r)
  {
    if r != UNKNOWN_RATIO {
      ReducedFields(r);
      var p := Reduced(r);
      assert TruncDiv(p.n, 1) == p.n && TruncDiv(p.d, 1) == p.d;
    }
  }
}
