/** Bitwise AND of counts, for the `testl` masks and `& 7` of the block loops. */
module Bits {

  function And(a: nat, b: nat): nat {
    if a == 0 || b == 0 then 0
    else (if a % 2 == 1 && b % 2 == 1 then 1 else 0) + 2 * And(a / 2, b / 2)
  }

  /** `a & ~b` */
  function AndNot(a: nat, b: nat): nat {
    if a == 0 then 0
    else (if a % 2 == 1 && b % 2 == 0 then 1 else 0) + 2 * AndNot(a / 2, b / 2)
  }

  function Power(k: nat): (p: nat)
    ensures p > 0
  {
    if k == 0 then 1 else 2 * Power(k - 1)
  }

  lemma HalvedRemainder(n: nat, p: nat)
    requires p > 0
    ensures n % (2 * p) == n % 2 + 2 * (n / 2 % p)
  {
    var q, r := n / 2 / p, n / 2 % p;
    assert n == 2 * p * q + (n % 2 + 2 * r) by {
      assert n / 2 == p * q + r;
      assert 2 * (p * q) == 2 * p * q;
    }
    RemainderIs(n, 2 * p, q, n % 2 + 2 * r);
  }

  lemma RemainderIs(n: nat, d: nat, q: int, r: nat)
    requires d > 0 && n == d * q + r && r < d
    ensures n % d == r && n / d == q
  {
    var p, m := n / d, n % d;
    assert n == d * p + m && 0 <= m < d;
    SplitIsUnique(d, q, r, p, m);
  }

  lemma SplitIsUnique(d: int, q: int, r: int, p: int, m: int)
    requires 0 <= r < d && 0 <= m < d && d * q + r == d * p + m
    ensures q == p && r == m
  {
    assert d * (q - p) == m - r;
    MultipleGrows(d, q - p);
  }

  lemma MultipleGrows(d: int, e: int)
    requires d > 0
    ensures e > 0 ==> d * e >= d
    ensures e < 0 ==> d * e <= -d
  {
    if e > 0 {
      assert d * e == d + d * (e - 1) && d * (e - 1) >= 0;
    } else if e < 0 {
      assert d * e == -d - d * (-e - 1) && d * (-e - 1) >= 0;
    }
  }

  /** Masking with one less than a power of two is the remainder; clearing that mask drops it. */
  lemma {:induction false} LowBits(n: nat, k: nat)
    ensures And(n, Power(k) - 1) == n % Power(k)
    ensures AndNot(n, Power(k) - 1) == n - n % Power(k)
    decreases k, n
  {
    if k == 0 {
      ClearsNothing(n);
    } else if n == 0 {
    } else {
      hide And, AndNot;
      LowBits(n / 2, k - 1);
      var p := Power(k - 1);
      HalvedRemainder(n, p);
      OneBitMore(n, p, n / 2 % p, n % (2 * p));
    }
  }

  /** A mask with a further 1 behind it, given the remainders. */
  lemma OneBitMore(n: nat, p: nat, half: nat, whole: nat)
    requires n != 0 && p > 0 && half <= n / 2 && whole == n % 2 + 2 * half
    requires And(n / 2, p - 1) == half && AndNot(n / 2, p - 1) == n / 2 - half
    ensures And(n, 2 * p - 1) == whole && AndNot(n, 2 * p - 1) == n - whole
  {
    hide And, AndNot;
    var mask := 2 * p - 1;
    FirstBits(n, mask);
    assert mask % 2 == 1 && mask / 2 == p - 1;
    assert n == 2 * (n / 2) + n % 2;
  }

  lemma FirstBits(a: nat, b: nat)
    requires a != 0 && b != 0
    ensures And(a, b) == (if a % 2 == 1 && b % 2 == 1 then 1 else 0) + 2 * And(a / 2, b / 2)
    ensures AndNot(a, b) == (if a % 2 == 1 && b % 2 == 0 then 1 else 0) + 2 * AndNot(a / 2, b / 2)
  {
  }

  lemma {:induction false} ClearsNothing(n: nat)
    ensures AndNot(n, 0) == n
  {
    if n == 0 {
    } else {
      ClearsNothing(n / 2);
    }
  }
}
