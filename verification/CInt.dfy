/** The two C integer operators whose meaning differs from Dafny's on negative operands. */
module CInt {

  /** `a / b` as C computes it: the quotient is truncated towards zero. */
  function TruncDiv(a: int, b: int): int
    requires b != 0
  {
    if b < 0 then -(if a >= 0 then a / (-b) else -((-a) / (-b)))
    else if a >= 0 then a / b
    else -((-a) / b)
  }

  /** `a % b` as C computes it: the remainder takes the sign of `a`. */
  function TruncMod(a: int, b: int): int
    requires b != 0
  {
    if b < 0 then (if a >= 0 then a % (-b) else -((-a) % (-b)))
    else if a >= 0 then a % b
    else -((-a) % b)
  }

  lemma TruncSplit(a: int, b: int)
    requires b > 0
    ensures b * TruncDiv(a, b) + TruncMod(a, b) == a
    ensures a >= 0 ==> TruncDiv(a, b) >= 0 && 0 <= TruncMod(a, b) < b
    ensures a <= 0 ==> TruncDiv(a, b) <= 0 && -b < TruncMod(a, b) <= 0
  {
    if a >= 0 {
      Divide(a, b);
    } else {
      Divide(-a, b);
      assert b * -((-a) / b) == -(b * ((-a) / b));
    }
  }

  lemma TruncSigns(a: int, b: int)
    requires b != 0
    ensures TruncDiv(a, -b) == -TruncDiv(a, b) && TruncMod(a, -b) == TruncMod(a, b)
  {
  }

  lemma Divide(a: nat, b: int)
    requires b > 0
    ensures a == b * (a / b) + a % b && a / b >= 0 && 0 <= a % b < b
  {
  }
}
