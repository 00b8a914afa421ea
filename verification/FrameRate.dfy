/**
 MPEG frame-rate codes (mpegconsts.c): exact look-up of a ratio, and conforming a measured rate to
 the table.  Real numbers stand for the C doubles.
 */
module FrameRate {
  import opened CInt
  import opened Ratio

  /** `frame_rate_code` 1 to 8 of ITU-T H.262; entry 0 is the unknown rate. */
  const RATES: seq<Ratio> := [
    Ratio(0, 0), Ratio(24000, 1001), Ratio(24, 1), Ratio(25, 1), Ratio(30000, 1001),
    Ratio(30, 1), Ratio(50, 1), Ratio(60000, 1001), Ratio(60, 1)
  ]

  predicate ValidCode(code: int) {
    0 < code < |RATES|
  }

  /** mpeg_framerate */
  function Framerate(code: int): Ratio {
    if ValidCode(code) then RATES[code] else UNKNOWN_RATIO
  }

  /** `r` denotes the rational of table entry `c`. */
  predicate IsRate(r: Ratio, c: int)
    requires ValidCode(c)
  {
    r.d > 0 && SameRational(r, RATES[c])
  }

  /** Which rates the codes stand for. */
  lemma RatesInNumbers(r: Ratio)
    requires r.d > 0
    ensures IsRate(r, 1) <==> 1001 * r.n == 24000 * r.d
    ensures IsRate(r, 2) <==> r.n == 24 * r.d
    ensures IsRate(r, 3) <==> r.n == 25 * r.d
    ensures IsRate(r, 4) <==> 1001 * r.n == 30000 * r.d
    ensures IsRate(r, 5) <==> r.n == 30 * r.d
    ensures IsRate(r, 6) <==> r.n == 50 * r.d
    ensures IsRate(r, 7) <==> 1001 * r.n == 60000 * r.d
    ensures IsRate(r, 8) <==> r.n == 60 * r.d
    ensures |RATES| == 9
  {
  }

  lemma TableIsReduced(c: int)
    requires ValidCode(c)
    ensures RATES[c].d > 0 && Reduced(RATES[c]) == RATES[c]
  {
    var r := RATES[c];
    assert Gcd(r.n, r.d) == 1 by {
      NtscIsReduced();
      assert r.d == 1 ==> Gcd(r.n, r.d) == Gcd(1, 0);
    }
    assert TruncDiv(r.n, 1) == r.n && TruncDiv(r.d, 1) == r.d;
  }

  lemma NtscIsReduced()
    ensures Gcd(24000, 1001) == Gcd(30000, 1001) == Gcd(60000, 1001) == 1
  {
    assert Gcd(24000, 1001) == Gcd(1001, 977) == Gcd(977, 24) == Gcd(24, 17) == Gcd(17, 7) == Gcd(7, 3) == Gcd(3, 1);
    assert Gcd(30000, 1001) == Gcd(1001, 971) == Gcd(971, 30) == Gcd(30, 11) == Gcd(11, 8) == Gcd(8, 3) == Gcd(3, 2);
    assert Gcd(60000, 1001) == Gcd(1001, 941) == Gcd(941, 60) == Gcd(60, 41) == Gcd(41, 19) == Gcd(19, 3) == Gcd(3, 1);
  }

  lemma TableHasOneCode(i: int, c: int)
    requires ValidCode(i) && ValidCode(c)
    ensures IsRate(RATES[i], c) <==> c == i
  {
    ReducesToRate(RATES[i], c);
    TableIsReduced(i);
  }

  lemma ReducesToRate(r: Ratio, c: int)
    requires ValidCode(c)
    ensures Reduced(r) == RATES[c] <==> IsRate(r, c)
  {
    TableIsReduced(c);
    if r.d > 0 {
      ReducedIsCanonical(r, RATES[c]);
    } else if r != UNKNOWN_RATIO {
      ReducedFields(r);
    }
  }

  /** mpeg_framerate gives a ratio of just the code it was asked for, and of none if that is not a code. */
  lemma FramerateInverts(code: int, c: int)
    requires ValidCode(c)
    ensures IsRate(Framerate(code), c) <==> code == c
  {
    if ValidCode(code) {
      TableHasOneCode(code, c);
    }
  }

  /** mpeg_framerate_code: the code of exactly the ratios that denote its rate, however written. */
  method FramerateCode(framerate: Ratio) returns (code: nat)
    ensures code < |RATES|
    ensures forall c :: ValidCode(c) ==> (code == c <==> IsRate(framerate, c))
  {
    var rate := new RatioCell(framerate);
    rate.Reduce();
    forall c | ValidCode(c)
      ensures Reduced(framerate) == RATES[c] <==> IsRate(framerate, c)
    {
      ReducesToRate(framerate, c);
    }
    code := 1;
    while code < |RATES|
      invariant 1 <= code <= |RATES|
      invariant forall c :: 1 <= c < code ==> rate.Value() != RATES[c]
      invariant rate.Value() == Reduced(framerate)
    {
      if rate.Value() == RATES[code] {
        assert forall c :: ValidCode(c) && c != code ==> RATES[c] != RATES[code];
        return;
      }
      code := code + 1;
    }
    code := 0;
  }

  // ------------------------------------------------------------ conforming a measured rate

  const TOLERANCE: real := 0.0001

  function Real(r: Ratio): real
    requires r.d != 0
  {
    r.n as real / r.d as real
  }

  /**
   The test of mpeg_conform_framerate: `fps` deviates from rate `c` by less than the tolerance.  From
   0 every rate deviates infinitely, as C divides.
   */
  predicate Conforms(fps: real, c: int)
    requires ValidCode(c)
  {
    fps != 0.0 && -TOLERANCE < 1.0 - Real(RATES[c]) / fps < TOLERANCE
  }

  /** The same test without a division by the unknown. */
  lemma ConformsInterval(fps: real, c: int)
    requires fps != 0.0 && ValidCode(c)
    ensures Conforms(fps, c) <==> fps * 0.9999 < Real(RATES[c]) < fps * 1.0001
  {
    var rate := Real(RATES[c]);
    assert 20.0 < rate;
    var q := rate / fps;
    assert q * fps == rate;
    if fps > 0.0 {
      if 0.9999 < q { assert 0.9999 * fps < q * fps; } else { assert q * fps <= 0.9999 * fps; }
      if q < 1.0001 { assert q * fps < 1.0001 * fps; } else { assert q * fps >= 1.0001 * fps; }
    } else {
      NegativeFactor(q, fps);
    }
  }

  lemma NegativeFactor(x: real, y: real)
    requires y < 0.0
    ensures x >= 0.0 ==> x * y <= 0.0
  {
  }

  /** No frame rate is close enough to two entries of the table. */
  lemma ConformsToOne(fps: real, a: int, b: int)
    requires ValidCode(a) && ValidCode(b) && Conforms(fps, a) && Conforms(fps, b)
    ensures a == b
  {
    ConformsInterval(fps, a);
    ConformsInterval(fps, b);
  }

  /** C's conversion of a double to an integer. */
  function Truncate(x: real): int {
    if x >= 0.0 then x.Floor else -((-x).Floor)
  }

  /** The ratio an unconforming rate becomes: eight decimal places, before reduction. */
  function Decimal(fps: real): Ratio {
    Ratio(Truncate(fps * 100000000.0 + 0.5), 100000000)
  }

  /** A rate whose eight-place decimal equals a table entry is well within the tolerance of it. */
  lemma DecimalConforms(fps: real, c: int)
    requires ValidCode(c) && IsRate(Decimal(fps), c)
    ensures Conforms(fps, c)
  {
    var n := Decimal(fps).n;
    var rate := Real(RATES[c]);
    assert n as real / 100000000.0 == rate;
    assert 20.0 < rate;
    assert n as real > 0.0;
    assert (n as real) - 0.5 <= fps * 100000000.0 < (n as real) + 0.5;
    ConformsInterval(fps, c);
  }

  lemma DecimalCode(fps: real, c: int)
    requires ValidCode(c)
    ensures IsRate(Reduced(Decimal(fps)), c) ==> Conforms(fps, c)
  {
    ReducesToRate(Decimal(fps), c);
    ReducesToRate(Reduced(Decimal(fps)), c);
    ReducedTwice(Decimal(fps));
    if IsRate(Decimal(fps), c) {
      DecimalConforms(fps, c);
    }
  }

  /**
   mpeg_conform_framerate.  A rate within tolerance of a table entry becomes that entry; any other
   becomes its reduced decimal, which no code denotes.
   */
  method ConformFramerate(fps: real) returns (result: Ratio)
    ensures forall c :: ValidCode(c) ==> (Conforms(fps, c) <==> IsRate(result, c))
    ensures forall c :: ValidCode(c) && Conforms(fps, c) ==> result == RATES[c]
    ensures (forall c :: ValidCode(c) ==> !Conforms(fps, c)) ==> result == Reduced(Decimal(fps))
  {
    var i := 1;
    while i < |RATES|
      invariant 1 <= i <= |RATES|
      invariant forall c :: 1 <= c < i ==> !Conforms(fps, c)
    {
      if fps != 0.0 && 1.0 - Real(RATES[i]) / fps > -TOLERANCE && 1.0 - Real(RATES[i]) / fps < TOLERANCE {
        assert Conforms(fps, i);
        forall c | ValidCode(c) && Conforms(fps, c) ensures c == i {
          ConformsToOne(fps, c, i);
        }
        forall c | ValidCode(c) ensures IsRate(RATES[i], c) <==> c == i {
          TableHasOneCode(i, c);
        }
        return RATES[i];
      }
      i := i + 1;
    }
    var cell := new RatioCell(Decimal(fps));
    cell.Reduce();
    result := cell.Value();
    forall c | ValidCode(c) ensures !IsRate(result, c) {
      DecimalCode(fps, c);
    }
  }

  /** The numerator of the decimal fits a 32-bit C int exactly for rates below 21.474836475. */
  lemma DecimalFits(fps: real)
    requires fps > 0.0
    ensures Decimal(fps).n < 0x8000_0000 <==> fps < 21.474836475
  {
  }
}
