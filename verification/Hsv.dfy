/**
 Colour conversion in the hue chooser (gtkhsv.c: hsv_to_rgb, rgb_to_hsv), over exact reals.

 The specification of hsv_to_rgb is the sector-free form of the conversion: a channel is the value
 less the chroma times a trapezoid of its distance, round the colour circle, from where it peaks.
 */
module Hsv {

  datatype Rgb = Rgb(red: real, green: real, blue: real)
  datatype Hsv = Hsv(hue: real, saturation: real, value: real)

  function Max(a: real, b: real): real { if a > b then a else b }
  function Min(a: real, b: real): real { if a < b then a else b }
  function Highest(c: Rgb): real { Max(c.red, Max(c.green, c.blue)) }
  function Lowest(c: Rgb): real { Min(c.red, Min(c.green, c.blue)) }

  // ------------------------------------------------------------ what the conversions are

  /** 0 for a quarter turn around 5, then up to 1 over a sixth, flat for two sixths, and down. */
  function Trapezoid(k: real): real {
    Max(0.0, Min(1.0, Min(k, 4.0 - k)))
  }

  function Channel(offset: real, sixths: real, chroma: real, value: real): real {
    var k := offset + sixths;
    value - chroma * Trapezoid(if k >= 6.0 then k - 6.0 else k)
  }

  function Channels(sixths: real, chroma: real, value: real): Rgb {
    Rgb(Channel(5.0, sixths, chroma, value), Channel(3.0, sixths, chroma, value), Channel(1.0, sixths, chroma, value))
  }

  function Chroma(c: Hsv): real {
    c.value * c.saturation
  }

  function RgbOf(c: Hsv): Rgb {
    Channels(c.hue * 6.0, Chroma(c), c.value)
  }

  lemma RgbUnfolds(c: Hsv, sixths: real, chroma: real)
    requires c.hue * 6.0 == sixths && Chroma(c) == chroma
    ensures RgbOf(c) == Channels(sixths, chroma, c.value)
  {
    hide Chroma, Channels;
  }

  /** Red at the start of the circle, green a third round, blue two thirds round; the others at the lowest level. */
  lemma Primaries(s: real, v: real)
    ensures var low := v - v * s;
            && RgbOf(Hsv(0.0, s, v)) == Rgb(v, low, low)
            && RgbOf(Hsv(1.0 / 3.0, s, v)) == Rgb(low, v, low)
            && RgbOf(Hsv(2.0 / 3.0, s, v)) == Rgb(low, low, v)
  {
  }

  /** Sixths of a turn from red, from -1 to 5 */
  function Sixths(c: Rgb): real
    requires Highest(c) != Lowest(c)
  {
    var delta := Highest(c) - Lowest(c);
    if c.red == Highest(c) then (c.green - c.blue) / delta
    else if c.green == Highest(c) then 2.0 + (c.blue - c.red) / delta
    else 4.0 + (c.red - c.green) / delta
  }

  function HsvOf(c: Rgb): Hsv {
    var high, low := Highest(c), Lowest(c);
    if high == low || high == 0.0 then Hsv(0.0, 0.0, high)
    else
      var turn := Sixths(c) / 6.0;
      Hsv(if turn < 0.0 then turn + 1.0 else turn, (high - low) / high, high)
  }

  // ------------------------------------------------------------ the code

  /** A `gdouble *` */
  class Cell {
    var it: real

    constructor (x: real)
      ensures it == x
    {
      it := x;
    }
  }

  lemma Product(value: real, saturation: real, x: real)
    ensures value * (1.0 - saturation * x) == value - value * saturation * x
  {
    assert value * (saturation * x) == value * saturation * x;
  }

  /** The colour of a sector, out of the value `v` and the three lesser levels of the code. */
  function SectorColour(sector: int, v: real, p: real, q: real, t: real): Rgb {
    match sector
    case 0 => Rgb(v, t, p)
    case 1 => Rgb(q, v, p)
    case 2 => Rgb(p, v, t)
    case 3 => Rgb(p, q, v)
    case 4 => Rgb(t, p, v)
    case _ => Rgb(v, p, q)
  }

  /** How far the channel is below the value, `f` of the way through its `j`th sixth. */
  function Drop(j: int, f: real, chroma: real): real {
    if j == 0 then chroma * f
    else if j == 1 || j == 2 then chroma
    else if j == 3 then chroma * (1.0 - f)
    else 0.0
  }

  lemma ChannelInSector(offset: int, sector: int, f: real, chroma: real, value: real)
    requires 0 <= offset < 6 && 0 <= sector < 6 && 0.0 <= f < 1.0
    ensures Channel(offset as real, sector as real + f, chroma, value)
            == value - Drop(if offset + sector < 6 then offset + sector else offset + sector - 6, f, chroma)
  {
    var j := if offset + sector < 6 then offset + sector else offset + sector - 6;
    var k := offset as real + (sector as real + f);
    assert (if k >= 6.0 then k - 6.0 else k) == j as real + f;
    var t := Trapezoid(j as real + f);
    assert t == if j == 0 then f else if j == 1 || j == 2 then 1.0 else if j == 3 then 1.0 - f else 0.0;
    assert chroma * t == Drop(j, f, chroma);
  }

  /** A sector's colour at `f` of the way through it. */
  function InSector(sector: int, f: real, chroma: real, value: real): Rgb {
    SectorColour(sector, value, value - chroma, value - chroma * f, value - chroma * (1.0 - f))
  }

  lemma SectorChannels(sector: int, f: real, chroma: real, value: real)
    requires 0 <= sector < 6 && 0.0 <= f < 1.0
    ensures Channels(sector as real + f, chroma, value)
            == InSector(sector, f, chroma, value)
  {
    hide Channel;
    ChannelInSector(5, sector, f, chroma, value);
    ChannelInSector(3, sector, f, chroma, value);
    ChannelInSector(1, sector, f, chroma, value);
  }

  lemma SectorFormula(c: Hsv, chroma: real, sector: int, f: real)
    requires 0 <= sector < 6 && 0.0 <= f < 1.0 && c.hue * 6.0 == sector as real + f && chroma == Chroma(c)
    ensures RgbOf(c) == InSector(sector, f, chroma, c.value)
  {
    hide Channels, RgbOf, Chroma, InSector;
    RgbUnfolds(c, sector as real + f, chroma);
    SectorChannels(sector, f, chroma, c.value);
  }

  /** The hues the code takes where the saturation is not 0; in the others its switch has no case. */
  predicate Taken(hue: real) {
    -1.0 < hue * 6.0 <= 6.0
  }

  /** What becomes of a hue below 0: the first sector, carried on. */
  function FirstSector(c: Hsv): Rgb {
    InSector(0, c.hue * 6.0, Chroma(c), c.value)
  }

  /**
   `aborted` where C reaches the assertion that it should not.  The switch is on the hue truncated
   towards zero, so that hues down to -1/6 still find the first sector.
   */
  method HsvToRgb(h: Cell, s: Cell, v: Cell) returns (aborted: bool)
    requires h != s && h != v && s != v
    modifies h, s, v
    ensures aborted <==> old(s.it) != 0.0 && !Taken(old(h.it))
    ensures aborted ==> h.it == old(h.it) && s.it == old(s.it) && v.it == old(v.it)
    ensures old(s.it) == 0.0 || 0.0 <= old(h.it) <= 1.0 ==>
              !aborted && Rgb(h.it, s.it, v.it) == RgbOf(Hsv(old(h.it), old(s.it), old(v.it)))
    ensures !aborted && old(s.it) != 0.0 && old(h.it) < 0.0 ==>
              Rgb(h.it, s.it, v.it) == FirstSector(Hsv(old(h.it), old(s.it), old(v.it)))
  {
    ghost var c := Hsv(h.it, s.it, v.it);
    aborted := false;
    if s.it == 0.0 {
      NoChroma(c);
      h.it := v.it;
      s.it := v.it;
      v.it := v.it;
    } else {
      var hue, saturation, value := h.it * 6.0, s.it, v.it;
      if hue == 6.0 {
        hue := 0.0;
      }
      var sector := if hue >= 0.0 then hue.Floor else -((-hue).Floor);
      var f := hue - sector as real;
      var p := value * (1.0 - saturation);
      var q := value * (1.0 - saturation * f);
      var t := value * (1.0 - saturation * (1.0 - f));
      SectorLevels(c, hue, sector, f, p, q, t);
      match sector
      case 0 => h.it, s.it, v.it := value, t, p;
      case 1 => h.it, s.it, v.it := q, value, p;
      case 2 => h.it, s.it, v.it := p, value, t;
      case 3 => h.it, s.it, v.it := p, q, value;
      case 4 => h.it, s.it, v.it := t, p, value;
      case 5 => h.it, s.it, v.it := value, p, q;
      case _ => aborted := true;
    }
  }

  /** The levels the code computes are those of the specification, where there is one. */
  lemma SectorLevels(c: Hsv, hue: real, sector: int, f: real, p: real, q: real, t: real)
    requires hue == (if c.hue * 6.0 == 6.0 then 0.0 else c.hue * 6.0)
    requires sector == (if hue >= 0.0 then hue.Floor else -((-hue).Floor)) && f == hue - sector as real
    requires p == c.value * (1.0 - c.saturation)
    requires q == c.value * (1.0 - c.saturation * f) && t == c.value * (1.0 - c.saturation * (1.0 - f))
    ensures 0 <= sector < 6 <==> Taken(c.hue)
    ensures 0.0 <= c.hue <= 1.0 ==> RgbOf(c) == SectorColour(sector, c.value, p, q, t)
    ensures Taken(c.hue) && c.hue < 0.0 ==> sector == 0 && FirstSector(c) == SectorColour(0, c.value, p, q, t)
  {
    hide RgbOf, Chroma, InSector, SectorColour;
    var chroma := Chroma(c);
    LevelsOf(c, sector, f, p, q, t);
    if 0.0 <= c.hue < 1.0 {
      SectorFormula(c, chroma, sector, f);
    } else if c.hue == 1.0 {
      FullTurn(c);
      SectorFormula(c.(hue := 0.0), chroma, sector, f);
    } else if Taken(c.hue) {
      TruncatesToZero(hue);
      assert f == c.hue * 6.0;
    }
  }

  lemma LevelsOf(c: Hsv, sector: int, f: real, p: real, q: real, t: real)
    requires p == c.value * (1.0 - c.saturation)
    requires q == c.value * (1.0 - c.saturation * f) && t == c.value * (1.0 - c.saturation * (1.0 - f))
    ensures InSector(sector, f, Chroma(c), c.value) == SectorColour(sector, c.value, p, q, t)
    ensures Chroma(c.(hue := 0.0)) == Chroma(c)
  {
    Product(c.value, c.saturation, 1.0);
    Product(c.value, c.saturation, f);
    Product(c.value, c.saturation, 1.0 - f);
  }

  lemma TruncatesToZero(x: real)
    requires -1.0 < x < 0.0
    ensures (-x).Floor == 0
  {
  }

  lemma NoChroma(c: Hsv)
    requires c.saturation == 0.0 || c.value == 0.0
    ensures RgbOf(c) == Rgb(c.value, c.value, c.value)
  {
  }

  lemma FullTurn(c: Hsv)
    requires c.hue == 1.0
    ensures RgbOf(c) == RgbOf(c.(hue := 0.0))
  {
  }

  method RgbToHsv(r: Cell, g: Cell, b: Cell)
    requires r != g && r != b && g != b
    modifies r, g, b
    ensures Hsv(r.it, g.it, b.it) == HsvOf(Rgb(old(r.it), old(g.it), old(b.it)))
  {
    var red, green, blue := r.it, g.it, b.it;
    ghost var c := Rgb(red, green, blue);
    var h, s, max, min := 0.0, 0.0, 0.0, 0.0;
    if red > green {
      max := if red > blue then red else blue;
      min := if green < blue then green else blue;
    } else {
      max := if green > blue then green else blue;
      min := if red < blue then red else blue;
    }
    assert max == Highest(c) && min == Lowest(c);
    var v := max;
    if max != 0.0 {
      s := (max - min) / max;
      QuotientIsZero(max - min, max);
    } else {
      s := 0.0;
    }
    if s == 0.0 {
      h := 0.0;
    } else {
      var delta := max - min;
      if red == max {
        h := (green - blue) / delta;
      } else if green == max {
        h := 2.0 + (blue - red) / delta;
      } else if blue == max {
        h := 4.0 + (red - green) / delta;
      }
      SixthsRange(c);
      h := h / 6.0;
      if h < 0.0 {
        h := h + 1.0;
      } else if h > 1.0 {
        h := h - 1.0;
      }
    }
    r.it := h;
    g.it := s;
    b.it := v;
  }

  lemma QuotientIsZero(a: real, b: real)
    requires b != 0.0
    ensures a / b == 0.0 <==> a == 0.0
  {
    assert a / b * b == a;
  }

  lemma QuotientRange(a: real, d: real)
    requires d > 0.0 && -d <= a <= d
    ensures -1.0 <= a / d <= 1.0 && a / d * d == a
    ensures a >= 0.0 <==> a / d >= 0.0
  {
    var x := a / d;
    assert x * d == a;
    SameSign(x - 1.0, d);
    SameSign(-1.0 - x, d);
    SameSign(x, d);
  }

  lemma SameSign(x: real, d: real)
    requires d > 0.0
    ensures x > 0.0 <==> x * d > 0.0
    ensures x < 0.0 <==> x * d < 0.0
  {
  }

  lemma SixthsRange(c: Rgb)
    requires Highest(c) != Lowest(c)
    ensures -1.0 <= Sixths(c) <= 5.0
  {
    var delta := Highest(c) - Lowest(c);
    if c.red == Highest(c) {
      QuotientRange(c.green - c.blue, delta);
    } else if c.green == Highest(c) {
      QuotientRange(c.blue - c.red, delta);
    } else {
      QuotientRange(c.red - c.green, delta);
    }
  }

  // ------------------------------------------------------------ what they promise

  /** A hue is a turn from 0 up to but not 1; colours with channels from 0 to 1 keep to that range. */
  lemma HsvInRange(c: Rgb)
    ensures 0.0 <= HsvOf(c).hue < 1.0
    ensures Lowest(c) >= 0.0 ==> 0.0 <= HsvOf(c).saturation <= 1.0 && HsvOf(c).value == Highest(c)
  {
    var high, low := Highest(c), Lowest(c);
    if high != low && high != 0.0 {
      SixthsRange(c);
      if low >= 0.0 {
        QuotientRange(high - low, high);
      }
    }
  }

  /** Each channel between the value and the value less the chroma. */
  lemma RgbInRange(c: Hsv)
    requires 0.0 <= c.saturation <= 1.0 && 0.0 <= c.value <= 1.0
    ensures var x := RgbOf(c); 0.0 <= Lowest(x) && Highest(x) <= c.value
  {
    hide Channel, RgbOf;
    var chroma := Chroma(c);
    RgbUnfolds(c, c.hue * 6.0, chroma);
    NonNegative(c.value, c.saturation);
    NonNegative(c.value, 1.0 - c.saturation);
    assert c.value * (1.0 - c.saturation) == c.value - chroma;
    ChannelRange(5.0, c.hue * 6.0, chroma, c.value);
    ChannelRange(3.0, c.hue * 6.0, chroma, c.value);
    ChannelRange(1.0, c.hue * 6.0, chroma, c.value);
  }

  lemma NonNegative(a: real, b: real)
    requires a >= 0.0 && b >= 0.0
    ensures a * b >= 0.0
  {
  }

  lemma ChannelRange(offset: real, sixths: real, chroma: real, value: real)
    requires 0.0 <= chroma
    ensures value - chroma <= Channel(offset, sixths, chroma, value) <= value
  {
    var k := offset + sixths;
    var t := Trapezoid(if k >= 6.0 then k - 6.0 else k);
    NonNegative(chroma, t);
    NonNegative(chroma, 1.0 - t);
  }

  /** There and back: every colour is kept, but those whose highest channel is 0 and lowest is not. */
  lemma RgbRoundTrip(c: Rgb)
    ensures RgbOf(HsvOf(c)) == c <==> (Highest(c) == 0.0 ==> Lowest(c) == 0.0)
  {
    var high, low := Highest(c), Lowest(c);
    if high != low && high != 0.0 {
      RgbRestored(c);
    }
  }

  lemma HighestAndLowest(c: Rgb)
    ensures Lowest(c) <= c.red <= Highest(c) && Lowest(c) <= c.green <= Highest(c) && Lowest(c) <= c.blue <= Highest(c)
    ensures c.red == Highest(c) || c.green == Highest(c) || c.blue == Highest(c)
  {
  }

  function Wrapped(sixths: real): real {
    if sixths < 0.0 then sixths + 6.0 else sixths
  }

  lemma HsvFields(c: Rgb)
    requires Highest(c) != Lowest(c) && Highest(c) != 0.0
    ensures var x := HsvOf(c);
            && x.value == Highest(c) && Chroma(x) == Highest(c) - Lowest(c)
            && x.hue * 6.0 == Wrapped(Sixths(c))
  {
    hide Highest, Lowest, Sixths;
    var high, delta := Highest(c), Highest(c) - Lowest(c);
    assert delta / high * high == delta;
  }

  lemma RgbRestored(c: Rgb)
    requires Highest(c) != Lowest(c) && Highest(c) != 0.0
    ensures RgbOf(HsvOf(c)) == c
  {
    hide HsvOf, Highest, Lowest, Sixths, RgbOf, Channels;
    HsvFields(c);
    RgbUnfolds(HsvOf(c), Wrapped(Sixths(c)), Highest(c) - Lowest(c));
    RestoredFromSixths(c);
  }

  lemma LowestOfTheRest(c: Rgb)
    ensures c.red == Highest(c) ==> Lowest(c) == Min(c.green, c.blue)
    ensures c.green == Highest(c) ==> Lowest(c) == Min(c.blue, c.red)
    ensures c.blue == Highest(c) ==> Lowest(c) == Min(c.red, c.green)
  {
  }

  lemma RestoredFromSixths(c: Rgb)
    requires Highest(c) != Lowest(c)
    ensures Channels(Wrapped(Sixths(c)), Highest(c) - Lowest(c), Highest(c)) == c
  {
    hide Channels, Wrapped, Highest, Lowest, Min;
    HighestAndLowest(c);
    LowestOfTheRest(c);
    var high, delta := Highest(c), Highest(c) - Lowest(c);
    if c.red == high {
      RestoredBy(0, high, c.green, c.blue, delta);
    } else if c.green == high {
      RestoredBy(2, high, c.blue, c.red, delta);
    } else {
      RestoredBy(4, high, c.red, c.green, delta);
    }
  }

  lemma RestoredBy(base: int, high: real, after: real, before: real, delta: real)
    requires base == 0 || base == 2 || base == 4
    requires delta == high - Min(after, before) > 0.0 && after <= high && before <= high
    ensures Channels(Wrapped(base as real + (after - before) / delta), delta, high)
            == match base
               case 0 => Rgb(high, after, before)
               case 2 => Rgb(before, high, after)
               case _ => Rgb(after, before, high)
  {
    hide Channels, Wrapped;
    QuotientRange(after - before, delta);
    Restored(base, high, after, before, delta, (after - before) / delta);
  }

  /** The highest channel is at `base` sixths; the one after it less the one before is `x` of the chroma. */
  lemma Restored(base: int, high: real, after: real, before: real, delta: real, x: real)
    requires base == 0 || base == 2 || base == 4
    requires delta == high - Min(after, before) > 0.0 && after <= high && before <= high
    requires -1.0 <= x <= 1.0 && x * delta == after - before
    ensures Channels(Wrapped(base as real + x), delta, high)
            == match base
               case 0 => Rgb(high, after, before)
               case 2 => Rgb(before, high, after)
               case _ => Rgb(after, before, high)
  {
    hide Channels;
    SignOfProduct(x, delta);
    if x >= 1.0 {
      SectorChannels(base + 1, 0.0, delta, high);
    } else if x >= 0.0 {
      assert delta * (1.0 - x) == delta - x * delta;
      SectorChannels(base, x, delta, high);
    } else {
      assert delta * (1.0 + x) == delta + x * delta;
      assert Wrapped(base as real + x) == (if base == 0 then 5 else base - 1) as real + (1.0 + x);
      SectorChannels(if base == 0 then 5 else base - 1, 1.0 + x, delta, high);
    }
  }

  lemma SignOfProduct(x: real, delta: real)
    requires delta > 0.0
    ensures x >= 0.0 <==> x * delta >= 0.0
    ensures x == 1.0 ==> x * delta == delta
  {
    SameSign(x, delta);
  }

  /** What a hue, saturation and value come back as. */
  function Canonical(c: Hsv): Hsv {
    if c.value == 0.0 then Hsv(0.0, 0.0, 0.0)
    else if c.saturation == 0.0 then Hsv(0.0, 0.0, c.value)
    else if c.hue == 1.0 then c.(hue := 0.0)
    else c
  }

  lemma HsvRoundTrip(c: Hsv)
    requires 0.0 <= c.hue <= 1.0 && 0.0 <= c.saturation <= 1.0 && 0.0 <= c.value <= 1.0
    ensures HsvOf(RgbOf(c)) == Canonical(c)
    ensures HsvOf(RgbOf(c)) == c <==>
            (c.saturation > 0.0 && c.value > 0.0 && c.hue < 1.0) || (c.saturation == 0.0 && c.hue == 0.0)
  {
    if c.value == 0.0 || c.saturation == 0.0 {
      NoChroma(c);
    } else if c.hue == 1.0 {
      FullTurn(c);
      HsvRestored(c.(hue := 0.0));
    } else {
      HsvRestored(c);
    }
  }

  lemma HsvRestored(c: Hsv)
    requires 0.0 <= c.hue < 1.0 && 0.0 < c.saturation <= 1.0 && 0.0 < c.value
    ensures HsvOf(RgbOf(c)) == c
  {
    hide RgbOf, HsvOf, Sixths, InSector, Highest, Lowest, Chroma;
    var chroma := ChromaIsPositive(c);
    var sector, f := SectorOf(c.hue * 6.0);
    SectorFormula(c, chroma, sector, f);
    SectorIsRead(sector, c.value, chroma, f);
    RestoredFields(c, RgbOf(c), chroma);
  }

  lemma ChromaIsPositive(c: Hsv) returns (chroma: real)
    requires 0.0 < c.saturation && 0.0 < c.value
    ensures chroma == Chroma(c) > 0.0
  {
    Positive(c.value, c.saturation);
    chroma := Chroma(c);
  }

  lemma SectorOf(sixths: real) returns (sector: int, f: real)
    requires 0.0 <= sixths < 6.0
    ensures 0 <= sector < 6 && 0.0 <= f < 1.0 && sixths == sector as real + f
  {
    sector := sixths.Floor;
    f := sixths - sector as real;
  }

  lemma RestoredFields(c: Hsv, x: Rgb, chroma: real)
    requires c.value > 0.0 && 0.0 <= c.hue < 1.0 && chroma == Chroma(c) > 0.0
    requires Highest(x) == c.value && Lowest(x) == c.value - chroma && Wrapped(Sixths(x)) == c.hue * 6.0
    ensures HsvOf(x) == c
  {
    hide HsvOf, Highest, Lowest, Sixths;
    HsvFields(x);
    SameFactor(c.value, HsvOf(x).saturation, c.saturation);
  }

  lemma SameFactor(v: real, a: real, b: real)
    requires v > 0.0 && v * a == v * b
    ensures a == b
  {
    assert v * (a - b) == 0.0;
  }

  lemma Positive(a: real, b: real)
    requires a > 0.0 && b > 0.0
    ensures a * b > 0.0
  {
  }

  lemma Quotient(a: real, d: real, x: real)
    requires d != 0.0 && d * x == a
    ensures a / d == x
  {
    assert (a / d - x) * d == 0.0;
  }

  /** Reading a sector's colour back, its boundary with the sector before included. */
  lemma SectorIsRead(sector: int, v: real, chroma: real, f: real)
    requires 0 <= sector < 6 && 0.0 <= f < 1.0 && 0.0 < chroma
    ensures var c := InSector(sector, f, chroma, v);
            && Highest(c) == v && Lowest(c) == v - chroma && Wrapped(Sixths(c)) == sector as real + f
  {
    hide Highest, Lowest, Sixths, SectorColour;
    NonNegative(chroma, f);
    Positive(chroma, 1.0 - f);
    assert chroma * (1.0 - f) == chroma - chroma * f;
    LevelsAreRead(sector, v, chroma, f, v - chroma * f, v - chroma * (1.0 - f));
  }

  lemma LevelsAreRead(sector: int, v: real, chroma: real, f: real, q: real, t: real)
    requires 0 <= sector < 6 && 0.0 <= f < 1.0 && 0.0 < chroma && v - chroma < q <= v
    requires v - q == chroma * f && v - t == chroma - (v - q)
    ensures var c := SectorColour(sector, v, v - chroma, q, t);
            && Highest(c) == v && Lowest(c) == v - chroma && Wrapped(Sixths(c)) == sector as real + f
  {
    var part := v - q;
    Quotient(part, chroma, f);
    Quotient(chroma, chroma, 1.0);
    assert chroma * (f - 1.0) == part - chroma;
    Quotient(part - chroma, chroma, f - 1.0);
    assert chroma * (1.0 - f) == chroma - part;
    Quotient(chroma - part, chroma, 1.0 - f);
    var c := SectorColour(sector, v, v - chroma, q, t);
    assert Highest(c) - Lowest(c) == chroma;
    if sector == 0 || sector == 5 {
      assert c.green - c.blue == if sector == 0 then part else part - chroma;
    } else if sector == 1 {
      assert c.blue - c.red == part - chroma && c.green - c.blue == chroma;
    } else if sector == 2 {
      assert c.blue - c.red == part;
    } else if sector == 3 {
      assert c.red - c.green == part - chroma && c.blue - c.red == chroma;
    } else {
      assert c.red - c.green == part;
    }
  }
}
