/**
 The MPEG time code of a frame number (mpegtimecode.c).

 The specification is the counting rule itself: the first frame is labelled 00:00:00:00, and each
 further frame takes the next label, where the first `dropped` labels of every minute that is not
 a multiple of ten do not exist.  The C function never counts; it computes the label with divisions
 in units of 1/119.88 s.  The theorems connect the two, invert the labelling, and bound its drift.
 */
module Timecode {
  import opened CInt
  import FrameRate

  datatype Label = Label(h: int, m: int, s: int, f: int)

  /** What the caller hands in as `MPEG_timecode_t *`. */
  class LabelCell {
    var h: int
    var m: int
    var s: int
    var f: int

    function Value(): Label
      reads this
    {
      Label(h, m, s, f)
    }
  }

  // ------------------------------------------------------------ the counting rule

  /** A counting scheme: `rate` labels a second, of which `dropped` are skipped in most minutes. */
  datatype Scheme = Scheme(rate: nat, dropped: nat)

  const UNITS := Scheme(120, 8)   // 119.88 units a second: the resolution mpeg_timecode works in
  const NTSC := Scheme(30, 2)     // frame_rate_code 4
  const NTSC_FIELDS := Scheme(60, 4) // frame_rate_code 7

  predicate Standard(c: Scheme) {
    c == UNITS || c == NTSC || c == NTSC_FIELDS
  }

  predicate InRange(c: Scheme, l: Label) {
    0 <= l.h && 0 <= l.m < 60 && 0 <= l.s < 60 && 0 <= l.f < c.rate
  }

  predicate Dropped(c: Scheme, l: Label) {
    l.s == 0 && l.m % 10 != 0 && l.f < c.dropped
  }

  predicate Legal(c: Scheme, l: Label) {
    InRange(c, l) && !Dropped(c, l)
  }

  /** The label after `l` on a clock that drops nothing. */
  function Tick(c: Scheme, l: Label): Label {
    if l.f + 1 < c.rate then l.(f := l.f + 1)
    else if l.s < 59 then Label(l.h, l.m, l.s + 1, 0)
    else if l.m < 59 then Label(l.h, l.m + 1, 0, 0)
    else Label(l.h + 1, 0, 0, 0)
  }

  /** The label after `l`: tick once, and step over the labels that do not exist. */
  function Next(c: Scheme, l: Label): Label {
    var t := Tick(c, l);
    if Dropped(c, t) then t.(f := c.dropped) else t
  }

  /** The label of frame `n`: count to it. */
  function Count(c: Scheme, n: nat): Label {
    if n == 0 then Label(0, 0, 0, 0) else Next(c, Count(c, n - 1))
  }

  // ------------------------------------------------------------ the labelling is a bijection

  function Minutes(l: Label): int {
    60 * l.h + l.m
  }

  /** How many labels precede `l` on a clock that drops nothing. */
  function Ticks(c: Scheme, l: Label): int {
    c.rate * (60 * Minutes(l) + l.s) + l.f
  }

  /** How many labels have been dropped up to and including minute `minutes`. */
  function DroppedBefore(c: Scheme, minutes: int): int {
    c.dropped * (minutes - minutes / 10)
  }

  /** The frame a legal label stands for. */
  function FrameOf(c: Scheme, l: Label): int {
    Ticks(c, l) - DroppedBefore(c, Minutes(l))
  }

  lemma NextIsNextFrame(c: Scheme, l: Label)
    requires Standard(c) && Legal(c, l)
    ensures Legal(c, Next(c, l)) && FrameOf(c, Next(c, l)) == FrameOf(c, l) + 1
  {
    hide Tick, Ticks, DroppedBefore, Minutes;
    var t := Tick(c, l);
    TickIsOneTick(c, l);
    MinutesOfTick(c, l);
    OnlyMinutesDrop(c, l);
    DroppedByMinute(c, Minutes(t));
    TicksApart(c, t, c.dropped);
  }

  lemma OnlyMinutesDrop(c: Scheme, l: Label)
    requires Standard(c) && Legal(c, l)
    ensures Dropped(c, Tick(c, l)) <==> Tick(c, l).s == Tick(c, l).f == 0 && Tick(c, l).m % 10 != 0
  {
  }

  lemma TicksApart(c: Scheme, l: Label, f: int)
    ensures Ticks(c, l.(f := f)) == Ticks(c, l) - l.f + f && Minutes(l.(f := f)) == Minutes(l)
  {
  }

  lemma MinutesOfTick(c: Scheme, l: Label)
    requires Standard(c) && InRange(c, l)
    ensures var t := Tick(c, l);
            if t.s == t.f == 0 then Minutes(t) == Minutes(l) + 1 else Minutes(t) == Minutes(l) && t.m == l.m
    ensures Minutes(Tick(c, l)) % 10 == Tick(c, l).m % 10
  {
    TensOfMinutes(Tick(c, l));
  }

  lemma TensOfMinutes(l: Label)
    ensures Minutes(l) % 10 == l.m % 10 && Minutes(l) / 10 == 6 * l.h + l.m / 10
  {
    assert Minutes(l) == 10 * (6 * l.h + l.m / 10) + l.m % 10;
  }

  lemma DroppedByMinute(c: Scheme, minute: int)
    ensures DroppedBefore(c, minute)
         == DroppedBefore(c, minute - 1) + (if minute % 10 != 0 then c.dropped else 0)
  {
    assert minute - minute / 10 == (minute - 1) - (minute - 1) / 10 + (if minute % 10 != 0 then 1 else 0);
  }

  lemma TickIsOneTick(c: Scheme, l: Label)
    requires Standard(c) && InRange(c, l)
    ensures InRange(c, Tick(c, l)) && Ticks(c, Tick(c, l)) == Ticks(c, l) + 1
  {
  }

  /** Counting to `n` gives a legal label, and the formula recovers `n` from it. */
  lemma {:induction false} FrameOfCount(c: Scheme, n: nat)
    requires Standard(c)
    ensures Legal(c, Count(c, n)) && FrameOf(c, Count(c, n)) == n
  {
    hide FrameOf, Legal, Next;
    if n == 0 {
      FrameOfZero(c);
    } else {
      FrameOfCount(c, n - 1);
      NextIsNextFrame(c, Count(c, n - 1));
    }
  }

  lemma FrameOfZero(c: Scheme)
    requires Standard(c)
    ensures Legal(c, Label(0, 0, 0, 0)) && FrameOf(c, Label(0, 0, 0, 0)) == 0
  {
  }

  /** The order of labels on a clock face. */
  predicate Before(a: Label, b: Label) {
    Minutes(a) < Minutes(b) || (Minutes(a) == Minutes(b) && (a.s < b.s || (a.s == b.s && a.f < b.f)))
  }

  /** Frames before minute `m`, were none of its own labels dropped. */
  function StartOfMinute(c: Scheme, m: int): int {
    60 * c.rate * m - DroppedBefore(c, m)
  }

  /** The labels minute `m` lacks. */
  function Missing(c: Scheme, m: int): nat {
    if m % 10 != 0 then c.dropped else 0
  }

  /** The frames of a minute are an interval. */
  lemma FrameWithinMinute(c: Scheme, l: Label)
    requires Standard(c) && Legal(c, l)
    ensures var start := StartOfMinute(c, Minutes(l));
            FrameOf(c, l) == start + c.rate * l.s + l.f
            && start + Missing(c, Minutes(l)) <= FrameOf(c, l) < start + 60 * c.rate
  {
    hide DroppedBefore;
    TensOfMinutes(l);
    Distribute(c.rate, Minutes(l), l.s);
    WithinMinute(c, l.s, l.f);
  }

  lemma Distribute(rate: int, minutes: int, s: int)
    ensures rate * (60 * minutes + s) == 60 * rate * minutes + rate * s
  {
  }

  lemma WithinMinute(c: Scheme, s: int, f: int)
    requires Standard(c) && 0 <= s < 60 && 0 <= f < c.rate
    ensures 0 <= c.rate * s + f < 60 * c.rate && (s > 0 ==> c.dropped <= c.rate * s + f)
  {
    if c == UNITS { } else if c == NTSC { } else { }
  }

  /** The interval of a minute ends where that of the next begins. */
  lemma MinutesAbut(c: Scheme, m: int)
    ensures StartOfMinute(c, m) + 60 * c.rate == StartOfMinute(c, m + 1) + Missing(c, m + 1)
  {
    DroppedByMinute(c, m + 1);
    assert 60 * c.rate * (m + 1) == 60 * c.rate * m + 60 * c.rate;
  }

  lemma {:induction false} MinuteStartsGrow(c: Scheme, m: int, k: int)
    requires Standard(c) && 0 <= m < k
    ensures StartOfMinute(c, m) + 60 * c.rate <= StartOfMinute(c, k) + Missing(c, k)
    decreases k - m
  {
    MinutesAbut(c, k - 1);
    if m + 1 >= k {
    } else {
      MinuteStartsGrow(c, m, k - 1);
      assert c.dropped <= 60 * c.rate;
    }
  }

  lemma FramesFollowLabels(c: Scheme, a: Label, b: Label)
    requires Standard(c) && Legal(c, a) && Legal(c, b) && Before(a, b)
    ensures FrameOf(c, a) < FrameOf(c, b)
  {
    FrameWithinMinute(c, a);
    FrameWithinMinute(c, b);
    if Minutes(a) < Minutes(b) {
      MinuteStartsGrow(c, Minutes(a), Minutes(b));
    } else if a.s < b.s {
      assert c.rate * (a.s + 1) <= c.rate * b.s;
    }
  }

  lemma FrameOfIsInjective(c: Scheme, a: Label, b: Label)
    requires Standard(c) && Legal(c, a) && Legal(c, b) && FrameOf(c, a) == FrameOf(c, b)
    ensures a == b
  {
    if Before(a, b) { FramesFollowLabels(c, a, b); }
    if Before(b, a) { FramesFollowLabels(c, b, a); }
  }

  lemma FrameOfIsNatural(c: Scheme, l: Label)
    requires Standard(c) && Legal(c, l)
    ensures FrameOf(c, l) >= 0
  {
    FrameWithinMinute(c, l);
    if Minutes(l) > 0 {
      MinuteStartsGrow(c, 0, Minutes(l));
    }
  }

  /** Every legal label is the label of exactly one frame, the one `FrameOf` names. */
  lemma CountOfFrame(c: Scheme, l: Label)
    requires Standard(c) && Legal(c, l)
    ensures FrameOf(c, l) >= 0 && Count(c, FrameOf(c, l)) == l
    ensures forall n: nat :: Count(c, n) == l <==> n == FrameOf(c, l)
  {
    FrameOfIsNatural(c, l);
    forall n: nat ensures FrameOf(c, Count(c, n)) == n {
      FrameOfCount(c, n);
    }
    FrameOfCount(c, FrameOf(c, l));
    FrameOfIsInjective(c, Count(c, FrameOf(c, l)), l);
  }

  // ------------------------------------------------------------ frames of a slower clock

  /** The units a frame takes at `frame_rate_code` 1, 4 and 7. */
  predicate FrameStep(k: int) {
    k == 5 || k == 4 || k == 2
  }

  /** The label of frame `n` when a frame takes `k` units: the unit clock, read in whole frames. */
  function FrameLabel(k: int, n: nat): Label
    requires FrameStep(k)
  {
    var l := Count(UNITS, k * n);
    l.(f := l.f / k)
  }

  /** A frame is the first of its minute when the frame before it carries another minute. */
  predicate FirstOfMinute(k: int, n: nat)
    requires FrameStep(k)
  {
    n == 0 || Minutes(FrameLabel(k, n - 1)) != Minutes(FrameLabel(k, n))
  }

  const TEN_MINUTES := 71928  // units in ten minutes: 10 * 60 * 120 less nine times 8
  const MINUTE := 7192        // units in a minute that loses 8 of them

  /** Unit `u` falls `blocks` of ten minutes, then `m` minutes, then `x` units from the start. */
  predicate At(u: int, blocks: int, m: int, x: int) {
    && u == TEN_MINUTES * blocks + MINUTE * m + x
    && blocks >= 0 && 0 <= m <= 9 && FirstUnit(m) <= x < 7200
  }

  /** The first unit of a minute that has a label. */
  function FirstUnit(m: int): nat {
    if m == 0 then 0 else 8
  }

  lemma UnitPosition(u: nat, blocks: int, m: int, x: int)
    requires At(u, blocks, m, x)
    ensures Count(UNITS, u) == Label(blocks / 6, blocks % 6 * 10 + m, x / 120, x % 120)
    ensures Minutes(Count(UNITS, u)) == 10 * blocks + m
  {
    var l := Label(blocks / 6, blocks % 6 * 10 + m, x / 120, x % 120);
    TensOfMinutes(l);
    assert Minutes(l) == 10 * blocks + m;
    assert Ticks(UNITS, l) == 7200 * Minutes(l) + x;
    assert DroppedBefore(UNITS, Minutes(l)) == 8 * (9 * blocks + m);
    CountOfFrame(UNITS, l);
  }

  /** The same position computed from `u`. */
  lemma UnitSplit(u: nat) returns (blocks: int, m: int, x: int)
    ensures At(u, blocks, m, x) && blocks == u / TEN_MINUTES
  {
    blocks := u / TEN_MINUTES;
    var r := u % TEN_MINUTES;
    m := if r < 8 then 0 else (r - 8) / MINUTE;
    x := r - MINUTE * m;
  }

  // ------------------------------------------------------------ mpeg_timecode

  /** The nominal whole rates of `frame_rate_code` 1 to 8. */
  const NOMINAL: seq<int> := [0, 24, 24, 25, 30, 30, 50, 60, 60]

  /** They are the rates of the codes, rounded up. */
  lemma NominalRates(c: int)
    requires FrameRate.ValidCode(c)
    ensures |NOMINAL| == |FrameRate.RATES|
    ensures var rate := FrameRate.RATES[c];
            && rate.n <= NOMINAL[c] * rate.d < rate.n + rate.d
            && (DropRate(c) <==> rate.n != NOMINAL[c] * rate.d)
    ensures DropRate(c) <==> c == 1 || c == 4 || c == 7
  {
  }

  predicate DropRate(fpscode: int) {
    0 < fpscode && fpscode + 1 < |NOMINAL| && NOMINAL[fpscode] == NOMINAL[fpscode + 1]
  }

  /** `(int)x` for a double */
  function Truncated(x: real): int {
    if x >= 0.0 then x.Floor else -((-x).Floor)
  }

  function NominalRate(fpscode: int, fps: real): int {
    if 0 < fpscode < |NOMINAL| then NOMINAL[fpscode] else Truncated(fps + 0.5)
  }

  /**
   mpeg_timecode: fills `tc` and returns its frame count, negated on the first frame of a minute.
   `faulted` is set where C divides by a rate of 0.
   */
  method MpegTimecode(tc: LabelCell, frame: int, fpscode: int, fps: real, dropFrames: bool)
    returns (ret: int, faulted: bool)
    modifies tc
    ensures faulted <==> !(0 < fpscode < |NOMINAL|) && -1.5 < fps < 0.5
    ensures dropFrames && DropRate(fpscode) && frame >= 0 ==>
              var k := 120 / NOMINAL[fpscode];
              FrameStep(k) && tc.Value() == FrameLabel(k, frame)
              && ret == if FirstOfMinute(k, frame) then -tc.f else tc.f
    ensures dropFrames && DropRate(fpscode) && frame < 0 ==>
              FrameStep(120 / NOMINAL[fpscode]) && LabelledBehind(120 / NOMINAL[fpscode], frame, tc.Value(), ret)
    ensures !(dropFrames && DropRate(fpscode)) && !faulted ==>
              var rate := NominalRate(fpscode, fps);
              rate != 0 && PlainLabel(rate, frame, tc.Value()) && ret == tc.f
  {
    if dropFrames && DropRate(fpscode) {
      ret := DropFrameLabel(tc, frame, NOMINAL[fpscode]);
      return ret, false;
    }
    var ifps := NominalRate(fpscode, fps);
    if ifps == 0 {
      return 0, true;
    }
    ret := PlainFrameLabel(tc, frame, ifps);
    return ret, false;
  }

  /** Before the first frame: unit `u`, so many ten minutes and minutes back and then `x` units on. */
  datatype Behind = Behind(blocks: nat, m: nat, x: int)

  predicate IsBehind(u: int, b: Behind) {
    && u == b.x - (TEN_MINUTES * b.blocks + MINUTE * b.m)
    && -7184 < b.x <= 8 && 0 <= MINUTE * b.m - b.x < TEN_MINUTES
  }

  function LabelBehind(k: int, b: Behind): Label
    requires FrameStep(k)
  {
    Label(0 - b.blocks / 6, 0 - (b.m + b.blocks % 6 * 10), TruncDiv(b.x, 120), TruncDiv(TruncMod(b.x, 120), k))
  }

  /**
   The label of a frame before the first.  The units that minutes lose are lost here too, so that the
   first eight units of a minute lie behind its start; the result is negated within a frame of the end
   of a minute, counted backwards.
   */
  ghost predicate LabelledBehind(k: int, frame: int, l: Label, ret: int)
    requires FrameStep(k)
  {
    exists b :: IsBehind(frame * k, b) && l == LabelBehind(k, b) && ret == if b.x <= k - 7184 then -l.f else l.f
  }

  /** There is one such place for every frame. */
  lemma BehindIsUnique(u: int, a: Behind, b: Behind)
    requires IsBehind(u, a) && IsBehind(u, b)
    ensures a == b
  {
    TenMinutesSplit(a.blocks, MINUTE * a.m - a.x, b.blocks, MINUTE * b.m - b.x);
    MinuteSplit(a.m, 8 - a.x, b.m, 8 - b.x);
  }

  lemma TenMinutesSplit(q: int, r: int, q': int, r': int)
    requires 0 <= r < TEN_MINUTES && 0 <= r' < TEN_MINUTES && TEN_MINUTES * q + r == TEN_MINUTES * q' + r'
    ensures q == q' && r == r'
  {
  }

  lemma MinuteSplit(q: int, r: int, q': int, r': int)
    requires 0 <= r < MINUTE && 0 <= r' < MINUTE && MINUTE * q + r == MINUTE * q' + r'
    ensures q == q' && r == r'
  {
  }

  /** And its label, as a count, is behind the frame by eight units for each minute but every tenth. */
  lemma BehindCounts(k: int, frame: int, b: Behind)
    requires (k == 4 || k == 2) && IsBehind(frame * k, b)
    ensures Ticks(Scheme(120 / k, 0), LabelBehind(k, b)) == frame - 8 / k * (9 * b.blocks + b.m)
  {
    var l := LabelBehind(k, b);
    assert Minutes(l) == 0 - (10 * b.blocks + b.m) by {
      assert 60 * (b.blocks / 6) + b.blocks % 6 * 10 == 10 * b.blocks;
    }
    TruncSplit(b.x, 120);
    TruncSplit(TruncMod(b.x, 120), k);
    if k == 4 {
      assert b.x == 4 * (frame + 17982 * b.blocks + 1798 * b.m);
    } else {
      assert b.x == 2 * (frame + 35964 * b.blocks + 3596 * b.m);
    }
  }

  /** The truncating divisions of mpeg_timecode find the place of a negative unit. */
  lemma CodePlaceBehind(u: int, k: int) returns (b: Behind)
    requires FrameStep(k) && u < 0
    ensures IsBehind(u, b) && TruncDiv(u, TEN_MINUTES) == 0 - b.blocks
    ensures var r := TruncMod(u, TEN_MINUTES) - 8;
            && TruncDiv(r, MINUTE) == 0 - b.m && TruncMod(r, MINUTE) + 8 == b.x
            && (TruncDiv(r - k, MINUTE) < TruncDiv(r, MINUTE) <==> b.x <= k - 7184)
  {
    var r := (-u) % TEN_MINUTES + 8;
    b := Behind((-u) / TEN_MINUTES, r / MINUTE, 8 - r % MINUTE);
    assert -u == TEN_MINUTES * b.blocks + (r - 8) && r == MINUTE * b.m + r % MINUTE;
    assert TruncMod(u, TEN_MINUTES) - 8 == -r;
    assert (r + k) / MINUTE > r / MINUTE <==> r % MINUTE + k >= MINUTE;
  }

  lemma HoursBehind(blocks: nat)
    ensures TruncDiv(0 - blocks, 6) == 0 - blocks / 6 && TruncMod(0 - blocks, 6) == 0 - blocks % 6
  {
  }

  /** The drop-frame branch. */
  method DropFrameLabel(tc: LabelCell, frame: int, ifps: int) returns (ret: int)
    requires ifps == 24 || ifps == 30 || ifps == 60
    modifies tc
    ensures frame >= 0 ==>
              tc.Value() == FrameLabel(120 / ifps, frame)
              && ret == if FirstOfMinute(120 / ifps, frame) then -tc.f else tc.f
    ensures frame < 0 ==> LabelledBehind(120 / ifps, frame, tc.Value(), ret)
  {
    hide TruncDiv, TruncMod, FrameLabel, FirstOfMinute;
    var k := (30 * 4) / ifps;
    var f := frame * k;
    ghost var b := Behind(0, 0, 0);
    if frame >= 0 {
      CodeLabel(k, frame);
    } else {
      b := CodePlaceBehind(frame * k, k);
      HoursBehind(b.blocks);
    }
    var h := TruncDiv(f, (10 * 60 * 30 - 18) * 4);
    f := TruncMod(f, (10 * 60 * 30 - 18) * 4);
    f := f - 2 * 4;
    var m := TruncDiv(f, (60 * 30 - 2) * 4);
    var topInMinute := TruncDiv(f - k, (60 * 30 - 2) * 4) < m;
    m := m + TruncMod(h, 6) * 10;
    h := TruncDiv(h, 6);
    f := TruncMod(f, (60 * 30 - 2) * 4);
    f := f + 2 * 4;
    var s := TruncDiv(f, 30 * 4);
    f := TruncMod(f, 30 * 4);
    f := TruncDiv(f, k);
    tc.f := f;
    if topInMinute {
      f := -f;
    }
    tc.s := s;
    tc.m := m;
    tc.h := h;
    ret := f;
    if frame < 0 {
      assert IsBehind(frame * k, b) && tc.Value() == LabelBehind(k, b);
    }
  }

  /** `l` is `frame` in mixed radix: the last digit has the sign of `frame`, the others that of the time. */
  predicate PlainLabel(rate: int, frame: int, l: Label) {
    var size, time := if rate < 0 then -rate else rate, if rate < 0 then -frame else frame;
    && rate * (60 * Minutes(l) + l.s) + l.f == frame
    && (frame >= 0 ==> 0 <= l.f < size)
    && (frame <= 0 ==> 0 >= l.f > -size)
    && (time >= 0 ==> 0 <= l.h && 0 <= l.m < 60 && 0 <= l.s < 60)
    && (time <= 0 ==> 0 >= l.h && 0 >= l.m > -60 && 0 >= l.s > -60)
  }

  /** The branch that drops nothing. */
  method PlainFrameLabel(tc: LabelCell, frame: int, ifps: int) returns (ret: int)
    requires ifps != 0
    modifies tc
    ensures PlainLabel(ifps, frame, tc.Value()) && ret == tc.f
  {
    PlainDigits(ifps, frame);
    var s := TruncDiv(frame, ifps);
    var f := TruncMod(frame, ifps);
    var m := TruncDiv(s, 60);
    s := TruncMod(s, 60);
    var h := TruncDiv(m, 60);
    m := TruncMod(m, 60);
    tc.f := f;
    tc.s := s;
    tc.m := m;
    tc.h := h;
    ret := f;
  }

  lemma PlainDigits(rate: int, frame: int)
    requires rate != 0
    ensures var t := TruncDiv(frame, rate);
            var m := TruncDiv(t, 60);
            PlainLabel(rate, frame, Label(TruncDiv(m, 60), TruncMod(m, 60), TruncMod(t, 60), TruncMod(frame, rate)))
  {
    hide TruncDiv, TruncMod;
    var t := TruncDiv(frame, rate);
    RateSplit(frame, rate);
    TruncSplit(t, 60);
    TruncSplit(TruncDiv(t, 60), 60);
    var h, m, s := TruncDiv(TruncDiv(t, 60), 60), TruncMod(TruncDiv(t, 60), 60), TruncMod(t, 60);
    assert 60 * Minutes(Label(h, m, s, 0)) + s == t;
  }

  lemma RateSplit(frame: int, rate: int)
    requires rate != 0
    ensures var size, time := if rate < 0 then -rate else rate, if rate < 0 then -frame else frame;
            && rate * TruncDiv(frame, rate) + TruncMod(frame, rate) == frame
            && (frame >= 0 ==> 0 <= TruncMod(frame, rate) < size)
            && (frame <= 0 ==> 0 >= TruncMod(frame, rate) > -size)
            && (time >= 0 ==> TruncDiv(frame, rate) >= 0) && (time <= 0 ==> TruncDiv(frame, rate) <= 0)
  {
    hide TruncDiv, TruncMod;
    if rate < 0 {
      TruncSigns(frame, rate);
      TruncSplit(frame, -rate);
      assert -rate * -TruncDiv(frame, rate) == rate * TruncDiv(frame, rate);
    } else {
      TruncSplit(frame, rate);
    }
  }

  /** The first frame of a minute is the one less than a frame's length into its units. */
  lemma FirstFrame(k: int, n: nat, blocks: int, m: int, x: int)
    requires FrameStep(k) && At(k * n, blocks, m, x)
    ensures FirstOfMinute(k, n) <==> x - k < FirstUnit(m)
  {
    FrameMinute(k, n, blocks, m, x);
    if n > 0 {
      FrameBefore(k, n - 1, blocks, m, x);
    } else {
      assert k * n == 0;
    }
  }

  lemma FrameBefore(k: int, n: nat, blocks: int, m: int, x: int)
    requires FrameStep(k) && At(k * (n + 1), blocks, m, x)
    ensures Minutes(FrameLabel(k, n)) != 10 * blocks + m <==> x - k < FirstUnit(m)
  {
    assert k * (n + 1) == k * n + k;
    UnitsBack(k * n, k, blocks, m, x);
  }

  lemma UnitsBack(u: nat, k: int, blocks: int, m: int, x: int)
    requires FrameStep(k) && At(u + k, blocks, m, x)
    ensures Minutes(Count(UNITS, u)) != 10 * blocks + m <==> x - k < FirstUnit(m)
  {
    if FirstUnit(m) <= x - k {
      UnitPosition(u, blocks, m, x - k);
    } else if m > 0 {
      UnitPosition(u, blocks, m - 1, x - k + MINUTE);
    } else {
      UnitPosition(u, blocks - 1, 9, x - k + 7200);
    }
  }

  lemma FrameMinute(k: int, n: nat, blocks: int, m: int, x: int)
    requires FrameStep(k) && At(k * n, blocks, m, x)
    ensures Minutes(FrameLabel(k, n)) == 10 * blocks + m && FrameLabel(k, n).m % 10 == m
  {
    hide FrameLabel, Count;
    LabelAt(k, n, blocks, m, x);
    MinutesOfBlocks(blocks, m);
  }

  lemma MinutesOfBlocks(blocks: int, m: int)
    requires 0 <= m <= 9
    ensures 60 * (blocks / 6) + (blocks % 6 * 10 + m) == 10 * blocks + m && (blocks % 6 * 10 + m) % 10 == m
  {
    var tens := blocks % 6;
    assert (10 * tens + m) % 10 == m;
  }

  /** The truncating divisions of mpeg_timecode find the position of unit `u`. */
  lemma CodePosition(u: nat, k: int)
    requires FrameStep(k)
    ensures var blocks, r := TruncDiv(u, TEN_MINUTES), TruncMod(u, TEN_MINUTES) - 8;
            var m, x := TruncDiv(r, MINUTE), TruncMod(r, MINUTE) + 8;
            && At(u, blocks, m, x)
            && (TruncDiv(r - k, MINUTE) < m <==> m > 0 && x - k < 8)
  {
    var r := TruncMod(u, TEN_MINUTES) - 8;
    assert 0 <= u % TEN_MINUTES < TEN_MINUTES;
    if r < 0 {
      assert TruncDiv(r, MINUTE) == 0 && TruncDiv(r - k, MINUTE) == 0;
    } else if r < k {
      assert TruncDiv(r, MINUTE) == 0 && TruncDiv(r - k, MINUTE) == 0;
    } else {
      assert TruncDiv(r, MINUTE) == r / MINUTE && TruncDiv(r - k, MINUTE) == (r - k) / MINUTE;
      assert r / MINUTE <= 9;
    }
  }

  /** What the drop-frame branch computes, in its own terms, is the label of frame `n`. */
  lemma CodeLabel(k: int, n: nat)
    requires FrameStep(k)
    ensures var h, r := TruncDiv(n * k, TEN_MINUTES), TruncMod(n * k, TEN_MINUTES) - 8;
            var m, x := TruncDiv(r, MINUTE), TruncMod(r, MINUTE) + 8;
            var f := TruncDiv(TruncMod(x, 120), k);
            && FrameLabel(k, n) == Label(TruncDiv(h, 6), m + TruncMod(h, 6) * 10, TruncDiv(x, 120), f)
            && ((TruncDiv(r - k, MINUTE) < m) != FirstOfMinute(k, n) ==> f == 0)
  {
    hide TruncDiv, TruncMod, FrameLabel, FirstOfMinute, Count;
    assert n * k == k * n;
    CodePosition(k * n, k);
    var h, r := TruncDiv(k * n, TEN_MINUTES), TruncMod(k * n, TEN_MINUTES) - 8;
    var m, x := TruncDiv(r, MINUTE), TruncMod(r, MINUTE) + 8;
    UnitPosition(k * n, h, m, x);
    FirstFrame(k, n, h, m, x);
    LabelAt(k, n, h, m, x);
    Untruncated(h, 6);
    Untruncated(x, 120);
    Untruncated(x % 120, k);
    FirstOfMinuteIsWhole(k, m, x);
  }

  lemma LabelAt(k: int, n: nat, blocks: int, m: int, x: int)
    requires FrameStep(k) && At(k * n, blocks, m, x)
    ensures FrameLabel(k, n) == Label(blocks / 6, blocks % 6 * 10 + m, x / 120, x % 120 / k)
  {
    UnitPosition(k * n, blocks, m, x);
  }

  lemma Untruncated(a: nat, b: nat)
    requires b > 0
    ensures TruncDiv(a, b) == a / b && TruncMod(a, b) == a % b
  {
  }

  /** The two tests differ only on a frame whose number in its second is 0. */
  lemma FirstOfMinuteIsWhole(k: int, m: int, x: int)
    requires FrameStep(k) && 0 <= m <= 9 && FirstUnit(m) <= x < 7200
    ensures (m > 0 && x - k < 8) != (x - k < FirstUnit(m)) ==> x % 120 / k == 0
  {
  }

  // ------------------------------------------------------------ what the labels mean

  /** How many labels precede frame `n`'s on a clock of the same rate that drops nothing. */
  function LabelCount(k: int, n: nat): int
    requires FrameStep(k)
  {
    Ticks(Scheme(120 / k, 0), FrameLabel(k, n))
  }

  /** At rates whose frame divides the eight dropped units, the labels are those of counting in frames. */
  lemma FrameLabelCounts(k: int, n: nat)
    requires k == 4 || k == 2
    ensures FrameLabel(k, n) == Count(Scheme(120 / k, 8 / k), n)
  {
    hide FrameLabel, Count;
    var blocks, m, x := UnitSplit(k * n);
    LabelIsLegal(k, n, blocks, m, x);
    LabelCountAt(k, n, blocks, m, x);
    FrameMinute(k, n, blocks, m, x);
    CountByFrames(k, n, FrameLabel(k, n), blocks, m);
  }

  lemma LabelIsLegal(k: int, n: nat, blocks: int, m: int, x: int)
    requires (k == 4 || k == 2) && At(k * n, blocks, m, x)
    ensures Legal(Scheme(120 / k, 8 / k), FrameLabel(k, n))
  {
    hide FrameLabel, Count;
    LabelAt(k, n, blocks, m, x);
    FrameMinute(k, n, blocks, m, x);
  }

  lemma CountByFrames(k: int, n: nat, l: Label, blocks: int, m: int)
    requires (k == 4 || k == 2) && Legal(Scheme(120 / k, 8 / k), l)
    requires Minutes(l) == 10 * blocks + m && 0 <= m <= 9
    requires Ticks(Scheme(120 / k, 0), l) == n + 8 * (9 * blocks + m) / k
    ensures l == Count(Scheme(120 / k, 8 / k), n)
  {
    hide Ticks, Count, Minutes, Legal;
    var c := if k == 4 then NTSC else NTSC_FIELDS;
    assert Scheme(120 / k, 8 / k) == c;
    SameTicks(c, l);
    EightShared(9 * blocks + m, k);
    assert (10 * blocks + m) / 10 == blocks;
    CountOfFrame(c, l);
  }

  lemma SameTicks(c: Scheme, l: Label)
    ensures Ticks(Scheme(c.rate, 0), l) == Ticks(c, l)
  {
  }

  lemma EightShared(a: int, k: int)
    requires k == 4 || k == 2
    ensures 8 * a / k == 8 / k * a
  {
    if k == 4 {
    } else {
    }
  }

  /** The label count runs ahead of the frame count by eight units a minute, nine minutes in ten. */
  lemma LabelCountFormula(k: int, n: nat)
    requires FrameStep(k)
    ensures LabelCount(k, n) == n + 8 * (9 * (k * n / TEN_MINUTES) + FrameLabel(k, n).m % 10) / k
  {
    var blocks, m, x := UnitSplit(k * n);
    LabelCountAt(k, n, blocks, m, x);
  }

  lemma LabelCountAt(k: int, n: nat, blocks: int, m: int, x: int)
    requires FrameStep(k) && At(k * n, blocks, m, x)
    ensures LabelCount(k, n) == n + 8 * (9 * blocks + m) / k && FrameLabel(k, n).m % 10 == m
  {
    UnitPosition(k * n, blocks, m, x);
    FrameMinute(k, n, blocks, m, x);
    var seconds := 60 * (10 * blocks + m) + x / 120;
    assert k * n + 8 * (9 * blocks + m) == 120 * seconds + x % 120;
    InWholeFrames(k, n, 8 * (9 * blocks + m), seconds, x % 120);
  }

  lemma InWholeFrames(k: int, n: int, ahead: nat, seconds: int, f: int)
    requires FrameStep(k) && k * n + ahead == 120 * seconds + f
    ensures n + ahead / k == 120 / k * seconds + f / k
  {
    if k == 5 {
      assert ahead == 5 * (24 * seconds - n) + f;
    } else if k == 4 {
      assert ahead == 4 * (30 * seconds - n) + f;
    } else {
      assert ahead == 2 * (60 * seconds - n) + f;
    }
  }

  /**
   Labels never repeat or go back.  One is skipped exactly on entering a minute that is not a
   multiple of ten, and then the label count jumps by eight units, in whole frames rounded either way.
   */
  lemma LabelsSkip(k: int, n: nat)
    requires FrameStep(k)
    ensures var skipped := LabelCount(k, n + 1) - LabelCount(k, n) - 1;
            var entered := FrameLabel(k, n + 1);
            if FirstOfMinute(k, n + 1) && entered.m % 10 != 0 then 8 / k <= skipped <= (8 + k - 1) / k
            else skipped == 0
  {
    assert k * (n + 1) == k * n + k;
    var blocks, m, x := UnitSplit(k * n);
    if x + k < 7200 {
      Skipped(k, n, blocks, m, x, blocks, m, x + k);
    } else if m < 9 {
      Skipped(k, n, blocks, m, x, blocks, m + 1, x + k - MINUTE);
      EightMore(8 * (9 * blocks + m), k);
    } else {
      Skipped(k, n, blocks, m, x, blocks + 1, 0, x + k - 7200);
    }
  }

  /** From one position to the next. */
  lemma Skipped(k: int, n: nat, blocks: int, m: int, x: int, blocks': int, m': int, x': int)
    requires FrameStep(k)
    requires At(k * n, blocks, m, x) && At(k * (n + 1), blocks', m', x')
    ensures LabelCount(k, n + 1) - LabelCount(k, n) - 1
         == 8 * (9 * blocks' + m') / k - 8 * (9 * blocks + m) / k
    ensures FrameLabel(k, n + 1).m % 10 == m'
    ensures FirstOfMinute(k, n + 1) <==> x' - k < FirstUnit(m')
  {
    LabelCountAt(k, n, blocks, m, x);
    LabelCountAt(k, n + 1, blocks', m', x');
    FirstFrame(k, n + 1, blocks', m', x');
  }

  lemma EightMore(c: nat, k: int)
    requires FrameStep(k)
    ensures 8 / k <= (c + 8) / k - c / k <= (8 + k - 1) / k
  {
    if k == 5 { } else if k == 4 { } else { }
  }

  /** The label clock against the true one: at 119.88 units a second, 1000 labels last 1001 units. */
  lemma DriftInUnits(u: nat)
    ensures 72 * (u / TEN_MINUTES) - 7199
         <= 1000 * Ticks(UNITS, Count(UNITS, u)) - 1001 * u
         <= 72 * (u / TEN_MINUTES) + 7264
  {
    var blocks, m, x := UnitSplit(u);
    UnitPosition(u, blocks, m, x);
    var l := Count(UNITS, u);
    assert Ticks(UNITS, l) == 7200 * (10 * blocks + m) + x;
  }

  /** At 30000/1001 frames a second the label clock stays within two frames, plus 18/1000 of one in ten minutes. */
  lemma DriftAtNtsc(n: nat)
    ensures 18 * (n / 17982) - 1799 <= 1000 * LabelCount(4, n) - 1001 * n <= 18 * (n / 17982) + 1816
  {
    LabelCountFormula(4, n);
    var blocks, m, x := UnitSplit(4 * n);
    FrameMinute(4, n, blocks, m, x);
    assert blocks == n / 17982;
    assert n == 17982 * blocks + 1798 * m + x / 4;
  }
}
