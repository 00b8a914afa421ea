/**
 The sample banks of the client (vj-api.c): pages of slots, filled in order, and the index from a
 sample's key to the slot it was last put in.

 Of a slot only the id and the kind of its sample are kept.  A pointer to a slot is the number of the
 allocation of its bank and its place in it, so that a pointer into a freed bank can be told from a
 live one.  A slot with an id of 0 or less is free.
 */
module SampleBank {
  import opened CText

  datatype Slot = Slot(id: int, kind: int)
  datatype Bank = NoBank | Bank(slots: seq<Slot>, born: nat)
  datatype Ref = Ref(born: nat, slot: nat)
  datatype Where = Place(page: nat, slot: nat) | Full

  datatype Table = Table(banks: seq<Bank>, index: map<string, Ref>, births: nat)

  // ------------------------------------------------------------ keys

  function Zeros(n: nat): string {
    if n == 0 then "" else "0" + Zeros(n - 1)
  }

  function Padded(n: nat, width: nat): string {
    var digits := Digits(n);
    if |digits| < width then Zeros(width - |digits|) + digits else digits
  }

  /** `%0<width>d` */
  function Signed(n: int, width: nat): string
    requires width > 0
  {
    if n < 0 then "-" + Padded(-n, width - 1) else Padded(n, width)
  }

  /** `S%04d%02d` */
  function Key(id: int, kind: int): string {
    "S" + Signed(id, 4) + Signed(kind, 2)
  }

  lemma {:induction false} ReadZeros(n: nat, tail: string)
    ensures ReadDigits(Zeros(n) + tail, 0) == ReadDigits(tail, 0)
  {
    if n == 0 {
      assert Zeros(n) + tail == tail;
    } else {
      assert (Zeros(n) + tail)[1..] == Zeros(n - 1) + tail;
      ReadZeros(n - 1, tail);
    }
  }

  lemma ReadPadded(n: nat, width: nat)
    ensures ReadDigits(Padded(n, width), 0) == n
  {
    ReadDigitsOfDigits(n, "");
    assert Digits(n) + "" == Digits(n);
    if |Digits(n)| < width {
      ReadZeros(width - |Digits(n)|, Digits(n));
    }
  }

  lemma PaddedDiffer(n: nat, m: nat, width: nat)
    requires Padded(n, width) == Padded(m, width)
    ensures n == m
  {
    ReadPadded(n, width);
    ReadPadded(m, width);
  }

  lemma TwoPlaces(kind: nat)
    requires kind < 100
    ensures |Padded(kind, 2)| == 2
  {
    if kind >= 10 {
      assert Digits(kind / 10) == [DigitChar(kind / 10)];
      assert Digits(kind) == Digits(kind / 10) + [DigitChar(kind % 10)];
    } else {
      assert Zeros(1) == "0";
    }
  }

  lemma NoSign(n: nat, width: nat)
    ensures |Padded(n, width)| > 0 && '-' !in Padded(n, width)
  {
    DigitsAreDigits(n);
    if |Digits(n)| < width {
      ZerosAreZeros(width - |Digits(n)|);
    }
  }

  lemma {:induction false} ZerosAreZeros(n: nat)
    ensures |Zeros(n)| == n && forall k :: 0 <= k < n ==> Zeros(n)[k] == '0'
    ensures forall c :: c in Zeros(n) ==> c == '0'
  {
    if n == 0 {
    } else {
      ZerosAreZeros(n - 1);
    }
  }

  /** Keys without a sign in the kind, which is two digits long then. */
  lemma UnsignedKeysDiffer(a: string, b: string, a': string, b': string)
    requires |b| == |b'| && a + b == a' + b'
    ensures a == a' && b == b'
  {
    assert |a| == |a'| && a == (a + b)[..|a|] && a' == (a' + b')[..|a|];
    assert b == (a + b)[|a|..] && b' == (a' + b')[|a|..];
  }

  /** Keys with a sign there. */
  lemma SignedKeysDiffer(a: string, b: string, a': string, b': string)
    requires '-' !in a && '-' !in a' && a + ("-" + b) == a' + ("-" + b')
    ensures a == a' && b == b'
  {
    var x := a + ("-" + b);
    assert x[|a|] == '-' && x[|a'|] == '-';
    assert forall k :: 0 <= k < |a| ==> x[k] == a[k] && a[k] in a;
    assert forall k :: 0 <= k < |a'| ==> x[k] == a'[k] && a'[k] in a';
    assert |a| == |a'|;
    assert a == x[..|a|] && a' == x[..|a'|];
    assert b == x[|a| + 1..] && b' == x[|a'| + 1..];
  }

  lemma {:induction false} NoLeadingZero(n: nat)
    requires n > 0
    ensures |Digits(n)| > 0 && Digits(n)[0] != '0'
  {
    if n < 10 {
    } else {
      NoLeadingZero(n / 10);
    }
  }

  lemma ShortDigits(n: nat)
    requires n < 1000
    ensures 0 < |Digits(n)| <= 3
  {
    DigitsAreDigits(n);
    if n >= 10 {
      assert |Digits(n)| == |Digits(n / 10)| + 1;
      if n >= 100 {
        assert |Digits(n / 10)| == |Digits(n / 10 / 10)| + 1;
      }
    }
  }

  /** Ids below 1000 are padded to four digits, and only those begin with a zero. */
  lemma FirstDigit(id: nat)
    requires id > 0
    ensures |Padded(id, 4)| >= 4 && (id < 1000 ==> |Padded(id, 4)| == 4)
    ensures Padded(id, 4)[0] == '0' <==> id < 1000
  {
    if id < 1000 {
      ShortDigits(id);
      ZerosAreZeros(4 - |Digits(id)|);
      assert Padded(id, 4)[0] in Zeros(4 - |Digits(id)|);
    } else {
      FourDigits(id);
      NoLeadingZero(id);
    }
  }

  /** The samples with keys of their own: of a kind of at most two digits, or an id of at most three. */
  predicate Keyed(id: int, kind: int) {
    id > 0 ==> kind < 100 || id < 1000
  }

  /** Two different samples with keys of their own have different keys. */
  lemma KeysDiffer(id: int, kind: int, id': int, kind': int)
    requires id > 0 && id' > 0 && Keyed(id, kind) && Keyed(id', kind') && Key(id, kind) == Key(id', kind')
    ensures id == id' && kind == kind'
  {
    hide Padded;
    NoSign(id, 4);
    NoSign(id', 4);
    var a, a' := "S" + Padded(id, 4), "S" + Padded(id', 4);
    assert a[1..] == Padded(id, 4) && a'[1..] == Padded(id', 4);
    assert Key(id, kind) == a + Signed(kind, 2) && Key(id', kind') == a' + Signed(kind', 2);
    SignShows(a, kind);
    SignShows(a', kind');
    if kind >= 0 {
      SameLengths(id, kind, id', kind');
      UnsignedKeysDiffer(a, Padded(kind, 2), a', Padded(kind', 2));
      PaddedDiffer(kind, kind', 2);
    } else {
      SignedKeysDiffer(a, Padded(-kind, 1), a', Padded(-kind', 1));
      PaddedDiffer(-kind, -kind', 1);
    }
    PaddedDiffer(id, id', 4);
  }

  /** The first digit of the id tells which of the two parts has a fixed length. */
  lemma SameLengths(id: nat, kind: nat, id': nat, kind': nat)
    requires id > 0 && id' > 0 && Keyed(id, kind) && Keyed(id', kind') && Key(id, kind) == Key(id', kind')
    ensures |Padded(kind, 2)| == |Padded(kind', 2)|
  {
    hide Padded;
    FirstDigit(id);
    FirstDigit(id');
    assert Key(id, kind)[1] == Padded(id, 4)[0] && Key(id', kind')[1] == Padded(id', 4)[0];
    if id < 1000 {
      assert |Key(id, kind)| == 5 + |Padded(kind, 2)| && |Key(id', kind')| == 5 + |Padded(kind', 2)|;
    } else {
      TwoPlaces(kind);
      TwoPlaces(kind');
    }
  }

  lemma SignShows(a: string, kind: int)
    requires '-' !in a
    ensures '-' in a + Signed(kind, 2) <==> kind < 0
  {
    if kind < 0 {
      assert (a + Signed(kind, 2))[|a|] == '-';
    } else {
      NoSign(kind, 2);
    }
  }

  /** And the key of a negative id is none of a positive one. */
  lemma NegativeKeysDiffer(id: int, kind: int, id': int, kind': int)
    requires id < 0 < id'
    ensures Key(id, kind) != Key(id', kind')
  {
    hide Padded;
    NoSign(id', 4);
    assert Key(id, kind)[1] == '-';
    assert Key(id', kind')[1] == Padded(id', 4)[0];
    assert Padded(id', 4)[0] in Padded(id', 4);
  }

  /** The number whose digits are those of `a` and then those of `b`. */
  function Joined(a: nat, b: nat): nat {
    if b < 10 then 10 * a + b else 10 * Joined(a, b / 10) + b % 10
  }

  lemma {:induction false} DigitsOfJoined(a: nat, b: nat)
    requires a > 0
    ensures Digits(Joined(a, b)) == Digits(a) + Digits(b) && Joined(a, b) >= 10 * a
  {
    if b < 10 {
    } else {
      DigitsOfJoined(a, b / 10);
      assert Digits(a) + Digits(b / 10) + [DigitChar(b % 10)] == Digits(a) + Digits(b);
    }
  }

  lemma TensAndOnes(n: nat)
    ensures n / 10 / 10 == n / 100 && n % 100 == 10 * (n / 10 % 10) + n % 10
  {
  }

  lemma DigitsUnfold(n: nat)
    requires n >= 10
    ensures Digits(n) == Digits(n / 10) + [DigitChar(n % 10)]
  {
  }

  lemma LastTwoDigits(n: nat)
    requires n >= 100
    ensures Digits(n) == Digits(n / 100) + Padded(n % 100, 2) && |Digits(n)| > 2
  {
    hide Digits, Padded, DigitChar;
    TensAndOnes(n);
    var tens, ones := n / 10 % 10, n % 10;
    DigitsUnfold(n);
    DigitsUnfold(n / 10);
    assert Digits(n) == Digits(n / 100) + [DigitChar(tens), DigitChar(ones)];
    DigitsAreDigits(n / 100);
    TwoDigits(tens, ones);
  }

  lemma TwoDigits(tens: nat, ones: nat)
    requires tens < 10 && ones < 10
    ensures Padded(10 * tens + ones, 2) == [DigitChar(tens), DigitChar(ones)]
  {
    var n := 10 * tens + ones;
    if tens > 0 {
      assert n / 10 == tens && n % 10 == ones;
      assert Digits(n) == Digits(tens) + [DigitChar(ones)];
      assert Digits(tens) == [DigitChar(tens)];
    } else {
      assert Digits(n) == [DigitChar(ones)];
      assert Zeros(1) == "0" && DigitChar(0) == '0';
    }
  }

  /** One digit more, in one place more. */
  lemma PadDigit(n: nat, d: nat, width: nat)
    requires d < 10 && width > 0
    ensures Padded(10 * n + d, width + 1) == Padded(n, width) + [DigitChar(d)]
  {
    if n > 0 {
      assert Digits(10 * n + d) == Digits(n) + [DigitChar(d)];
      DigitsAreDigits(n);
    } else {
      OnePlace(0);
      OnePlace(d);
      PaddedZero(width);
      ZerosAreZeros(width);
    }
  }

  lemma PaddedZero(width: nat)
    requires width > 0
    ensures Padded(0, width) == Zeros(width)
  {
    OnePlace(0);
    ZerosAreZeros(width);
    ZerosAreZeros(width - 1);
    assert Zeros(width) == Zeros(width - 1) + "0";
  }

  /** Samples with small numbers: a letter, four digits of the id and two of the kind. */
  lemma KeyInDigits(a: nat, b: nat, c: nat, d: nat, tens: nat, ones: nat)
    requires a < 10 && b < 10 && c < 10 && d < 10 && tens < 10 && ones < 10
    ensures Key(1000 * a + 100 * b + 10 * c + d, 10 * tens + ones)
         == ['S', DigitChar(a), DigitChar(b), DigitChar(c), DigitChar(d), DigitChar(tens), DigitChar(ones)]
  {
    hide Padded, Digits, DigitChar;
    OnePlace(a);
    PadDigit(a, b, 1);
    PadDigit(10 * a + b, c, 2);
    PadDigit(100 * a + 10 * b + c, d, 3);
    TwoDigits(tens, ones);
  }

  lemma OnePlace(n: nat)
    requires n < 10
    ensures Digits(n) == [DigitChar(n)] && Padded(n, 1) == [DigitChar(n)] && (n == 0 ==> Digits(n) == "0")
  {
  }

  /** A kind of three digits or more runs into an id of four: some sample with a kind of two has the same key. */
  lemma KeysCollide(id: nat, kind: nat)
    requires id >= 1000 && kind >= 100
    ensures exists id': nat :: Key(id', kind % 100) == Key(id, kind) && id' > id
  {
    hide Digits, Padded;
    var id' := Joined(id, kind / 100);
    DigitsOfJoined(id, kind / 100);
    LastTwoDigits(kind);
    FourDigits(id);
    FourDigits(id');
    assert Key(id', kind % 100) == "S" + (Digits(id) + Digits(kind / 100)) + Padded(kind % 100, 2);
    assert Key(id, kind) == "S" + Digits(id) + (Digits(kind / 100) + Padded(kind % 100, 2)) by {
      ThreeDigits(kind);
    }
    assert Key(id', kind % 100) == Key(id, kind);
  }

  /**
   The samples with keys of their own are exactly those: no other of them has the same key, and any
   sample that is not of them shares its key with one that is.
   */
  lemma OwnKeys(id: int, kind: int)
    requires id > 0
    ensures Keyed(id, kind) <==>
            forall id', kind' :: id' > 0 && Keyed(id', kind') && Key(id', kind') == Key(id, kind) ==>
              id' == id && kind' == kind
  {
    hide Key;
    if Keyed(id, kind) {
      forall id', kind' | id' > 0 && Keyed(id', kind') && Key(id', kind') == Key(id, kind)
        ensures id' == id && kind' == kind {
        KeysDiffer(id', kind', id, kind);
      }
    } else {
      KeysCollide(id, kind);
    }
  }

  lemma FourDigits(n: nat)
    requires n >= 1000
    ensures Padded(n, 4) == Digits(n) && |Digits(n)| >= 4
  {
    LastTwoDigits(n);
    TwoPlaces(n % 100);
    assert |Digits(n / 100)| >= 2 by {
      DigitsAreDigits(n / 100 / 10);
    }
  }

  lemma ThreeDigits(n: nat)
    requires n >= 100
    ensures Padded(n, 2) == Digits(n)
  {
    LastTwoDigits(n);
  }

  // ------------------------------------------------------------ where a sample goes

  function SlotHolding(slots: seq<Slot>, id: int, kind: int, j: nat): (r: nat)
    requires j <= |slots|
    ensures j <= r <= |slots|
    decreases |slots| - j
  {
    if j == |slots| || slots[j] == Slot(id, kind) then j else SlotHolding(slots, id, kind, j + 1)
  }

  function FreeSlot(slots: seq<Slot>, j: nat): (r: nat)
    requires j <= |slots|
    ensures j <= r <= |slots|
    decreases |slots| - j
  {
    if j == |slots| || slots[j].id <= 0 then j else FreeSlot(slots, j + 1)
  }

  function FindHolding(banks: seq<Bank>, id: int, kind: int, i: nat): Where
    requires i <= |banks|
    decreases |banks| - i
  {
    if i == |banks| then Full
    else if banks[i].Bank? && SlotHolding(banks[i].slots, id, kind, 0) < |banks[i].slots| then
      Place(i, SlotHolding(banks[i].slots, id, kind, 0))
    else FindHolding(banks, id, kind, i + 1)
  }

  function FindFree(banks: seq<Bank>, i: nat): Where
    requires i <= |banks|
    decreases |banks| - i
  {
    if i == |banks| then Full
    else if banks[i].NoBank? then Place(i, 0)
    else if FreeSlot(banks[i].slots, 0) < |banks[i].slots| then Place(i, FreeSlot(banks[i].slots, 0))
    else FindFree(banks, i + 1)
  }

  function Find(banks: seq<Bank>, id: int, kind: int): Where {
    var held := FindHolding(banks, id, kind, 0);
    if held.Place? then held else FindFree(banks, 0)
  }

  predicate Holds(banks: seq<Bank>, page: nat, slot: nat, id: int, kind: int) {
    && page < |banks| && banks[page].Bank? && slot < |banks[page].slots|
    && banks[page].slots[slot] == Slot(id, kind)
  }

  /** Free for a sample: an empty slot, or the first of a page that is not there yet. */
  predicate Free(banks: seq<Bank>, page: nat, slot: nat) {
    && page < |banks|
    && if banks[page].NoBank? then slot == 0 else slot < |banks[page].slots| && banks[page].slots[slot].id <= 0
  }

  predicate Before(page: nat, slot: nat, page': nat, slot': nat) {
    page < page' || (page == page' && slot < slot')
  }

  lemma {:induction false} SlotHoldingIsFirst(slots: seq<Slot>, id: int, kind: int, j: nat)
    requires j <= |slots|
    ensures var r := SlotHolding(slots, id, kind, j);
            && (r < |slots| ==> slots[r] == Slot(id, kind))
            && forall k :: j <= k < r ==> slots[k] != Slot(id, kind)
    decreases |slots| - j
  {
    if j == |slots| {
    } else {
      SlotHoldingIsFirst(slots, id, kind, j + 1);
    }
  }

  lemma {:induction false} FreeSlotIsFirst(slots: seq<Slot>, j: nat)
    requires j <= |slots|
    ensures var r := FreeSlot(slots, j);
            && (r < |slots| ==> slots[r].id <= 0)
            && forall k :: j <= k < r ==> slots[k].id > 0
    decreases |slots| - j
  {
    if j == |slots| {
    } else {
      FreeSlotIsFirst(slots, j + 1);
    }
  }

  lemma {:induction false} FindHoldingIsFirst(banks: seq<Bank>, id: int, kind: int, i: nat)
    requires i <= |banks|
    ensures var w := FindHolding(banks, id, kind, i);
            && (w.Place? ==> w.page >= i && Holds(banks, w.page, w.slot, id, kind))
            && forall p: nat, s: nat | i <= p && Holds(banks, p, s, id, kind) ::
                 w.Place? && !Before(p, s, w.page, w.slot)
    decreases |banks| - i
  {
    if i == |banks| {
    } else {
      if banks[i].Bank? {
        SlotHoldingIsFirst(banks[i].slots, id, kind, 0);
      }
      FindHoldingIsFirst(banks, id, kind, i + 1);
    }
  }

  lemma {:induction false} FindFreeIsFirst(banks: seq<Bank>, i: nat)
    requires i <= |banks|
    ensures var w := FindFree(banks, i);
            && (w.Place? ==> w.page >= i && Free(banks, w.page, w.slot))
            && forall p: nat, s: nat | i <= p && Free(banks, p, s) :: w.Place? && !Before(p, s, w.page, w.slot)
    decreases |banks| - i
  {
    if i == |banks| {
    } else {
      if banks[i].Bank? {
        FreeSlotIsFirst(banks[i].slots, 0);
      }
      FindFreeIsFirst(banks, i + 1);
    }
  }

  /**
   A sample that is in the banks is found where it first stands; one that is not goes to the first
   free place, page by page; there is nowhere for it just when nothing is free.
   */
  lemma FindIsFirst(banks: seq<Bank>, id: int, kind: int)
    ensures var w := Find(banks, id, kind);
            if exists p: nat, s: nat :: Holds(banks, p, s, id, kind) then
              && w.Place? && Holds(banks, w.page, w.slot, id, kind)
              && forall p: nat, s: nat | Holds(banks, p, s, id, kind) :: !Before(p, s, w.page, w.slot)
            else if exists p: nat, s: nat :: Free(banks, p, s) then
              && w.Place? && Free(banks, w.page, w.slot)
              && forall p: nat, s: nat | Free(banks, p, s) :: !Before(p, s, w.page, w.slot)
            else w == Full
  {
    FindHoldingIsFirst(banks, id, kind, 0);
    FindFreeIsFirst(banks, 0);
  }

  // ------------------------------------------------------------ the operations, on values

  /** add_bank: a page of empty slots */
  function WithBank(t: Table, page: nat, perPage: nat): Table
    requires page < |t.banks|
  {
    t.(banks := t.banks[page := Bank(seq(perPage, _ => Slot(-1, -1)), t.births)], births := t.births + 1)
  }

  /** update_sample_slot_data */
  function Stored(t: Table, page: nat, slot: nat, id: int, kind: int): Table
    requires page < |t.banks| && t.banks[page].Bank? && slot < |t.banks[page].slots|
  {
    var bank := t.banks[page];
    t.(banks := t.banks[page := bank.(slots := bank.slots[slot := Slot(id, kind)])],
       index := if id != 0 then t.index[Key(id, kind) := Ref(bank.born, slot)] else t.index)
  }

  /** verify_bank_capacity's effect on the banks, when it finds `w` */
  function Opened(t: Table, w: Where, perPage: nat): Table
  {
    if w.Place? && w.page < |t.banks| && t.banks[w.page].NoBank? then WithBank(t, w.page, perPage) else t
  }

  function Cleared(slot: Slot): Slot {
    if slot.id != 0 then Slot(0, 0) else slot
  }

  function ClearedBank(bank: Bank): Bank {
    if bank.NoBank? then bank
    else bank.(slots := seq(|bank.slots|, j requires 0 <= j < |bank.slots| => Cleared(bank.slots[j])))
  }

  /** reset_samplebank */
  function Reset(t: Table): Table {
    t.(banks := seq(|t.banks|, i requires 0 <= i < |t.banks| => ClearedBank(t.banks[i])))
  }

  /** free_samplebank; the index is left as it is */
  function Freed(t: Table): Table {
    t.(banks := seq(|t.banks|, _ => NoBank))
  }

  // ------------------------------------------------------------ the invariant

  ghost predicate Shaped(t: Table, perPage: nat) {
    && perPage > 0
    && (forall i :: 0 <= i < |t.banks| && t.banks[i].Bank? ==>
          |t.banks[i].slots| == perPage && t.banks[i].born < t.births)
    && (forall i, j :: 0 <= i < j < |t.banks| && t.banks[j].Bank? ==>
          t.banks[i].Bank? && t.banks[i].born != t.banks[j].born)
  }

  /** No sample stands in two slots. */
  ghost predicate Unique(banks: seq<Bank>) {
    forall p: nat, s: nat, p': nat, s': nat, id, kind ::
      id > 0 && Holds(banks, p, s, id, kind) && Holds(banks, p', s', id, kind) ==> p == p' && s == s'
  }

  ghost predicate Good(t: Table, perPage: nat) {
    Shaped(t, perPage) && Unique(t.banks)
  }

  /** All samples have keys of their own, and the index leads to their slots. */
  ghost predicate Indexed(t: Table) {
    && (forall p: nat, s: nat, id, kind :: Holds(t.banks, p, s, id, kind) ==> Keyed(id, kind))
    && (forall p: nat, s: nat, id, kind :: id > 0 && Holds(t.banks, p, s, id, kind) ==>
          Key(id, kind) in t.index && t.index[Key(id, kind)] == Ref(t.banks[p].born, s))
  }

  // ------------------------------------------------------------ the operations keep it

  ghost predicate NextPage(banks: seq<Bank>, page: nat) {
    page < |banks| && banks[page].NoBank? && forall i :: 0 <= i < page ==> banks[i].Bank?
  }

  lemma NewBankIsShaped(t: Table, page: nat, perPage: nat)
    requires Shaped(t, perPage) && NextPage(t.banks, page)
    ensures Shaped(WithBank(t, page, perPage), perPage)
  {
  }

  /** Every sample of the second banks stands at the same place in the first. */
  ghost predicate Within(after: seq<Bank>, before: seq<Bank>) {
    && |after| == |before|
    && forall p: nat, s: nat, id, kind :: id > 0 && Holds(after, p, s, id, kind) ==>
         Holds(before, p, s, id, kind) && after[p].born == before[p].born
  }

  lemma FewerStayGood(t: Table, t': Table, perPage: nat)
    requires Good(t, perPage) && Shaped(t', perPage) && Within(t'.banks, t.banks) && t'.index == t.index
    ensures Good(t', perPage) && (Indexed(t) ==> Indexed(t'))
  {
    hide Shaped, Holds;
    assert Unique(t'.banks);
    if Indexed(t) {
      forall p: nat, s: nat, id, kind | Holds(t'.banks, p, s, id, kind) ensures Keyed(id, kind) {
        if id > 0 {
          assert Holds(t.banks, p, s, id, kind);
        }
      }
      assert Indexed(t');
    }
  }

  lemma OpeningKeepsGood(t: Table, id: int, kind: int, perPage: nat)
    requires Good(t, perPage)
    ensures var w := Find(t.banks, id, kind);
            && (w.Place? ==> w.page < |t.banks| && w.slot < perPage)
            && Good(Opened(t, w, perPage), perPage) && (Indexed(t) ==> Indexed(Opened(t, w, perPage)))
            && (w.Place? ==> Opened(t, w, perPage).banks[w.page].Bank?)
  {
    var w := Find(t.banks, id, kind);
    FindHoldingIsFirst(t.banks, id, kind, 0);
    FindFreeIsFirst(t.banks, 0);
    if w.Place? && t.banks[w.page].NoBank? {
      assert NextPage(t.banks, w.page) by {
        forall i: nat | i < w.page ensures t.banks[i].Bank? {
          if t.banks[i].NoBank? {
            assert Free(t.banks, i, 0) && Before(i, 0, w.page, w.slot);
          }
        }
      }
      NewBankIsShaped(t, w.page, perPage);
      FewerStayGood(t, WithBank(t, w.page, perPage), perPage);
    }
  }

  lemma ResetKeepsGood(t: Table, perPage: nat)
    requires Good(t, perPage)
    ensures Good(Reset(t), perPage) && (Indexed(t) ==> Indexed(Reset(t)))
    ensures forall p: nat, s: nat, id, kind :: id > 0 ==> !Holds(Reset(t).banks, p, s, id, kind)
    ensures forall p: nat, s: nat, id, kind :: id != 0 && Holds(t.banks, p, s, id, kind) ==>
              Holds(Reset(t).banks, p, s, 0, 0)
    ensures forall p: nat, s: nat, kind :: Holds(t.banks, p, s, 0, kind) ==> Holds(Reset(t).banks, p, s, 0, kind)
  {
  }

  lemma FreeKeepsGood(t: Table, perPage: nat)
    requires Good(t, perPage)
    ensures Good(Freed(t), perPage) && Indexed(Freed(t))
    ensures forall p: nat, s: nat, id, kind :: !Holds(Freed(t).banks, p, s, id, kind)
  {
  }

  /** Emptying a slot, as for a deleted sample. */
  lemma RemovalKeepsGood(t: Table, page: nat, slot: nat, kind: int, perPage: nat)
    requires Good(t, perPage) && page < |t.banks| && t.banks[page].Bank? && slot < perPage
    ensures Good(Stored(t, page, slot, 0, kind), perPage) && (Indexed(t) ==> Indexed(Stored(t, page, slot, 0, kind)))
    ensures forall id, k :: id > 0 ==> !Holds(Stored(t, page, slot, 0, kind).banks, page, slot, id, k)
  {
    FewerStayGood(t, Stored(t, page, slot, 0, kind), perPage);
  }

  /** add_sample_to_sample_banks */
  function Added(t: Table, id: int, kind: int, perPage: nat): Table
    requires Good(t, perPage)
  {
    OpeningKeepsGood(t, id, kind, perPage);
    var w := Find(t.banks, id, kind);
    if w.Full? then t else Stored(Opened(t, w, perPage), w.page, w.slot, id, kind)
  }

  /** What storing a sample in a free slot, or in the one it has, does to the places of samples. */
  lemma StoringPlaces(t: Table, page: nat, slot: nat, id: int, kind: int, p: nat, s: nat, id': int, kind': int)
    requires page < |t.banks| && t.banks[page].Bank? && slot < |t.banks[page].slots| && id' > 0
    requires t.banks[page].slots[slot].id <= 0 || Holds(t.banks, page, slot, id, kind)
    ensures Holds(Stored(t, page, slot, id, kind).banks, p, s, id', kind')
            <==> Holds(t.banks, p, s, id', kind') || (p == page && s == slot && id' == id && kind' == kind)
  {
  }

  /** The place has room for the sample, which stands nowhere else. */
  ghost predicate FitsAt(t: Table, page: nat, slot: nat, id: int, kind: int, perPage: nat) {
    && Good(t, perPage) && page < |t.banks| && t.banks[page].Bank? && slot < perPage
    && (t.banks[page].slots[slot].id <= 0 || Holds(t.banks, page, slot, id, kind))
    && (id > 0 ==> forall p: nat, s: nat :: Holds(t.banks, p, s, id, kind) ==> p == page && s == slot)
  }

  lemma StoringKeepsGood(t: Table, page: nat, slot: nat, id: int, kind: int, perPage: nat)
    requires FitsAt(t, page, slot, id, kind, perPage)
    ensures Good(Stored(t, page, slot, id, kind), perPage)
    ensures Indexed(t) && Keyed(id, kind) ==> Indexed(Stored(t, page, slot, id, kind))
  {
    var t' := Stored(t, page, slot, id, kind);
    assert Shaped(t', perPage);
    hide Stored, Holds, Key, Shaped, Indexed;
    forall p: nat, s: nat, id', kind' | id' > 0
      ensures Holds(t'.banks, p, s, id', kind')
              <==> Holds(t.banks, p, s, id', kind') || (p == page && s == slot && id' == id && kind' == kind) {
      StoringPlaces(t, page, slot, id, kind, p, s, id', kind');
    }
    assert Unique(t'.banks);
    if Indexed(t) && Keyed(id, kind) {
      StoringKeepsIndexed(t, page, slot, id, kind, perPage);
    }
  }

  lemma StoringKeepsIndexed(t: Table, page: nat, slot: nat, id: int, kind: int, perPage: nat)
    requires FitsAt(t, page, slot, id, kind, perPage) && Indexed(t) && Keyed(id, kind)
    ensures Indexed(Stored(t, page, slot, id, kind))
  {
    hide Key;
    var t' := Stored(t, page, slot, id, kind);
    forall p: nat, s: nat, id', kind' | Holds(t'.banks, p, s, id', kind')
      ensures Keyed(id', kind')
      ensures id' > 0 ==> Key(id', kind') in t'.index && t'.index[Key(id', kind')] == Ref(t'.banks[p].born, s) {
      if id' > 0 {
        StoringPlaces(t, page, slot, id, kind, p, s, id', kind');
        if Holds(t.banks, p, s, id', kind') && id != 0 && Key(id', kind') == Key(id, kind) {
          if id > 0 {
            KeysDiffer(id', kind', id, kind);
          } else {
            NegativeKeysDiffer(id, kind, id', kind');
          }
        }
      }
    }
  }

  /**
   Adding a sample.  One that the banks hold keeps its slot, and the banks stay as they are; a new one
   goes to the first free slot, page by page, and every other sample stays where it is; when nothing is
   free the table is left as it was.  The index keeps leading to all samples if the new one has a key
   of its own.
   */
  lemma AddingIsRight(t: Table, id: int, kind: int, perPage: nat)
    requires Good(t, perPage)
    ensures var t', w := Added(t, id, kind, perPage), Find(t.banks, id, kind);
            && Good(t', perPage) && (Indexed(t) && Keyed(id, kind) ==> Indexed(t'))
            && ((exists p: nat, s: nat :: Holds(t.banks, p, s, id, kind)) ==>
                  t'.banks == t.banks && (Indexed(t) && id >= 0 ==> t' == t))
            && (w.Full? ==> t' == t && forall p: nat, s: nat :: !Free(t.banks, p, s))
            && (w.Place? ==>
                  && Holds(t'.banks, w.page, w.slot, id, kind)
                  && (id != 0 ==> Key(id, kind) in t'.index
                                  && t'.index[Key(id, kind)] == Ref(t'.banks[w.page].born, w.slot))
                  && forall p: nat, s: nat, id', kind' :: id' > 0 ==>
                       (Holds(t'.banks, p, s, id', kind') <==>
                        Holds(t.banks, p, s, id', kind') || (p == w.page && s == w.slot && id' == id && kind' == kind)))
  {
    hide Key;
    FindHoldingIsFirst(t.banks, id, kind, 0);
    FindFreeIsFirst(t.banks, 0);
    OpeningKeepsGood(t, id, kind, perPage);
    var w := Find(t.banks, id, kind);
    if w.Place? {
      PlacingIsRight(t, w, id, kind, perPage);
    }
  }

  lemma PlacingIsRight(t: Table, w: Where, id: int, kind: int, perPage: nat)
    requires Good(t, perPage) && w == Find(t.banks, id, kind) && w.Place?
    ensures var t' := Added(t, id, kind, perPage);
            && Good(t', perPage) && (Indexed(t) && Keyed(id, kind) ==> Indexed(t'))
            && ((exists p: nat, s: nat :: Holds(t.banks, p, s, id, kind)) ==>
                  t'.banks == t.banks && (Indexed(t) && id >= 0 ==> t' == t))
            && Holds(t'.banks, w.page, w.slot, id, kind)
            && (id != 0 ==> Key(id, kind) in t'.index && t'.index[Key(id, kind)] == Ref(t'.banks[w.page].born, w.slot))
            && forall p: nat, s: nat, id', kind' :: id' > 0 ==>
                 (Holds(t'.banks, p, s, id', kind') <==>
                  Holds(t.banks, p, s, id', kind') || (p == w.page && s == w.slot && id' == id && kind' == kind))
  {
    hide Key, Indexed;
    FindHoldingIsFirst(t.banks, id, kind, 0);
    FindFreeIsFirst(t.banks, 0);
    OpeningKeepsGood(t, id, kind, perPage);
    var o := Opened(t, w, perPage);
    forall p: nat, s: nat, id', kind' | id' > 0
      ensures Holds(o.banks, p, s, id', kind') <==> Holds(t.banks, p, s, id', kind') {
    }
    assert FitsAt(o, w.page, w.slot, id, kind, perPage);
    StoringKeepsGood(o, w.page, w.slot, id, kind, perPage);
    forall p: nat, s: nat, id', kind' | id' > 0
      ensures Holds(Stored(o, w.page, w.slot, id, kind).banks, p, s, id', kind')
              <==> Holds(o.banks, p, s, id', kind') || (p == w.page && s == w.slot && id' == id && kind' == kind) {
      StoringPlaces(o, w.page, w.slot, id, kind, p, s, id', kind');
    }
    if exists p: nat, s: nat :: Holds(t.banks, p, s, id, kind) {
      StoringAgainIsNothing(t, w.page, w.slot, id, kind);
    }
  }

  lemma StoringAgainIsNothing(t: Table, page: nat, slot: nat, id: int, kind: int)
    requires Holds(t.banks, page, slot, id, kind)
    ensures Stored(t, page, slot, id, kind).banks == t.banks
    ensures Indexed(t) && id >= 0 ==> Stored(t, page, slot, id, kind) == t
  {
    hide Key;
    var bank := t.banks[page];
    assert bank.slots[slot := Slot(id, kind)] == bank.slots;
    assert t.banks[page := bank] == t.banks;
    if Indexed(t) && id > 0 {
      assert t.index[Key(id, kind) := Ref(bank.born, slot)] == t.index;
    }
  }

  // ------------------------------------------------------------ the index

  /** find_slot_by_sample leads to a slot of the banks that holds the sample. */
  ghost predicate LeadsToSample(t: Table, id: int, kind: int) {
    && Key(id, kind) in t.index
    && exists p: nat, s: nat :: Holds(t.banks, p, s, id, kind) && t.index[Key(id, kind)] == Ref(t.banks[p].born, s)
  }

  /** The index answers rightly for just the samples that are in the banks; the keys of others are stale. */
  lemma LookupIsRight(t: Table, id: int, kind: int)
    requires Indexed(t) && id > 0
    ensures LeadsToSample(t, id, kind) <==> exists p: nat, s: nat :: Holds(t.banks, p, s, id, kind)
  {
    hide Key;
  }

  /** Once the banks are freed, whatever the index leads to is gone, and stays gone: births only go up. */
  lemma FreedLookupDangles(t: Table, id: int, kind: int, perPage: nat)
    requires Good(t, perPage) && Indexed(t) && id > 0 && exists p: nat, s: nat :: Holds(t.banks, p, s, id, kind)
    ensures Key(id, kind) in Freed(t).index && Freed(t).index[Key(id, kind)].born < Freed(t).births
    ensures forall p: nat :: p < |Freed(t).banks| ==> Freed(t).banks[p].NoBank?
    ensures !LeadsToSample(Freed(t), id, kind)
  {
    hide Key;
  }

  /**
   A sample without a key of its own is misled about: another sample, of a kind of two digits, that is
   added later takes over its key.
   */
  lemma CollisionMisleads(t: Table, id: int, kind: int, perPage: nat) returns (id': int)
    requires Good(t, perPage) && id > 0 && !Keyed(id, kind)
    requires exists p: nat, s: nat :: Holds(t.banks, p, s, id, kind)
    ensures id' > id && Key(id', kind % 100) == Key(id, kind)
    ensures Find(t.banks, id', kind % 100).Place? ==>
              var t' := Added(t, id', kind % 100, perPage);
              (exists p: nat, s: nat :: Holds(t'.banks, p, s, id, kind)) && !LeadsToSample(t', id, kind)
  {
    KeysCollide(id, kind);
    id' :| id' > id && Key(id', kind % 100) == Key(id, kind);
    hide Key;
    AddingIsRight(t, id', kind % 100, perPage);
    var w := Find(t.banks, id', kind % 100);
    if w.Place? {
      var t' := Added(t, id', kind % 100, perPage);
      forall p: nat, s: nat | Holds(t'.banks, p, s, id, kind)
        ensures t'.index[Key(id, kind)] != Ref(t'.banks[p].born, s) {
        PlacesDiffer(t', perPage, p, s, w.page, w.slot);
      }
    }
  }

  /** Pointers to different places are different. */
  lemma PlacesDiffer(t: Table, perPage: nat, p: nat, s: nat, p': nat, s': nat)
    requires Good(t, perPage) && p < |t.banks| && p' < |t.banks| && t.banks[p].Bank? && t.banks[p'].Bank?
    requires p != p' || s != s'
    ensures Ref(t.banks[p].born, s) != Ref(t.banks[p'].born, s')
  {
  }

  // ------------------------------------------------------------ every sequence of operations

  datatype Op = Add(id: int, kind: int) | Remove(page: nat, slot: nat) | ResetAll | FreeAll

  /** Removing acts on the slot that is selected; without one it does nothing. */
  ghost function Do(t: Table, op: Op, perPage: nat): Table
    requires Good(t, perPage)
  {
    match op
    case Add(id, kind) => Added(t, id, kind, perPage)
    case Remove(page, slot) =>
      if page < |t.banks| && t.banks[page].Bank? && slot < perPage then Stored(t, page, slot, 0, -1) else t
    case ResetAll => Reset(t)
    case FreeAll => Freed(t)
  }

  predicate KeyedOp(op: Op) {
    op.Add? ==> Keyed(op.id, op.kind)
  }

  lemma DoKeepsGood(t: Table, op: Op, perPage: nat)
    requires Good(t, perPage)
    ensures Good(Do(t, op, perPage), perPage) && |Do(t, op, perPage).banks| == |t.banks|
    ensures t.births <= Do(t, op, perPage).births
    ensures Indexed(t) && KeyedOp(op) ==> Indexed(Do(t, op, perPage))
  {
    hide Find, Good, Indexed;
    GoodIsShaped(t, perPage);
    match op
    case Add(id, kind) =>
      AddingIsRight(t, id, kind, perPage);
      OpeningKeepsGood(t, id, kind, perPage);
    case Remove(page, slot) =>
      if page < |t.banks| && t.banks[page].Bank? && slot < perPage {
        RemovalKeepsGood(t, page, slot, -1, perPage);
      }
    case ResetAll => ResetKeepsGood(t, perPage);
    case FreeAll => FreeKeepsGood(t, perPage);
  }

  lemma GoodIsShaped(t: Table, perPage: nat)
    requires Good(t, perPage)
    ensures Shaped(t, perPage)
  {
  }

  /** The operations one after another. */
  ghost function Execute(t: Table, ops: seq<Op>, perPage: nat): (r: Table)
    requires Good(t, perPage)
    ensures Good(r, perPage) && |r.banks| == |t.banks| && t.births <= r.births
    ensures Indexed(t) && (forall op :: op in ops ==> KeyedOp(op)) ==> Indexed(r)
    decreases |ops|
  {
    if ops == [] then t
    else
      DoKeepsGood(t, ops[0], perPage);
      Execute(Do(t, ops[0], perPage), ops[1..], perPage)
  }

  function Start(pages: nat): Table {
    Table(seq(pages, _ => NoBank), map[], 0)
  }

  /**
   From an empty table, whatever is added, removed, reset and freed: the pages in use are the first
   ones, no sample stands twice, and, if all samples added have keys of their own, the index answers
   rightly for just the samples that are there.
   */
  lemma EveryRunIsGood(pages: nat, ops: seq<Op>, perPage: nat, id: int, kind: int)
    requires perPage > 0 && id > 0
    ensures Good(Start(pages), perPage)
    ensures var t := Execute(Start(pages), ops, perPage);
            && (forall i, j :: 0 <= i < j < pages && t.banks[j].Bank? ==> t.banks[i].Bank?)
            && (forall p: nat, s: nat, p': nat, s': nat ::
                  Holds(t.banks, p, s, id, kind) && Holds(t.banks, p', s', id, kind) ==> p == p' && s == s')
            && ((forall op :: op in ops ==> KeyedOp(op)) ==>
                  (LeadsToSample(t, id, kind) <==> exists p: nat, s: nat :: Holds(t.banks, p, s, id, kind)))
  {
    hide Execute, Key;
    if forall op :: op in ops ==> KeyedOp(op) {
      LookupIsRight(Execute(Start(pages), ops, perPage), id, kind);
    }
  }

  // ------------------------------------------------------------ which sample a key stands for

  /** The sample last put in a slot under each key, after one more operation. */
  ghost function Owned(owner: map<string, Slot>, t: Table, op: Op): map<string, Slot> {
    if op.Add? && op.id != 0 && Find(t.banks, op.id, op.kind).Place? then
      owner[Key(op.id, op.kind) := Slot(op.id, op.kind)]
    else
      owner
  }

  /** And after all of them. */
  ghost function Owners(owner: map<string, Slot>, t: Table, ops: seq<Op>, perPage: nat): map<string, Slot>
    requires Good(t, perPage)
    decreases |ops|
  {
    if ops == [] then owner
    else
      DoKeepsGood(t, ops[0], perPage);
      Owners(Owned(owner, t, ops[0]), Do(t, ops[0], perPage), ops[1..], perPage)
  }

  predicate Owns(owner: map<string, Slot>, id: int, kind: int) {
    Key(id, kind) in owner && owner[Key(id, kind)] == Slot(id, kind)
  }

  /** The index leads to those samples in the banks that own their keys, and to no other. */
  ghost predicate Tracks(t: Table, owner: map<string, Slot>) {
    forall p: nat, s: nat, id, kind :: id > 0 && Holds(t.banks, p, s, id, kind) ==>
      && Key(id, kind) in t.index
      && (t.index[Key(id, kind)] == Ref(t.banks[p].born, s) <==> Owns(owner, id, kind))
  }

  lemma FewerTrack(t: Table, t': Table, owner: map<string, Slot>)
    requires Tracks(t, owner) && Within(t'.banks, t.banks) && t'.index == t.index
    ensures Tracks(t', owner)
  {
    hide Key, Owns;
  }

  /** What adding does to the index, and what it leaves of the banks. */
  lemma AddedIndex(t: Table, id: int, kind: int, perPage: nat)
    requires Good(t, perPage) && Find(t.banks, id, kind).Place?
    ensures var t', w := Added(t, id, kind, perPage), Find(t.banks, id, kind);
            && w.page < |t'.banks| && t'.banks[w.page].Bank?
            && t'.index
            == (if id != 0 then t.index[Key(id, kind) := Ref(t'.banks[w.page].born, w.slot)] else t.index)
            && forall p: nat :: p < |t.banks| && t.banks[p].Bank? ==>
                 p < |t'.banks| && t'.banks[p].Bank? && t'.banks[p].born == t.banks[p].born
  {
    hide Key, Find;
    OpeningKeepsGood(t, id, kind, perPage);
  }

  lemma AddingTracks(t: Table, owner: map<string, Slot>, id: int, kind: int, perPage: nat)
    requires Good(t, perPage) && Tracks(t, owner) && Find(t.banks, id, kind).Place?
    ensures Tracks(Added(t, id, kind, perPage), Owned(owner, t, Add(id, kind)))
  {
    hide Key, Find, Added;
    AddingIsRight(t, id, kind, perPage);
    AddedIndex(t, id, kind, perPage);
    var t', owner', w := Added(t, id, kind, perPage), Owned(owner, t, Add(id, kind)), Find(t.banks, id, kind);
    forall p: nat, s: nat, id', kind' | id' > 0 && Holds(t'.banks, p, s, id', kind')
      ensures Key(id', kind') in t'.index
      ensures t'.index[Key(id', kind')] == Ref(t'.banks[p].born, s) <==> Owns(owner', id', kind') {
      if p != w.page || s != w.slot {
        PlacesDiffer(t', perPage, p, s, w.page, w.slot);
      }
    }
  }

  lemma DoTracks(t: Table, owner: map<string, Slot>, op: Op, perPage: nat)
    requires Good(t, perPage) && Tracks(t, owner)
    ensures Good(Do(t, op, perPage), perPage) && Tracks(Do(t, op, perPage), Owned(owner, t, op))
  {
    hide Key, Find, Tracks;
    DoKeepsGood(t, op, perPage);
    if op.Add? {
      AddingIsRight(t, op.id, op.kind, perPage);
      if Find(t.banks, op.id, op.kind).Place? {
        AddingTracks(t, owner, op.id, op.kind, perPage);
      }
    } else {
      FewerTrack(t, Do(t, op, perPage), owner);
    }
  }

  lemma {:induction false} RunTracks(t: Table, owner: map<string, Slot>, ops: seq<Op>, perPage: nat)
    requires Good(t, perPage) && Tracks(t, owner)
    ensures Tracks(Execute(t, ops, perPage), Owners(owner, t, ops, perPage))
    decreases |ops|
  {
    hide Good, Tracks, Do, Owned;
    if ops == [] {
    } else {
      DoTracks(t, owner, ops[0], perPage);
      RunTracks(Do(t, ops[0], perPage), Owned(owner, t, ops[0]), ops[1..], perPage);
    }
  }

  /**
   Whatever the ids and kinds: after every sequence of operations the index leads to a sample's slot
   exactly if the sample is in the banks and no other was put in a slot under its key since.
   */
  lemma LookupAfterRun(pages: nat, ops: seq<Op>, perPage: nat, id: int, kind: int)
    requires perPage > 0 && id > 0
    ensures Good(Start(pages), perPage)
    ensures LeadsToSample(Execute(Start(pages), ops, perPage), id, kind)
            <==> (exists p: nat, s: nat :: Holds(Execute(Start(pages), ops, perPage).banks, p, s, id, kind))
                 && Owns(Owners(map[], Start(pages), ops, perPage), id, kind)
  {
    hide Execute, Owners, Key, Owns;
    RunTracks(Start(pages), map[], ops, perPage);
  }

  // ------------------------------------------------------------ the code

  class SampleBanks {
    const perPage: nat
    var banks: seq<Bank>
    var bankport: map<string, Ref>
    var births: nat

    ghost function State(): Table
      reads this
    {
      Table(banks, bankport, births)
    }

    ghost predicate Valid()
      reads this
    {
      Good(State(), perPage)
    }

    /** NUM_BANKS pages, none of them there yet */
    constructor (pages: nat, perPage: nat)
      requires perPage > 0
      ensures State() == Start(pages) && this.perPage == perPage && Valid()
    {
      this.perPage := perPage;
      banks := seq(pages, _ => NoBank);
      bankport := map[];
      births := 0;
    }

    /** find_bank_by_sample: two passes over the pages, each with a pass over their slots */
    method FindBankBySample(id: int, kind: int) returns (page: int, slot: int)
      ensures match Find(banks, id, kind)
              case Place(p, s) => page == p && slot == s
              case Full => page == -1 && slot == -1
    {
      var i := 0;
      while i < |banks|
        invariant i <= |banks| && FindHolding(banks, id, kind, i) == FindHolding(banks, id, kind, 0)
      {
        if banks[i].NoBank? {
          i := i + 1;
          continue;
        }
        var j := 0;
        while j < |banks[i].slots|
          invariant j <= |banks[i].slots|
          invariant SlotHolding(banks[i].slots, id, kind, j) == SlotHolding(banks[i].slots, id, kind, 0)
        {
          if banks[i].slots[j].id == id && banks[i].slots[j].kind == kind {
            return i, j;
          }
          j := j + 1;
        }
        i := i + 1;
      }
      i := 0;
      while i < |banks|
        invariant i <= |banks| && FindFree(banks, i) == FindFree(banks, 0)
      {
        if banks[i].NoBank? {
          return i, 0;
        }
        var j := 0;
        while j < |banks[i].slots|
          invariant j <= |banks[i].slots|
          invariant FreeSlot(banks[i].slots, j) == FreeSlot(banks[i].slots, 0)
        {
          if banks[i].slots[j].id <= 0 {
            return i, j;
          }
          j := j + 1;
        }
        i := i + 1;
      }
      return -1, -1;
    }

    /** add_bank */
    method AddBank(page: nat)
      requires page < |banks|
      modifies this`banks, this`births
      ensures State() == WithBank(old(State()), page, perPage)
      ensures banks[page].Bank? && banks[page].born == old(births) < births && |banks[page].slots| == perPage
      ensures forall s :: 0 <= s < perPage ==> banks[page].slots[s].id <= 0
      ensures |banks| == |old(banks)| && forall p :: 0 <= p < |banks| && p != page ==> banks[p] == old(banks)[p]
    {
      banks := banks[page := Bank(seq(perPage, _ => Slot(-1, -1)), births)];
      births := births + 1;
    }

    /** verify_bank_capacity; `page` and `slot` come back as they were when nothing is free */
    method VerifyBankCapacity(page0: nat, slot0: nat, id: int, kind: int) returns (ok: bool, page: nat, slot: nat)
      requires Valid()
      modifies this`banks, this`births
      ensures Valid() && State() == Opened(old(State()), Find(old(banks), id, kind), perPage)
      ensures match Find(old(banks), id, kind)
              case Place(p, s) => ok && page == p && slot == s && page < |banks| && banks[page].Bank? && slot < perPage
              case Full => !ok && page == page0 && slot == slot0
    {
      OpeningKeepsGood(State(), id, kind, perPage);
      hide Good, Find;
      var bankPage, pokeSlot := FindBankBySample(id, kind);
      if bankPage == -1 {
        return false, page0, slot0;
      }
      if banks[bankPage].NoBank? {
        AddBank(bankPage);
      }
      return true, bankPage, pokeSlot;
    }

    /** update_sample_slot_data */
    method UpdateSampleSlotData(page: nat, slot: nat, id: int, kind: int)
      requires page < |banks| && banks[page].Bank? && slot < |banks[page].slots|
      modifies this`banks, this`bankport
      ensures State() == Stored(old(State()), page, slot, id, kind)
      ensures Holds(banks, page, slot, id, kind)
      ensures forall p: nat, s: nat, id', kind' :: !(p == page && s == slot) ==>
                (Holds(banks, p, s, id', kind') <==> Holds(old(banks), p, s, id', kind'))
      ensures |banks| == |old(banks)| && forall p :: 0 <= p < |banks| && banks[p].Bank? ==>
                old(banks)[p].Bank? && banks[p].born == old(banks)[p].born
      ensures id != 0 ==> Key(id, kind) in bankport && bankport[Key(id, kind)] == Ref(banks[page].born, slot)
      ensures forall k :: id == 0 || k != Key(id, kind) ==>
                (k in bankport <==> k in old(bankport)) && (k in bankport ==> bankport[k] == old(bankport)[k])
    {
      var bank := banks[page];
      banks := banks[page := bank.(slots := bank.slots[slot := Slot(id, kind)])];
      if id != 0 {
        bankport := bankport[Key(id, kind) := Ref(bank.born, slot)];
      }
    }

    /** add_sample_to_sample_banks */
    method AddSample(id: int, kind: int)
      requires Valid()
      modifies this`banks, this`births, this`bankport
      ensures Valid() && State() == Added(old(State()), id, kind, perPage)
      ensures old(Indexed(State())) && Keyed(id, kind) ==> Indexed(State())
    {
      hide Indexed;
      AddingIsRight(State(), id, kind, perPage);
      GoodIsShaped(State(), perPage);
      hide Find;
      var ok, page, slot := VerifyBankCapacity(0, 0, id, kind);
      GoodIsShaped(State(), perPage);
      hide Good;
      if ok {
        UpdateSampleSlotData(page, slot, id, kind);
      }
    }

    /** reset_samplebank */
    method ResetSampleBank()
      requires Valid()
      modifies this`banks, this`bankport
      ensures Valid() && State() == Reset(old(State())) && (old(Indexed(State())) ==> Indexed(State()))
    {
      hide Indexed;
      ghost var was := State();
      ResetKeepsGood(was, perPage);
      hide Good;
      var i := 0;
      while i < |banks|
        invariant i <= |banks| == |was.banks| && bankport == was.index
        invariant forall k :: 0 <= k < i ==> banks[k] == ClearedBank(was.banks[k])
        invariant forall k :: i <= k < |banks| ==> banks[k] == was.banks[k]
      {
        if banks[i].Bank? {
          var j := 0;
          while j < |banks[i].slots|
            invariant |banks| == |was.banks| && bankport == was.index
            invariant banks[i].Bank? && banks[i].born == was.banks[i].born
            invariant j <= |banks[i].slots| == |was.banks[i].slots|
            invariant forall k :: 0 <= k < j ==> banks[i].slots[k] == Cleared(was.banks[i].slots[k])
            invariant forall k :: j <= k < |banks[i].slots| ==> banks[i].slots[k] == was.banks[i].slots[k]
            invariant forall k :: 0 <= k < |banks| && k != i ==>
                        banks[k] == if k < i then ClearedBank(was.banks[k]) else was.banks[k]
          {
            var slot := banks[i].slots[j];
            if slot.id != 0 {
              slot := Slot(0, 0);
            }
            UpdateSampleSlotData(i, j, slot.id, slot.kind);
            j := j + 1;
          }
          assert banks[i].slots == ClearedBank(was.banks[i]).slots;
        }
        i := i + 1;
      }
      assert banks == Reset(was).banks;
    }

    /** free_samplebank */
    method FreeSampleBank()
      requires Valid()
      modifies this`banks
      ensures Valid() && State() == Freed(old(State())) && Indexed(State())
    {
      hide Indexed;
      ghost var was := State();
      FreeKeepsGood(was, perPage);
      hide Good;
      var i := 0;
      while i < |banks|
        invariant i <= |banks| == |was.banks|
        invariant forall k :: 0 <= k < i ==> banks[k] == NoBank
      {
        if banks[i].Bank? {
          banks := banks[i := NoBank];
        }
        i := i + 1;
      }
      assert banks == Freed(was).banks;
    }

    /** find_slot_by_sample; `found` is false where C returns a null pointer */
    method FindSlotBySample(id: int, kind: int) returns (found: bool, slot: Ref)
      ensures found <==> Key(id, kind) in bankport
      ensures Indexed(State()) && id > 0 ==>
                (found && (exists p: nat, s: nat :: Holds(banks, p, s, id, kind) && slot == Ref(banks[p].born, s))
                 <==> exists p: nat, s: nat :: Holds(banks, p, s, id, kind))
    {
      hide Key;
      if Indexed(State()) && id > 0 {
        LookupIsRight(State(), id, kind);
      }
      if Key(id, kind) !in bankport {
        return false, Ref(0, 0);
      }
      return true, bankport[Key(id, kind)];
    }
  }
}
