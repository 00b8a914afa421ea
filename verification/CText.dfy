/** The C string routines the YUV4MPEG2 code rests on: `%d`, atoi, strchr, strcasecmp and strtok. */
module CText {

  /** The C string at the start of a buffer: everything before the first NUL. */
  function CString(s: string): string {
    if s == [] || s[0] == '\0' then [] else [s[0]] + CString(s[1..])
  }

  lemma {:induction false} CStringWhole(s: string)
    requires '\0' !in s
    ensures CString(s) == s
  {
    if s == [] {
    } else {
      CStringWhole(s[1..]);
    }
  }

  lemma {:induction false} CStringClean(s: string)
    ensures '\0' !in CString(s) && forall c :: c in CString(s) ==> c in s
  {
    if s == [] || s[0] == '\0' {
    } else {
      CStringClean(s[1..]);
    }
  }

  /** The character at `i`, where the terminating NUL follows the last one. */
  function CharAt(s: string, i: nat): char {
    if i < |s| then s[i] else '\0'
  }

  // ------------------------------------------------------------ numbers

  predicate IsDigit(c: char) {
    '0' <= c <= '9'
  }

  function DigitChar(d: nat): char
    requires d < 10
  {
    ('0' as int + d) as char
  }

  function Digits(n: nat): string {
    if n < 10 then [DigitChar(n)] else Digits(n / 10) + [DigitChar(n % 10)]
  }

  /** `%d` */
  function Decimal(n: int): string {
    if n < 0 then "-" + Digits(-n) else Digits(n)
  }

  predicate IsSpace(c: char) {
    c == ' ' || '\t' <= c <= '\r'
  }

  function ReadDigits(s: string, value: nat): nat {
    if s == [] || !IsDigit(s[0]) then value
    else ReadDigits(s[1..], 10 * value + (s[0] as int - '0' as int))
  }

  /** atoi, on unbounded integers */
  function Atoi(s: string): int {
    if s == [] then 0
    else if IsSpace(s[0]) then Atoi(s[1..])
    else if s[0] == '-' then 0 - ReadDigits(s[1..], 0)
    else if s[0] == '+' then ReadDigits(s[1..], 0)
    else ReadDigits(s, 0)
  }

  lemma {:induction false} DigitsAreDigits(n: nat)
    ensures |Digits(n)| > 0 && forall c :: c in Digits(n) ==> IsDigit(c)
  {
    if n < 10 {
    } else {
      DigitsAreDigits(n / 10);
    }
  }

  lemma {:induction false} ReadDigitsOfDigits(n: nat, tail: string)
    ensures ReadDigits(Digits(n) + tail, 0) == ReadDigits(tail, n)
  {
    if n >= 10 {
      var last := [DigitChar(n % 10)];
      assert Digits(n) + tail == Digits(n / 10) + (last + tail);
      ReadDigitsOfDigits(n / 10, last + tail);
      assert (last + tail)[1..] == tail;
    } else {
      assert (Digits(n) + tail)[1..] == tail;
    }
  }

  /** atoi reads back what `%d` printed, whatever follows it that is not a digit. */
  lemma AtoiOfDecimal(n: int, tail: string)
    requires tail == [] || !IsDigit(tail[0])
    ensures Atoi(Decimal(n) + tail) == n
  {
    hide Digits, ReadDigits, Atoi;
    var m := if n < 0 then -n else n;
    DigitsAreDigits(m);
    DigitsAreRead(m, tail);
    if n < 0 {
      assert Decimal(n) + tail == "-" + (Digits(m) + tail);
      AtoiOfSign(Digits(m) + tail);
    } else {
      assert (Digits(m) + tail)[0] == Digits(m)[0] && Digits(m)[0] in Digits(m);
      AtoiOfDigits(Digits(m) + tail);
    }
  }

  lemma AtoiOfSign(s: string)
    ensures Atoi("-" + s) == 0 - ReadDigits(s, 0)
  {
    hide ReadDigits;
    assert ("-" + s)[1..] == s;
  }

  lemma AtoiOfDigits(s: string)
    requires s != [] && IsDigit(s[0])
    ensures Atoi(s) == ReadDigits(s, 0)
  {
    hide ReadDigits;
  }

  lemma {:induction false} ReadDigitsStops(a: string, c: char, b: string, value: nat)
    requires !IsDigit(c)
    ensures ReadDigits(a + [c] + b, value) == ReadDigits(a, value)
  {
    if a == [] {
      assert a + [c] + b == [c] + b;
    } else {
      assert (a + [c] + b)[1..] == a[1..] + [c] + b;
      if IsDigit(a[0]) {
        ReadDigitsStops(a[1..], c, b, 10 * value + (a[0] as int - '0' as int));
      }
    }
  }

  /** atoi stops where the number does. */
  lemma {:induction false} AtoiStops(a: string, c: char, b: string)
    requires !IsDigit(c) && !IsSpace(c) && c != '-' && c != '+'
    ensures Atoi(a + [c] + b) == Atoi(a)
  {
    if a == [] {
      assert a + [c] + b == [c] + b;
    } else {
      assert (a + [c] + b)[1..] == a[1..] + [c] + b;
      if IsSpace(a[0]) {
        AtoiStops(a[1..], c, b);
      } else {
        ReadDigitsStops(a[1..], c, b, 0);
        ReadDigitsStops(a, c, b, 0);
      }
    }
  }

  /** White space before a number changes nothing. */
  lemma {:induction false} AtoiOfBlanks(blanks: string, s: string)
    requires forall c :: c in blanks ==> c == ' ' || 9 <= c as int <= 13
    ensures Atoi(blanks + s) == Atoi(s)
  {
    if blanks == [] {
      assert blanks + s == s;
    } else {
      assert blanks[0] in blanks && (blanks + s)[1..] == blanks[1..] + s;
      assert forall c :: c in blanks[1..] ==> c in blanks;
      AtoiOfBlanks(blanks[1..], s);
    }
  }

  /** Nor does a plus sign; and a text that does not begin with a number is 0. */
  lemma AtoiElse(n: nat, s: string, tail: string)
    requires tail == [] || !('0' <= tail[0] <= '9')
    requires s == [] || !('0' <= s[0] <= '9' || s[0] == '-' || s[0] == '+' || s[0] == ' ' || 9 <= s[0] as int <= 13)
    ensures Atoi("+" + Digits(n) + tail) == n && Atoi(s) == 0
  {
    hide Digits, ReadDigits;
    assert ("+" + Digits(n) + tail)[1..] == Digits(n) + tail;
    DigitsAreRead(n, tail);
    NoDigits(s);
  }

  lemma NoDigits(s: string)
    requires s == [] || !IsDigit(s[0])
    ensures ReadDigits(s, 0) == 0
  {
  }

  lemma DigitsAreRead(n: nat, tail: string)
    requires tail == [] || !IsDigit(tail[0])
    ensures ReadDigits(Digits(n) + tail, 0) == n
  {
    hide Digits;
    ReadDigitsOfDigits(n, tail);
  }

  lemma DecimalIsPlain(n: int)
    ensures |Decimal(n)| > 0 && forall c :: c in Decimal(n) ==> c == '-' || IsDigit(c)
  {
    DigitsAreDigits(if n < 0 then -n else n);
  }

  predicate Int32(n: int) {
    -0x8000_0000 <= n < 0x8000_0000
  }

  function Power10(k: nat): nat {
    if k == 0 then 1 else 10 * Power10(k - 1)
  }

  lemma {:induction false} DigitsLength(n: nat, k: nat)
    requires k > 0 && n < Power10(k)
    ensures |Digits(n)| <= k
  {
    if n < 10 {
    } else {
      DigitsLength(n / 10, k - 1);
    }
  }

  lemma DecimalLength(n: int)
    requires Int32(n)
    ensures |Decimal(n)| <= 11
  {
    assert Power10(10) == 10 * 10 * 10 * 10 * 10 * Power10(5);
    DigitsLength(if n < 0 then -n else n, 10);
  }

  // ------------------------------------------------------------ searching and comparing

  datatype Found = At(i: nat) | Nowhere

  /** strchr */
  function StrChr(s: string, c: char): (r: Found)
    ensures r.At? ==> r.i < |s| && s[r.i] == c && c !in s[..r.i]
    ensures r.Nowhere? ==> c !in s
  {
    if s == [] then Nowhere
    else if s[0] == c then At(0)
    else match StrChr(s[1..], c)
      case At(i) => At(i + 1)
      case Nowhere => Nowhere
  }

  lemma {:induction false} StrChrAfter(a: string, c: char, b: string)
    requires c !in a
    ensures StrChr(a + [c] + b, c) == At(|a|)
  {
    if a == [] {
    } else {
      StrChrAfter(a[1..], c, b);
      assert (a + [c] + b)[1..] == a[1..] + [c] + b;
    }
  }

  function Lower(c: char): char {
    if 'A' <= c <= 'Z' then ((c as int) + 32) as char else c
  }

  /** A letter and its other case, and nothing else, are taken for one. */
  lemma SameLetter(a: char, b: char)
    ensures Lower(a) == Lower(b) <==>
            a == b || ('A' <= a <= 'Z' && b as int == a as int + 32) || ('A' <= b <= 'Z' && a as int == b as int + 32)
  {
  }

  /** strcasecmp finds no difference */
  predicate SameIgnoringCase(a: string, b: string) {
    |a| == |b| && forall i :: 0 <= i < |a| ==> Lower(a[i]) == Lower(b[i])
  }

  // ------------------------------------------------------------ strtok with the delimiter " "

  /** The length of the token that starts `s`. */
  function TokenLength(s: string): (k: nat)
    ensures k <= |s| && ' ' !in s[..k] && (k == |s| || s[k] == ' ')
    ensures s != [] && s[0] != ' ' ==> k > 0
  {
    if s == [] || s[0] == ' ' then 0 else 1 + TokenLength(s[1..])
  }

  /** All the tokens of a string, in order. */
  function Tokens(s: string): seq<string> {
    if s == [] then []
    else if s[0] == ' ' then Tokens(s[1..])
    else [s[..TokenLength(s)]] + Tokens(s[TokenLength(s)..])
  }

  /** What strtok remembers between calls. */
  class Tokenizer {
    var rest: string

    constructor (s: string)
      ensures rest == s
    {
      rest := s;
    }

    /** strtok(NULL, " "); `more` is false where C returns NULL */
    method Next() returns (more: bool, token: string)
      modifies this
      ensures Tokens(old(rest)) == if more then [token] + Tokens(rest) else []
      ensures more ==> |rest| < |old(rest)|
      ensures more ==> token != [] && ' ' !in token && forall c :: c in token ==> c in old(rest)
      ensures forall c :: c in rest ==> c in old(rest)
    {
      while rest != [] && rest[0] == ' '
        invariant Tokens(rest) == Tokens(old(rest)) && |rest| <= |old(rest)|
        invariant forall c :: c in rest ==> c in old(rest)
        decreases |rest|
      {
        rest := rest[1..];
      }
      if rest == [] {
        return false, [];
      }
      var k := TokenLength(rest);
      more, token, rest := true, rest[..k], rest[k..];
    }
  }

  /** Fields laid out as the writers lay them out, each after one blank. */
  function Join(fields: seq<string>): string {
    if fields == [] then [] else " " + fields[0] + Join(fields[1..])
  }

  predicate IsField(t: string) {
    t != [] && ' ' !in t
  }

  lemma {:induction false} TokenLengthOf(t: string, tail: string)
    requires ' ' !in t && (tail == [] || tail[0] == ' ')
    ensures TokenLength(t + tail) == |t|
  {
    if t == [] {
      assert t + tail == tail;
    } else {
      assert (t + tail)[1..] == t[1..] + tail;
      TokenLengthOf(t[1..], tail);
    }
  }

  /** strtok recovers the fields. */
  lemma {:induction false} TokensOfJoin(fields: seq<string>)
    requires forall t :: t in fields ==> IsField(t)
    ensures Tokens(Join(fields)) == fields
  {
    if fields == [] {
    } else {
      var t, tail := fields[0], Join(fields[1..]);
      assert t in fields;
      assert Join(fields)[1..] == t + tail;
      TokenLengthOf(t, tail);
      assert (t + tail)[..|t|] == t && (t + tail)[|t|..] == tail;
      TokensOfJoin(fields[1..]);
    }
  }

  /** What stands between blanks is a token, and a blank ends one. */
  lemma {:induction false} TokensSplit(a: string, b: string)
    ensures Tokens(a + " " + b) == Tokens(a) + Tokens(b)
    decreases |a|
  {
    var s := a + " " + b;
    if a == [] {
      assert s[1..] == b;
    } else if a[0] == ' ' {
      assert s[1..] == a[1..] + " " + b;
      TokensSplit(a[1..], b);
    } else {
      var k := TokenLength(a);
      var t, more := a[..k], a[k..] + " " + b;
      assert s == t + more;
      TokenLengthOf(t, more);
      FirstToken(t, more);
      TokensSplit(a[k..], b);
      assert [t] + (Tokens(a[k..]) + Tokens(b)) == [t] + Tokens(a[k..]) + Tokens(b);
    }
  }

  lemma FirstToken(t: string, more: string)
    requires IsField(t) && TokenLength(t + more) == |t|
    ensures Tokens(t + more) == [t] + Tokens(more)
  {
    assert (t + more)[..|t|] == t && (t + more)[|t|..] == more;
  }

  lemma TokenAlone(t: string)
    requires IsField(t)
    ensures Tokens(t) == [t] && Tokens("") == []
  {
    TokenLengthOf(t, "");
    assert t + "" == t && t[..|t|] == t;
  }

  lemma {:induction false} JoinSplit(a: seq<string>, b: seq<string>)
    ensures Join(a + b) == Join(a) + Join(b)
  {
    if a == [] {
      assert a + b == b;
    } else {
      assert (a + b)[1..] == a[1..] + b;
      JoinSplit(a[1..], b);
    }
  }

  lemma {:induction false} JoinChars(fields: seq<string>, c: char)
    requires c != ' ' && forall t :: t in fields ==> c !in t
    ensures c !in Join(fields)
  {
    if fields == [] {
    } else {
      assert fields[0] in fields;
      JoinChars(fields[1..], c);
    }
  }

  lemma {:induction false} TokensAreFields(s: string)
    ensures forall t :: t in Tokens(s) ==> IsField(t) && forall c :: c in t ==> c in s
    decreases |s|
  {
    if s == [] {
    } else if s[0] == ' ' {
      TokensAreFields(s[1..]);
    } else {
      var k := TokenLength(s);
      TokensAreFields(s[k..]);
    }
  }
}
