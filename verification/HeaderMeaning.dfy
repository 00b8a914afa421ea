/**
 What header lines mean, said without the loops: which value a line gives to each field, what holds
 where a tag is missing, which line is refused with which code, and the text the writers emit.
 */
module HeaderMeaning {
  import opened CText
  import opened Ratio
  import opened XTags
  import opened Y4mHeader
  import opened HeaderRoundTrip

  /** The codes a caller tells failures apart by. */
  lemma CodesAreNumbered(k: int)
    requires 0 <= k < 10
    ensures [Y4M_OK, Y4M_ERR_RANGE, Y4M_ERR_SYSTEM, Y4M_ERR_HEADER, Y4M_ERR_BADTAG, Y4M_ERR_MAGIC, Y4M_ERR_EOF,
             Y4M_ERR_XXTAGS, Y4M_ERR_BADEOF, Y4M_ERR_FEATURE][k] == k
  {
  }

  // ------------------------------------------------------------ ratios

  /** A text with a colon in it: two numbers, whose ratio is read in lowest terms or not at all. */
  lemma RatioRead(before: string, after: string)
    requires ':' !in before
    ensures var n, d, r := Atoi(before), Atoi(after), ParseRatio(before + ":" + after);
            if d > 0 then
              r.Ok? && r.value.d > 0 && Coprime(r.value) && SameRational(r.value, Ratio(n, d))
            else if n == d == 0 then r == Ok(Ratio(0, 0))
            else r == Err(Y4M_ERR_RANGE)
  {
    var s, n, d := before + ":" + after, Atoi(before), Atoi(after);
    assert s == before + [':'] + after;
    StrChrAfter(before, ':', after);
    AtoiStops(before, ':', after);
    assert s[|before| + 1..] == after;
    if d > 0 {
      ReducedIsCanonical(Ratio(n, d), Ratio(n, d));
    }
  }

  lemma NaturalsRead(a: nat, b: nat)
    requires b > 0
    ensures var r := ParseRatio(Decimal(a) + ":" + Decimal(b));
            r.Ok? && r.value.d > 0 && Coprime(r.value) && SameRational(r.value, Ratio(a, b))
  {
    DecimalIsPlain(a);
    AtoiOfDecimal(a, "");
    AtoiOfDecimal(b, "");
    assert Decimal(a) + "" == Decimal(a) && Decimal(b) + "" == Decimal(b);
    RatioRead(Decimal(a), Decimal(b));
  }

  /** Whatever the text, a ratio that is read is in lowest terms, or 0:0. */
  lemma RatioIsReduced(s: string)
    ensures ParseRatio(s).Ok? ==> ParseRatio(s).value == Ratio(0, 0) || Coprime(ParseRatio(s).value)
    ensures ':' !in s ==> ParseRatio(s) == Err(Y4M_ERR_RANGE)
  {
    match StrChr(s, ':')
    case Nowhere =>
    case At(i) =>
      assert s == s[..i] + ":" + s[i + 1..];
      RatioRead(s[..i], s[i + 1..]);
  }

  // ------------------------------------------------------------ letters and keywords

  /** `I` of a stream header: progressive, top field first, bottom field first, mixed. */
  lemma InterlaceLetters(c: char)
    ensures ParseInterlace(c) == 0 <==> c == 'p'
    ensures ParseInterlace(c) == 1 <==> c == 't'
    ensures ParseInterlace(c) == 2 <==> c == 'b'
    ensures ParseInterlace(c) == 3 <==> c == 'm'
    ensures ParseInterlace(c) == -1 <==> c !in "ptbm"
  {
    assert "ptbm" == ['p', 't', 'b', 'm'];
  }

  /** The letters of a frame's `I` tag: top or bottom field first, with the first repeated; one, two, three frames. */
  lemma PresentationLetters(c: char)
    ensures CodeOf(c, PRESENTATION_CHARS) == 0 <==> c == 't'
    ensures CodeOf(c, PRESENTATION_CHARS) == 1 <==> c == 'T'
    ensures CodeOf(c, PRESENTATION_CHARS) == 2 <==> c == 'b'
    ensures CodeOf(c, PRESENTATION_CHARS) == 3 <==> c == 'B'
    ensures CodeOf(c, PRESENTATION_CHARS) == 4 <==> c == '1'
    ensures CodeOf(c, PRESENTATION_CHARS) == 5 <==> c == '2'
    ensures CodeOf(c, PRESENTATION_CHARS) == 6 <==> c == '3'
    ensures CodeOf(c, PRESENTATION_CHARS) == -1 <==> c !in "tTbB123"
  {
    assert PRESENTATION_CHARS == ['t', 'T', 'b', 'B', '1', '2', '3'];
  }

  lemma SamplingLetters(c: char)
    ensures CodeOf(c, SAMPLING_CHARS) == 0 <==> c == 'p'
    ensures CodeOf(c, SAMPLING_CHARS) == 1 <==> c == 'i'
    ensures CodeOf(c, SAMPLING_CHARS) == -1 <==> c !in "pi"
  {
    assert SAMPLING_CHARS == ['p', 'i'];
  }

  const KEYWORDS: seq<string> := ["420jpeg", "420mpeg2", "420paldv", "444", "422", "411", "mono", "444alpha"]

  /** Each keyword in any case stands for its place in the list, and any other text for nothing. */
  lemma KeywordMeans(s: string, c: int)
    requires 0 <= c < |KEYWORDS|
    ensures ParseChroma(s) == c <==>
            |s| == |KEYWORDS[c]| && forall i :: 0 <= i < |s| ==> Lower(s[i]) == Lower(KEYWORDS[c][i])
    ensures ParseChroma(s) == Y4M_UNKNOWN <==> forall k :: 0 <= k < |KEYWORDS| ==> !SameIgnoringCase(KEYWORDS[k], s)
    ensures Y4M_UNKNOWN <= ParseChroma(s) < |KEYWORDS|
  {
    hide SameIgnoringCase;
    KeywordList();
    SameLetters(KEYWORDS[c], s);
    forall i, j | 0 <= i < j < |KEYWORDS|
      ensures !(SameIgnoringCase(KEYWORDS[i], s) && SameIgnoringCase(KEYWORDS[j], s)) {
      if SameIgnoringCase(KEYWORDS[i], s) && SameIgnoringCase(KEYWORDS[j], s) {
        SameAsThird(KEYWORDS[i], KEYWORDS[j], s);
        KeywordsDiffer(i, j);
      }
    }
  }

  lemma SameLetters(a: string, s: string)
    ensures SameIgnoringCase(a, s) <==> |s| == |a| && forall i :: 0 <= i < |s| ==> Lower(s[i]) == Lower(a[i])
  {
  }

  lemma KeywordList()
    ensures KEYWORDS[0] == "420jpeg" && KEYWORDS[1] == "420mpeg2" && KEYWORDS[2] == "420paldv"
    ensures KEYWORDS[3] == "444" && KEYWORDS[4] == "422" && KEYWORDS[5] == "411"
    ensures KEYWORDS[6] == "mono" && KEYWORDS[7] == "444alpha" && |KEYWORDS| == 8
  {
  }

  lemma SameAsThird(a: string, b: string, s: string)
    requires SameIgnoringCase(a, s) && SameIgnoringCase(b, s)
    ensures SameIgnoringCase(a, b)
  {
  }

  lemma KeywordsDiffer(i: int, j: int)
    requires 0 <= i < j < |KEYWORDS|
    ensures !SameIgnoringCase(KEYWORDS[i], KEYWORDS[j])
  {
    assert |"420jpeg"| == 7 && |"420mpeg2"| == 8 && |"420paldv"| == 8 && |"mono"| == 4 && |"444alpha"| == 8;
    assert |"444"| == 3 && |"422"| == 3 && |"411"| == 3;
    assert Lower("420mpeg2"[3]) != Lower("420paldv"[3]) && Lower("420mpeg2"[1]) != Lower("444alpha"[1]);
    assert Lower("420paldv"[1]) != Lower("444alpha"[1]);
    assert Lower("444"[1]) != Lower("422"[1]) && Lower("444"[1]) != Lower("411"[1]);
    assert Lower("422"[1]) != Lower("411"[1]);
  }

  // ------------------------------------------------------------ the tags of a stream header

  datatype Value = Given(text: string) | Absent

  /** What the last tag of this letter says. */
  function LastValue(tokens: seq<string>, letter: char): Value {
    if tokens == [] then Absent
    else
      var last := tokens[|tokens| - 1];
      if last != [] && last[0] == letter then Given(last[1..]) else LastValue(tokens[..|tokens| - 1], letter)
  }

  predicate IsExtra(t: string, meaningful: string) {
    t != [] && t[0] !in meaningful
  }

  function Kept(t: string): string {
    if |t| > 32 then t[..32] else t
  }

  /** The tags without a meaning of their own, in order, the first 32 characters of each. */
  function Extras(tokens: seq<string>, meaningful: string): seq<string> {
    if tokens == [] then []
    else
      var last := tokens[|tokens| - 1];
      Extras(tokens[..|tokens| - 1], meaningful) + (if IsExtra(last, meaningful) then [Kept(last)] else [])
  }

  predicate NonNegativeRatio(s: string) {
    ParseRatio(s).Ok? && ParseRatio(s).value.n >= 0
  }

  /** What is wrong with a tag; 0 if nothing is. */
  function TagError(t: string, p: Settings): int {
    if t == [] then Y4M_OK
    else if t[0] in "WH" then (if Atoi(t[1..]) > 0 then Y4M_OK else Y4M_ERR_RANGE)
    else if t[0] in "FA" then (if NonNegativeRatio(t[1..]) then Y4M_OK else Y4M_ERR_RANGE)
    else if t[0] == 'C' then (if ParseChroma(t[1..]) != Y4M_UNKNOWN then Y4M_OK else Y4M_ERR_HEADER)
    else if t[0] in "IX" || p.allowUnknownTags then Y4M_OK
    else Y4M_ERR_BADTAG
  }

  /** The first thing wrong with the tags; 33 tags without a meaning are one too many. */
  function FirstError(tokens: seq<string>, p: Settings): int {
    if tokens == [] then Y4M_OK
    else
      var before, last := tokens[..|tokens| - 1], tokens[|tokens| - 1];
      if FirstError(before, p) != Y4M_OK then FirstError(before, p)
      else if TagError(last, p) != Y4M_OK then TagError(last, p)
      else if |Extras(tokens, STREAM_LETTERS)| > 32 then Y4M_ERR_XXTAGS
      else Y4M_OK
  }

  function Number(v: Value): int {
    if v.Given? then Atoi(v.text) else Y4M_UNKNOWN
  }

  function RatioOf(v: Value): Ratio {
    if v.Given? && ParseRatio(v.text).Ok? then ParseRatio(v.text).value else Ratio(0, 0)
  }

  /** The header the tags describe, if nothing is wrong with them; `chroma` if they do not say. */
  function Described(tokens: seq<string>, chroma: int): Header {
    var i, c := LastValue(tokens, 'I'), LastValue(tokens, 'C');
    Header(Number(LastValue(tokens, 'W')), Number(LastValue(tokens, 'H')),
           if i.Given? then ParseInterlace(CharAt(i.text, 0)) else Y4M_UNKNOWN,
           RatioOf(LastValue(tokens, 'F')), RatioOf(LastValue(tokens, 'A')),
           if c.Given? then ParseChroma(c.text) else chroma,
           Extras(tokens, STREAM_LETTERS))
  }

  lemma {:induction false} ApplyTagsSnoc(tokens: seq<string>, t: string, h: Header, p: Settings)
    ensures ApplyTags(tokens + [t], h, p)
         == match ApplyTags(tokens, h, p)
            case Err(code) => Err(code)
            case Ok(next) => ApplyTag(t, next, p)
  {
    hide ApplyTag;
    if tokens == [] {
      assert tokens + [t] == [t];
    } else {
      assert (tokens + [t])[1..] == tokens[1..] + [t];
      var next := ApplyTag(tokens[0], h, p);
      if next.Ok? {
        ApplyTagsSnoc(tokens[1..], t, next.value, p);
      }
    }
  }

  lemma OneMoreTag(before: seq<string>, t: string, chroma: int, p: Settings)
    requires |Extras(before, STREAM_LETTERS)| <= 32
    ensures var tokens := before + [t];
            ApplyTag(t, Described(before, chroma), p)
            == (if TagError(t, p) != Y4M_OK then Err(TagError(t, p))
                else if |Extras(tokens, STREAM_LETTERS)| > 32 then Err(Y4M_ERR_XXTAGS)
                else Ok(Described(tokens, chroma)))
  {
    hide Atoi, ParseRatio, ParseChroma, ParseInterlace;
    var tokens := before + [t];
    assert tokens[..|tokens| - 1] == before && tokens[|tokens| - 1] == t;
    assert "WH" == ['W', 'H'] && "FA" == ['F', 'A'] && "IX" == ['I', 'X'];
    assert STREAM_LETTERS == ['W', 'H', 'F', 'I', 'A', 'C'];
    RangeErrors(if t == [] then [] else t[1..]);
    assert Extras(before, STREAM_LETTERS) + [] == Extras(before, STREAM_LETTERS);
  }

  lemma RangeErrors(s: string)
    ensures ParseRatio(s).Err? ==> ParseRatio(s).code == Y4M_ERR_RANGE
  {
    RatioIsReduced(s);
  }

  lemma {:induction false} TagsMean(tokens: seq<string>, p: Settings)
    ensures ApplyTags(tokens, ClearHeader(p), p)
         == if FirstError(tokens, p) != Y4M_OK then Err(FirstError(tokens, p))
            else Ok(Described(tokens, ClearHeader(p).chroma))
    ensures FirstError(tokens, p) == Y4M_OK ==> |Extras(tokens, STREAM_LETTERS)| <= 32
  {
    hide ApplyTag, Described, TagError, Extras;
    if tokens == [] {
      NoTags(p);
    } else {
      var before, t := tokens[..|tokens| - 1], tokens[|tokens| - 1];
      assert tokens == before + [t];
      TagsMean(before, p);
      ApplyTagsSnoc(before, t, ClearHeader(p), p);
      if FirstError(before, p) == Y4M_OK {
        OneMoreTag(before, t, ClearHeader(p).chroma, p);
      }
    }
  }

  lemma NoTags(p: Settings)
    ensures Described([], ClearHeader(p).chroma) == ClearHeader(p) && Extras([], STREAM_LETTERS) == []
  {
  }

  /** The tokens behind the magic word of a line, up to its first NUL if there is one. */
  function TagsOf(line: string): seq<string>
    requires |line| >= 9
  {
    Tokens(CString(line[9..]))
  }

  /** Without a level of at least 1 there are neither other chroma modes than 4:2:0 nor mixed streams. */
  predicate Allowed(h: Header, p: Settings) {
    p.level >= 1 || (0 <= h.chroma <= 2 && h.interlace != 3)
  }

  /**
   A header line in full.  It needs the magic word, tags nothing is wrong with, a width and a height,
   and what the level allows.  Each field has the value of the last tag of its letter; without such a
   tag the chroma mode is 420jpeg and everything else unknown.
   */
  lemma StreamLineMeans(line: string, p: Settings)
    ensures !("YUV4MPEG2" <= line) ==> ParseStreamLine(line, p) == Err(Y4M_ERR_MAGIC)
    ensures "YUV4MPEG2" <= line ==>
              var tokens := TagsOf(line);
              ParseStreamLine(line, p)
              == (if FirstError(tokens, p) != Y4M_OK then Err(FirstError(tokens, p))
                  else if LastValue(tokens, 'W').Absent? || LastValue(tokens, 'H').Absent? then Err(Y4M_ERR_HEADER)
                  else if !Allowed(Described(tokens, 0), p) then Err(Y4M_ERR_FEATURE)
                  else Ok(Described(tokens, 0)))
  {
    hide Tokens, FirstError, Described, Extras;
    MagicInText(line);
    if "YUV4MPEG2" <= line {
      var tokens := TagsOf(line);
      TagsMean(tokens, p);
      if FirstError(tokens, p) == Y4M_OK {
        DescribedFields(tokens, ClearHeader(p).chroma, p);
      }
    }
  }

  lemma MagicInText(line: string)
    ensures MAGIC <= CString(line) <==> "YUV4MPEG2" <= line
    ensures "YUV4MPEG2" <= line ==> CString(line)[9..] == CString(line[9..])
  {
    if "YUV4MPEG2" <= line {
      CStringBehind("YUV4MPEG2", line[9..]);
      assert line == "YUV4MPEG2" + line[9..];
    } else {
      CStringIsPrefix(line);
    }
  }

  lemma {:induction false} CStringBehind(a: string, b: string)
    requires '\0' !in a
    ensures CString(a + b) == a + CString(b)
  {
    if a == [] {
      assert a + b == b;
    } else {
      assert (a + b)[1..] == a[1..] + b;
      CStringBehind(a[1..], b);
    }
  }

  lemma {:induction false} CStringIsPrefix(s: string)
    ensures CString(s) <= s
  {
    if s == [] || s[0] == '\0' {
    } else {
      CStringIsPrefix(s[1..]);
    }
  }

  /** Where nothing is wrong with the tags, sizes are given just when they are not unknown. */
  lemma DescribedFields(tokens: seq<string>, chroma: int, p: Settings)
    requires FirstError(tokens, p) == Y4M_OK && (chroma == 0 || chroma == Y4M_UNKNOWN)
    ensures var h, g := Described(tokens, chroma), Described(tokens, 0);
            && (h.width == Y4M_UNKNOWN <==> LastValue(tokens, 'W').Absent?)
            && (h.height == Y4M_UNKNOWN <==> LastValue(tokens, 'H').Absent?)
            && g == (if h.chroma == Y4M_UNKNOWN then h.(chroma := 0) else h)
            && 0 <= g.chroma <= 7
  {
    hide ParseChroma, Atoi, ParseRatio, Extras;
    LastValueIsRight(tokens, 'W', p);
    LastValueIsRight(tokens, 'H', p);
    LastValueIsRight(tokens, 'C', p);
    var c := LastValue(tokens, 'C');
    if c.Given? {
      KeywordMeans(c.text, 0);
    }
  }

  lemma {:induction false} LastValueIsRight(tokens: seq<string>, letter: char, p: Settings)
    requires FirstError(tokens, p) == Y4M_OK
    ensures LastValue(tokens, letter).Given? ==> TagError([letter] + LastValue(tokens, letter).text, p) == Y4M_OK
  {
    hide TagError, Extras;
    if tokens == [] {
    } else {
      var t := tokens[|tokens| - 1];
      if t != [] && t[0] == letter {
        assert t == [letter] + t[1..];
      } else {
        LastValueIsRight(tokens[..|tokens| - 1], letter, p);
      }
    }
  }

  // ------------------------------------------------------------ missing tags

  predicate Lacks(tokens: seq<string>, letter: char) {
    forall t :: t in tokens ==> t == [] || t[0] != letter
  }

  lemma {:induction false} LackingIsAbsent(tokens: seq<string>, letter: char)
    ensures Lacks(tokens, letter) <==> LastValue(tokens, letter).Absent?
  {
    if tokens == [] {
    } else {
      var before, t := tokens[..|tokens| - 1], tokens[|tokens| - 1];
      LackingIsAbsent(before, letter);
      assert t in tokens && tokens == before + [t];
      assert forall u :: u in tokens <==> u in before || u == t;
    }
  }

  /** What an accepted line leaves out: 420jpeg is taken for the chroma mode, nothing for the others. */
  lemma MissingTags(line: string, p: Settings)
    requires ParseStreamLine(line, p).Ok?
    ensures |line| >= 9
    ensures var h, tokens := ParseStreamLine(line, p).value, TagsOf(line);
            && (Lacks(tokens, 'C') ==> h.chroma == 0)
            && (Lacks(tokens, 'I') ==> h.interlace == -1)
            && (Lacks(tokens, 'F') ==> h.framerate == Ratio(0, 0))
            && (Lacks(tokens, 'A') ==> h.sampleaspect == Ratio(0, 0))
            && !Lacks(tokens, 'W') && !Lacks(tokens, 'H')
  {
    hide Tokens, FirstError, Extras, ParseStreamLine;
    StreamLineMeans(line, p);
    var tokens := TagsOf(line);
    LackingIsAbsent(tokens, 'C');
    LackingIsAbsent(tokens, 'I');
    LackingIsAbsent(tokens, 'F');
    LackingIsAbsent(tokens, 'A');
    LackingIsAbsent(tokens, 'W');
    LackingIsAbsent(tokens, 'H');
  }

  /** A line without a chroma tag comes to the same, accepted or not, as with 420jpeg behind it. */
  lemma DefaultChroma(line: string, p: Settings)
    requires "YUV4MPEG2" <= line && Lacks(TagsOf(line), 'C')
    ensures ParseStreamLine(line + " C420jpeg", p) == ParseStreamLine(line, p)
  {
    hide Tokens, FirstError, Described, ParseStreamLine, TagsOf;
    var more := line + " C420jpeg";
    StreamLineMeans(line, p);
    StreamLineMeans(more, p);
    assert "YUV4MPEG2" <= more;
    TagsAppended(line);
    if TagsOf(more) != TagsOf(line) {
      assert TagsOf(more) == TagsOf(line) + ["C420jpeg"];
      ChromaTagAdds(TagsOf(line), p);
    }
  }

  lemma TagsAppended(line: string)
    requires |line| >= 9
    ensures TagsOf(line + " C420jpeg") == TagsOf(line) || TagsOf(line + " C420jpeg") == TagsOf(line) + ["C420jpeg"]
  {
    hide Tokens, CString;
    var s := line[9..];
    assert (line + " C420jpeg")[9..] == s + " C420jpeg";
    if '\0' in s {
      CStringStops(s, " C420jpeg");
    } else {
      assert '\0' !in " C420jpeg";
      assert s + " C420jpeg" == s + " " + "C420jpeg";
      CStringWhole(s);
      CStringWhole(s + " C420jpeg");
      TokensSplit(s, "C420jpeg");
      assert '\0' !in s + " C420jpeg" && ' ' !in "C420jpeg";
      TokenAlone("C420jpeg");
    }
  }

  lemma {:induction false} CStringStops(a: string, b: string)
    requires '\0' in a
    ensures CString(a + b) == CString(a)
  {
    if a[0] == '\0' {
    } else {
      assert (a + b)[1..] == a[1..] + b;
      CStringStops(a[1..], b);
    }
  }

  lemma ChromaTagAdds(tokens: seq<string>, p: Settings)
    requires Lacks(tokens, 'C')
    ensures var more := tokens + ["C420jpeg"];
            && FirstError(more, p) == FirstError(tokens, p)
            && (FirstError(tokens, p) == Y4M_OK ==> Described(more, 0) == Described(tokens, 0))
            && LastValue(more, 'W') == LastValue(tokens, 'W') && LastValue(more, 'H') == LastValue(tokens, 'H')
  {
    hide Atoi, ParseRatio, ParseInterlace, SameIgnoringCase, Lacks, TagError, Number, RatioOf;
    var more, t := tokens + ["C420jpeg"], "C420jpeg";
    assert more[..|more| - 1] == tokens && more[|more| - 1] == t;
    ChromaTagIsRight(p);
    LackingIsAbsent(tokens, 'C');
    assert Extras(tokens, STREAM_LETTERS) + [] == Extras(tokens, STREAM_LETTERS);
    TagsMean(tokens, p);
  }

  lemma ChromaTagIsRight(p: Settings)
    ensures var t := "C420jpeg";
            t[0] == 'C' && TagError(t, p) == Y4M_OK && ParseChroma(t[1..]) == 0 && !IsExtra(t, STREAM_LETTERS)
  {
    assert "C420jpeg"[1..] == "420jpeg";
    assert STREAM_LETTERS == ['W', 'H', 'F', 'I', 'A', 'C'] && "WH" == ['W', 'H'] && "FA" == ['F', 'A'];
    KeywordMeans("420jpeg", 0);
  }

  // ------------------------------------------------------------ the tags of a frame header

  /** What is wrong with a tag of a frame header in a stream of this interlace code. */
  function FrameTagError(t: string, interlace: int, p: Settings): int {
    if t == [] then Y4M_OK
    else if t[0] == 'I' then
      if p.level < 1 then Y4M_ERR_FEATURE
      else if interlace != 3 then Y4M_ERR_BADTAG
      else if |t| < 4 || t[1] !in "tTbB123" || t[2] !in "pi" || t[3] !in "pi?" then Y4M_ERR_BADTAG
      else Y4M_OK
    else if t[0] == 'X' || p.allowUnknownTags then Y4M_OK
    else Y4M_ERR_BADTAG
  }

  function FirstFrameError(tokens: seq<string>, interlace: int, p: Settings): int {
    if tokens == [] then Y4M_OK
    else
      var before, last := tokens[..|tokens| - 1], tokens[|tokens| - 1];
      if FirstFrameError(before, interlace, p) != Y4M_OK then FirstFrameError(before, interlace, p)
      else if FrameTagError(last, interlace, p) != Y4M_OK then FrameTagError(last, interlace, p)
      else if |Extras(tokens, FRAME_LETTERS)| > 32 then Y4M_ERR_XXTAGS
      else Y4M_OK
  }

  /** The frame header the tags describe; the letters say presentation, temporal and spatial sampling. */
  function DescribedFrame(tokens: seq<string>): FrameInfo {
    var extras := Extras(tokens, FRAME_LETTERS);
    match LastValue(tokens, 'I')
    case Absent => FrameInfo(-1, -1, -1, extras)
    case Given(v) =>
      FrameInfo(CodeOf(CharAt(v, 2), SAMPLING_CHARS), CodeOf(CharAt(v, 1), SAMPLING_CHARS),
                CodeOf(CharAt(v, 0), PRESENTATION_CHARS), extras)
  }

  lemma {:induction false} ApplyFrameTagsSnoc(tokens: seq<string>, t: string, f: FrameInfo, interlace: int, p: Settings)
    ensures ApplyFrameTags(tokens + [t], f, interlace, p)
         == match ApplyFrameTags(tokens, f, interlace, p)
            case Err(code) => Err(code)
            case Ok(next) => ApplyFrameTag(t, next, interlace, p)
  {
    hide ApplyFrameTag;
    if tokens == [] {
      assert tokens + [t] == [t];
    } else {
      assert (tokens + [t])[1..] == tokens[1..] + [t];
      var next := ApplyFrameTag(tokens[0], f, interlace, p);
      if next.Ok? {
        ApplyFrameTagsSnoc(tokens[1..], t, next.value, interlace, p);
      }
    }
  }

  lemma OneMoreFrameTag(before: seq<string>, t: string, interlace: int, p: Settings)
    requires |Extras(before, FRAME_LETTERS)| <= 32 && '\0' !in t
    ensures var tokens := before + [t];
            ApplyFrameTag(t, DescribedFrame(before), interlace, p)
            == (if FrameTagError(t, interlace, p) != Y4M_OK then Err(FrameTagError(t, interlace, p))
                else if |Extras(tokens, FRAME_LETTERS)| > 32 then Err(Y4M_ERR_XXTAGS)
                else Ok(DescribedFrame(tokens)))
  {
    hide CodeOf;
    var tokens := before + [t];
    assert tokens[..|tokens| - 1] == before && tokens[|tokens| - 1] == t;
    assert FRAME_LETTERS == ['I'];
    assert Extras(before, FRAME_LETTERS) + [] == Extras(before, FRAME_LETTERS);
    if t != [] && t[0] == 'I' {
      FrameLettersRead(t[1..]);
      assert forall k :: 0 <= k < |t[1..]| ==> t[1..][k] == t[k + 1];
    }
  }

  lemma FrameLettersRead(v: string)
    requires '\0' !in v
    ensures CodeOf(CharAt(v, 0), PRESENTATION_CHARS) == -1 <==> |v| < 1 || v[0] !in "tTbB123"
    ensures CodeOf(CharAt(v, 1), SAMPLING_CHARS) == -1 <==> |v| < 2 || v[1] !in "pi"
    ensures CodeOf(CharAt(v, 2), SAMPLING_CHARS) == -1 && CharAt(v, 2) != '?' <==> |v| < 3 || v[2] !in "pi?"
  {
    hide CodeOf;
    PresentationLetters(CharAt(v, 0));
    SamplingLetters(CharAt(v, 1));
    SamplingLetters(CharAt(v, 2));
    assert "tTbB123" == ['t', 'T', 'b', 'B', '1', '2', '3'] && "pi" == ['p', 'i'] && "pi?" == ['p', 'i', '?'];
  }

  lemma {:induction false} FrameTagsMean(tokens: seq<string>, interlace: int, p: Settings)
    requires forall t :: t in tokens ==> '\0' !in t
    ensures ApplyFrameTags(tokens, CLEAR_FRAME, interlace, p)
         == if FirstFrameError(tokens, interlace, p) != Y4M_OK then Err(FirstFrameError(tokens, interlace, p))
            else Ok(DescribedFrame(tokens))
    ensures FirstFrameError(tokens, interlace, p) == Y4M_OK ==> |Extras(tokens, FRAME_LETTERS)| <= 32
  {
    hide ApplyFrameTag, DescribedFrame, FrameTagError, Extras;
    if tokens == [] {
      NoFrameTags();
    } else {
      var before, t := tokens[..|tokens| - 1], tokens[|tokens| - 1];
      assert tokens == before + [t] && t in tokens;
      FrameTagsMean(before, interlace, p);
      ApplyFrameTagsSnoc(before, t, CLEAR_FRAME, interlace, p);
      if FirstFrameError(before, interlace, p) == Y4M_OK {
        OneMoreFrameTag(before, t, interlace, p);
      }
    }
  }

  lemma NoFrameTags()
    ensures DescribedFrame([]) == CLEAR_FRAME && Extras([], FRAME_LETTERS) == []
  {
  }

  /**
   The tags of a frame header in full.  In a mixed stream they need an `I` tag, and if it is 4:2:0 one
   that says the spatial sampling; in any other it is refused, and the stream header decides: `Ip` is as
   `I1pp`, `It` as `Itii`, `Ib` as `Ibii`.
   */
  lemma FrameLineMeans(text: string, interlace: int, chroma: int, p: Settings)
    ensures var tokens := Tokens(CString(text));
            var f := DescribedFrame(tokens);
            ParseFrameTags(CString(text), interlace, chroma, p)
            == (if FirstFrameError(tokens, interlace, p) != Y4M_OK then Err(FirstFrameError(tokens, interlace, p))
                else if interlace == 3 then
                  if Lacks(tokens, 'I') || (0 <= chroma <= 2 && f.spatial == -1) then Err(Y4M_ERR_HEADER) else Ok(f)
                else if interlace == 0 then Ok(FrameInfo(0, 0, 4, f.tags))
                else if interlace == 1 then Ok(FrameInfo(1, 1, 0, f.tags))
                else if interlace == 2 then Ok(FrameInfo(1, 1, 2, f.tags))
                else Ok(FrameInfo(-1, -1, -1, f.tags)))
  {
    hide Tokens, FirstFrameError, CodeOf, Extras;
    var tokens := Tokens(CString(text));
    CStringClean(text);
    TokensAreFields(CString(text));
    FrameTagsMean(tokens, interlace, p);
    LackingIsAbsent(tokens, 'I');
    if FirstFrameError(tokens, interlace, p) == Y4M_OK {
      LastFrameValueIsRight(tokens, interlace, p);
      var i := LastValue(tokens, 'I');
      if i.Given? {
        FrameLettersRead(i.text);
      }
    }
  }

  lemma {:induction false} LastFrameValueIsRight(tokens: seq<string>, interlace: int, p: Settings)
    requires FirstFrameError(tokens, interlace, p) == Y4M_OK && forall t :: t in tokens ==> '\0' !in t
    ensures LastValue(tokens, 'I').Given? ==>
              var v := LastValue(tokens, 'I').text;
              '\0' !in v && interlace == 3 && |v| >= 3 && v[0] in "tTbB123" && v[1] in "pi"
  {
    hide Extras;
    if tokens == [] {
    } else {
      var t := tokens[|tokens| - 1];
      assert t in tokens;
      if t != [] && t[0] == 'I' {
      } else {
        LastFrameValueIsRight(tokens[..|tokens| - 1], interlace, p);
      }
    }
  }

  // ------------------------------------------------------------ what the writers emit

  /** `%s` for an interlace code */
  function InterlaceLetter(interlace: int): string {
    if 0 <= interlace <= 3 then ["ptbm"[interlace]] else "?"
  }

  /** The header line, or why there is none. */
  lemma PrintedHeader(h: Header, p: Settings)
    ensures var r, a := Reduced(h.framerate), Reduced(h.sampleaspect);
            PrintHeader(h, p)
            == (if !(0 <= h.chroma <= 7) then Err(Y4M_ERR_HEADER)
                else if !Allowed(h, p) then Err(Y4M_ERR_FEATURE)
                else
                  var line := "YUV4MPEG2" + (" W" + Decimal(h.width)) + (" H" + Decimal(h.height))
                              + (" F" + (Decimal(r.n) + ":" + Decimal(r.d))) + (" I" + InterlaceLetter(h.interlace))
                              + (" A" + (Decimal(a.n) + ":" + Decimal(a.d))) + (" C" + KEYWORDS[h.chroma])
                              + Join(h.tags) + "\n";
                  if |line| > 256 then Err(Y4M_ERR_HEADER) else Ok(line))
  {
    hide Decimal, Reduced, Join;
    if 0 <= h.chroma <= 7 {
      var r, a := Reduced(h.framerate), Reduced(h.sampleaspect);
      assert InterlaceText(h.interlace) == InterlaceLetter(h.interlace);
      assert ChromaKeyword(h.chroma) == KEYWORDS[h.chroma] != "" by {
        KeywordList();
      }
      SixFields("W" + Decimal(h.width), "H" + Decimal(h.height), "F" + RatioText(r),
                "I" + InterlaceText(h.interlace), "A" + RatioText(a), "C" + ChromaKeyword(h.chroma), h.tags);
      assert " " + "W" == " W" && " " + "H" == " H" && " " + "F" == " F";
      assert " " + "I" == " I" && " " + "A" == " A" && " " + "C" == " C";
      Blank("W", Decimal(h.width));
      Blank("H", Decimal(h.height));
      Blank("F", RatioText(r));
      Blank("I", InterlaceText(h.interlace));
      Blank("A", RatioText(a));
      Blank("C", ChromaKeyword(h.chroma));
    }
  }

  lemma Blank(letter: string, value: string)
    ensures " " + (letter + value) == " " + letter + value
  {
  }

  lemma JoinFirst(t: string, more: seq<string>)
    ensures Join([t] + more) == " " + t + Join(more)
  {
    assert ([t] + more)[1..] == more;
  }

  lemma SixFields(a: string, b: string, c: string, d: string, e: string, f: string, more: seq<string>)
    ensures "YUV4MPEG2" + Join([a, b, c, d, e, f] + more)
         == "YUV4MPEG2" + (" " + a) + (" " + b) + (" " + c) + (" " + d) + (" " + e) + (" " + f) + Join(more)
  {
    hide Join;
    ThreeFields("YUV4MPEG2", a, b, c, [d, e, f] + more);
    ThreeFields("YUV4MPEG2" + (" " + a) + (" " + b) + (" " + c), d, e, f, more);
    assert [a, b, c, d, e, f] + more == [a, b, c] + ([d, e, f] + more);
  }

  lemma ThreeFields(start: string, a: string, b: string, c: string, more: seq<string>)
    ensures start + Join([a, b, c] + more) == start + (" " + a) + (" " + b) + (" " + c) + Join(more)
  {
    hide Join;
    JoinFirst(a, [b, c] + more);
    JoinFirst(b, [c] + more);
    JoinFirst(c, more);
    assert [a, b, c] + more == [a] + ([b, c] + more) && [b, c] + more == [b] + ([c] + more);
    assert start + (" " + a + Join([b, c] + more)) == start + (" " + a) + Join([b, c] + more);
    assert start + (" " + a) + (" " + b + Join([c] + more)) == start + (" " + a) + (" " + b) + Join([c] + more);
  }

  /** The three letters of a frame's `I` tag. */
  function FrameLetters(f: FrameInfo): string {
    [if 0 <= f.presentation < 7 then "tTbB123"[f.presentation] else '?',
     if 0 <= f.temporal < 2 then "pi"[f.temporal] else '?',
     if 0 <= f.spatial < 2 then "pi"[f.spatial] else '?']
  }

  /** A cleared description can be written only below level 1: from there on it has no chroma mode. */
  lemma ClearedIsWritten(p: Settings)
    ensures PrintHeader(ClearHeader(p), p).Ok? <==> p.level < 1
    ensures ClearHeader(p) == Header(-1, -1, -1, Ratio(0, 0), Ratio(0, 0), if p.level >= 1 then -1 else 0, [])
  {
    var h := ClearHeader(p);
    ReducedTwice(h.framerate);
    if p.level < 1 {
      ShortTagsPrint(h, p);
    }
  }

  /** The frame line, or why there is none. */
  lemma PrintedFrame(f: FrameInfo, interlace: int, p: Settings)
    ensures PrintFrame(f, interlace, p)
         == (if interlace == 3 && p.level < 1 then Err(Y4M_ERR_FEATURE)
             else
               var line := "FRAME" + (if interlace == 3 then " I" + FrameLetters(f) else "") + Join(f.tags) + "\n";
               if |line| > 256 then Err(Y4M_ERR_HEADER) else Ok(line))
  {
    if interlace == 3 {
      assert FrameFields(f, interlace) == ["I" + FrameLetters(f)];
      JoinFirst("I" + FrameLetters(f), f.tags);
      Blank("I", FrameLetters(f));
      assert " " + "I" == " I";
      assert "FRAME" + (" I" + FrameLetters(f) + Join(f.tags)) == "FRAME" + (" I" + FrameLetters(f)) + Join(f.tags);
    } else {
      assert FrameFields(f, interlace) + f.tags == f.tags;
      assert "FRAME" + "" == "FRAME";
    }
  }

  // ------------------------------------------------------------ lines that are refused as such

  /** A header line without an end within 256 characters, or in an input that ends first. */
  lemma UnendedHeader(input: string, p: Settings)
    requires '\n' !in input[..if |input| < 256 then |input| else 256]
    ensures ReadStreamHeader("", input, p).outcome
         == Err(if |input| < 256 then Y4M_ERR_SYSTEM
                else if "YUV4MPEG2" <= input then Y4M_ERR_HEADER
                else Y4M_ERR_MAGIC)
  {
    TakeLineSplits(input, LINE_MAX);
    var r := TakeLine(input, LINE_MAX);
    LineEndsWithin(input, 256);
    if r.Long? {
      assert "" + r.text == r.text == input[..256];
      MagicInText(r.text);
    }
  }

  lemma LineEndsWithin(input: string, room: nat)
    ensures TakeLine(input, room).Line? ==> '\n' in input[..if |input| < room then |input| else room]
  {
    TakeLineSplits(input, room);
    var r := TakeLine(input, room);
    if r.Line? {
      assert input[..if |input| < room then |input| else room][|r.text|] == '\n';
    }
  }
}
