/**
 What survives a trip through a header line: a header is read back exactly, ratios reduced, if and
 only if it is one the format can carry.
 */
module HeaderRoundTrip {
  import opened CText
  import opened Ratio
  import opened XTags
  import opened Y4mHeader

  // ------------------------------------------------------------ lines

  /** What reading characters up to a newline, at most `room` of them, ends with. */
  datatype LineRead = Line(text: string, rest: string) | Long(text: string, rest: string) | Short

  function TakeLine(input: string, room: nat): LineRead {
    if room == 0 then Long([], input)
    else if input == [] then Short
    else if input[0] == '\n' then Line([], input[1..])
    else match TakeLine(input[1..], room - 1)
      case Line(text, rest) => Line([input[0]] + text, rest)
      case Long(text, rest) => Long([input[0]] + text, rest)
      case Short => Short
  }

  lemma {:induction false} TakeLineOf(text: string, rest: string, room: nat)
    requires '\n' !in text && |text| < room
    ensures TakeLine(text + "\n" + rest, room) == Line(text, rest)
  {
    var input := text + "\n" + rest;
    if text == [] {
      assert input[1..] == rest;
    } else {
      assert input[1..] == text[1..] + "\n" + rest;
      TakeLineOf(text[1..], rest, room - 1);
      assert [input[0]] + text[1..] == text;
    }
  }

  lemma {:induction false} TakeLineSplits(input: string, room: nat)
    ensures match TakeLine(input, room)
            case Line(text, rest) => input == text + "\n" + rest && '\n' !in text && |text| < room
            case Long(text, rest) => input == text + rest && '\n' !in text && |text| == room
            case Short => |input| < room && '\n' !in input
  {
    if room == 0 || input == [] || input[0] == '\n' {
    } else {
      TakeLineSplits(input[1..], room - 1);
      assert input == [input[0]] + input[1..];
    }
  }

  datatype Read<+T> = Read(outcome: Outcome<T>, rest: string)

  /** y4m_read_stream_header, when `already` has been read of the line and `input` follows. */
  function ReadStreamHeader(already: string, input: string, p: Settings): Read<Header>
    requires |already| <= LINE_MAX
  {
    match TakeLine(input, LINE_MAX - |already|)
    case Short => Read(Err(Y4M_ERR_SYSTEM), [])
    case Long(text, rest) =>
      Read(Err(if MAGIC <= CString(already + text) then Y4M_ERR_HEADER else Y4M_ERR_MAGIC), rest)
    case Line(text, rest) => Read(ParseStreamLine(already + text, p), rest)
  }

  // ------------------------------------------------------------ what a header can be

  /** Everything a C program can hold in a `y4m_stream_info_t`. */
  predicate Representable(h: Header) {
    && Int32(h.width) && Int32(h.height)
    && Int32(Reduced(h.framerate).n) && Int32(Reduced(h.framerate).d)
    && Int32(Reduced(h.sampleaspect).n) && Int32(Reduced(h.sampleaspect).d)
    && RepresentableTags(h.tags)
  }

  predicate RepresentableTags(tags: seq<string>) {
    |tags| <= MAX_XTAGS && forall t :: t in tags ==> |t| < MAX_XTAG_SIZE && '\0' !in t
  }

  /** A ratio of non-negative numbers; only 0:0 has a zero denominator. */
  predicate ReadableRatio(r: Ratio) {
    r.n >= 0 && r.d >= 0 && (r.d == 0 ==> r.n == 0)
  }

  /** A tag that comes back as itself: no delimiter in it, and not one of the letters with a meaning. */
  predicate GoodTag(t: string, meaningful: string, p: Settings) {
    IsField(t) && '\n' !in t && t[0] !in meaningful && (t[0] == 'X' || p.allowUnknownTags)
  }

  const STREAM_LETTERS := "WHFIAC"
  const FRAME_LETTERS := "I"

  /** The headers the format carries. */
  predicate Transmissible(h: Header, p: Settings) {
    && h.width > 0 && h.height > 0
    && Y4M_UNKNOWN <= h.interlace <= ILACE_MIXED
    && ReadableRatio(h.framerate) && ReadableRatio(h.sampleaspect)
    && forall t :: t in h.tags ==> GoodTag(t, STREAM_LETTERS, p)
  }

  /** The same header with its ratios in lowest terms. */
  function Normalized(h: Header): Header {
    h.(framerate := Reduced(h.framerate), sampleaspect := Reduced(h.sampleaspect))
  }

  // ------------------------------------------------------------ printed fields are read back

  lemma RatioTextRead(r: Ratio)
    requires ReadableRatio(r)
    ensures ParseRatio(RatioText(Reduced(r))) == Ok(Reduced(r)) && Reduced(r).n >= 0
  {
    var q := Reduced(r);
    var a, b := Decimal(q.n), Decimal(q.d);
    var s := RatioText(q);
    DecimalIsPlain(q.n);
    assert s == a + [':'] + b && s == a + (":" + b);
    StrChrAfter(a, ':', b);
    AtoiOfDecimal(q.n, ":" + b);
    AtoiOfDecimal(q.d, "");
    assert s[|a| + 1..] == b && b + "" == b;
    ReducedTwice(r);
    if r != UNKNOWN_RATIO {
      ReducedFields(r);
    }
  }

  lemma ChromaKeywordRead(chroma: int)
    requires ChromaKeyword(chroma) != ""
    ensures ParseChroma(ChromaKeyword(chroma)) == chroma && chroma != Y4M_UNKNOWN
  {
    assert Lower("420mpeg2"[3]) != Lower("420paldv"[3]) && Lower("420mpeg2"[1]) != Lower("444alpha"[1]);
    assert Lower("420paldv"[1]) != Lower("444alpha"[1]);
    assert Lower("444"[1]) != Lower("422"[1]) && Lower("444"[1]) != Lower("411"[1]);
    assert Lower("422"[1]) != Lower("411"[1]);
  }

  /** The fixed fields set the six scalars of a clear header. */
  lemma FixedFieldsRead(h: Header, start: Header, more: seq<string>, p: Settings)
    requires Transmissible(h, p) && ChromaKeyword(h.chroma) != ""
    ensures ApplyTags(FixedFields(h) + more, start, p)
         == ApplyTags(more, Normalized(h).(tags := start.tags), p)
  {
    var h0 := start.(width := h.width);
    var h1 := h0.(height := h.height);
    var h2 := h1.(framerate := Reduced(h.framerate));
    var h3 := h2.(interlace := h.interlace);
    var h4 := h3.(sampleaspect := Reduced(h.sampleaspect));
    var h5 := h4.(chroma := h.chroma);
    SizeTagsRead(h.width, start, p);
    SizeTagsRead(h.height, h0, p);
    RatioTagsRead(h.framerate, h1, p);
    InterlaceTagRead(h.interlace, h2, p);
    RatioTagsRead(h.sampleaspect, h3, p);
    ChromaTagRead(h.chroma, h4, p);
    SixSteps("W" + Decimal(h.width), "H" + Decimal(h.height), "F" + RatioText(Reduced(h.framerate)),
             "I" + InterlaceText(h.interlace), "A" + RatioText(Reduced(h.sampleaspect)),
             "C" + ChromaKeyword(h.chroma), more, start, h0, h1, h2, h3, h4, h5, p);
    assert h5 == Normalized(h).(tags := start.tags);
  }

  lemma SixSteps(a: string, b: string, c: string, d: string, e: string, f: string, more: seq<string>,
                 start: Header, h0: Header, h1: Header, h2: Header, h3: Header, h4: Header, h5: Header, p: Settings)
    requires ApplyTag(a, start, p) == Ok(h0) && ApplyTag(b, h0, p) == Ok(h1) && ApplyTag(c, h1, p) == Ok(h2)
    requires ApplyTag(d, h2, p) == Ok(h3) && ApplyTag(e, h3, p) == Ok(h4) && ApplyTag(f, h4, p) == Ok(h5)
    ensures ApplyTags([a, b, c, d, e, f] + more, start, p) == ApplyTags(more, h5, p)
  {
    ThreeSteps(a, b, c, [d, e, f] + more, start, h0, h1, h2, p);
    ThreeSteps(d, e, f, more, h2, h3, h4, h5, p);
    assert [a, b, c, d, e, f] + more == [a, b, c] + ([d, e, f] + more);
  }

  lemma ThreeSteps(a: string, b: string, c: string, more: seq<string>,
                   start: Header, h0: Header, h1: Header, h2: Header, p: Settings)
    requires ApplyTag(a, start, p) == Ok(h0) && ApplyTag(b, h0, p) == Ok(h1) && ApplyTag(c, h1, p) == Ok(h2)
    ensures ApplyTags([a, b, c] + more, start, p) == ApplyTags(more, h2, p)
  {
    Step(a, [b, c] + more, start, h0, p);
    Step(b, [c] + more, h0, h1, p);
    Step(c, more, h1, h2, p);
    assert [a, b, c] + more == [a] + ([b, c] + more);
    assert [b, c] + more == [b] + ([c] + more);
  }

  lemma SizeTagsRead(n: int, h: Header, p: Settings)
    requires n > 0
    ensures ApplyTag("W" + Decimal(n), h, p) == Ok(h.(width := n))
    ensures ApplyTag("H" + Decimal(n), h, p) == Ok(h.(height := n))
  {
    AtoiOfDecimal(n, "");
    assert Decimal(n) + "" == Decimal(n);
    assert ("W" + Decimal(n))[1..] == Decimal(n) && ("H" + Decimal(n))[1..] == Decimal(n);
  }

  lemma RatioTagsRead(r: Ratio, h: Header, p: Settings)
    requires ReadableRatio(r)
    ensures ApplyTag("F" + RatioText(Reduced(r)), h, p) == Ok(h.(framerate := Reduced(r)))
    ensures ApplyTag("A" + RatioText(Reduced(r)), h, p) == Ok(h.(sampleaspect := Reduced(r)))
  {
    RatioTextRead(r);
    var text := RatioText(Reduced(r));
    assert ("F" + text)[1..] == text && ("A" + text)[1..] == text;
  }

  lemma InterlaceTagRead(interlace: int, h: Header, p: Settings)
    requires Y4M_UNKNOWN <= interlace <= ILACE_MIXED
    ensures ApplyTag("I" + InterlaceText(interlace), h, p) == Ok(h.(interlace := interlace))
  {
    var text := InterlaceText(interlace);
    assert ("I" + text)[1..] == text && CharAt(text, 0) == text[0];
    assert ParseInterlace(text[0]) == interlace;
  }

  lemma ChromaTagRead(chroma: int, h: Header, p: Settings)
    requires ChromaKeyword(chroma) != ""
    ensures ApplyTag("C" + ChromaKeyword(chroma), h, p) == Ok(h.(chroma := chroma))
  {
    ChromaKeywordRead(chroma);
    assert ("C" + ChromaKeyword(chroma))[1..] == ChromaKeyword(chroma);
  }

  lemma Step(token: string, more: seq<string>, h: Header, next: Header, p: Settings)
    requires ApplyTag(token, h, p) == Ok(next)
    ensures ApplyTags([token] + more, h, p) == ApplyTags(more, next, p)
  {
    assert ([token] + more)[1..] == more;
  }

  lemma {:induction false} TagsRead(tags: seq<string>, h: Header, p: Settings)
    requires RepresentableTags(h.tags + tags) && forall t :: t in tags ==> GoodTag(t, STREAM_LETTERS, p)
    ensures ApplyTags(tags, h, p) == Ok(h.(tags := h.tags + tags))
  {
    if tags == [] {
      assert h.tags + tags == h.tags;
    } else {
      var t := tags[0];
      assert t in tags && t in h.tags + tags;
      var next := h.(tags := h.tags + [t]);
      assert ApplyTag(t, h, p) == Ok(next);
      assert next.tags + tags[1..] == h.tags + tags;
      TagsRead(tags[1..], next, p);
    }
  }

  /** Neither blanks, newlines nor NULs in what the writer prints by itself. */
  lemma FixedFieldsArePlain(h: Header)
    requires ChromaKeyword(h.chroma) != ""
    ensures forall t :: t in FixedFields(h) ==> IsField(t) && '\n' !in t && '\0' !in t
  {
    var r, a := Reduced(h.framerate), Reduced(h.sampleaspect);
    DecimalIsPlain(h.width);
    DecimalIsPlain(h.height);
    DecimalIsPlain(r.n);
    DecimalIsPlain(r.d);
    DecimalIsPlain(a.n);
    DecimalIsPlain(a.d);
    KeywordIsPlain(h.chroma);
  }

  lemma KeywordIsPlain(chroma: int)
    ensures ' ' !in ChromaKeyword(chroma) && '\n' !in ChromaKeyword(chroma) && '\0' !in ChromaKeyword(chroma)
    ensures |ChromaKeyword(chroma)| <= 8
  {
  }

  lemma HeaderFieldsArePlain(h: Header, p: Settings)
    requires RepresentableTags(h.tags) && ChromaKeyword(h.chroma) != "" && Transmissible(h, p)
    ensures forall t :: t in FixedFields(h) + h.tags ==> IsField(t) && '\n' !in t && '\0' !in t
  {
    FixedFieldsArePlain(h);
    forall t | t in FixedFields(h) + h.tags ensures IsField(t) && '\n' !in t && '\0' !in t {
      if t !in h.tags { assert t in FixedFields(h); }
    }
  }

  /** The fields of a transmissible header set every scalar and add every tag. */
  lemma HeaderFieldsApply(h: Header, p: Settings)
    requires RepresentableTags(h.tags) && ChromaKeyword(h.chroma) != "" && Transmissible(h, p)
    ensures ApplyTags(FixedFields(h) + h.tags, ClearHeader(p), p) == Ok(Normalized(h))
  {
    FixedFieldsRead(h, ClearHeader(p), h.tags, p);
    var bare := Normalized(h).(tags := []);
    assert bare.tags + h.tags == h.tags;
    TagsRead(h.tags, bare, p);
  }

  /** The body of a transmissible header line parses to the header. */
  lemma HeaderBodyParses(h: Header, p: Settings)
    requires Representable(h) && PrintHeader(h, p).Ok? && Transmissible(h, p)
    ensures '\n' !in HeaderBody(h) && ParseStreamLine(HeaderBody(h), p) == Ok(Normalized(h))
  {
    HeaderFieldsArePlain(h, p);
    HeaderFieldsApply(h, p);
    ChromaKeywordRead(h.chroma);
    FieldsParse(FixedFields(h) + h.tags, Normalized(h), p);
  }

  lemma FieldsParse(fields: seq<string>, h: Header, p: Settings)
    requires forall t :: t in fields ==> IsField(t) && '\n' !in t && '\0' !in t
    requires ApplyTags(fields, ClearHeader(p), p) == Ok(h)
    ensures '\n' !in MAGIC + Join(fields)
    ensures ParseStreamLine(MAGIC + Join(fields), p) == FinishHeader(h, p)
  {
    JoinChars(fields, '\n');
    JoinChars(fields, '\0');
    var body := MAGIC + Join(fields);
    CStringWhole(body);
    assert body[|MAGIC|..] == Join(fields);
    TokensOfJoin(fields);
  }

  /** Reading a line, the first characters of which were read before. */
  lemma LineReadBack(body: string, k: nat, p: Settings, rest: string)
    requires '\n' !in body && k <= |body| < LINE_MAX
    ensures ReadStreamHeader(body[..k], body[k..] + "\n" + rest, p) == Read(ParseStreamLine(body, p), rest)
  {
    assert body[..k] + body[k..] == body;
    TakeLineOf(body[k..], rest, LINE_MAX - k);
  }

  /** Reading back a transmissible header, the first `k` characters of which were read before. */
  lemma HeaderReadBack(h: Header, p: Settings, k: nat, rest: string)
    requires Representable(h) && PrintHeader(h, p).Ok? && Transmissible(h, p)
    requires k <= |HeaderBody(h)|
    ensures |HeaderBody(h)| < LINE_MAX
    ensures ReadStreamHeader(HeaderBody(h)[..k], HeaderBody(h)[k..] + "\n" + rest, p) == Read(Ok(Normalized(h)), rest)
  {
    HeaderBodyParses(h, p);
    LineReadBack(HeaderBody(h), k, p, rest);
  }

  // ------------------------------------------------------------ and nothing else is

  /** What every header the parser accepts is like. */
  predicate Parsed(h: Header, p: Settings) {
    && (h.width > 0 || h.width == Y4M_UNKNOWN) && (h.height > 0 || h.height == Y4M_UNKNOWN)
    && Y4M_UNKNOWN <= h.interlace <= ILACE_MIXED
    && ReadableRatio(h.framerate) && ReadableRatio(h.sampleaspect)
    && forall t :: t in h.tags ==> GoodTag(t, STREAM_LETTERS, p)
  }

  lemma ParseRatioReadable(s: string)
    ensures ParseRatio(s).Ok? && ParseRatio(s).value.n >= 0 ==> ReadableRatio(ParseRatio(s).value)
  {
    if ParseRatio(s).Ok? {
      var i := StrChr(s, ':').i;
      var r := Ratio(Atoi(s), Atoi(s[i + 1..]));
      if r != UNKNOWN_RATIO {
        ReducedFields(r);
      }
    }
  }

  lemma ApplyTagParsed(token: string, h: Header, p: Settings)
    requires Parsed(h, p) && IsField(token) && '\n' !in token
    ensures ApplyTag(token, h, p).Ok? ==> Parsed(ApplyTag(token, h, p).value, p)
  {
    hide Atoi, ParseRatio, ReadableRatio;
    ParseRatioReadable(token[1..]);
    ReadableUnknown();
  }

  lemma ReadableUnknown()
    ensures ReadableRatio(UNKNOWN_RATIO)
  {
  }

  lemma {:induction false} ApplyTagsParsed(tokens: seq<string>, h: Header, p: Settings)
    requires Parsed(h, p) && forall t :: t in tokens ==> IsField(t) && '\n' !in t
    ensures ApplyTags(tokens, h, p).Ok? ==> Parsed(ApplyTags(tokens, h, p).value, p)
  {
    hide ApplyTag, Parsed, IsField;
    if tokens == [] {
    } else {
      ApplyTagParsed(tokens[0], h, p);
      var next := ApplyTag(tokens[0], h, p);
      if next.Ok? {
        ApplyTagsParsed(tokens[1..], next.value, p);
      }
    }
  }

  lemma ParsedLine(line: string, p: Settings)
    requires '\n' !in line
    ensures ParseStreamLine(line, p).Ok? ==>
              var h := ParseStreamLine(line, p).value;
              Parsed(h, p) && h.width > 0 && h.height > 0
  {
    var s := CString(line);
    CStringClean(line);
    if MAGIC <= s {
      TokensAreFields(s[|MAGIC|..]);
      ApplyTagsParsed(Tokens(s[|MAGIC|..]), ClearHeader(p), p);
    }
  }

  lemma ReducedReadable(r: Ratio)
    ensures ReadableRatio(Reduced(r)) <==> ReadableRatio(r)
  {
    if r != UNKNOWN_RATIO {
      ReducedFields(r);
    }
  }

  /**
   A header the writer accepts is read back, ratios reduced and everything behind it untouched,
   exactly when the format can carry it.
   */
  lemma HeaderRoundTrips(h: Header, p: Settings, rest: string)
    requires Representable(h) && PrintHeader(h, p).Ok?
    ensures ReadStreamHeader("", PrintHeader(h, p).value + rest, p) == Read(Ok(Normalized(h)), rest)
            <==> Transmissible(h, p)
  {
    var input := HeaderLine(h) + rest;
    if Transmissible(h, p) {
      HeaderReadBack(h, p, 0, rest);
      assert HeaderBody(h)[..0] == "" && HeaderBody(h)[0..] == HeaderBody(h);
    }
    if ReadStreamHeader("", input, p) == Read(Ok(Normalized(h)), rest) {
      TakeLineSplits(input, LINE_MAX);
      var text := TakeLine(input, LINE_MAX).text;
      assert "" + text == text;
      ParsedLine(text, p);
      ReducedReadable(h.framerate);
      ReducedReadable(h.sampleaspect);
    }
  }

  /** The writer's first check never fires: without extra tags the line is far below the limit. */
  lemma FixedPartIsShort(h: Header)
    requires Representable(h)
    ensures |MAGIC + Join(FixedFields(h))| <= 98
  {
    NumberFieldLength(h.width);
    NumberFieldLength(h.height);
    RatioFieldLength(Reduced(h.framerate));
    RatioFieldLength(Reduced(h.sampleaspect));
    KeywordIsPlain(h.chroma);
    assert |"I" + InterlaceText(h.interlace)| == 2;
    SixShortFields("W" + Decimal(h.width), "H" + Decimal(h.height), "F" + RatioText(Reduced(h.framerate)),
                  "I" + InterlaceText(h.interlace), "A" + RatioText(Reduced(h.sampleaspect)),
                  "C" + ChromaKeyword(h.chroma));
  }

  /** Whatever its scalars, a header is printed if its tags, each behind a blank, take at most 157 characters. */
  lemma ShortTagsPrint(h: Header, p: Settings)
    requires Representable(h) && ChromaKeyword(h.chroma) != "" && (p.level >= 1 || !NeedsLevel1(h))
    requires |Join(h.tags)| <= 157
    ensures PrintHeader(h, p) == Ok(HeaderLine(h))
  {
    hide FixedFields, Representable, Join, ChromaKeyword, NeedsLevel1;
    FixedPartIsShort(h);
    JoinSplit(FixedFields(h), h.tags);
    assert HeaderBody(h) == MAGIC + Join(FixedFields(h)) + Join(h.tags);
  }

  lemma SixShortFields(a: string, b: string, c: string, d: string, e: string, f: string)
    requires |a| <= 12 && |b| <= 12 && |c| <= 24 && |d| <= 2 && |e| <= 24 && |f| <= 9
    ensures |MAGIC + Join([a, b, c, d, e, f])| <= 98
  {
    JoinSixLength(a, b, c, d, e, f);
  }

  lemma NumberFieldLength(n: int)
    requires Int32(n)
    ensures |"W" + Decimal(n)| <= 12 && |"H" + Decimal(n)| <= 12
  {
    DecimalLength(n);
  }

  lemma RatioFieldLength(r: Ratio)
    requires Int32(r.n) && Int32(r.d)
    ensures |"F" + RatioText(r)| <= 24 && |"A" + RatioText(r)| <= 24
  {
    DecimalLength(r.n);
    DecimalLength(r.d);
  }

  lemma JoinSixLength(a: string, b: string, c: string, d: string, e: string, f: string)
    ensures |Join([a, b, c, d, e, f])| == 6 + |a| + |b| + |c| + |d| + |e| + |f|
  {
    JoinOne(f, []);
    JoinOne(e, [f]);
    JoinOne(d, [e, f]);
    JoinOne(c, [d, e, f]);
    JoinOne(b, [c, d, e, f]);
    JoinOne(a, [b, c, d, e, f]);
  }

  lemma JoinOne(t: string, more: seq<string>)
    ensures |Join([t] + more)| == 1 + |t| + |Join(more)|
  {
    assert ([t] + more)[1..] == more;
  }
}
