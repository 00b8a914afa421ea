/**
 What survives a trip through a whole stream: frames are read back exactly, copies of the stream
 header between them change nothing, and a stream cut inside a frame never looks finished.
 */
module StreamRoundTrip {
  import opened CText
  import opened Ratio
  import opened Y4mHeader
  import opened HeaderRoundTrip
  import opened Y4mStream

  // ------------------------------------------------------------ frame headers

  /** The frame headers the format carries in a stream with header `h`. */
  predicate TransmissibleFrame(f: FrameInfo, h: Header, p: Settings) {
    && (h.interlace == ILACE_MIXED ==>
          && 0 <= f.presentation < |PRESENTATION_CHARS| && 0 <= f.temporal < |SAMPLING_CHARS|
          && Y4M_UNKNOWN <= f.spatial < |SAMPLING_CHARS|
          && (Is420(h.chroma) ==> f.spatial != Y4M_UNKNOWN))
    && forall t :: t in f.tags ==> GoodTag(t, FRAME_LETTERS, p)
  }

  /** The frame header meant: where a stream is not mixed, its header implies the sampling of every frame. */
  function Implied(f: FrameInfo, h: Header): FrameInfo {
    if h.interlace == ILACE_MIXED then f
    else if h.interlace == ILACE_NONE then FrameInfo(0, 0, 4, f.tags)
    else if h.interlace == ILACE_TOP_FIRST then FrameInfo(1, 1, 0, f.tags)
    else if h.interlace == ILACE_BOTTOM_FIRST then FrameInfo(1, 1, 2, f.tags)
    else CLEAR_FRAME.(tags := f.tags)
  }

  /** What arrives: a frame line without tags leaves everything unknown unless the stream is mixed. */
  function Received(f: FrameInfo, h: Header): FrameInfo {
    if h.interlace != ILACE_MIXED && f.tags == [] then CLEAR_FRAME else Implied(f, h)
  }

  lemma CodeOfChar(code: int, table: string)
    requires table == PRESENTATION_CHARS || table == SAMPLING_CHARS
    requires 0 <= code < |table|
    ensures CodeOf(CharOf(code, table), table) == code
  {
    assert PRESENTATION_CHARS == ['t', 'T', 'b', 'B', '1', '2', '3'] && SAMPLING_CHARS == ['p', 'i'];
  }

  lemma UnknownChar(table: string)
    requires table == PRESENTATION_CHARS || table == SAMPLING_CHARS
    ensures CharOf(Y4M_UNKNOWN, table) == '?' && CodeOf('?', table) == Y4M_UNKNOWN
  {
    assert PRESENTATION_CHARS == ['t', 'T', 'b', 'B', '1', '2', '3'] && SAMPLING_CHARS == ['p', 'i'];
  }

  lemma SamplingTagRead(f: FrameInfo, start: FrameInfo, h: Header, p: Settings)
    requires TransmissibleFrame(f, h, p) && h.interlace == ILACE_MIXED && p.level >= 1
    ensures ApplyFrameTag(FrameFields(f, h.interlace)[0], start, h.interlace, p)
         == Ok(FrameInfo(f.spatial, f.temporal, f.presentation, start.tags))
  {
    var value := [CharOf(f.presentation, PRESENTATION_CHARS), CharOf(f.temporal, SAMPLING_CHARS),
                  CharOf(f.spatial, SAMPLING_CHARS)];
    assert ("I" + value)[0] == 'I' && ("I" + value)[1..] == value;
    CodeOfChar(f.presentation, PRESENTATION_CHARS);
    CodeOfChar(f.temporal, SAMPLING_CHARS);
    if f.spatial == Y4M_UNKNOWN {
      UnknownChar(SAMPLING_CHARS);
    } else {
      CodeOfChar(f.spatial, SAMPLING_CHARS);
    }
  }

  lemma {:induction false} FrameTagsRead(tags: seq<string>, f: FrameInfo, interlace: int, p: Settings)
    requires RepresentableTags(f.tags + tags) && forall t :: t in tags ==> GoodTag(t, FRAME_LETTERS, p)
    ensures ApplyFrameTags(tags, f, interlace, p) == Ok(f.(tags := f.tags + tags))
  {
    if tags == [] {
      assert f.tags + tags == f.tags;
    } else {
      var t := tags[0];
      assert t in tags && t in f.tags + tags;
      var next := f.(tags := f.tags + [t]);
      assert ApplyFrameTag(t, f, interlace, p) == Ok(next);
      assert next.tags + tags[1..] == f.tags + tags;
      FrameTagsRead(tags[1..], next, interlace, p);
    }
  }

  lemma FrameFieldsApply(f: FrameInfo, h: Header, p: Settings)
    requires RepresentableTags(f.tags) && TransmissibleFrame(f, h, p) && PrintFrame(f, h.interlace, p).Ok?
    ensures ApplyFrameTags(FrameFields(f, h.interlace) + f.tags, CLEAR_FRAME, h.interlace, p)
         == Ok(if h.interlace == ILACE_MIXED then f else CLEAR_FRAME.(tags := f.tags))
  {
    var fields := FrameFields(f, h.interlace);
    assert [] + f.tags == f.tags;
    if h.interlace == ILACE_MIXED {
      SamplingTagRead(f, CLEAR_FRAME, h, p);
      assert (fields + f.tags)[0] == fields[0] && (fields + f.tags)[1..] == f.tags;
      FrameTagsRead(f.tags, f.(tags := []), h.interlace, p);
    } else {
      FrameTagsRead(f.tags, CLEAR_FRAME, h.interlace, p);
    }
  }

  lemma FrameFieldsArePlain(f: FrameInfo, h: Header, p: Settings)
    requires RepresentableTags(f.tags) && TransmissibleFrame(f, h, p)
    ensures forall t :: t in FrameFields(f, h.interlace) + f.tags ==> IsField(t) && '\n' !in t && '\0' !in t
  {
    forall t | t in FrameFields(f, h.interlace) + f.tags ensures IsField(t) && '\n' !in t && '\0' !in t {
      if t !in f.tags {
        assert t in FrameFields(f, h.interlace);
        SamplingChars(f.presentation, PRESENTATION_CHARS);
        SamplingChars(f.temporal, SAMPLING_CHARS);
        SamplingChars(f.spatial, SAMPLING_CHARS);
      }
    }
  }

  lemma SamplingChars(code: int, table: string)
    requires table == PRESENTATION_CHARS || table == SAMPLING_CHARS
    ensures CharOf(code, table) != ' ' && CharOf(code, table) != '\n' && CharOf(code, table) != '\0'
  {
    assert PRESENTATION_CHARS == ['t', 'T', 'b', 'B', '1', '2', '3'] && SAMPLING_CHARS == ['p', 'i'];
  }

  /** A frame line's fields parse to what arrives. */
  lemma FrameFieldsParse(f: FrameInfo, h: Header, p: Settings)
    requires RepresentableTags(f.tags) && TransmissibleFrame(f, h, p) && PrintFrame(f, h.interlace, p).Ok?
    requires FrameFields(f, h.interlace) + f.tags != []
    ensures var text := Join(FrameFields(f, h.interlace) + f.tags);
            '\n' !in text && ParseFrameTags(CString(text[1..]), h.interlace, h.chroma, p) == Ok(Received(f, h))
  {
    FrameFieldsArePlain(f, h, p);
    FrameFieldsApply(f, h, p);
    FieldsParse(FrameFields(f, h.interlace) + f.tags, h, p);
  }

  lemma FieldsParse(fields: seq<string>, h: Header, p: Settings)
    requires forall t :: t in fields ==> IsField(t) && '\n' !in t && '\0' !in t
    requires ApplyFrameTags(fields, CLEAR_FRAME, h.interlace, p).Ok? && fields != []
    ensures '\n' !in Join(fields)
    ensures ParseFrameTags(CString(Join(fields)[1..]), h.interlace, h.chroma, p)
         == FinishFrame(ApplyFrameTags(fields, CLEAR_FRAME, h.interlace, p).value, h.interlace, h.chroma)
  {
    JoinChars(fields, '\n');
    JoinChars(fields, '\0');
    TokensOfJoin(fields);
    CStringWhole(Join(fields)[1..]);
  }

  /** A frame line without tags, and one with. */
  lemma BareLineRead(h: Header, p: Settings, rest: string)
    ensures ReadFrameHeader(FRAME_MAGIC + "\n" + rest, h, p) == Read(Ok(CLEAR_FRAME), rest)
  {
    var input := FRAME_MAGIC + "\n" + rest;
    assert input[..PREFIX] == "FRAME\n" && input[PREFIX..] == rest;
    assert input[..PREFIX][..5] == FRAME_MAGIC;
  }

  lemma TaggedLineRead(text: string, h: Header, p: Settings, rest: string)
    requires text != [] && text[0] == ' ' && '\n' !in text && |text| <= LINE_MAX
    ensures ReadFrameHeader(FRAME_MAGIC + text + "\n" + rest, h, p)
         == Read(ParseFrameTags(CString(text[1..]), h.interlace, h.chroma, p), rest)
  {
    var input := FRAME_MAGIC + text + "\n" + rest;
    assert input[..PREFIX] == "FRAME " && input[PREFIX..] == text[1..] + "\n" + rest;
    assert input[..PREFIX][..5] == FRAME_MAGIC;
    TakeLineOf(text[1..], rest, LINE_MAX);
  }

  lemma FrameLineReadBack(f: FrameInfo, h: Header, p: Settings, rest: string)
    requires RepresentableTags(f.tags) && TransmissibleFrame(f, h, p) && PrintFrame(f, h.interlace, p).Ok?
    ensures ReadFrameHeader(FrameLine(f, h.interlace) + rest, h, p) == Read(Ok(Received(f, h)), rest)
  {
    var fields := FrameFields(f, h.interlace) + f.tags;
    if fields == [] {
      assert f.tags == [];
      BareLineRead(h, p, rest);
    } else {
      FrameFieldsParse(f, h, p);
      TaggedLineRead(Join(fields), h, p, rest);
    }
  }

  /** What every frame header the parser accepts is like. */
  predicate ParsedFrame(f: FrameInfo, p: Settings) {
    && Y4M_UNKNOWN <= f.presentation < |PRESENTATION_CHARS|
    && Y4M_UNKNOWN <= f.temporal < |SAMPLING_CHARS| && Y4M_UNKNOWN <= f.spatial < |SAMPLING_CHARS|
    && forall t :: t in f.tags ==> GoodTag(t, FRAME_LETTERS, p)
  }

  lemma {:induction false} ApplyFrameTagsParsed(tokens: seq<string>, f: FrameInfo, interlace: int, p: Settings)
    requires ParsedFrame(f, p) && forall t :: t in tokens ==> IsField(t) && '\n' !in t
    ensures ApplyFrameTags(tokens, f, interlace, p).Ok? ==>
              ParsedFrame(ApplyFrameTags(tokens, f, interlace, p).value, p)
  {
    if tokens == [] {
    } else {
      var t := tokens[0];
      assert t in tokens;
      var next := ApplyFrameTag(t, f, interlace, p);
      if next.Ok? {
        assert ParsedFrame(next.value, p);
        ApplyFrameTagsParsed(tokens[1..], next.value, interlace, p);
      }
    }
  }

  lemma ReadFrameIsParsed(input: string, h: Header, p: Settings)
    requires FRAME_MAGIC <= input
    ensures ReadFrameHeader(input, h, p).outcome.Ok? ==>
              var f := ReadFrameHeader(input, h, p).outcome.value;
              (f == CLEAR_FRAME && |input| >= PREFIX && input[5] == '\n') || TransmissibleFrame(f, h, p)
  {
    if |input| >= PREFIX {
      assert FRAME_MAGIC <= input[..PREFIX];
      var more := input[PREFIX..];
      TakeLineSplits(more, LINE_MAX);
      if input[..PREFIX][5] == ' ' && TakeLine(more, LINE_MAX).Line? {
        ParsedText(TakeLine(more, LINE_MAX).text, h, p);
      }
    }
  }

  lemma ParsedText(text: string, h: Header, p: Settings)
    requires '\n' !in text
    ensures var r := ParseFrameTags(CString(text), h.interlace, h.chroma, p);
            r.Ok? ==> TransmissibleFrame(r.value, h, p)
  {
    CStringClean(text);
    TokensAreFields(CString(text));
    ApplyFrameTagsParsed(Tokens(CString(text)), CLEAR_FRAME, h.interlace, p);
  }

  /** The stream header says how its frames are sampled, each frame header need not. */
  predicate ImpliesSampling(h: Header) {
    h.interlace == ILACE_NONE || h.interlace == ILACE_TOP_FIRST || h.interlace == ILACE_BOTTOM_FIRST
  }

  /**
   A frame header the writer accepts arrives, with everything behind it untouched, exactly when the
   format can carry it.  It arrives with what the stream header implies filled in exactly when, besides,
   it has a tag or nothing was to be filled in: from a bare line of such a stream it arrives unknown.
   */
  lemma FrameHeaderRoundTrips(f: FrameInfo, h: Header, p: Settings, rest: string)
    requires RepresentableTags(f.tags) && PrintFrame(f, h.interlace, p).Ok?
    ensures ReadFrameHeader(PrintFrame(f, h.interlace, p).value + rest, h, p) == Read(Ok(Received(f, h)), rest)
            <==> TransmissibleFrame(f, h, p)
    ensures ReadFrameHeader(PrintFrame(f, h.interlace, p).value + rest, h, p) == Read(Ok(Implied(f, h)), rest)
            <==> TransmissibleFrame(f, h, p) && (f.tags != [] || !ImpliesSampling(h))
  {
    hide GoodTag, ParseFrameTags, RepresentableTags, ReadFrameHeader;
    var input := FrameLine(f, h.interlace) + rest;
    if TransmissibleFrame(f, h, p) {
      FrameLineReadBack(f, h, p, rest);
    }
    if ReadFrameHeader(input, h, p).outcome == Ok(Received(f, h)) || f.tags != [] {
      ReadIsTransmissible(f, h, p, rest);
    }
  }

  /** If what arrives is what was meant, the format carries it. */
  lemma ReadIsTransmissible(f: FrameInfo, h: Header, p: Settings, rest: string)
    requires RepresentableTags(f.tags) && PrintFrame(f, h.interlace, p).Ok?
    ensures ReadFrameHeader(FrameLine(f, h.interlace) + rest, h, p).outcome == Ok(Received(f, h)) ==>
              TransmissibleFrame(f, h, p)
  {
    hide GoodTag, ParseFrameTags, RepresentableTags;
    var input := FrameLine(f, h.interlace) + rest;
    var text := Join(FrameFields(f, h.interlace) + f.tags);
    assert input == FRAME_MAGIC + (text + "\n" + rest);
    ReadFrameIsParsed(input, h, p);
    if |input| >= PREFIX && input[5] == '\n' {
      assert (text + "\n" + rest)[0] == '\n';
      assert FrameFields(f, h.interlace) + f.tags == [];
    }
  }

  // ------------------------------------------------------------ frames

  /** A frame the writer accepts and the format carries. */
  predicate GoodFrame(f: Frame, h: Header, p: Settings) {
    && RepresentableTags(f.info.tags) && PrintFrame(f.info, h.interlace, p).Ok?
    && TransmissibleFrame(f.info, h, p) && PlanesFit(f.planes, h)
  }

  function Arrived(f: Frame, h: Header): Frame {
    Frame(Received(f.info, h), f.planes)
  }

  lemma {:induction false} PlanesReadBack(planes: seq<string>, h: Header, i: nat, rest: string)
    requires Sized(h) && PlanesFit(planes, h) && i <= |planes|
    ensures ReadPlanes(Concat(planes[i..]) + rest, h, i) == Read(Ok(planes[i..]), rest)
    decreases |planes| - i
  {
    var input := Concat(planes[i..]) + rest;
    if i == |planes| {
      assert input == rest;
    } else {
      PlanesAreSized(h, i);
      var n := PlaneLength(h, i);
      assert planes[i..][1..] == planes[i + 1..];
      assert input == planes[i] + (Concat(planes[i + 1..]) + rest);
      assert input[..n] == planes[i] && input[n..] == Concat(planes[i + 1..]) + rest;
      PlanesReadBack(planes, h, i + 1, rest);
      assert [planes[i]] + planes[i + 1..] == planes[i..];
    }
  }

  /** A frame is read back with its planes, and nothing behind it is touched. */
  lemma FrameReadBack(f: Frame, h: Header, p: Settings, rest: string)
    requires Sized(h) && GoodFrame(f, h, p)
    ensures ReadFrame(FrameBytes(f, h) + rest, h, p) == Read(Ok(Arrived(f, h)), rest)
  {
    var data := Concat(f.planes) + rest;
    assert FrameBytes(f, h) + rest == FrameLine(f.info, h.interlace) + data;
    FrameLineReadBack(f.info, h, p, data);
    assert f.planes[0..] == f.planes;
    PlanesReadBack(f.planes, h, 0, rest);
  }

  // ------------------------------------------------------------ copies of the header

  /** A header that reads back as itself. */
  predicate GoodHeader(h: Header, p: Settings) {
    Representable(h) && PrintHeader(h, p).Ok? && Transmissible(h, p) && Normalized(h) == h
  }

  lemma CopyRead(h: Header, p: Settings, rest: string)
    requires Representable(h) && PrintHeader(h, p).Ok? && Transmissible(h, p)
    ensures var input := HeaderLine(h) + rest;
            |input| >= PREFIX && !(FRAME_MAGIC <= input[..PREFIX])
            && ReadStreamHeader(input[..PREFIX], input[PREFIX..], p) == Read(Ok(Normalized(h)), rest)
  {
    hide FixedFields, ReadStreamHeader, Representable, Transmissible;
    var input := HeaderLine(h) + rest;
    HeaderReadBack(h, p, PREFIX, rest);
    var body := HeaderBody(h);
    FirstSix(body, rest);
    assert input == body + ("\n" + rest);
    assert input[..PREFIX][0] == 'Y' && FRAME_MAGIC[0] == 'F';
  }

  lemma FirstSix(body: string, rest: string)
    requires |body| >= PREFIX
    ensures (body + ("\n" + rest))[..PREFIX] == body[..PREFIX]
    ensures (body + ("\n" + rest))[PREFIX..] == body[PREFIX..] + "\n" + rest
  {
  }

  /**
   A copy of the header the reader goes by is skipped if that header is in lowest terms, which every
   header that was itself read is; a reader that goes by another rejects the copy.
   */
  lemma CopySkipped(h: Header, p: Settings, rest: string)
    requires Representable(h) && PrintHeader(h, p).Ok? && Transmissible(h, p)
    ensures ReadFrameHeader(HeaderLine(h) + rest, h, p)
         == if Normalized(h) == h then ReadFrameHeader(rest, h, p) else Read(Err(Y4M_ERR_HEADER), rest)
  {
    CopyRead(h, p, rest);
    if NoDifference(h, Normalized(h)) {
      assert h.(tags := []) == Normalized(h).(tags := []);
      assert h.framerate == Normalized(h).framerate && h.sampleaspect == Normalized(h).sampleaspect;
    }
  }

  lemma CopyChangesNothing(h: Header, p: Settings, rest: string)
    requires Sized(h) && GoodHeader(h, p)
    ensures ReadFrames(HeaderLine(h) + rest, h, p) == ReadFrames(rest, h, p)
  {
    CopySkipped(h, p, rest);
    var input := HeaderLine(h) + rest;
    assert ReadFrame(input, h, p) == ReadFrame(rest, h, p);
  }

  // ------------------------------------------------------------ whole streams

  /** What follows the stream header: frames, and copies of the header. */
  datatype Item = Copy | Picture(frame: Frame)

  function ItemBytes(item: Item, h: Header): string {
    match item
    case Copy => HeaderLine(h)
    case Picture(f) => FrameBytes(f, h)
  }

  function Body(items: seq<Item>, h: Header): string {
    if items == [] then [] else ItemBytes(items[0], h) + Body(items[1..], h)
  }

  predicate GoodItems(items: seq<Item>, h: Header, p: Settings) {
    forall i :: 0 <= i < |items| && items[i].Picture? ==> GoodFrame(items[i].frame, h, p)
  }

  /** The frames among the items, as they arrive. */
  function Pictures(items: seq<Item>, h: Header): seq<Frame> {
    if items == [] then []
    else (if items[0].Picture? then [Arrived(items[0].frame, h)] else []) + Pictures(items[1..], h)
  }

  /** The items that lie wholly within the first `c` characters. */
  function WholeItems(items: seq<Item>, h: Header, c: nat): (k: nat)
    ensures k <= |items|
  {
    if items == [] || c < |ItemBytes(items[0], h)| then 0
    else 1 + WholeItems(items[1..], h, c - |ItemBytes(items[0], h)|)
  }

  lemma ItemRead(item: Item, h: Header, p: Settings, rest: string)
    requires Sized(h) && GoodHeader(h, p) && (item.Picture? ==> GoodFrame(item.frame, h, p))
    ensures ReadFrames(ItemBytes(item, h) + rest, h, p)
         == Run(Pictures([item], h) + ReadFrames(rest, h, p).frames, ReadFrames(rest, h, p).last)
  {
    hide FixedFields, FrameFields;
    match item
    case Copy =>
      CopyChangesNothing(h, p, rest);
      assert Pictures([item], h) == [];
    case Picture(f) =>
      FrameReadBack(f, h, p, rest);
      assert Pictures([item], h) == [Arrived(f, h)];
  }

  // ------------------------------------------------------------ cut streams

  lemma {:induction false} CutPlanes(planes: seq<string>, h: Header, i: nat, c: nat)
    requires Sized(h) && PlanesFit(planes, h) && i <= |planes| && c < |Concat(planes[i..])|
    ensures ReadPlanes(Concat(planes[i..])[..c], h, i).outcome == Err(Y4M_ERR_SYSTEM)
    decreases |planes| - i
  {
    if i == |planes| {
    } else {
      PlanesAreSized(h, i);
      var n := PlaneLength(h, i);
      assert planes[i..][1..] == planes[i + 1..];
      if c >= n {
        assert Concat(planes[i..])[..c][n..] == Concat(planes[i + 1..])[..c - n];
        CutPlanes(planes, h, i + 1, c - n);
      }
    }
  }

  lemma {:induction false} ShortLine(input: string, room: nat)
    requires |input| < room && '\n' !in input
    ensures TakeLine(input, room).Short?
  {
    if input == [] {
    } else {
      ShortLine(input[1..], room - 1);
    }
  }

  /** A line cut behind the characters the reader fetches first. */
  lemma CutSplit(magic: string, text: string, c: nat)
    requires |magic| == 5 && PREFIX <= c <= 5 + |text|
    ensures (magic + text)[..c][..PREFIX] == magic + [text[0]]
    ensures (magic + text)[..c][PREFIX..] == text[1..c - 5]
  {
  }

  lemma CutFrameLine(f: FrameInfo, h: Header, p: Settings, c: nat)
    requires RepresentableTags(f.tags) && TransmissibleFrame(f, h, p) && PrintFrame(f, h.interlace, p).Ok?
    requires 0 < c < |FrameLine(f, h.interlace)|
    ensures ReadFrameHeader(FrameLine(f, h.interlace)[..c], h, p).outcome
         == Err(if c < PREFIX then Y4M_ERR_BADEOF else Y4M_ERR_SYSTEM)
  {
    hide FrameFields, ParseFrameTags, GoodTag, RepresentableTags;
    if c >= PREFIX {
      var fields := FrameFields(f, h.interlace) + f.tags;
      FrameFieldsParse(f, h, p);
      var text := Join(fields);
      CutSplit(FRAME_MAGIC, text + "\n", c);
      assert FRAME_MAGIC + (text + "\n") == FrameLine(f, h.interlace);
      assert (FRAME_MAGIC + [text[0]])[..5] == FRAME_MAGIC;
      assert (text + "\n")[1..c - 5] == text[1..c - 5];
      ShortLine(text[1..c - 5], LINE_MAX);
    }
  }

  /** A frame cut short anywhere is reported as damage, never as the end of the stream. */
  lemma CutFrame(f: Frame, h: Header, p: Settings, c: nat)
    requires Sized(h) && GoodFrame(f, h, p) && 0 < c < |FrameBytes(f, h)|
    ensures ReadFrame(FrameBytes(f, h)[..c], h, p).outcome
         == Err(if c < PREFIX then Y4M_ERR_BADEOF else Y4M_ERR_SYSTEM)
  {
    var line := FrameLine(f.info, h.interlace);
    if c < |line| {
      assert FrameBytes(f, h)[..c] == line[..c];
      CutFrameLine(f.info, h, p, c);
    } else {
      var data := Concat(f.planes)[..c - |line|];
      assert FrameBytes(f, h)[..c] == line + data;
      FrameLineReadBack(f.info, h, p, data);
      assert f.planes[0..] == f.planes;
      CutPlanes(f.planes, h, 0, c - |line|);
    }
  }

  lemma CutCopy(h: Header, p: Settings, c: nat)
    requires GoodHeader(h, p) && 0 < c < |HeaderLine(h)|
    ensures ReadFrameHeader(HeaderLine(h)[..c], h, p).outcome
         == Err(if c < PREFIX then Y4M_ERR_BADEOF else Y4M_ERR_SYSTEM)
  {
    hide FixedFields, Representable, Transmissible, ParseStreamLine;
    if c >= PREFIX {
      HeaderBodyParses(h, p);
      var body := HeaderBody(h);
      var head, tail := body[..5], body[5..];
      CutSplit(head, tail + "\n", c);
      assert head + (tail + "\n") == HeaderLine(h);
      assert (head + [(tail + "\n")[0]])[0] == 'Y' && FRAME_MAGIC[0] == 'F';
      assert (tail + "\n")[1..c - 5] == body[PREFIX..c];
      ShortLine(body[PREFIX..c], LINE_MAX - PREFIX);
    }
  }

  lemma CutItem(item: Item, h: Header, p: Settings, c: nat)
    requires Sized(h) && GoodHeader(h, p) && (item.Picture? ==> GoodFrame(item.frame, h, p))
    requires 0 < c < |ItemBytes(item, h)|
    ensures ReadFrames(ItemBytes(item, h)[..c], h, p) == Run([], if c < PREFIX then Y4M_ERR_BADEOF else Y4M_ERR_SYSTEM)
  {
    match item
    case Copy => CutCopy(h, p, c);
    case Picture(f) => CutFrame(f, h, p, c);
  }

  lemma BodyCut(items: seq<Item>, h: Header, c: nat)
    requires items != [] && c <= |Body(items, h)|
    ensures var n := |ItemBytes(items[0], h)|;
            Body(items, h)[..c] ==
            if c < n then ItemBytes(items[0], h)[..c] else ItemBytes(items[0], h) + Body(items[1..], h)[..c - n]
  {
  }

  lemma FirstItems(items: seq<Item>, h: Header, k: nat)
    requires 0 < k <= |items|
    ensures Body(items[..k], h) == ItemBytes(items[0], h) + Body(items[1..][..k - 1], h)
    ensures Pictures(items[..k], h) == Pictures([items[0]], h) + Pictures(items[1..][..k - 1], h)
  {
    assert items[..k][0] == items[0] && items[..k][1..] == items[1..][..k - 1];
    assert Pictures([items[0]][1..], h) == [];
  }

  /** What reading a stream cut after `c` characters comes to. */
  predicate CutReads(run: Run, items: seq<Item>, h: Header, c: nat) {
    var k := WholeItems(items, h, c);
    && run.frames == Pictures(items[..k], h)
    && (run.last == Y4M_ERR_EOF <==> c == |Body(items[..k], h)|)
    && run.last in {Y4M_ERR_EOF, Y4M_ERR_BADEOF, Y4M_ERR_SYSTEM}
  }

  lemma CutReadsMore(first: Run, rest: Run, items: seq<Item>, h: Header, c: nat)
    requires items != [] && c >= |ItemBytes(items[0], h)|
    requires CutReads(rest, items[1..], h, c - |ItemBytes(items[0], h)|)
    requires first == Run(Pictures([items[0]], h) + rest.frames, rest.last)
    ensures CutReads(first, items, h, c)
  {
    hide ItemBytes;
    FirstItems(items, h, WholeItems(items, h, c));
  }

  /**
   Reading a stream that was cut after `c` characters gives the frames wholly before the cut, and
   reports a clean end exactly when the cut falls between two items.
   */
  lemma {:induction false} CutBody(items: seq<Item>, h: Header, p: Settings, c: nat)
    requires Sized(h) && GoodHeader(h, p) && GoodItems(items, h, p) && c <= |Body(items, h)|
    ensures CutReads(ReadFrames(Body(items, h)[..c], h, p), items, h, c)
  {
    hide ItemBytes, ReadFrames, GoodHeader, GoodFrame, CutReads, Sized;
    if items == [] {
      CutEmptyBody(h, p);
      assert Body(items, h)[..c] == [];
    } else if c < |ItemBytes(items[0], h)| {
      CutFirstItem(items, h, p, c);
    } else {
      BodyCut(items, h, c);
      var n := |ItemBytes(items[0], h)|;
      var rest := Body(items[1..], h)[..c - n];
      ItemRead(items[0], h, p, rest);
      CutBody(items[1..], h, p, c - n);
      CutReadsMore(ReadFrames(Body(items, h)[..c], h, p), ReadFrames(rest, h, p), items, h, c);
    }
  }

  lemma EmptyBody(h: Header, p: Settings)
    requires Sized(h)
    ensures ReadFrames([], h, p) == Run([], Y4M_ERR_EOF)
  {
  }

  lemma CutEmptyBody(h: Header, p: Settings)
    requires Sized(h)
    ensures CutReads(ReadFrames([], h, p), [], h, 0)
  {
    EmptyBody(h, p);
  }

  lemma CutFirstItem(items: seq<Item>, h: Header, p: Settings, c: nat)
    requires Sized(h) && GoodHeader(h, p) && GoodItems(items, h, p)
    requires items != [] && c <= |Body(items, h)| && c < |ItemBytes(items[0], h)|
    ensures CutReads(ReadFrames(Body(items, h)[..c], h, p), items, h, c)
  {
    hide ItemBytes;
    BodyCut(items, h, c);
    assert items[..0] == [];
    if c > 0 {
      CutItem(items[0], h, p, c);
    } else {
      EmptyBody(h, p);
      assert Body(items, h)[..c] == [];
    }
  }

  lemma {:induction false} AllItemsAreWhole(items: seq<Item>, h: Header)
    ensures WholeItems(items, h, |Body(items, h)|) == |items|
  {
    if items == [] {
    } else {
      AllItemsAreWhole(items[1..], h);
    }
  }

  /** An uncut stream gives every frame and then a clean end. */
  lemma BodyReadBack(items: seq<Item>, h: Header, p: Settings)
    requires Sized(h) && GoodHeader(h, p) && GoodItems(items, h, p)
    ensures ReadFrames(Body(items, h), h, p) == Run(Pictures(items, h), Y4M_ERR_EOF)
  {
    hide ItemBytes, ReadFrames;
    AllItemsAreWhole(items, h);
    CutBody(items, h, p, |Body(items, h)|);
    assert items[..|items|] == items && Body(items, h)[..|Body(items, h)|] == Body(items, h);
  }

  /**
   A stream written with header `h` and any frames, with copies of the header anywhere between them,
   is read back as that header with its ratios reduced, exactly those frames, and a clean end.
   */
  lemma StreamRoundTrips(items: seq<Item>, h: Header, p: Settings)
    requires Representable(h) && PrintHeader(h, p).Ok? && Transmissible(h, p) && GoodItems(items, h, p)
    ensures var n := Normalized(h);
            && Sized(n)
            && ReadStreamHeader("", HeaderLine(h) + Body(items, h), p) == Read(Ok(n), Body(items, h))
            && ReadFrames(Body(items, h), n, p) == Run(Pictures(items, h), Y4M_ERR_EOF)
  {
    hide Representable, Transmissible, ReadFrames, GoodItems, GoodHeader, HeaderLine;
    var n := Normalized(h);
    HeaderRoundTrips(h, p, Body(items, h));
    NormalizedIsGood(h, p);
    SameBody(items, h, n);
    SameGoodItems(items, h, n, p);
    BodyReadBack(items, n, p);
  }

  lemma SameGoodItems(items: seq<Item>, h: Header, n: Header, p: Settings)
    requires GoodItems(items, h, p) && n == h.(framerate := n.framerate, sampleaspect := n.sampleaspect)
    ensures GoodItems(items, n, p)
  {
    forall i | 0 <= i < |items| && items[i].Picture? ensures GoodFrame(items[i].frame, n, p) {
      assert GoodFrame(items[i].frame, h, p);
    }
  }

  lemma NormalizedIsGood(h: Header, p: Settings)
    requires Representable(h) && PrintHeader(h, p).Ok? && Transmissible(h, p)
    ensures GoodHeader(Normalized(h), p) && HeaderLine(Normalized(h)) == HeaderLine(h) && Sized(Normalized(h))
  {
    hide Reduced, GoodTag;
    ReducedTwice(h.framerate);
    ReducedTwice(h.sampleaspect);
    ReducedReadable(h.framerate);
    ReducedReadable(h.sampleaspect);
  }

  lemma {:induction false} SameBody(items: seq<Item>, h: Header, n: Header)
    requires HeaderLine(n) == HeaderLine(h) && n.interlace == h.interlace
    ensures Body(items, n) == Body(items, h) && Pictures(items, n) == Pictures(items, h)
  {
    if items == [] {
    } else {
      SameBody(items[1..], h, n);
    }
  }
}
