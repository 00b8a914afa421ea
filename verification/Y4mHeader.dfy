/**
 The text of YUV4MPEG2 stream and frame headers, as values: what the writers print and what the
 readers make of a line.  The methods that do the work are in Y4mInfo.dfy and Y4mIO.dfy; the
 theorems are in HeaderRoundTrip.dfy.
 */
module Y4mHeader {
  import opened CText
  import opened Ratio
  import opened XTags

  const Y4M_ERR_SYSTEM := 2
  const Y4M_ERR_HEADER := 3
  const Y4M_ERR_BADTAG := 4
  const Y4M_ERR_MAGIC := 5
  const Y4M_ERR_EOF := 6
  const Y4M_ERR_BADEOF := 8
  const Y4M_ERR_FEATURE := 9

  const Y4M_UNKNOWN := -1

  const ILACE_NONE := 0
  const ILACE_TOP_FIRST := 1
  const ILACE_BOTTOM_FIRST := 2
  const ILACE_MIXED := 3

  const CHROMA_420JPEG := 0
  const CHROMA_420MPEG2 := 1
  const CHROMA_420PALDV := 2
  const CHROMA_444 := 3
  const CHROMA_422 := 4
  const CHROMA_411 := 5
  const CHROMA_MONO := 6
  const CHROMA_444ALPHA := 7

  const MAGIC := "YUV4MPEG2"
  const FRAME_MAGIC := "FRAME"
  const LINE_MAX := 256

  /** The library's two global settings. */
  datatype Settings = Settings(level: int, allowUnknownTags: bool)

  datatype Header = Header(
    width: int, height: int, interlace: int, framerate: Ratio, sampleaspect: Ratio, chroma: int,
    tags: seq<string>)

  datatype FrameInfo = FrameInfo(spatial: int, temporal: int, presentation: int, tags: seq<string>)

  /** A value, or the error code the C function returns. */
  datatype Outcome<+T> = Ok(value: T) | Err(code: int)

  /** What a C function does that returns code `err` and leaves `value` where the caller wants it. */
  predicate Answers<T(==)>(err: int, value: T, wanted: Outcome<T>) {
    match wanted
    case Ok(v) => err == Y4M_OK && value == v
    case Err(code) => err == code && err != Y4M_OK
  }

  predicate Is420(chroma: int) {
    CHROMA_420JPEG <= chroma <= CHROMA_420PALDV
  }

  // ------------------------------------------------------------ chroma keywords

  /** y4m_chroma_keyword; the empty string stands for NULL */
  function ChromaKeyword(chroma: int): string {
    if chroma == CHROMA_420JPEG then "420jpeg"
    else if chroma == CHROMA_420MPEG2 then "420mpeg2"
    else if chroma == CHROMA_420PALDV then "420paldv"
    else if chroma == CHROMA_444 then "444"
    else if chroma == CHROMA_422 then "422"
    else if chroma == CHROMA_411 then "411"
    else if chroma == CHROMA_MONO then "mono"
    else if chroma == CHROMA_444ALPHA then "444alpha"
    else ""
  }

  /** y4m_chroma_parse_keyword */
  function ParseChroma(s: string): int {
    if SameIgnoringCase("420jpeg", s) then CHROMA_420JPEG
    else if SameIgnoringCase("420mpeg2", s) then CHROMA_420MPEG2
    else if SameIgnoringCase("420paldv", s) then CHROMA_420PALDV
    else if SameIgnoringCase("444", s) then CHROMA_444
    else if SameIgnoringCase("422", s) then CHROMA_422
    else if SameIgnoringCase("411", s) then CHROMA_411
    else if SameIgnoringCase("mono", s) then CHROMA_MONO
    else if SameIgnoringCase("444alpha", s) then CHROMA_444ALPHA
    else Y4M_UNKNOWN
  }

  // ------------------------------------------------------------ parsing stream headers

  /** y4m_parse_ratio */
  function ParseRatio(s: string): Outcome<Ratio> {
    match StrChr(s, ':')
    case Nowhere => Err(Y4M_ERR_RANGE)
    case At(i) =>
      var r := Ratio(Atoi(s), Atoi(s[i + 1..]));
      if r.d < 0 then Err(Y4M_ERR_RANGE)
      else if r.d == 0 && r.n != 0 then Err(Y4M_ERR_RANGE)
      else Ok(Reduced(r))
  }

  /** y4m_xtag_add on a sequence */
  function AddTag(tags: seq<string>, tag: string): Outcome<seq<string>> {
    if |tags| >= MAX_XTAGS then Err(Y4M_ERR_XXTAGS) else Ok(tags + [Stored(tag)])
  }

  function ParseInterlace(c: char): int {
    if c == 'p' then ILACE_NONE
    else if c == 't' then ILACE_TOP_FIRST
    else if c == 'b' then ILACE_BOTTOM_FIRST
    else if c == 'm' then ILACE_MIXED
    else Y4M_UNKNOWN
  }

  /** One round of the loop of y4m_parse_stream_tags. */
  function ApplyTag(token: string, h: Header, p: Settings): Outcome<Header> {
    if token == [] then Ok(h) else
    var tag, value := token[0], token[1..];
    if tag == 'W' then
      var n := Atoi(value);
      if n <= 0 then Err(Y4M_ERR_RANGE) else Ok(h.(width := n))
    else if tag == 'H' then
      var n := Atoi(value);
      if n <= 0 then Err(Y4M_ERR_RANGE) else Ok(h.(height := n))
    else if tag == 'F' then
      match ParseRatio(value)
      case Err(code) => Err(code)
      case Ok(r) => if r.n < 0 then Err(Y4M_ERR_RANGE) else Ok(h.(framerate := r))
    else if tag == 'I' then
      Ok(h.(interlace := ParseInterlace(CharAt(value, 0))))
    else if tag == 'A' then
      match ParseRatio(value)
      case Err(code) => Err(code)
      case Ok(r) => if r.n < 0 then Err(Y4M_ERR_RANGE) else Ok(h.(sampleaspect := r))
    else if tag == 'C' then
      var c := ParseChroma(value);
      if c == Y4M_UNKNOWN then Err(Y4M_ERR_HEADER) else Ok(h.(chroma := c))
    else if tag == 'X' || p.allowUnknownTags then
      match AddTag(h.tags, token)
      case Err(code) => Err(code)
      case Ok(tags) => Ok(h.(tags := tags))
    else
      Err(Y4M_ERR_BADTAG)
  }

  function ApplyTags(tokens: seq<string>, h: Header, p: Settings): Outcome<Header> {
    if tokens == [] then Ok(h)
    else
      match ApplyTag(tokens[0], h, p)
      case Err(code) => Err(code)
      case Ok(next) => ApplyTags(tokens[1..], next, p)
  }

  predicate NeedsLevel1(h: Header) {
    !Is420(h.chroma) || h.interlace == ILACE_MIXED
  }

  /** The checks behind the loop. */
  function FinishHeader(h: Header, p: Settings): Outcome<Header> {
    var h := if h.chroma == Y4M_UNKNOWN then h.(chroma := CHROMA_420JPEG) else h;
    if h.width == Y4M_UNKNOWN || h.height == Y4M_UNKNOWN then Err(Y4M_ERR_HEADER)
    else if p.level < 1 && NeedsLevel1(h) then Err(Y4M_ERR_FEATURE)
    else Ok(h)
  }

  /** y4m_parse_stream_tags */
  function ParseStreamTags(s: string, h: Header, p: Settings): Outcome<Header> {
    match ApplyTags(Tokens(s), h, p)
    case Err(code) => Err(code)
    case Ok(next) => FinishHeader(next, p)
  }

  /** y4m_clear_stream_info */
  function ClearHeader(p: Settings): Header {
    Header(Y4M_UNKNOWN, Y4M_UNKNOWN, Y4M_UNKNOWN, UNKNOWN_RATIO, UNKNOWN_RATIO,
           if p.level < 1 then CHROMA_420JPEG else Y4M_UNKNOWN, [])
  }

  /** What the reader makes of one header line, the newline taken off. */
  function ParseStreamLine(line: string, p: Settings): Outcome<Header> {
    var s := CString(line);
    if !(MAGIC <= s) then Err(Y4M_ERR_MAGIC)
    else ParseStreamTags(s[|MAGIC|..], ClearHeader(p), p)
  }

  // ------------------------------------------------------------ printing stream headers

  function RatioText(r: Ratio): string {
    Decimal(r.n) + ":" + Decimal(r.d)
  }

  function InterlaceText(interlace: int): string {
    if interlace == ILACE_NONE then "p"
    else if interlace == ILACE_TOP_FIRST then "t"
    else if interlace == ILACE_BOTTOM_FIRST then "b"
    else if interlace == ILACE_MIXED then "m"
    else "?"
  }

  /** The fields of the writer's format string, for the two ratios as given. */
  function FormatFields(h: Header, rate: Ratio, aspect: Ratio): seq<string> {
    [ "W" + Decimal(h.width),
      "H" + Decimal(h.height),
      "F" + RatioText(rate),
      "I" + InterlaceText(h.interlace),
      "A" + RatioText(aspect),
      "C" + ChromaKeyword(h.chroma) ]
  }

  /** The fields the writer always prints. */
  function FixedFields(h: Header): seq<string> {
    FormatFields(h, Reduced(h.framerate), Reduced(h.sampleaspect))
  }

  /** The header line before its newline. */
  function HeaderBody(h: Header): string {
    MAGIC + Join(FixedFields(h) + h.tags)
  }

  function HeaderLine(h: Header): string {
    HeaderBody(h) + "\n"
  }

  /** y4m_write_stream_header: the line it emits, or why it emits none. */
  function PrintHeader(h: Header, p: Settings): Outcome<string> {
    if ChromaKeyword(h.chroma) == "" then Err(Y4M_ERR_HEADER)
    else if p.level < 1 && NeedsLevel1(h) then Err(Y4M_ERR_FEATURE)
    else if |HeaderLine(h)| > LINE_MAX then Err(Y4M_ERR_HEADER)
    else Ok(HeaderLine(h))
  }

  // ------------------------------------------------------------ frame headers

  const PRESENTATION_CHARS := "tTbB123"
  const SAMPLING_CHARS := "pi"

  /** The index of a character in a table of codes, or Y4M_UNKNOWN. */
  function CodeOf(c: char, table: string): int {
    match StrChr(table, c)
    case At(i) => i
    case Nowhere => Y4M_UNKNOWN
  }

  function CharOf(code: int, table: string): char {
    if 0 <= code < |table| then table[code] else '?'
  }

  /** One round of the loop of y4m_parse_frame_tags. */
  function ApplyFrameTag(token: string, f: FrameInfo, interlace: int, p: Settings): Outcome<FrameInfo> {
    if token == [] then Ok(f) else
    var tag, value := token[0], token[1..];
    if tag == 'I' then
      var presentation := CodeOf(CharAt(value, 0), PRESENTATION_CHARS);
      var temporal := CodeOf(CharAt(value, 1), SAMPLING_CHARS);
      var spatial := CodeOf(CharAt(value, 2), SAMPLING_CHARS);
      if p.level < 1 then Err(Y4M_ERR_FEATURE)
      else if interlace != ILACE_MIXED then Err(Y4M_ERR_BADTAG)
      else if presentation == Y4M_UNKNOWN || temporal == Y4M_UNKNOWN then Err(Y4M_ERR_BADTAG)
      else if spatial == Y4M_UNKNOWN && CharAt(value, 2) != '?' then Err(Y4M_ERR_BADTAG)
      else Ok(FrameInfo(spatial, temporal, presentation, f.tags))
    else if tag == 'X' || p.allowUnknownTags then
      match AddTag(f.tags, token)
      case Err(code) => Err(code)
      case Ok(tags) => Ok(f.(tags := tags))
    else
      Err(Y4M_ERR_BADTAG)
  }

  function ApplyFrameTags(tokens: seq<string>, f: FrameInfo, interlace: int, p: Settings): Outcome<FrameInfo> {
    if tokens == [] then Ok(f)
    else
      match ApplyFrameTag(tokens[0], f, interlace, p)
      case Err(code) => Err(code)
      case Ok(next) => ApplyFrameTags(tokens[1..], next, interlace, p)
  }

  /** The checks and defaults behind the loop. */
  function FinishFrame(f: FrameInfo, interlace: int, chroma: int): Outcome<FrameInfo> {
    if interlace == ILACE_MIXED then
      if f.presentation == Y4M_UNKNOWN || f.temporal == Y4M_UNKNOWN then Err(Y4M_ERR_HEADER)
      else if Is420(chroma) && f.spatial == Y4M_UNKNOWN then Err(Y4M_ERR_HEADER)
      else Ok(f)
    else if interlace == ILACE_NONE then Ok(FrameInfo(0, 0, 4, f.tags))
    else if interlace == ILACE_TOP_FIRST then Ok(FrameInfo(1, 1, 0, f.tags))
    else if interlace == ILACE_BOTTOM_FIRST then Ok(FrameInfo(1, 1, 2, f.tags))
    else Ok(f)
  }

  const CLEAR_FRAME := FrameInfo(Y4M_UNKNOWN, Y4M_UNKNOWN, Y4M_UNKNOWN, [])

  /** y4m_parse_frame_tags, from a clean slate */
  function ParseFrameTags(s: string, interlace: int, chroma: int, p: Settings): Outcome<FrameInfo> {
    match ApplyFrameTags(Tokens(s), CLEAR_FRAME, interlace, p)
    case Err(code) => Err(code)
    case Ok(next) => FinishFrame(next, interlace, chroma)
  }

  /** The field only a mixed stream's frame headers carry. */
  function FrameFields(f: FrameInfo, interlace: int): seq<string> {
    if interlace == ILACE_MIXED then
      [ "I" + [CharOf(f.presentation, PRESENTATION_CHARS), CharOf(f.temporal, SAMPLING_CHARS),
               CharOf(f.spatial, SAMPLING_CHARS)] ]
    else []
  }

  function FrameLine(f: FrameInfo, interlace: int): string {
    FRAME_MAGIC + Join(FrameFields(f, interlace) + f.tags) + "\n"
  }

  /** y4m_write_frame_header */
  function PrintFrame(f: FrameInfo, interlace: int, p: Settings): Outcome<string> {
    if interlace == ILACE_MIXED && p.level < 1 then Err(Y4M_ERR_FEATURE)
    else if |FrameLine(f, interlace)| > LINE_MAX then Err(Y4M_ERR_HEADER)
    else Ok(FrameLine(f, interlace))
  }
}
