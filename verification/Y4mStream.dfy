/**
 A YUV4MPEG2 stream as a string: plane geometry, the comparison of headers, and what the frame
 readers make of an input.  The methods that read and write real streams refine these functions.
 */
module Y4mStream {
  import opened CInt
  import opened CText
  import opened XTags
  import opened Y4mHeader
  import opened HeaderRoundTrip

  // ------------------------------------------------------------ plane geometry

  /** y4m_si_get_plane_count */
  function PlaneCount(h: Header): int {
    if CHROMA_420JPEG <= h.chroma <= CHROMA_411 then 3
    else if h.chroma == CHROMA_MONO then 1
    else if h.chroma == CHROMA_444ALPHA then 4
    else Y4M_UNKNOWN
  }

  /** y4m_si_get_plane_width */
  function PlaneWidth(h: Header, plane: int): int {
    if plane == 0 then h.width
    else if plane == 1 || plane == 2 then
      if Is420(h.chroma) then TruncDiv(h.width, 2)
      else if h.chroma == CHROMA_444 || h.chroma == CHROMA_444ALPHA then h.width
      else if h.chroma == CHROMA_422 then TruncDiv(h.width, 2)
      else if h.chroma == CHROMA_411 then TruncDiv(h.width, 4)
      else Y4M_UNKNOWN
    else if plane == 3 && h.chroma == CHROMA_444ALPHA then h.width
    else Y4M_UNKNOWN
  }

  /** y4m_si_get_plane_height */
  function PlaneHeight(h: Header, plane: int): int {
    if plane == 0 then h.height
    else if plane == 1 || plane == 2 then
      if Is420(h.chroma) then TruncDiv(h.height, 2)
      else if h.chroma == CHROMA_444 || h.chroma == CHROMA_444ALPHA || h.chroma == CHROMA_422 || h.chroma == CHROMA_411
      then h.height
      else Y4M_UNKNOWN
    else if plane == 3 && h.chroma == CHROMA_444ALPHA then h.height
    else Y4M_UNKNOWN
  }

  /** y4m_si_get_plane_length */
  function PlaneLength(h: Header, plane: int): int {
    var w, l := PlaneWidth(h, plane), PlaneHeight(h, plane);
    if w != Y4M_UNKNOWN && l != Y4M_UNKNOWN then w * l else Y4M_UNKNOWN
  }

  /** A header that sizes its frames. */
  predicate Sized(h: Header) {
    h.width > 0 && h.height > 0 && CHROMA_420JPEG <= h.chroma <= CHROMA_444ALPHA
  }

  /**
   The planes of each chroma mode: luma, and alpha, of the size of the frame; colour planes of half the
   width and height (4:2:0), of half (4:2:2) or a quarter (4:1:1) of the width, or of the whole (4:4:4),
   rounded down.
   */
  lemma PlaneSizes(h: Header, p: int)
    requires Sized(h) && 0 <= p < PlaneCount(h)
    ensures PlaneCount(h) == if h.chroma == 6 then 1 else if h.chroma == 7 then 4 else 3
    ensures p == 0 || p == 3 || h.chroma == 3 || h.chroma == 7 ==>
              PlaneWidth(h, p) == h.width && PlaneHeight(h, p) == h.height
    ensures (p == 1 || p == 2) && 0 <= h.chroma <= 2 ==>
              && 2 * PlaneWidth(h, p) <= h.width < 2 * PlaneWidth(h, p) + 2
              && 2 * PlaneHeight(h, p) <= h.height < 2 * PlaneHeight(h, p) + 2
    ensures (p == 1 || p == 2) && h.chroma == 4 ==>
              2 * PlaneWidth(h, p) <= h.width < 2 * PlaneWidth(h, p) + 2 && PlaneHeight(h, p) == h.height
    ensures (p == 1 || p == 2) && h.chroma == 5 ==>
              4 * PlaneWidth(h, p) <= h.width < 4 * PlaneWidth(h, p) + 4 && PlaneHeight(h, p) == h.height
  {
  }

  lemma PlanesAreSized(h: Header, plane: int)
    requires Sized(h) && 0 <= plane < PlaneCount(h)
    ensures PlaneWidth(h, plane) >= 0 && PlaneHeight(h, plane) >= 0
    ensures PlaneLength(h, plane) == PlaneWidth(h, plane) * PlaneHeight(h, plane) >= 0
  {
  }

  /** The lengths of the planes from `plane` on, together. */
  function LengthFrom(h: Header, plane: nat): int
    decreases PlaneCount(h) - plane
  {
    if plane >= PlaneCount(h) then 0 else PlaneLength(h, plane) + LengthFrom(h, plane + 1)
  }

  /** The octets of a frame, where the colour planes divide it evenly. */
  lemma FrameSizes(h: Header)
    requires Sized(h)
    ensures var total, area := LengthFrom(h, 0), h.width * h.height;
            && (0 <= h.chroma <= 2 && h.width % 2 == 0 && h.height % 2 == 0 ==> 2 * total == 3 * area)
            && (h.chroma == 3 ==> total == 3 * area)
            && (h.chroma == 4 && h.width % 2 == 0 ==> total == 2 * area)
            && (h.chroma == 5 && h.width % 4 == 0 ==> 2 * total == 3 * area)
            && (h.chroma == 6 ==> total == area)
            && (h.chroma == 7 ==> total == 4 * area)
  {
    hide PlaneLength, PlaneWidth, PlaneHeight;
    PlaneSizes(h, 0);
    PlanesAreSized(h, 0);
    LengthsAdd(h);
    if h.chroma != 6 {
      PlaneSizes(h, 1);
      PlaneSizes(h, 2);
      PlanesAreSized(h, 1);
      PlanesAreSized(h, 2);
      ColourArea(h.width, h.height, PlaneWidth(h, 1), PlaneHeight(h, 1));
    }
    if h.chroma == 7 {
      PlaneSizes(h, 3);
      PlanesAreSized(h, 3);
    }
  }

  lemma LengthsAdd(h: Header)
    requires Sized(h)
    ensures LengthFrom(h, 0) == PlaneLength(h, 0)
            + (if h.chroma == 6 then 0 else PlaneLength(h, 1) + PlaneLength(h, 2))
            + (if h.chroma == 7 then PlaneLength(h, 3) else 0)
  {
    assert LengthFrom(h, 0) == PlaneLength(h, 0) + LengthFrom(h, 1);
    if h.chroma != 6 {
      assert LengthFrom(h, 1) == PlaneLength(h, 1) + LengthFrom(h, 2);
      assert LengthFrom(h, 2) == PlaneLength(h, 2) + LengthFrom(h, 3);
    }
  }

  lemma ColourArea(w: int, l: int, v: int, k: int)
    ensures w == 2 * v && l == 2 * k ==> 4 * (v * k) == w * l
    ensures w == 2 * v && l == k ==> 2 * (v * k) == w * l
    ensures w == 4 * v && l == k ==> 4 * (v * k) == w * l
  {
  }

  lemma {:induction false} LengthIsNatural(h: Header, p: nat)
    requires Sized(h)
    ensures LengthFrom(h, p) >= 0
    decreases PlaneCount(h) - p
  {
    if p >= PlaneCount(h) {
    } else {
      PlanesAreSized(h, p);
      LengthIsNatural(h, p + 1);
    }
  }

  /** y4m_si_get_framelength */
  method FrameLength(h: Header) returns (total: int)
    ensures Sized(h) ==> total == LengthFrom(h, 0) >= 0
    ensures total == if forall i :: 0 <= i < PlaneCount(h) ==> PlaneLength(h, i) != Y4M_UNKNOWN then LengthFrom(h, 0)
                     else Y4M_UNKNOWN
  {
    if Sized(h) {
      LengthIsNatural(h, 0);
      forall i | 0 <= i < PlaneCount(h) ensures PlaneLength(h, i) != Y4M_UNKNOWN {
        PlanesAreSized(h, i);
      }
    }
    total := 0;
    var p := 0;
    while p < PlaneCount(h)
      invariant 0 <= p && total + LengthFrom(h, p) == LengthFrom(h, 0)
      invariant forall i :: 0 <= i < p && i < PlaneCount(h) ==> PlaneLength(h, i) != Y4M_UNKNOWN
    {
      var length := PlaneLength(h, p);
      if length == Y4M_UNKNOWN {
        return Y4M_UNKNOWN;
      }
      total := total + length;
      p := p + 1;
    }
  }

  /** The property the staging buffer of the field writer depends on. */
  lemma WidthsNeverIncrease(h: Header, a: int, b: int)
    requires Sized(h) && 0 <= a <= b < PlaneCount(h)
    ensures PlaneWidth(h, b) <= PlaneWidth(h, a)
  {
  }

  // ------------------------------------------------------------ comparing headers

  /** y4m_compare_stream_info finds no difference. */
  predicate NoDifference(a: Header, b: Header) {
    && a.(tags := []) == b.(tags := [])
    && |a.tags| == |b.tags|
    && forall t :: t in a.tags ==> t in b.tags
  }

  /** What the comparison is for. */
  predicate SameHeader(a: Header, b: Header) {
    a.(tags := []) == b.(tags := []) && multiset(a.tags) == multiset(b.tags)
  }

  predicate Distinct(tags: seq<string>) {
    forall i, j :: 0 <= i < j < |tags| ==> tags[i] != tags[j]
  }

  /** As many distinct tags as there are places for them fill every place. */
  lemma {:induction false} Pigeonhole(a: seq<string>, b: seq<string>)
    requires |a| == |b| && Distinct(a) && forall t :: t in a ==> t in b
    ensures multiset(a) == multiset(b)
  {
    if a == [] {
    } else {
      var t := a[0];
      assert t in a;
      var i :| 0 <= i < |b| && b[i] == t;
      var rest := b[..i] + b[i + 1..];
      forall u | u in a[1..] ensures u in rest {
        var k :| 0 <= k < |a[1..]| && a[1..][k] == u;
        assert a[k + 1] == u && u in a && u != t;
      }
      Pigeonhole(a[1..], rest);
      assert a == [t] + a[1..] && b == b[..i] + [t] + b[i + 1..];
    }
  }

  /** On lists without repeats, the one-way search tells whether one is a permutation of the other. */
  lemma NoDifferenceMeans(a: Header, b: Header)
    requires Distinct(a.tags)
    ensures NoDifference(a, b) <==> SameHeader(a, b)
  {
    if NoDifference(a, b) {
      Pigeonhole(a.tags, b.tags);
    }
    if multiset(a.tags) == multiset(b.tags) {
      assert |multiset(a.tags)| == |multiset(b.tags)|;
      forall t | t in a.tags ensures t in b.tags {
        assert t in multiset(a.tags);
      }
    }
  }

  /** The tags "XA", "XB" and so on. */
  function Names(n: nat): seq<string>
    requires n <= 100
  {
    seq(n, i requires 0 <= i < n => "X" + [('A' as int + i) as char])
  }

  /** A short tag, allowed in a header, that is not in the list. */
  lemma FreshTag(tags: seq<string>) returns (t: string)
    requires |tags| <= MAX_XTAGS
    ensures t !in tags && RepresentableTags([t])
  {
    var n := |tags|;
    var names := Names(n + 1);
    if forall i :: 0 <= i < n ==> names[i] in tags {
      var firsts := names[..n];
      assert Distinct(firsts) by {
        forall i, j | 0 <= i < j < n ensures firsts[i] != firsts[j] {
          assert firsts[i][1] != firsts[j][1];
        }
      }
      t := names[n];
      forall i | 0 <= i < n ensures firsts[i] != t {
        assert firsts[i][1] != t[1];
      }
      assert t !in multiset(firsts);
      Pigeonhole(firsts, tags);
      assert t !in multiset(tags);
    } else {
      var i :| 0 <= i < n && names[i] !in tags;
      t := names[i];
    }
  }

  /** A tag longer than every tag of the list. */
  lemma {:induction false} LongTag(tags: seq<string>) returns (t: string)
    ensures forall u :: u in tags ==> |u| < |t|
  {
    if tags == [] {
      t := [];
    } else {
      var shorter := LongTag(tags[1..]);
      t := "X" + shorter + tags[0];
      forall u | u in tags ensures |u| < |t| {
        assert u == tags[0] || u in tags[1..];
      }
    }
  }

  /** A repeated tag can be replaced in the other list without the comparison noticing. */
  lemma ReplacedUnnoticed(a: Header, i: nat, j: nat, t: string) returns (b: Header)
    requires i < j < |a.tags| && a.tags[i] == a.tags[j] && t !in a.tags
    ensures b == a.(tags := a.tags[j := t]) && NoDifference(a, b) && !SameHeader(a, b)
  {
    b := a.(tags := a.tags[j := t]);
    assert b.tags[j] == t && t in b.tags;
    assert t in multiset(b.tags) && t !in multiset(a.tags);
    forall u | u in a.tags ensures u in b.tags {
      var k :| 0 <= k < |a.tags| && a.tags[k] == u;
      assert b.tags[if k == j then i else k] == u;
    }
  }

  /**
   The comparison decides, against every other header, whether the two are the same, exactly if the
   first has no tag twice; and also if only headers that a C program can hold are compared.
   */
  lemma ComparisonDecides(a: Header)
    ensures Distinct(a.tags) <==> forall b: Header :: NoDifference(a, b) <==> SameHeader(a, b)
    ensures RepresentableTags(a.tags) ==>
              (Distinct(a.tags) <==>
               forall b: Header :: RepresentableTags(b.tags) ==> (NoDifference(a, b) <==> SameHeader(a, b)))
  {
    if Distinct(a.tags) {
      forall b: Header ensures NoDifference(a, b) <==> SameHeader(a, b) {
        NoDifferenceMeans(a, b);
      }
    } else {
      var i, j :| 0 <= i < j < |a.tags| && a.tags[i] == a.tags[j];
      var long := LongTag(a.tags);
      var b := ReplacedUnnoticed(a, i, j, long);
      if RepresentableTags(a.tags) {
        var t := FreshTag(a.tags);
        var c := ReplacedUnnoticed(a, i, j, t);
        assert t in [t];
        assert RepresentableTags(c.tags);
      }
    }
  }

  /** For example, each tag of the first list is looked up, none of the second. */
  lemma RepeatsGoUnnoticed(h: Header)
    ensures var a, b := h.(tags := ["XA", "XA"]), h.(tags := ["XA", "XB"]);
            NoDifference(a, b) && !NoDifference(b, a) && multiset(a.tags) != multiset(b.tags)
  {
    var a, b := ["XA", "XA"], ["XA", "XB"];
    assert b[1] == "XB" && "XB" != "XA" by { assert "XB"[1] != "XA"[1]; }
    assert "XB" in b && "XB" !in a;
    assert "XB" in multiset(b) && "XB" !in multiset(a);
  }

  // ------------------------------------------------------------ reading frames

  /** "FRAME" and the character behind it, which the reader fetches in one go. */
  const PREFIX := 6

  lemma StreamHeaderConsumes(already: string, input: string, p: Settings)
    requires |already| <= LINE_MAX
    ensures |ReadStreamHeader(already, input, p).rest| <= |input|
  {
    TakeLineSplits(input, LINE_MAX - |already|);
  }

  /** The frame header whose line goes on with `more` behind "FRAME" and a blank. */
  function TaggedFrame(more: string, interlace: int, chroma: int, p: Settings): Read<FrameInfo> {
    match TakeLine(more, LINE_MAX)
    case Short => Read(Err(Y4M_ERR_SYSTEM), [])
    case Long(text, rest) => Read(Err(Y4M_ERR_HEADER), rest)
    case Line(text, rest) => Read(ParseFrameTags(CString(text), interlace, chroma, p), rest)
  }

  /** y4m_read_frame_header: headers equal to the stream's own are skipped. */
  function ReadFrameHeader(input: string, h: Header, p: Settings): Read<FrameInfo>
    decreases |input|
  {
    if input == [] then Read(Err(Y4M_ERR_EOF), [])
    else if |input| < PREFIX then Read(Err(Y4M_ERR_BADEOF), [])
    else
      var first, more := input[..PREFIX], input[PREFIX..];
      if !(FRAME_MAGIC <= first) then
        var again := ReadStreamHeader(first, more, p);
        StreamHeaderConsumes(first, more, p);
        if again.outcome.Err? then Read(Err(again.outcome.code), again.rest)
        else if !NoDifference(h, again.outcome.value) then Read(Err(Y4M_ERR_HEADER), again.rest)
        else ReadFrameHeader(again.rest, h, p)
      else if first[5] == '\n' then Read(Ok(CLEAR_FRAME), more)
      else if first[5] != ' ' then Read(Err(Y4M_ERR_MAGIC), more)
      else TaggedFrame(more, h.interlace, h.chroma, p)
  }

  /** The planes from the given one on. */
  function ReadPlanes(input: string, h: Header, plane: nat): Read<seq<string>>
    requires Sized(h)
    decreases PlaneCount(h) - plane
  {
    if plane >= PlaneCount(h) then Read(Ok([]), input)
    else
      PlanesAreSized(h, plane);
      var n := PlaneLength(h, plane);
      if n > |input| then Read(Err(Y4M_ERR_SYSTEM), [])
      else
        var more := ReadPlanes(input[n..], h, plane + 1);
        match more.outcome
        case Err(code) => Read(Err(code), more.rest)
        case Ok(planes) => Read(Ok([input[..n]] + planes), more.rest)
  }

  /** The planes of a frame are there exactly if the input has as many octets as they have, and take just those. */
  lemma {:induction false} PlanesTakeTheirLengths(input: string, h: Header, p: nat)
    requires Sized(h)
    ensures LengthFrom(h, p) >= 0
    ensures ReadPlanes(input, h, p).outcome.Ok? <==> |input| >= LengthFrom(h, p)
    ensures ReadPlanes(input, h, p).outcome.Ok? ==> ReadPlanes(input, h, p).rest == input[LengthFrom(h, p)..]
    decreases PlaneCount(h) - p
  {
    if p >= PlaneCount(h) {
    } else {
      PlanesAreSized(h, p);
      var n := PlaneLength(h, p);
      PlanesTakeTheirLengths(if n <= |input| then input[n..] else [], h, p + 1);
      if |input| >= LengthFrom(h, p) {
        assert input[n..][LengthFrom(h, p + 1)..] == input[LengthFrom(h, p)..];
      }
    }
  }

  datatype Frame = Frame(info: FrameInfo, planes: seq<string>)

  /** y4m_read_frame */
  function ReadFrame(input: string, h: Header, p: Settings): Read<Frame>
    requires Sized(h)
  {
    var info := ReadFrameHeader(input, h, p);
    match info.outcome
    case Err(code) => Read(Err(code), info.rest)
    case Ok(i) =>
      var planes := ReadPlanes(info.rest, h, 0);
      match planes.outcome
      case Err(code) => Read(Err(code), planes.rest)
      case Ok(ps) => Read(Ok(Frame(i, ps)), planes.rest)
  }

  lemma {:induction false} FrameHeaderConsumes(input: string, h: Header, p: Settings)
    ensures |ReadFrameHeader(input, h, p).rest| <= |input|
    ensures ReadFrameHeader(input, h, p).outcome.Ok? ==> |ReadFrameHeader(input, h, p).rest| < |input|
    decreases |input|
  {
    if |input| < PREFIX {
    } else {
      var first, more := input[..PREFIX], input[PREFIX..];
      if !(FRAME_MAGIC <= first) {
        StreamHeaderConsumes(first, more, p);
        FrameHeaderConsumes(ReadStreamHeader(first, more, p).rest, h, p);
      } else {
        TakeLineSplits(more, LINE_MAX);
      }
    }
  }

  lemma {:induction false} PlanesConsume(input: string, h: Header, plane: nat)
    requires Sized(h)
    ensures |ReadPlanes(input, h, plane).rest| <= |input|
    decreases PlaneCount(h) - plane
  {
    if plane >= PlaneCount(h) {
    } else {
      PlanesAreSized(h, plane);
      if PlaneLength(h, plane) <= |input| {
        PlanesConsume(input[PlaneLength(h, plane)..], h, plane + 1);
      }
    }
  }

  /** What a client gets that reads frames until a call fails: the frames, and the code of the failure. */
  datatype Run = Run(frames: seq<Frame>, last: int)

  function ReadFrames(input: string, h: Header, p: Settings): Run
    requires Sized(h)
    decreases |input|
  {
    var r := ReadFrame(input, h, p);
    FrameHeaderConsumes(input, h, p);
    PlanesConsume(ReadFrameHeader(input, h, p).rest, h, 0);
    match r.outcome
    case Err(code) => Run([], code)
    case Ok(frame) =>
      var more := ReadFrames(r.rest, h, p);
      Run([frame] + more.frames, more.last)
  }

  // ------------------------------------------------------------ writing frames

  function Concat(parts: seq<string>): string {
    if parts == [] then [] else parts[0] + Concat(parts[1..])
  }

  /** The planes have the sizes the header gives. */
  predicate PlanesFit(planes: seq<string>, h: Header) {
    |planes| == PlaneCount(h) && forall i :: 0 <= i < |planes| ==> |planes[i]| == PlaneLength(h, i)
  }

  /** What y4m_write_frame emits when the header is accepted. */
  function FrameBytes(f: Frame, h: Header): string {
    FrameLine(f.info, h.interlace) + Concat(f.planes)
  }
}
