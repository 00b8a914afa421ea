/** Reading and writing frames, whole (y4m_read_frame, y4m_write_frame) and as two fields. */
module Y4mFrameIO {
  import opened CText
  import opened XTags
  import opened Y4mHeader
  import opened HeaderRoundTrip
  import opened Y4mStream
  import opened Y4mInfo
  import opened ByteIO
  import opened Y4mIO

  // ------------------------------------------------------------ frame headers

  /** What a header in the place of a frame comes to. */
  function RereadOutcome(own: Header, again: Outcome<Header>): Outcome<()> {
    match again
    case Err(code) => Err(code)
    case Ok(h) => if NoDifference(own, h) then Ok(()) else Err(Y4M_ERR_HEADER)
  }

  /** y4m_reread_stream_header_line: a header in the place of a frame must be the stream's own. */
  method RereadStreamHeaderLine(fd: Source, si: StreamInfo, line: array<char>, n0: nat, p: Settings) returns (err: int)
    requires !fd.failed && si.Valid() && line.Length == LINE_MAX && n0 <= LINE_MAX
    requires fd !in si.Repr() && line !in si.Repr()
    modifies fd, line
    ensures fd.failed ==> err == Y4M_ERR_SYSTEM
    ensures !fd.failed ==>
              var r := ReadStreamHeader(old(line[..n0]), old(fd.rest), p);
              fd.rest == r.rest && Answers(err, (), RereadOutcome(si.Value(), r.outcome))
  {
    hide HeaderRoundTrip.ReadStreamHeader, NoDifference;
    var i := new StreamInfo(p);
    err := ReadStreamHeaderLine(fd, i, line, n0, p);
    if err == Y4M_OK {
      var different := si.Compare(i);
      if different != 0 {
        err := Y4M_ERR_HEADER;
      }
    }
  }

  /** The rest of a frame line that starts with "FRAME" and a blank. */
  method ReadFrameTags(fd: Source, si: StreamInfo, fi: FrameCell, line: array<char>, p: Settings) returns (err: int)
    requires !fd.failed && fi.Valid() && fi.Value() == CLEAR_FRAME && line.Length == LINE_MAX
    requires fd !in fi.Repr() && line !in fi.Repr()
    modifies fd, line, fi.Repr()
    ensures fi.Valid() && fresh(fi.Repr() - old(fi.Repr()))
    ensures fd.failed ==> err == Y4M_ERR_SYSTEM
    ensures !fd.failed ==>
              var r := TaggedFrame(old(fd.rest), old(si.interlace), old(si.chroma), p);
              Answers(err, fi.Value(), r.outcome) && fd.rest == r.rest
  {
    hide ParseFrameTags;
    ghost var streamInterlace, streamChroma := si.interlace, si.chroma;
    var n;
    err, n := ReadLine(fd, line, 0);
    if err != Y4M_OK {
      return;
    }
    if n >= LINE_MAX {
      return Y4M_ERR_HEADER;
    }
    CStringStops(line[..], n);
    assert line[..][..n] == line[0..n];
    err := fi.ParseTags(CString(line[..]), si.interlace, si.chroma, p);
  }

  /**
   The part of y4m_read_frame_header up to the character behind "FRAME"; the loop is its `goto again`.
   Every turn of it consumes a header line.
   */
  method SeekFrame(fd: Source, si: StreamInfo, line: array<char>, p: Settings) returns (err: int)
    requires !fd.failed && si.Valid() && line.Length == LINE_MAX && fd !in si.Repr() && line !in si.Repr()
    modifies fd, line
    ensures fd.failed ==> err == Y4M_ERR_SYSTEM
    ensures !fd.failed ==>
              ReadFrameHeader(old(fd.rest), si.Value(), p) ==
              if err == Y4M_OK then AfterMagic(line[5], fd.rest, si.Value(), p) else Read(Err(err), fd.rest)
  {
    hide AfterMagic, HeaderRoundTrip.ReadStreamHeader, ReadFrameHeader, RereadOutcome;
    ghost var h := si.Value();
    ghost var wanted := ReadFrameHeader(fd.rest, h, p);
    var again := true;
    while again
      invariant !fd.failed
      invariant wanted == if again then ReadFrameHeader(fd.rest, h, p) else AfterMagic(line[5], fd.rest, h, p)
      decreases again, |fd.rest|
    {
      ghost var input := fd.rest;
      FrameHeaderStep(input, h, p);
      var remain := Y4mRead(fd, line, 0, PREFIX);
      if remain < 0 {
        return Y4M_ERR_SYSTEM;
      }
      if remain > 0 {
        return if remain == PREFIX then Y4M_ERR_EOF else Y4M_ERR_BADEOF;
      }
      assert line[..PREFIX] == line[0..0 + PREFIX] == input[..PREFIX];
      if !(FRAME_MAGIC <= line[..PREFIX]) {
        StreamHeaderConsumes(input[..PREFIX], input[PREFIX..], p);
        err := RereadStreamHeaderLine(fd, si, line, PREFIX, p);
        if err != Y4M_OK {
          return;
        }
      } else {
        again := false;
      }
    }
    err := Y4M_OK;
  }

  /** y4m_read_frame_header */
  method ReadFrameHeaderCb(fd: Source, si: StreamInfo, fi: FrameCell, p: Settings) returns (err: int)
    requires !fd.failed && si.Valid() && fi.Valid()
    requires fd !in si.Repr() && fd !in fi.Repr() && si.Repr() !! fi.Repr()
    modifies fd, fi.Repr()
    ensures fi.Valid() && fresh(fi.Repr() - old(fi.Repr()))
    ensures fd.failed ==> err == Y4M_ERR_SYSTEM
    ensures !fd.failed ==>
              var r := ReadFrameHeader(old(fd.rest), old(si.Value()), p);
              Answers(err, fi.Value(), r.outcome) && fd.rest == r.rest
  {
    hide TaggedFrame, ReadFrameHeader;
    var line := new char[LINE_MAX];
    fi.Clear();
    err := SeekFrame(fd, si, line, p);
    if err != Y4M_OK {
      return;
    }
    if line[PREFIX - 1] == '\n' {
      return Y4M_OK;
    }
    if line[PREFIX - 1] != ' ' {
      return Y4M_ERR_MAGIC;
    }
    err := ReadFrameTags(fd, si, fi, line, p);
  }

  /** What a frame header is, once "FRAME" and the character `c` behind it have been read. */
  ghost function AfterMagic(c: char, more: string, h: Header, p: Settings): Read<FrameInfo> {
    if c == '\n' then Read(Ok(CLEAR_FRAME), more)
    else if c != ' ' then Read(Err(Y4M_ERR_MAGIC), more)
    else TaggedFrame(more, h.interlace, h.chroma, p)
  }

  /** One turn of the loop. */
  lemma FrameHeaderStep(input: string, h: Header, p: Settings)
    ensures var r := ReadFrameHeader(input, h, p);
            if |input| < PREFIX then r == Read(Err(if input == [] then Y4M_ERR_EOF else Y4M_ERR_BADEOF), [])
            else
              var first, more := input[..PREFIX], input[PREFIX..];
              if FRAME_MAGIC <= first then r == AfterMagic(first[5], more, h, p)
              else
                var again := ReadStreamHeader(first, more, p);
                var outcome := RereadOutcome(h, again.outcome);
                r == if outcome.Ok? then ReadFrameHeader(again.rest, h, p) else Read(Err(outcome.code), again.rest)
  {
    hide HeaderRoundTrip.ReadStreamHeader, NoDifference;
    if |input| >= PREFIX {
      StreamHeaderConsumes(input[..PREFIX], input[PREFIX..], p);
    }
  }

  // ------------------------------------------------------------ planes

  /** Buffers for `octets(plane)` octets a plane, none used twice. */
  ghost predicate PlaneBuffers(bufs: seq<array<char>>, h: Header) {
    && |bufs| == PlaneCount(h)
    && forall i, j :: 0 <= i < j < |bufs| ==> bufs[i] != bufs[j]
  }

  ghost predicate FrameBuffers(frame: seq<array<char>>, h: Header)
    requires Sized(h)
  {
    PlaneBuffers(frame, h) && forall i :: 0 <= i < |frame| ==> 0 <= PlaneLength(h, i) <= frame[i].Length
  }

  /** What the first `n` buffers of a frame hold. */
  ghost function Held(frame: seq<array<char>>, h: Header, n: nat): seq<string>
    requires Sized(h) && FrameBuffers(frame, h) && n <= |frame|
    reads frame[..n]
  {
    if n == 0 then [] else Held(frame, h, n - 1) + [frame[n - 1][..PlaneLength(h, n - 1)]]
  }

  /** `r` with `done` read before it. */
  ghost function Prepend(done: seq<string>, r: Read<seq<string>>): Read<seq<string>> {
    match r.outcome
    case Ok(planes) => Read(Ok(done + planes), r.rest)
    case Err(code) => r
  }

  lemma PrependOne(done: seq<string>, input: string, h: Header, p: nat)
    requires Sized(h) && p < PlaneCount(h)
    ensures 0 <= PlaneLength(h, p)
    ensures var n := PlaneLength(h, p);
            Prepend(done, ReadPlanes(input, h, p)) ==
            if n > |input| then Read(Err(Y4M_ERR_SYSTEM), [])
            else Prepend(done + [input[..n]], ReadPlanes(input[n..], h, p + 1))
  {
    PlanesAreSized(h, p);
    var n := PlaneLength(h, p);
    if n <= |input| {
      var more := ReadPlanes(input[n..], h, p + 1);
      if more.outcome.Ok? {
        assert done + ([input[..n]] + more.outcome.value) == done + [input[..n]] + more.outcome.value;
      }
    }
  }

  lemma PrependEnd(done: seq<string>, input: string, h: Header, p: nat)
    requires Sized(h) && p >= PlaneCount(h)
    ensures Prepend(done, ReadPlanes(input, h, p)) == Read(Ok(done), input)
  {
    assert done + [] == done;
  }

  lemma PrependNothing(r: Read<seq<string>>)
    ensures Prepend([], r) == r
  {
    if r.outcome.Ok? { assert [] + r.outcome.value == r.outcome.value; }
  }

  /** y4m_read_frame_data */
  method ReadFrameDataCb(fd: Source, si: Header, frame: seq<array<char>>) returns (ret: int)
    requires !fd.failed && Sized(si) && FrameBuffers(frame, si)
    modifies fd, frame
    ensures fd.failed ==> ret == Y4M_ERR_SYSTEM
    ensures !fd.failed ==>
              var r := ReadPlanes(old(fd.rest), si, 0);
              Answers(ret, Held(frame, si, |frame|), r.outcome) && fd.rest == r.rest
  {
    hide ReadPlanes, PlaneLength, Prepend;
    ghost var wanted := ReadPlanes(fd.rest, si, 0);
    PrependNothing(wanted);
    var p := 0;
    while p < |frame|
      invariant 0 <= p <= |frame| && !fd.failed
      invariant wanted == Prepend(Held(frame, si, p), ReadPlanes(fd.rest, si, p))
    {
      ghost var input, held := fd.rest, Held(frame, si, p);
      PrependOne(held, input, si, p);
      var n := PlaneWidth(si, p) * PlaneHeight(si, p);
      PlanesAreSized(si, p);
      var r := Y4mRead(fd, frame[p], 0, n);
      if r != 0 {
        return Y4M_ERR_SYSTEM;
      }
      assert frame[p][..n] == frame[p][0..0 + n];
      assert Held(frame, si, p) == held;
      p := p + 1;
    }
    PrependEnd(Held(frame, si, p), fd.rest, si, p);
    ret := Y4M_OK;
  }

  lemma {:induction false} SamePlanes(input: string, a: Header, b: Header, p: nat)
    requires Sized(a) && a == b.(tags := a.tags)
    ensures ReadPlanes(input, a, p) == ReadPlanes(input, b, p)
    decreases PlaneCount(a) - p
  {
    if p >= PlaneCount(a) {
    } else {
      PlanesAreSized(a, p);
      if PlaneLength(a, p) <= |input| {
        SamePlanes(input[PlaneLength(a, p)..], a, b, p + 1);
      }
    }
  }

  lemma {:induction false} SameHeld(frame: seq<array<char>>, a: Header, b: Header, n: nat)
    requires Sized(a) && a == b.(tags := a.tags) && FrameBuffers(frame, a) && n <= |frame|
    ensures FrameBuffers(frame, b) && Held(frame, a, n) == Held(frame, b, n)
  {
    if n == 0 {
    } else {
      SameHeld(frame, a, b, n - 1);
    }
  }

  /** y4m_read_frame */
  method ReadFrameCb(fd: Source, si: StreamInfo, fi: FrameCell, frame: seq<array<char>>, p: Settings) returns (err: int)
    requires !fd.failed && si.Valid() && fi.Valid() && Sized(si.Value()) && FrameBuffers(frame, si.Value())
    requires fd !in si.Repr() && fd !in fi.Repr() && si.Repr() !! fi.Repr()
    requires forall f :: f in frame ==> f !in si.Repr() && f !in fi.Repr()
    modifies fd, fi.Repr(), frame
    ensures fi.Valid() && fresh(fi.Repr() - old(fi.Repr()))
    ensures fd.failed ==> err == Y4M_ERR_SYSTEM
    ensures !fd.failed ==>
              var h := old(si.Value());
              var r := ReadFrame(old(fd.rest), h, p);
              Answers(err, Frame(fi.Value(), Held(frame, h, |frame|)), r.outcome) && fd.rest == r.rest
  {
    hide ReadFrameHeader, ReadPlanes;
    ghost var h := si.Value();
    err := ReadFrameHeaderCb(fd, si, fi, p);
    if err != Y4M_OK {
      return;
    }
    ghost var info := fi.Value();
    SamePlanes(fd.rest, si.Scalars(), h, 0);
    err := ReadFrameDataCb(fd, si.Scalars(), frame);
    SameHeld(frame, si.Scalars(), h, |frame|);
  }

  lemma {:induction false} ConcatSplit(a: seq<string>, b: seq<string>)
    ensures Concat(a + b) == Concat(a) + Concat(b)
  {
    if a == [] {
      assert a + b == b;
    } else {
      assert (a + b)[1..] == a[1..] + b;
      ConcatSplit(a[1..], b);
    }
  }

  lemma ConcatOne(parts: seq<string>, part: string)
    ensures Concat(parts + [part]) == Concat(parts) + part
  {
    ConcatSplit(parts, [part]);
    assert [part][1..] == [];
  }

  /** y4m_write_frame */
  method WriteFrameCb(fd: Sink, si: Header, fi: FrameInfo, frame: seq<array<char>>, p: Settings) returns (ret: int)
    requires !fd.failed && Sized(si) && FrameBuffers(frame, si)
    modifies fd
    ensures PrintFrame(fi, si.interlace, p).Err? ==>
              ret == PrintFrame(fi, si.interlace, p).code && fd.written == old(fd.written)
    ensures PrintFrame(fi, si.interlace, p).Ok? ==>
              if fd.failed then ret == Y4M_ERR_SYSTEM
              else ret == Y4M_OK
                   && fd.written == old(fd.written) + FrameBytes(Frame(fi, Held(frame, si, |frame|)), si)
  {
    hide FrameLine;
    ret := WriteFrameHeader(fd, si, fi, p);
    if ret != Y4M_OK {
      return;
    }
    ret := WritePlanes(fd, si, frame);
  }

  /** The loop of y4m_write_frame. */
  method WritePlanes(fd: Sink, si: Header, frame: seq<array<char>>) returns (ret: int)
    requires !fd.failed && Sized(si) && FrameBuffers(frame, si)
    modifies fd
    ensures ret == if fd.failed then Y4M_ERR_SYSTEM else Y4M_OK
    ensures !fd.failed ==> fd.written == old(fd.written) + Concat(Held(frame, si, |frame|))
  {
    hide PlaneLength;
    ret := Y4M_OK;
    var i := 0;
    while i < |frame|
      invariant 0 <= i <= |frame| && !fd.failed && ret == Y4M_OK
      invariant fd.written == old(fd.written) + Concat(Held(frame, si, i))
    {
      PlanesAreSized(si, i);
      var n := PlaneWidth(si, i) * PlaneHeight(si, i);
      ConcatOne(Held(frame, si, i), frame[i][..n]);
      var r := Y4mWrite(fd, frame[i][..n]);
      if r != 0 {
        return Y4M_ERR_SYSTEM;
      }
      i := i + 1;
    }
  }
}
