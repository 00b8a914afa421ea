/** A client of the readers: a whole stream, read frame by frame until a call fails. */
module Y4mReadAll {
  import opened XTags
  import opened Y4mHeader
  import opened HeaderRoundTrip
  import opened Y4mStream
  import opened Y4mInfo
  import opened ByteIO
  import opened Y4mIO
  import opened Y4mFrameIO

  // ------------------------------------------------------------ headers that are read size their frames

  predicate KnownChroma(c: int) {
    Y4M_UNKNOWN <= c <= CHROMA_444ALPHA
  }

  lemma {:induction false} TagsKeepChroma(tokens: seq<string>, h: Header, p: Settings)
    requires KnownChroma(h.chroma)
    ensures ApplyTags(tokens, h, p).Ok? ==> KnownChroma(ApplyTags(tokens, h, p).value.chroma)
  {
    if tokens == [] {
    } else {
      var next := ApplyTag(tokens[0], h, p);
      if next.Ok? {
        TagsKeepChroma(tokens[1..], next.value, p);
      }
    }
  }

  lemma ReadHeaderIsSized(input: string, p: Settings)
    ensures var r := ReadStreamHeader("", input, p).outcome; r.Ok? ==> Sized(r.value)
  {
    TakeLineSplits(input, LINE_MAX);
    var line := TakeLine(input, LINE_MAX);
    if line.Line? {
      assert "" + line.text == line.text;
      ParsedLine(line.text, p);
      LineKeepsChroma(line.text, p);
    }
  }

  lemma LineKeepsChroma(line: string, p: Settings)
    ensures ParseStreamLine(line, p).Ok? ==> CHROMA_420JPEG <= ParseStreamLine(line, p).value.chroma <= CHROMA_444ALPHA
  {
    hide ApplyTags;
    var s := CText.CString(line);
    if MAGIC <= s {
      TagsKeepChroma(CText.Tokens(s[|MAGIC|..]), ClearHeader(p), p);
    }
  }

  // ------------------------------------------------------------ the client

  /** Buffers of the sizes the header gives. */
  method NewFrame(h: Header) returns (frame: seq<array<char>>)
    requires Sized(h)
    ensures FrameBuffers(frame, h) && forall i :: 0 <= i < |frame| ==> fresh(frame[i])
  {
    frame := [];
    while |frame| < PlaneCount(h)
      invariant |frame| <= PlaneCount(h) && forall i :: 0 <= i < |frame| ==> fresh(frame[i])
      invariant forall i, j :: 0 <= i < j < |frame| ==> frame[i] != frame[j]
      invariant forall i :: 0 <= i < |frame| ==> 0 <= PlaneLength(h, i) == frame[i].Length
      decreases PlaneCount(h) - |frame|
    {
      PlanesAreSized(h, |frame|);
      var b := new char[PlaneLength(h, |frame|)];
      frame := frame + [b];
    }
  }

  /** One frame more or the end. */
  lemma ReadOneMore(input: string, h: Header, p: Settings)
    requires Sized(h)
    ensures var r := ReadFrame(input, h, p);
            match r.outcome
            case Err(code) => ReadFrames(input, h, p) == Run([], code)
            case Ok(f) =>
              var more := ReadFrames(r.rest, h, p);
              |r.rest| < |input| && ReadFrames(input, h, p) == Run([f] + more.frames, more.last)
  {
    FrameHeaderConsumes(input, h, p);
    PlanesConsume(ReadFrameHeader(input, h, p).rest, h, 0);
  }

  /** What has been read of a stream, and whether it has ended. */
  ghost predicate ReadSoFar(input: string, rest: string, h: Header, p: Settings, frames: seq<Frame>, last: int)
    requires Sized(h)
  {
    if last == Y4M_OK then
      ReadFrames(input, h, p) == Run(frames + ReadFrames(rest, h, p).frames, ReadFrames(rest, h, p).last)
    else
      ReadFrames(input, h, p) == Run(frames, last)
  }

  lemma NothingRead(input: string, h: Header, p: Settings)
    requires Sized(h)
    ensures ReadSoFar(input, input, h, p, [], Y4M_OK)
  {
    hide ReadFrames;
    assert [] + ReadFrames(input, h, p).frames == ReadFrames(input, h, p).frames;
  }

  lemma OneCallMore(input: string, before: string, h: Header, p: Settings, frames: seq<Frame>, last: int, f: Frame)
    requires Sized(h) && ReadSoFar(input, before, h, p, frames, Y4M_OK)
    requires Answers(last, f, ReadFrame(before, h, p).outcome)
    ensures ReadSoFar(input, ReadFrame(before, h, p).rest, h, p, if last == Y4M_OK then frames + [f] else frames, last)
    ensures last == Y4M_OK ==> |ReadFrame(before, h, p).rest| < |before|
  {
    hide ReadFrame, ReadFrames;
    ReadOneMore(before, h, p);
    var more := ReadFrames(ReadFrame(before, h, p).rest, h, p).frames;
    assert frames + ([f] + more) == frames + [f] + more;
    assert frames + [] == frames;
  }

  /** Nothing the reader writes to belongs to anything else it uses. */
  ghost predicate Apart(fd: Source, si: StreamInfo, fi: FrameCell, frame: seq<array<char>>)
    reads si, si.xtags, si.xtags.tags, fi, fi.xtags, fi.xtags.tags
  {
    && si.Valid() && fi.Valid() && fd !in si.Repr() && fd !in fi.Repr() && si.Repr() !! fi.Repr()
    && forall i :: 0 <= i < |frame| ==> frame[i] !in si.Repr() && frame[i] !in fi.Repr()
  }

  /** y4m_read_frame, which leaves the stream's description as it is */
  method ReadOne(fd: Source, si: StreamInfo, fi: FrameCell, frame: seq<array<char>>, p: Settings) returns (err: int)
    requires !fd.failed && Apart(fd, si, fi, frame) && Sized(si.Value()) && FrameBuffers(frame, si.Value())
    modifies fd, fi.Repr(), frame
    ensures Apart(fd, si, fi, frame) && si.Value() == old(si.Value()) && fresh(fi.Repr() - old(fi.Repr()))
    ensures fd.failed ==> err == Y4M_ERR_SYSTEM
    ensures !fd.failed ==>
              var r := ReadFrame(old(fd.rest), si.Value(), p);
              Answers(err, Frame(fi.Value(), Held(frame, si.Value(), |frame|)), r.outcome) && fd.rest == r.rest
  {
    hide ReadFrame, FrameBuffers, Sized;
    ghost var repr, h := si.Repr(), si.Value();
    err := ReadFrameCb(fd, si, fi, frame, p);
    assert si.Repr() == repr && si.Value() == h;
  }

  /** y4m_read_frame until it fails, on a stream whose header has been read. */
  method ReadFramesOf(fd: Source, si: StreamInfo, p: Settings) returns (last: int, ghost frames: seq<Frame>)
    requires !fd.failed && si.Valid() && fd !in si.Repr() && Sized(si.Value())
    modifies fd
    ensures fd.failed ==> last == Y4M_ERR_SYSTEM
    ensures !fd.failed ==> ReadFrames(old(fd.rest), si.Value(), p) == Run(frames, last)
  {
    hide ReadFrame, ReadFrames, ReadSoFar, FrameBuffers;
    ghost var h, input := si.Value(), fd.rest;
    var fi := new FrameCell();
    var frame := NewFrame(si.Scalars());
    SameBuffers(frame, si.Scalars(), h);
    frames, last := [], Y4M_OK;
    NothingRead(input, h, p);
    while last == Y4M_OK
      invariant Apart(fd, si, fi, frame) && si.Value() == h
      invariant fresh(fi.Repr()) && forall i :: 0 <= i < |frame| ==> fresh(frame[i])
      invariant fd.failed ==> last == Y4M_ERR_SYSTEM
      invariant !fd.failed ==> ReadSoFar(input, fd.rest, h, p, frames, last)
      decreases last == Y4M_OK, |fd.rest|
    {
      ghost var before := fd.rest;
      last := ReadOne(fd, si, fi, frame, p);
      if !fd.failed {
        ghost var f := Frame(fi.Value(), Held(frame, h, |frame|));
        OneCallMore(input, before, h, p, frames, last, f);
        frames := if last == Y4M_OK then frames + [f] else frames;
      }
    }
    EndOfRead(input, fd.rest, h, p, frames, last);
  }

  lemma EndOfRead(input: string, rest: string, h: Header, p: Settings, frames: seq<Frame>, last: int)
    requires Sized(h) && last != Y4M_OK
    ensures ReadSoFar(input, rest, h, p, frames, last) <==> ReadFrames(input, h, p) == Run(frames, last)
  {
  }

  lemma SameBuffers(frame: seq<array<char>>, a: Header, b: Header)
    requires Sized(a) && Sized(b) && a == b.(tags := a.tags) && FrameBuffers(frame, a)
    ensures FrameBuffers(frame, b)
  {
  }

  /**
   A whole stream, from a descriptor: however the transfers are split, the header and the frames are
   those of the octets there were, and the code of the call that ended it is the same.
   */
  method ReadAll(fd: Source, p: Settings) returns (last: int, ghost header: Outcome<Header>, ghost frames: seq<Frame>)
    requires !fd.failed
    modifies fd
    ensures fd.failed ==> last == Y4M_ERR_SYSTEM
    ensures !fd.failed ==>
              var r := ReadStreamHeader("", old(fd.rest), p);
              && header == r.outcome
              && match r.outcome
                 case Err(code) => last == code && frames == []
                 case Ok(h) => Sized(h) && ReadFrames(r.rest, h, p) == Run(frames, last)
  {
    hide HeaderRoundTrip.ReadStreamHeader, ReadFrames;
    ghost var input := fd.rest;
    ReadHeaderIsSized(input, p);
    header, frames := ReadStreamHeader("", input, p).outcome, [];
    var si := new StreamInfo(p);
    var line := new char[LINE_MAX];
    assert line[..0] == "";
    last := ReadStreamHeaderLine(fd, si, line, 0, p);
    if last == Y4M_OK {
      last, frames := ReadFramesOf(fd, si, p);
    }
  }
}
