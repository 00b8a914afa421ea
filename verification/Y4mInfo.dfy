/**
 The stream and frame descriptions that the reader fills in place (yuv4mpeg.c), and the parsing
 loops over strtok.  Each method refines the function of the same purpose in Y4mHeader.dfy.
 */
module Y4mInfo {
  import opened CText
  import opened Ratio
  import opened XTags
  import opened Y4mHeader
  import opened Y4mStream

  /** y4m_parse_ratio, which leaves the fields set also when it fails */
  method ParseRatioInto(r: RatioCell, s: string) returns (err: int)
    modifies r
    ensures Answers(err, r.Value(), ParseRatio(s))
  {
    var t := StrChr(s, ':');
    if t.Nowhere? {
      return Y4M_ERR_RANGE;
    }
    r.n := Atoi(s);
    r.d := Atoi(s[t.i + 1..]);
    if r.d < 0 {
      return Y4M_ERR_RANGE;
    }
    if r.d == 0 && r.n != 0 {
      return Y4M_ERR_RANGE;
    }
    r.Reduce();
    return Y4M_OK;
  }

  class StreamInfo {
    var width: int
    var height: int
    var interlace: int
    const framerate: RatioCell
    const sampleaspect: RatioCell
    var chroma: int
    const xtags: TagList

    ghost function Repr(): set<object>
      reads this, xtags, xtags.tags
    {
      {this, framerate, sampleaspect} + xtags.Repr()
    }

    ghost predicate Valid()
      reads this, xtags, xtags.tags
    {
      framerate != sampleaspect && xtags.Valid()
    }

    ghost function Value(): Header
      requires Valid()
      reads this, xtags, xtags.tags, Repr()
    {
      Header(width, height, interlace, framerate.Value(), sampleaspect.Value(), chroma, xtags.Contents())
    }

    /** The scalars of the description, which are all that sizes a frame. */
    function Scalars(): Header
      reads this, framerate, sampleaspect
    {
      Header(width, height, interlace, framerate.Value(), sampleaspect.Value(), chroma, [])
    }

    /** y4m_init_stream_info */
    constructor (p: Settings)
      ensures Valid() && fresh(Repr()) && Value() == ClearHeader(p)
    {
      framerate := new RatioCell(UNKNOWN_RATIO);
      sampleaspect := new RatioCell(UNKNOWN_RATIO);
      xtags := new TagList();
      width, height, interlace := Y4M_UNKNOWN, Y4M_UNKNOWN, Y4M_UNKNOWN;
      chroma := if p.level < 1 then CHROMA_420JPEG else Y4M_UNKNOWN;
    }

    /** y4m_clear_stream_info */
    method Clear(p: Settings)
      requires Valid()
      modifies this, framerate, sampleaspect, xtags
      ensures Valid() && Repr() == old(Repr()) && Value() == ClearHeader(p)
    {
      width := Y4M_UNKNOWN;
      height := Y4M_UNKNOWN;
      interlace := Y4M_UNKNOWN;
      framerate.n, framerate.d := 0, 0;
      sampleaspect.n, sampleaspect.d := 0, 0;
      chroma := if p.level < 1 then CHROMA_420JPEG else Y4M_UNKNOWN;
      xtags.Clear();
    }

    /** One round of the loop of y4m_parse_stream_tags. */
    method ParseTag(token: string, p: Settings) returns (err: int)
      requires Valid()
      modifies Repr()
      ensures Valid() && fresh(Repr() - old(Repr()))
      ensures Answers(err, Value(), ApplyTag(token, old(Value()), p))
    {
      if token == [] {
        return Y4M_OK;
      }
      var tag, value := token[0], token[1..];
      err := Y4M_OK;
      if tag == 'W' {
        width := Atoi(value);
        if width <= 0 { return Y4M_ERR_RANGE; }
      } else if tag == 'H' {
        height := Atoi(value);
        if height <= 0 { return Y4M_ERR_RANGE; }
      } else if tag == 'F' {
        err := ParseRatioInto(framerate, value);
        if err == Y4M_OK && framerate.n < 0 { return Y4M_ERR_RANGE; }
      } else if tag == 'I' {
        interlace := ParseInterlace(CharAt(value, 0));
      } else if tag == 'A' {
        err := ParseRatioInto(sampleaspect, value);
        if err == Y4M_OK && sampleaspect.n < 0 { return Y4M_ERR_RANGE; }
      } else if tag == 'C' {
        chroma := ParseChroma(value);
        if chroma == Y4M_UNKNOWN { return Y4M_ERR_HEADER; }
      } else if tag == 'X' || p.allowUnknownTags {
        err := xtags.Add(token);
      } else {
        return Y4M_ERR_BADTAG;
      }
    }

    /** y4m_parse_stream_tags */
    method ParseTags(s: string, p: Settings) returns (err: int)
      requires Valid()
      modifies Repr()
      ensures Valid() && fresh(Repr() - old(Repr()))
      ensures Answers(err, Value(), ParseStreamTags(s, old(Value()), p))
    {
      hide ApplyTag;
      var strtok := new Tokenizer(s);
      var more, token := strtok.Next();
      ghost var result := ApplyTags(Tokens(s), Value(), p);
      while more
        invariant Valid() && fresh(strtok) && strtok !in Repr() && fresh(Repr() - old(Repr()))
        invariant ApplyTags(if more then [token] + Tokens(strtok.rest) else [], Value(), p) == result
        decreases more, |strtok.rest|
      {
        ghost var before, rest := Value(), Tokens(strtok.rest);
        assert ([token] + rest)[1..] == rest;
        err := ParseTag(token, p);
        if err != Y4M_OK {
          return;
        }
        more, token := strtok.Next();
      }
      if chroma == Y4M_UNKNOWN {
        chroma := CHROMA_420JPEG;
      }
      if width == Y4M_UNKNOWN || height == Y4M_UNKNOWN {
        return Y4M_ERR_HEADER;
      }
      if p.level < 1 {
        if !Is420(chroma) {
          return Y4M_ERR_FEATURE;
        }
        if interlace == ILACE_MIXED {
          return Y4M_ERR_FEATURE;
        }
      }
      return Y4M_OK;
    }

    /** y4m_compare_stream_info: 0 if equal */
    method Compare(other: StreamInfo) returns (ret: int)
      requires Valid() && other.Valid()
      ensures ret == 0 <==> NoDifference(Value(), other.Value())
    {
      if width != other.width || height != other.height || interlace != other.interlace
         || framerate.n != other.framerate.n || framerate.d != other.framerate.d
         || sampleaspect.n != other.sampleaspect.n || sampleaspect.d != other.sampleaspect.d
         || chroma != other.chroma || xtags.count != other.xtags.count {
        return 1;
      }
      var i := 0;
      while i < xtags.count
        invariant 0 <= i <= xtags.count
        invariant forall k :: 0 <= k < i ==> xtags.Contents()[k] in other.xtags.Contents()
      {
        var j, found := 0, false;
        while j < other.xtags.count && !found
          invariant 0 <= j <= other.xtags.count
          invariant !found ==> forall k :: 0 <= k < j ==> other.xtags.Contents()[k] != xtags.Contents()[i]
          invariant found ==> xtags.Contents()[i] in other.xtags.Contents()
          decreases other.xtags.count - j, !found
        {
          assert xtags.tags[i].text == xtags.Contents()[i] && other.xtags.tags[j].text == other.xtags.Contents()[j];
          if xtags.tags[i].text == other.xtags.tags[j].text {
            found := true;
          } else {
            j := j + 1;
          }
        }
        if !found {
          assert xtags.Contents()[i] in xtags.Contents();
          return 1;
        }
        i := i + 1;
      }
      return 0;
    }
  }

  /** `y4m_frame_info_t` */
  class FrameCell {
    var spatial: int
    var temporal: int
    var presentation: int
    const xtags: TagList

    ghost function Repr(): set<object>
      reads this, xtags, xtags.tags
    {
      {this} + xtags.Repr()
    }

    ghost predicate Valid()
      reads this, xtags, xtags.tags
    {
      xtags.Valid()
    }

    ghost function Value(): FrameInfo
      requires Valid()
      reads this, xtags, xtags.tags, Repr()
    {
      FrameInfo(spatial, temporal, presentation, xtags.Contents())
    }

    /** y4m_init_frame_info */
    constructor ()
      ensures Valid() && fresh(Repr()) && Value() == CLEAR_FRAME
    {
      spatial, temporal, presentation := Y4M_UNKNOWN, Y4M_UNKNOWN, Y4M_UNKNOWN;
      xtags := new TagList();
    }

    /** y4m_clear_frame_info */
    method Clear()
      requires Valid()
      modifies this, xtags
      ensures Valid() && Repr() == old(Repr()) && Value() == CLEAR_FRAME
    {
      spatial, temporal, presentation := Y4M_UNKNOWN, Y4M_UNKNOWN, Y4M_UNKNOWN;
      xtags.Clear();
    }

    /** One round of the loop of y4m_parse_frame_tags. */
    method ParseTag(token: string, interlace: int, p: Settings) returns (err: int)
      requires Valid()
      modifies Repr()
      ensures Valid() && fresh(Repr() - old(Repr()))
      ensures Answers(err, Value(), ApplyFrameTag(token, old(Value()), interlace, p))
    {
      if token == [] {
        return Y4M_OK;
      }
      var tag, value := token[0], token[1..];
      if tag == 'I' {
        if p.level < 1 { return Y4M_ERR_FEATURE; }
        if interlace != ILACE_MIXED { return Y4M_ERR_BADTAG; }
        var c := CodeOf(CharAt(value, 0), PRESENTATION_CHARS);
        if c == Y4M_UNKNOWN { return Y4M_ERR_BADTAG; }
        presentation := c;
        c := CodeOf(CharAt(value, 1), SAMPLING_CHARS);
        if c == Y4M_UNKNOWN { return Y4M_ERR_BADTAG; }
        temporal := c;
        c := CodeOf(CharAt(value, 2), SAMPLING_CHARS);
        if c == Y4M_UNKNOWN && CharAt(value, 2) != '?' { return Y4M_ERR_BADTAG; }
        spatial := c;
        return Y4M_OK;
      } else if tag == 'X' || p.allowUnknownTags {
        err := xtags.Add(token);
      } else {
        return Y4M_ERR_BADTAG;
      }
    }

    /** y4m_parse_frame_tags */
    method ParseTags(s: string, interlace: int, streamChroma: int, p: Settings) returns (err: int)
      requires Valid() && Value() == CLEAR_FRAME
      modifies Repr()
      ensures Valid() && fresh(Repr() - old(Repr()))
      ensures Answers(err, Value(), ParseFrameTags(s, interlace, streamChroma, p))
    {
      hide ApplyFrameTag, FinishFrame;
      var strtok := new Tokenizer(s);
      var more, token := strtok.Next();
      ghost var result := ApplyFrameTags(Tokens(s), CLEAR_FRAME, interlace, p);
      while more
        invariant Valid() && fresh(strtok) && strtok !in Repr() && fresh(Repr() - old(Repr()))
        invariant ApplyFrameTags(if more then [token] + Tokens(strtok.rest) else [], Value(), interlace, p) == result
        decreases more, |strtok.rest|
      {
        ghost var before, rest := Value(), Tokens(strtok.rest);
        assert ([token] + rest)[1..] == rest;
        err := ParseTag(token, interlace, p);
        if err != Y4M_OK {
          return;
        }
        more, token := strtok.Next();
      }
      err := FinishTags(interlace, streamChroma);
    }

    /** The part of y4m_parse_frame_tags behind the loop. */
    method FinishTags(interlace: int, streamChroma: int) returns (err: int)
      requires Valid()
      modifies this
      ensures Valid() && Repr() == old(Repr())
      ensures Answers(err, Value(), FinishFrame(old(Value()), interlace, streamChroma))
    {
      if interlace == ILACE_MIXED {
        if presentation == Y4M_UNKNOWN || temporal == Y4M_UNKNOWN { return Y4M_ERR_HEADER; }
        if Is420(streamChroma) && spatial == Y4M_UNKNOWN { return Y4M_ERR_HEADER; }
      } else if interlace == ILACE_NONE {
        spatial, temporal, presentation := 0, 0, 4;
      } else if interlace == ILACE_TOP_FIRST {
        spatial, temporal, presentation := 1, 1, 0;
      } else if interlace == ILACE_BOTTOM_FIRST {
        spatial, temporal, presentation := 1, 1, 2;
      }
      return Y4M_OK;
    }
  }
}
