/**
 Reading and writing headers and frames (yuv4mpeg.c).  Each method does to a descriptor what the
 functions of Y4mHeader.dfy and Y4mStream.dfy do to a string, however the transfers are split.
 */
module Y4mIO {
  import opened CText
  import opened Ratio
  import opened XTags
  import opened Y4mHeader
  import opened HeaderRoundTrip
  import opened Y4mInfo
  import opened ByteIO

  // ------------------------------------------------------------ writing headers

  /** What a write of the wanted text, or of none, returns and leaves behind. */
  ghost predicate Wrote(ret: int, before: string, after: string, failed: bool, wanted: Outcome<string>) {
    match wanted
    case Err(code) => ret == code && after == before && !failed
    case Ok(text) =>
      if failed then ret == Y4M_ERR_SYSTEM && before <= after < before + text
      else ret == Y4M_OK && after == before + text
  }

  /** y4m_snprint_xtags: the tags, each behind a blank, and a newline, if `maxn` leaves room for them. */
  method SnprintXtags(maxn: int, tags: seq<string>) returns (err: int, s: string)
    requires maxn > 0
    ensures err == if |Join(tags)| > maxn - 1 then Y4M_ERR_HEADER else Y4M_OK
    ensures err == Y4M_OK ==> s == Join(tags) + "\n"
  {
    var i, room := 0, maxn - 1;
    s := [];
    while i < |tags|
      invariant 0 <= i <= |tags| && room == maxn - 1 - |s| >= 0
      invariant s == Join(tags[..i])
    {
      var text := " " + tags[i];
      assert tags[..i + 1] == tags[..i] + [tags[i]];
      JoinSplit(tags[..i], [tags[i]]);
      JoinSingle(tags[i]);
      if |text| > room {
        assert tags == tags[..i + 1] + tags[i + 1..];
        JoinSplit(tags[..i + 1], tags[i + 1..]);
        return Y4M_ERR_HEADER, s;
      }
      s := s + text;
      room := room - |text|;
      i := i + 1;
    }
    assert tags[..i] == tags;
    return Y4M_OK, s + "\n";
  }

  lemma JoinSingle(t: string)
    ensures Join([t]) == " " + t
  {
    assert [t][1..] == [];
  }

  /** y4m_write_stream_header */
  method WriteStreamHeader(fd: Sink, i: Header, p: Settings) returns (ret: int)
    requires !fd.failed && Representable(i)
    modifies fd
    ensures Wrote(ret, old(fd.written), fd.written, fd.failed, PrintHeader(i, p))
  {
    hide FormatFields, HeaderLine, Representable;
    var rate := new RatioCell(i.framerate);
    var aspect := new RatioCell(i.sampleaspect);
    var keyword := ChromaKeyword(i.chroma);
    if keyword == "" {
      return Y4M_ERR_HEADER;
    }
    if p.level < 1 {
      if !Is420(i.chroma) { return Y4M_ERR_FEATURE; }
      if i.interlace == ILACE_MIXED { return Y4M_ERR_FEATURE; }
    }
    rate.Reduce();
    aspect.Reduce();
    var s := MAGIC + Join(FormatFields(i, rate.Value(), aspect.Value()));
    HeaderLineParts(i);
    ret := WriteLine(fd, s, i.tags, PrintHeader(i, p));
  }

  lemma HeaderLineParts(i: Header)
    requires Representable(i)
    ensures var s := MAGIC + Join(FixedFields(i));
            |s| <= 98 && HeaderLine(i) == s + (Join(i.tags) + "\n")
  {
    FixedPartIsShort(i);
    hide FixedFields;
    JoinSplit(FixedFields(i), i.tags);
  }

  /** What both header writers end with: the tags are printed behind `s`, and the line is written. */
  method WriteLine(fd: Sink, s: string, tags: seq<string>, ghost wanted: Outcome<string>) returns (ret: int)
    requires !fd.failed && |s| < LINE_MAX
    requires wanted == if |s + (Join(tags) + "\n")| > LINE_MAX then Err(Y4M_ERR_HEADER) else Ok(s + (Join(tags) + "\n"))
    modifies fd
    ensures Wrote(ret, old(fd.written), fd.written, fd.failed, wanted)
  {
    var err, more := SnprintXtags(LINE_MAX + 1 - |s| - 1, tags);
    if err != Y4M_OK {
      return err;
    }
    var r := Y4mWrite(fd, s + more);
    ret := if r != 0 then Y4M_ERR_SYSTEM else Y4M_OK;
  }

  /** y4m_write_frame_header */
  method WriteFrameHeader(fd: Sink, si: Header, fi: FrameInfo, p: Settings) returns (ret: int)
    requires !fd.failed
    modifies fd
    ensures Wrote(ret, old(fd.written), fd.written, fd.failed, PrintFrame(fi, si.interlace, p))
  {
    var s := FRAME_MAGIC;
    if si.interlace == ILACE_MIXED {
      if p.level < 1 {
        return Y4M_ERR_FEATURE;
      }
      s := s + " I" + [CharOf(fi.presentation, PRESENTATION_CHARS), CharOf(fi.temporal, SAMPLING_CHARS),
                       CharOf(fi.spatial, SAMPLING_CHARS)];
    }
    JoinFrameFields(fi, si.interlace);
    assert s == FRAME_MAGIC + Join(FrameFields(fi, si.interlace));
    JoinSplit(FrameFields(fi, si.interlace), fi.tags);
    assert FrameLine(fi, si.interlace) == s + (Join(fi.tags) + "\n");
    hide FrameFields, FrameLine;
    ret := WriteLine(fd, s, fi.tags, PrintFrame(fi, si.interlace, p));
  }

  lemma JoinFrameFields(f: FrameInfo, interlace: int)
    ensures Join(FrameFields(f, interlace)) ==
            if interlace == ILACE_MIXED then
              " I" + [CharOf(f.presentation, PRESENTATION_CHARS), CharOf(f.temporal, SAMPLING_CHARS),
                      CharOf(f.spatial, SAMPLING_CHARS)]
            else []
  {
    if interlace == ILACE_MIXED {
      JoinSingle(FrameFields(f, interlace)[0]);
    }
  }

  // ------------------------------------------------------------ reading lines

  /** `r` with `text` read before it. */
  ghost function Extend(text: string, r: LineRead): LineRead {
    match r
    case Line(t, rest) => Line(text + t, rest)
    case Long(t, rest) => Long(text + t, rest)
    case Short => Short
  }

  lemma ExtendTwice(a: string, c: char, r: LineRead)
    ensures Extend(a, Extend([c], r)) == Extend(a + [c], r)
  {
    if !r.Short? {
      assert a + ([c] + r.text) == a + [c] + r.text;
    }
  }

  lemma TakeOne(input: string, room: nat)
    requires room > 0 && input != [] && input[0] != '\n'
    ensures TakeLine(input, room) == Extend([input[0]], TakeLine(input[1..], room - 1))
  {
  }

  /**
   The loop that reads a line octet by octet behind the `n0` octets `line` holds already.  `n` is
   where it stops: at the newline, which becomes a NUL, or at the end of the array.
   */
  method ReadLine(fd: Source, line: array<char>, n0: nat) returns (err: int, n: nat)
    requires !fd.failed && line.Length == LINE_MAX && n0 <= LINE_MAX
    modifies fd, line
    ensures err == Y4M_OK || err == Y4M_ERR_SYSTEM
    ensures fd.failed ==> err == Y4M_ERR_SYSTEM
    ensures err == Y4M_OK ==> n0 <= n <= LINE_MAX && line[..n0] == old(line[..n0])
    ensures !fd.failed ==>
              match TakeLine(old(fd.rest), LINE_MAX - n0)
              case Short => err == Y4M_ERR_SYSTEM && fd.rest == []
              case Long(text, rest) => err == Y4M_OK && n == LINE_MAX && line[n0..n] == text && fd.rest == rest
              case Line(text, rest) =>
                err == Y4M_OK && n < LINE_MAX && line[n0..n] == text && line[n] == '\0' && fd.rest == rest
  {
    ghost var input := fd.rest;
    ghost var wanted := TakeLine(input, LINE_MAX - n0);
    n := n0;
    err := Y4M_OK;
    assert line[n0..n] == [];
    assert Extend([], wanted) == wanted by {
      if !wanted.Short? { assert [] + wanted.text == wanted.text; }
    }
    while n < LINE_MAX
      invariant n0 <= n <= LINE_MAX && !fd.failed && err == Y4M_OK
      invariant line[..n0] == old(line[..n0])
      invariant wanted == Extend(line[n0..n], TakeLine(fd.rest, LINE_MAX - n))
    {
      ghost var rest, text := fd.rest, line[n0..n];
      var r := Y4mRead(fd, line, n, 1);
      if r != 0 {
        return Y4M_ERR_SYSTEM, n;
      }
      assert line[n..n + 1] == rest[..1];
      assert line[n] == rest[0];
      assert line[n0..n] == text && line[..n0] == old(line[..n0]);
      if line[n] == '\n' {
        line[n] := '\0';
        assert line[n0..n] == text && line[..n0] == old(line[..n0]);
        assert text + [] == text;
        return;
      }
      TakeOne(rest, LINE_MAX - n);
      ExtendTwice(text, rest[0], TakeLine(rest[1..], LINE_MAX - n - 1));
      assert line[n0..n + 1] == text + [rest[0]];
      n := n + 1;
    }
    assert line[n0..n] + [] == line[n0..n];
  }

  lemma {:induction false} CStringStops(s: string, n: nat)
    requires n < |s| && s[n] == '\0'
    ensures CString(s) == CString(s[..n])
  {
    if n == 0 || s[0] == '\0' {
    } else {
      CStringStops(s[1..], n - 1);
      assert s[..n][1..] == s[1..][..n - 1];
    }
  }

  /** y4m_read_stream_header_line, behind the `n0` octets `line` holds already */
  method ReadStreamHeaderLine(fd: Source, i: StreamInfo, line: array<char>, n0: nat, p: Settings) returns (err: int)
    requires !fd.failed && i.Valid() && line.Length == LINE_MAX && n0 <= LINE_MAX
    requires {fd, line} !! i.Repr()
    modifies fd, line, i.Repr()
    ensures i.Valid() && fresh(i.Repr() - old(i.Repr())) && {fd, line} !! i.Repr()
    ensures fd.failed ==> err == Y4M_ERR_SYSTEM
    ensures !fd.failed ==>
              var r := ReadStreamHeader(old(line[..n0]), old(fd.rest), p);
              Answers(err, i.Value(), r.outcome) && fd.rest == r.rest
  {
    ghost var already := line[..n0];
    i.Clear(p);
    var n;
    err, n := ReadLine(fd, line, n0);
    if err != Y4M_OK {
      return;
    }
    assert line[..n] == already + line[n0..n];
    var s := CString(line[..]);
    if n < LINE_MAX {
      CStringStops(line[..], n);
      assert line[..][..n] == line[..n];
    } else {
      assert line[..n] == line[..];
    }
    if !(MAGIC <= s) {
      return Y4M_ERR_MAGIC;
    }
    if n >= LINE_MAX {
      return Y4M_ERR_HEADER;
    }
    hide ParseStreamTags;
    err := i.ParseTags(s[|MAGIC|..], p);
  }
}
