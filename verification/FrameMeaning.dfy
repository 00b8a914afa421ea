/** What the reader of frame headers makes of everything that can stand where a frame should. */
module FrameMeaning {
  import opened CText
  import opened Y4mHeader
  import opened HeaderRoundTrip
  import opened HeaderMeaning
  import opened Y4mStream

  /** A line that begins with "FRAME": alone, with tags, too long, or going on with something else. */
  lemma FrameLineRead(line: string, rest: string, h: Header, p: Settings)
    requires "FRAME" <= line && '\n' !in line
    ensures var r := ReadFrameHeader(line + "\n" + rest, h, p);
            if line == "FRAME" then r == Read(Ok(FrameInfo(-1, -1, -1, [])), rest)
            else if line[5] != ' ' then r.outcome == Err(Y4M_ERR_MAGIC)
            else if |line| - 6 >= 256 then r.outcome == Err(Y4M_ERR_HEADER)
            else r == Read(ParseFrameTags(CString(line[6..]), h.interlace, h.chroma, p), rest)
  {
    hide ParseFrameTags;
    var input := line + "\n" + rest;
    assert input[..PREFIX][..5] == FRAME_MAGIC && input[5] == (line + "\n")[5];
    if line == "FRAME" {
      assert input[PREFIX..] == rest;
    } else if line[5] == ' ' {
      var text := line[6..];
      assert input[PREFIX..] == text + "\n" + rest;
      if |text| < 256 {
        TakeLineOf(text, rest, LINE_MAX);
      } else {
        LongLine(text, "\n" + rest, LINE_MAX);
        assert text + "\n" + rest == text + ("\n" + rest);
      }
    }
  }

  lemma {:induction false} LongLine(text: string, rest: string, room: nat)
    requires '\n' !in text && |text| >= room
    ensures TakeLine(text + rest, room) == Long(text[..room], text[room..] + rest)
  {
    var input := text + rest;
    if room == 0 {
      assert text[..0] == [] && text[0..] == text;
    } else {
      assert input[1..] == text[1..] + rest;
      LongLine(text[1..], rest, room - 1);
      assert [text[0]] + text[1..][..room - 1] == text[..room] && text[1..][room - 1..] == text[room..];
    }
  }

  /** A stream header there is skipped if it is the same as the stream's, and refused if not. */
  lemma HeaderLineRead(line: string, rest: string, h: Header, p: Settings)
    requires "YUV4MPEG2" <= line && '\n' !in line && |line| < 256
    ensures var g := ParseStreamLine(line, p);
            ReadFrameHeader(line + "\n" + rest, h, p)
            == (if g.Err? then Read(Err(g.code), rest)
                else if NoDifference(h, g.value) then ReadFrameHeader(rest, h, p)
                else Read(Err(Y4M_ERR_HEADER), rest))
  {
    hide ParseStreamLine;
    var input := line + "\n" + rest;
    assert input[..PREFIX] == line[..PREFIX] && input[PREFIX..] == line[PREFIX..] + "\n" + rest;
    assert input[..PREFIX][0] == 'Y' && FRAME_MAGIC[0] == 'F';
    LineReadBack(line, PREFIX, p, rest);
  }

  /** Anything else is refused. */
  lemma NothingElseRead(input: string, h: Header, p: Settings)
    requires |input| >= 6 && !("FRAME" <= input) && !("YUV4MP" <= input)
    ensures ReadFrameHeader(input, h, p).outcome
         == Err(if '\n' !in input[6..] && |input| < 256 then Y4M_ERR_SYSTEM else Y4M_ERR_MAGIC)
  {
    var first, more := input[..PREFIX], input[PREFIX..];
    assert input == first + more;
    PrefixOfFirst("FRAME", "", first, more);
    PrefixOfFirst("YUV4MP", "", first, more);
    assert "FRAME" + "" == "FRAME" && "YUV4MP" + "" == "YUV4MP";
    LineEndsWithin(more, LINE_MAX - PREFIX);
    TakeLineSplits(more, LINE_MAX - PREFIX);
    match TakeLine(more, LINE_MAX - PREFIX)
    case Short =>
    case Long(text, _) =>
      NoMagic(first, text);
    case Line(text, _) =>
      NoMagic(first, text);
      assert more[|text|] == '\n';
  }

  lemma NoMagic(first: string, text: string)
    requires |first| == 6 && !("YUV4MP" <= first)
    ensures !(MAGIC <= CString(first + text))
  {
    MagicInText(first + text);
    PrefixOfFirst("YUV4MP", "EG2", first, text);
    assert "YUV4MP" + "EG2" == "YUV4MPEG2";
  }

  lemma PrefixOfFirst(a: string, b: string, first: string, more: string)
    requires |a| <= |first|
    ensures a + b <= first + more ==> a <= first
    ensures a <= first ==> a <= first + more
  {
    if a + b <= first + more {
      forall k | 0 <= k < |a| ensures a[k] == first[k] {
        assert (a + b)[k] == (first + more)[k];
      }
    }
  }
}
