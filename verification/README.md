# Veejay model

Veejay is a video mixer with a graphical client.  This project models the parts of it that carry an
algorithm or a protocol and proves what they are for.

- The YUV4MPEG2 codec of the client: the text of stream and frame headers (`CText`, `Y4mHeader`),
  what each line means and that it survives a round trip (`HeaderMeaning`, `FrameMeaning`,
  `HeaderRoundTrip`), streams as values (`Y4mStream`, `StreamRoundTrip`), the descriptions filled in
  place and the list of extra tags that owns and recycles its buffers (`Y4mInfo`, `XTags`), the
  transfers under them (`ByteIO`), the readers and writers (`Y4mIO`, `Y4mFrameIO`), a client that reads
  a whole stream (`Y4mReadAll`), and two fields woven into a frame through a staging buffer (`Fields`,
  `Y4mFieldsIO`).
- The drop-frame time code of a frame number (`Timecode`), after the `drop_frame_flag` rule of
  section 6.3.8 of ITU-T H.262, and frame-rate codes over reduced ratios (`Ratio`, `FrameRate`),
  after `frame_rate_code` in section 6.3.3 of the same standard.
- Two threads, two message rings and a connection in the Pure Data object (`MessageRing`,
  `VimsProtocol`), where the messages come from (`VimsMessages`), and that disconnecting ends
  (`VimsProgress`).
- The hue chooser's colour conversions (`Hsv`).
- SIMD kernels against scalar code in the server (`Bits`, `SimdLoops`, `Average`).
- The client's sample banks and their index (`SampleBank`).

Code that changes things step by step is a method here, with the loops and branches of the original,
and is proved against a function that says what it computes; the theorems are about those functions.
Threads are state machines whose steps are single memory accesses, and their theorems range over all
runs.  An octet is a Dafny `char`.  C's division and remainder are written out in `CInt`.  Files,
sockets and connection attempts are steps that may move any number of octets and may fail.

`dafny verify dfyconfig.toml` checks the project.

## Where the code is not what it is meant to be

- `y4m_xtag_addlist` indexes its source by the destination's position.  `XTags.TagList.AddList` says
  what that comes to.
- The tag comparison looks up one list in the other only.  It decides equality of multisets exactly if
  the first list has no tag twice (`Y4mStream.ComparisonDecides`).
- A stream written by a program whose header is not in lowest terms may not repeat that header: a
  reader that goes by it rejects the copy (`StreamRoundTrip.CopySkipped`).
- A frame line without tags leaves presentation and sampling unknown outside mixed streams, although
  the stream header implies them (`StreamRoundTrip.FrameHeaderRoundTrips`).
- Fields of an odd height weave to one line too many (`Y4mFieldsIO.WovenFits`).  Read through the staging
  buffer, their last line finds stale octets for a partner, and the buffer then never runs empty again
  (`Fields.ReadPlane`, `Y4mFieldsIO.ReadFieldsDataCb`).
- A disconnect notice that meets a full ring is lost for good, and the object stays connected to a
  thread that has ended (`VimsProtocol.DeadThreadIsNoticed`, `VimsProtocol.StrandedIsReached`,
  `VimsProtocol.StrandedStays`).
- The index of the sample banks keeps its keys through resets and frees
  (`SampleBank.LookupIsRight`, `SampleBank.FreedLookupDangles`).  Two samples share a key only if one
  has a kind of three digits or more and an id of four or more, and every such sample does share its key
  (`SampleBank.OwnKeys`, `SampleBank.CollisionMisleads`, `SampleBank.LookupAfterRun`).  The client itself
  only uses the kinds 0, 1 and -1 (vj-api.c:4122, 4258, 4337 and 8124) and never gets there.
- `mpeg_timecode` divides by 0 if the code is not in its table and the rate lies between -1.5 and 0.5
  (`Timecode.MpegTimecode`).
- A hue outside [0,1] with a saturation either carries the first sector on or reaches the assertion that
  it should not (`Hsv.HsvToRgb`).

## Model

| member | source | states |
|---|---|---|
| StreamRoundTrip.StreamRoundTrips | veejay-current/veejay-client/src/yuv4mpeg.c:758-915 | A stream written with any header the format carries, any frames, and copies of the header anywhere between them reads back as the same header with its ratios reduced, exactly those frames with identical planes, and then a clean end of stream |
| Y4mReadAll.ReadAll | veejay-current/veejay-client/src/yuv4mpeg.c:758-1011 | From a descriptor, however the system splits the transfers: a client that reads the header and then frames until a call fails gets exactly the header, the frames and the last code that the string results speak of, or the system error |
| Y4mReadAll.ReadFramesOf | veejay-current/veejay-client/src/yuv4mpeg.c:865-1011 | The loop over frames, which ends |
| Y4mReadAll.ReadHeaderIsSized | veejay-current/veejay-client/src/yuv4mpeg.c:559-644 | Every header that is read sizes its frames: positive width and height and a known chroma mode |
| StreamRoundTrip.CutBody | veejay-current/veejay-client/src/yuv4mpeg.c:865-1046 | A stream cut after any number of characters gives exactly the frames wholly before the cut, and reports the clean end if and only if the cut falls between two items; inside an item it reports damage |
| StreamRoundTrip.CutFrame | veejay-current/veejay-client/src/yuv4mpeg.c:871-915 | A frame cut anywhere inside gives the bad-end code within its first six characters and the system-error code after them, never the end-of-stream code |
| StreamRoundTrip.CutCopy | veejay-current/veejay-client/src/yuv4mpeg.c:871-885 | The same for a repeated stream header cut anywhere inside |
| StreamRoundTrip.BodyReadBack | veejay-current/veejay-client/src/yuv4mpeg.c:979-1046 | All frames of an uncut stream, in order, and then the end-of-stream code |
| StreamRoundTrip.FrameReadBack | veejay-current/veejay-client/src/yuv4mpeg.c:1002-1038 | A written frame is read back with its planes, and nothing behind it is consumed |
| StreamRoundTrip.CopySkipped | veejay-current/veejay-client/src/yuv4mpeg.c:865-915 | A copy of the stream's own header is skipped if and only if the reader's header has its ratios in lowest terms; otherwise it is rejected with the header error |
| StreamRoundTrip.CopyChangesNothing | veejay-current/veejay-client/src/yuv4mpeg.c:784-792 | Headers repeated between frames change neither the frames read nor how the stream ends |
| StreamRoundTrip.FrameHeaderRoundTrips | veejay-current/veejay-client/src/yuv4mpeg.c:648-745 | A frame header the writer accepts reaches the reader exactly when it is one the format carries (in a mixed stream at feature level 1 every valid presentation, temporal and spatial triple); and it arrives with the sampling that the stream header implies exactly when, besides, it has a tag or the stream is none of Ip, It and Ib: a bare line of those arrives with everything unknown |
| StreamRoundTrip.FrameLineReadBack | veejay-current/veejay-client/src/yuv4mpeg.c:887-962 | Frame lines with and without tags; a line without tags leaves the sampling unknown in a stream that is not mixed |
| StreamRoundTrip.ReadFrameIsParsed | veejay-current/veejay-client/src/yuv4mpeg.c:648-745 | Whatever frame header the reader accepts is the bare one or one the format carries |
| HeaderRoundTrip.HeaderRoundTrips | veejay-current/veejay-client/src/yuv4mpeg.c:758-847 | A stream header the writer accepts is read back with the same fields, the same tags in order, reduced ratios and the input behind it untouched, if and only if it has positive size, a known interlace code, non-negative ratios with 0 in the denominator only as 0:0, and tags free of delimiters and of the letters with a meaning |
| HeaderRoundTrip.HeaderReadBack | veejay-current/veejay-client/src/yuv4mpeg.c:758-782 | The same when the first characters of the line were read before; the line never reaches the reader's limit |
| HeaderRoundTrip.ParsedLine | veejay-current/veejay-client/src/yuv4mpeg.c:559-644 | Whatever stream header the parser accepts is one the format carries |
| HeaderRoundTrip.FixedPartIsShort | veejay-current/veejay-client/src/yuv4mpeg.c:828-835 | Without extra tags the printed line takes at most 98 characters, so the writer's first length check never fires |
| HeaderRoundTrip.ShortTagsPrint | veejay-current/veejay-client/src/yuv4mpeg.c:808-847 | Every header of a known chroma mode that the feature level allows is printed if its tags take at most 157 characters with their blanks |
| HeaderRoundTrip.ReducedReadable | veejay-current/veejay-client/src/yuv4mpeg_ratio.c:85-122 | Reduction neither makes an unreadable ratio readable nor the reverse |
| HeaderRoundTrip.RatioTextRead | veejay-current/veejay-client/src/yuv4mpeg_ratio.c:105-122 | A reduced ratio is read back from its printed text |
| HeaderRoundTrip.ChromaKeywordRead | veejay-current/veejay-client/src/yuv4mpeg.c:1362-1398 | Each chroma keyword parses, ignoring case, to the one mode it names |
| HeaderRoundTrip.TakeLineSplits | veejay-current/veejay-client/src/yuv4mpeg.c:761-770 | What the line loop reads splits the input at the first newline or at the limit |
| HeaderMeaning.CodesAreNumbered | veejay-current/veejay-client/src/yuv4mpeg.h:39-48 | The ten codes are numbered as the header file has them, so that no failure is taken for another |
| HeaderMeaning.StreamLineMeans | veejay-current/veejay-client/src/yuv4mpeg.c:559-782 | Every header line, without the loops: it needs the magic word, tags nothing is wrong with, a width and a height, and at level 0 a 4:2:0 mode and no mixed interlace; otherwise the code of the first thing wrong.  Each field has the value of the last tag of its letter; without one the chroma mode is 420jpeg and everything else unknown |
| HeaderMeaning.DefaultChroma | veejay-current/veejay-client/src/yuv4mpeg.c:624-626 | A line without a chroma tag comes to the same, accepted or not, as with C420jpeg appended |
| HeaderMeaning.MissingTags | veejay-current/veejay-client/src/yuv4mpeg.c:279-294 | In an accepted line a missing C means 420jpeg, a missing I an unknown interlace, a missing F or A the ratio 0:0; W and H are never missing |
| HeaderMeaning.RatioRead | veejay-current/veejay-client/src/yuv4mpeg_ratio.c:105-122 | Any two texts around a colon: read in lowest terms, with the same rational, if the second number is positive; 0:0 as itself; anything else is the range error |
| HeaderMeaning.NaturalsRead | veejay-current/veejay-client/src/yuv4mpeg_ratio.c:105-122 | Two printed naturals, the second positive, are read as the coprime ratio of the same rational |
| HeaderMeaning.RatioIsReduced | veejay-current/veejay-client/src/yuv4mpeg_ratio.c:105-122 | Whatever the text, a ratio that is read is coprime or 0:0; without a colon there is none |
| HeaderMeaning.InterlaceLetters | veejay-current/veejay-client/src/yuv4mpeg.c:587-596 | p, t, b and m, and only they, stand for progressive, top first, bottom first and mixed |
| HeaderMeaning.PresentationLetters | veejay-current/veejay-client/src/yuv4mpeg.c:668-679 | t, T, b, B, 1, 2 and 3, and only they, stand for the seven presentations in their order in the header file |
| HeaderMeaning.SamplingLetters | veejay-current/veejay-client/src/yuv4mpeg.c:680-692 | p and i, and only they, stand for progressive and interlaced |
| HeaderMeaning.KeywordMeans | veejay-current/veejay-client/src/yuv4mpeg.c:1362-1383 | Each of the eight keywords in any case stands for its mode, and any other text for none |
| HeaderMeaning.FrameLineMeans | veejay-current/veejay-client/src/yuv4mpeg.c:648-745 | Every frame line's tags, without the loop: mixed streams need an I tag, with the spatial sampling if they are 4:2:0; others refuse one and fill in Ip as I1pp, It as Itii, Ib as Ibii; otherwise the code of the first thing wrong |
| HeaderMeaning.PrintedHeader | veejay-current/veejay-client/src/yuv4mpeg.c:808-847 | The header line in full, or the code: unknown chroma, level, more than 256 characters |
| HeaderMeaning.ClearedIsWritten | veejay-current/veejay-client/src/yuv4mpeg.c:279-294 | A cleared description has no chroma mode from level 1 on, and can then not be written; below it is 420jpeg |
| HeaderMeaning.PrintedFrame | veejay-current/veejay-client/src/yuv4mpeg.c:927-962 | The frame line in full, or the code: level, more than 256 characters |
| HeaderMeaning.UnendedHeader | veejay-current/veejay-client/src/yuv4mpeg.c:764-778 | A header line that does not end within 256 characters, or whose input ends first, and the three codes for it |
| FrameMeaning.FrameLineRead | veejay-current/veejay-client/src/yuv4mpeg.c:899-915 | Every line that begins with FRAME: bare, with tags, too long, or going on with anything but a blank |
| FrameMeaning.HeaderLineRead | veejay-current/veejay-client/src/yuv4mpeg.c:784-897 | A stream header where a frame should be is skipped exactly if it compares equal, else refused with its own error or the header error |
| FrameMeaning.NothingElseRead | veejay-current/veejay-client/src/yuv4mpeg.c:887-897 | Anything else there is the magic error, or the system error if the input ends in the line |
| Y4mStream.FrameLength | veejay-current/veejay-client/src/yuv4mpeg.c:479-490 | The loop adds up the lengths of all planes, which it does for every sized header, or gives up exactly if one of them is unknown |
| Y4mStream.PlaneSizes | veejay-current/veejay-client/src/yuv4mpeg.c:385-466 | The planes of each chroma mode in numbers: how many, and for each the part of the width and height it has, rounded down |
| Y4mStream.FrameSizes | veejay-current/veejay-client/src/yuv4mpeg.c:479-490 | The octets of a frame as a multiple of width times height for each mode whose planes divide it evenly |
| Y4mStream.PlanesTakeTheirLengths | veejay-current/veejay-client/src/yuv4mpeg.c:979-992 | The planes of a frame are read exactly if the input has as many octets as y4m_si_get_framelength says, and take exactly those |
| Y4mStream.WidthsNeverIncrease | veejay-current/veejay-client/src/yuv4mpeg.c:403-435 | No plane is wider than one before it, for every chroma mode |
| Y4mStream.ComparisonDecides | veejay-current/veejay-client/src/yuv4mpeg.c:311-335 | The one-way comparison decides against every other header whether the two are the same (equal scalars, and tags equal as multisets) if and only if the first has no tag twice; also with only headers a C program can hold compared |
| Y4mStream.NoDifferenceMeans | veejay-current/veejay-client/src/yuv4mpeg.c:311-335 | The half for a list without repeated tags, for a given pair of headers |
| Y4mStream.ReplacedUnnoticed | veejay-current/veejay-client/src/yuv4mpeg.c:322-333 | A repeated tag can be replaced in the other list by any new one without the comparison noticing |
| Y4mStream.Pigeonhole | veejay-current/veejay-client/src/yuv4mpeg.c:322-333 | As many distinct tags as there are places for them fill every place |
| Y4mStream.RepeatsGoUnnoticed | veejay-current/veejay-client/src/yuv4mpeg.c:311-335 | An instance: the comparison is then not symmetric either |
| Y4mStream.FrameHeaderConsumes | veejay-current/veejay-client/src/yuv4mpeg.c:865-915 | Reading frame headers never gives characters back, so the retry loop ends |
| CText.TokensOfJoin | veejay-current/veejay-client/src/yuv4mpeg.c:564-566 | Tokenising the printed fields gives back exactly the fields |
| CText.TokensSplit | veejay-current/veejay-client/src/yuv4mpeg.c:564-566 | A blank ends a token, wherever it stands and however many there are |
| CText.AtoiOfDecimal | veejay-current/veejay-client/src/yuv4mpeg.c:571-580 | `atoi` inverts `%d`, for negative numbers too, whatever follows that is not a digit |
| CText.AtoiStops | veejay-current/veejay-client/src/yuv4mpeg_ratio.c:110 | `atoi` stops at the first character that cannot belong to the number |
| CText.AtoiOfBlanks | veejay-current/veejay-client/src/yuv4mpeg.c:571-580 | `atoi` skips white space before the number |
| CText.AtoiElse | veejay-current/veejay-client/src/yuv4mpeg.c:571-580 | It takes a plus sign, and 0 for a text that does not begin with a number |
| CText.SameLetter | veejay-current/veejay-client/src/yuv4mpeg.c:1362-1383 | strcasecmp takes a letter and its other case, and nothing else, for one |
| CText.Tokenizer.Next | veejay-current/veejay-client/src/yuv4mpeg.c:564-566 | One strtok step takes exactly the first token and leaves the others |
| ByteIO.Y4mRead | veejay-current/veejay-client/src/yuv4mpeg.c:71-88 | However the system splits its transfers: the wanted octets, the number missing at the end of the input, or a negative number on an error |
| ByteIO.Y4mWrite | veejay-current/veejay-client/src/yuv4mpeg.c:91-103 | All octets in order however the transfers are split, or a proper prefix and a negative number |
| Y4mIO.ReadLine | veejay-current/veejay-client/src/yuv4mpeg.c:765-772 | The octet-by-octet line loop ends exactly where the line does, at the limit, or at the end of the input |
| Y4mIO.ReadStreamHeaderLine | veejay-current/veejay-client/src/yuv4mpeg.c:758-782 | The reader fills the description exactly as the specification of a header line says, with its error codes |
| Y4mIO.SnprintXtags | veejay-current/veejay-client/src/yuv4mpeg.c:189-202 | All tags, each behind a blank, and a newline if they fit, else the header error |
| Y4mIO.WriteStreamHeader | veejay-current/veejay-client/src/yuv4mpeg.c:808-847 | Emits exactly the specified header line, or nothing and the specified error |
| Y4mIO.WriteFrameHeader | veejay-current/veejay-client/src/yuv4mpeg.c:927-962 | Emits exactly the specified frame line, or nothing and the specified error |
| Y4mInfo.ParseRatioInto | veejay-current/veejay-client/src/yuv4mpeg_ratio.c:105-122 | Parses and reduces a ratio as specified; rejects a negative denominator and n:0 |
| Y4mInfo.StreamInfo.ParseTags | veejay-current/veejay-client/src/yuv4mpeg.c:559-644 | The strtok loop computes the specified header or the specified error |
| Y4mInfo.StreamInfo.ParseTag | veejay-current/veejay-client/src/yuv4mpeg.c:564-617 | One tag changes one field as specified |
| Y4mInfo.StreamInfo.Compare | veejay-current/veejay-client/src/yuv4mpeg.c:311-335 | Returns 0 if and only if the specified comparison finds no difference |
| Y4mInfo.StreamInfo.Clear | veejay-current/veejay-client/src/yuv4mpeg.c:279-294 | Resets every field; the tag buffers stay owned |
| Y4mInfo.FrameCell.ParseTags | veejay-current/veejay-client/src/yuv4mpeg.c:648-745 | The frame tag loop computes the specified frame header, with the defaults the stream header implies |
| Y4mInfo.FrameCell.ParseTag | veejay-current/veejay-client/src/yuv4mpeg.c:653-700 | One frame tag as specified |
| Y4mFrameIO.RereadStreamHeaderLine | veejay-current/veejay-client/src/yuv4mpeg.c:784-792 | A header in the place of a frame is accepted only if it equals the stream's own |
| Y4mFrameIO.SeekFrame | veejay-current/veejay-client/src/yuv4mpeg.c:865-897 | The `goto again` loop terminates, each turn consuming a header line, and finds the next frame |
| Y4mFrameIO.ReadFrameHeaderCb | veejay-current/veejay-client/src/yuv4mpeg.c:865-915 | Reads the specified frame header and consumes exactly the specified input |
| Y4mFrameIO.ReadFrameDataCb | veejay-current/veejay-client/src/yuv4mpeg.c:979-992 | Reads exactly the planes of one frame |
| Y4mFrameIO.ReadFrameCb | veejay-current/veejay-client/src/yuv4mpeg.c:1002-1011 | Header and planes together |
| Y4mFrameIO.WriteFrameCb | veejay-current/veejay-client/src/yuv4mpeg.c:1023-1038 | Emits the frame line and the planes in order, or reports the failure |
| Y4mFieldsIO.WriteFieldsCb | veejay-current/veejay-client/src/yuv4mpeg.c:1134-1182 | Through the 32 KiB staging buffer, wherever it is flushed, emits exactly the frame line and the line-by-line weave of all planes in order: what writing the woven frame emits |
| Y4mFieldsIO.WriteFieldPlanes | veejay-current/veejay-client/src/yuv4mpeg.c:1145-1180 | Direct and staged writes stay in order because plane widths never increase |
| Y4mFieldsIO.ReadFieldsDataCb | veejay-current/veejay-client/src/yuv4mpeg.c:1055-1101 | For all heights: the fields get the even and the odd lines of every plane and exactly their octets are consumed; an input too short is the system error; and C copies octets it has not read (`fault`) exactly from the first plane on that has an odd height, a positive width and lines that go through the buffer |
| Y4mFieldsIO.EvenFieldsAreFrames | veejay-current/veejay-client/src/yuv4mpeg.c:1055-1101 | With even heights the fields take the same planes as a frame, exactly y4m_si_get_framelength octets, never reading into the next plane or frame, and no stale octets; they fail exactly if there are fewer |
| Y4mFieldsIO.FieldPlanesReadBack | veejay-current/veejay-client/src/yuv4mpeg.c:1055-1101 | Woven planes are read into fields just as they are if and only if no plane has an odd height, a positive width and lines that go through the buffer |
| Y4mFieldsIO.WhatRunsOver | veejay-current/veejay-client/src/yuv4mpeg.c:1068-1094 | These are the planes of odd height and a width of 1 to 16383 |
| Y4mFieldsIO.FieldsRoundTrip | veejay-current/veejay-client/src/yuv4mpeg.c:1055-1182 | Fields written and read back, for all heights: as a frame they are the weave exactly if no plane with a positive width has an odd height; as fields they are the two fields exactly if no such plane goes through the buffer; taken apart the weave is always the two fields |
| Y4mFieldsIO.FramesReadBack | veejay-current/veejay-client/src/yuv4mpeg.c:1002-1038 | A written frame is read back exactly if its planes have the sizes the header gives |
| Y4mFieldsIO.WovenFits | veejay-current/veejay-client/src/yuv4mpeg.c:1155-1180 | Writing by fields emits planes of the right length if and only if no plane with a positive width has an odd height |
| Y4mFieldsIO.WovenApart | veejay-current/veejay-client/src/yuv4mpeg.c:1072-1097 | Taking the woven planes apart gives exactly the two fields |
| Fields.WritePlane | veejay-current/veejay-client/src/yuv4mpeg.c:1149-1174 | One plane appends its weave to what is written and staged |
| Fields.WriteLines | veejay-current/veejay-client/src/yuv4mpeg.c:1156-1172 | One line of each field is appended, staged or direct |
| Fields.ReadPlane | veejay-current/veejay-client/src/yuv4mpeg.c:1068-1097 | Takes the lines of one plane from the input; the buffer is empty behind it unless the height is odd, the width positive and the lines go through the buffer, which is when `fault` is set |
| Fields.ReadLines | veejay-current/veejay-client/src/yuv4mpeg.c:1074-1094 | The next two lines ahead go to the two fields, or the last line to one of them and stale octets to the other |
| Fields.WantedSplit | veejay-current/veejay-client/src/yuv4mpeg.c:1074-1094 | The octets a plane takes: its lines, and one more of an odd number that is read past the buffer |
| Fields.Refill | veejay-current/veejay-client/src/yuv4mpeg.c:1079-1086 | A refill is a whole number of line pairs, or all lines the plane still lacks, and none of the next plane |
| Fields.UnweaveWeave | veejay-current/veejay-client/src/yuv4mpeg.c:1055-1182 | Taking a weave apart gives back the two fields |
| Fields.WovenLine | veejay-current/veejay-client/src/yuv4mpeg.c:1145-1175 | Line 2j of a woven plane is line j of the upper field, and line 2j+1 that of the lower |
| Fields.WeaveUnweave | veejay-current/veejay-client/src/yuv4mpeg.c:1055-1182 | Weaving the lines of a frame gives back the frame |
| XTags.TagList.Add | veejay-current/veejay-client/src/yuv4mpeg.c:217-225 | Appends the stored form of the tag, or the list-full error and no change; no buffer is shared |
| XTags.TagList.Remove | veejay-current/veejay-client/src/yuv4mpeg.c:227-239 | Removes exactly element n and only permutes the slots: no buffer is lost or shared |
| XTags.TagList.MoveToEnd | veejay-current/veejay-client/src/yuv4mpeg.c:232-236 | The loop moves one buffer behind the others in use |
| XTags.TagList.Copy | veejay-current/veejay-client/src/yuv4mpeg.c:178-187 | The destination becomes equal to the source, over the buffers it has and new ones |
| XTags.TagList.Clear | veejay-current/veejay-client/src/yuv4mpeg.c:241-245 | Empties the list and keeps the buffers |
| XTags.TagList.AddList | veejay-current/veejay-client/src/yuv4mpeg.c:247-262 | As written, with `src->tags[i]`: faults if and only if one of the slots it reads holds no buffer, otherwise copies the slots at the wrong index, and so appends the list if and only if those slots hold the texts of the first ones, as they do where one list is empty |
| XTags.MovedKeepsBuffers | veejay-current/veejay-client/src/yuv4mpeg.c:227-239 | Moving a slot to the end keeps the multiset of slots and shares nothing |
| XTags.TagList.Get | veejay-current/veejay-client/src/yuv4mpeg.c:209-215 | The tag at an index, or nothing from the end of the list on |
| Timecode.MpegTimecode | veejay-current/veejay-client/src/mpegtimecode.c:61-105 | For every non-negative frame at a drop rate the label is that of counting frame by frame, and the result is -f exactly on the first frame of a minute; for a negative one the label is that of its place before the first frame; at the other rates it is the mixed-radix label, for negative frames and negative rates too; C divides by 0 exactly for a code outside the table and a rate above -1.5 and below 0.5 |
| Timecode.NominalRates | veejay-current/veejay-client/src/mpegtimecode.c:63 | The whole rate of each code is its exact rate rounded up, and the rates that drop are exactly those that are not whole: codes 1, 4 and 7 |
| Timecode.DropFrameLabel | veejay-current/veejay-client/src/mpegtimecode.c:73-89 | The divisions in 1/119.88 s give the label of the counting rule, and for negative frames the digits of the one place so many ten minutes, minutes and units back, negated within a frame of the end of a minute |
| Timecode.BehindIsUnique | veejay-current/veejay-client/src/mpegtimecode.c:73-89 | A negative frame has one such place |
| Timecode.BehindCounts | veejay-current/veejay-client/src/mpegtimecode.c:73-89 | At 29.97 and 59.94 frames a second a negative label, as a count, lies 2 or 4 behind the frame for every minute but every tenth |
| Timecode.PlainFrameLabel | veejay-current/veejay-client/src/mpegtimecode.c:90-104 | The mixed-radix digits of the frame number for every rate but 0: the last with its sign, the others with that of the time |
| Timecode.FrameOfCount | veejay-current/veejay-client/src/mpegtimecode.c:24-54 | Every frame's label is legal (never one that the rule drops), and the closed formula recovers the frame number from it |
| Timecode.CountOfFrame | veejay-current/veejay-client/src/mpegtimecode.c:24-54 | Every legal label is the label of exactly one frame |
| Timecode.FrameOfIsInjective | veejay-current/veejay-client/src/mpegtimecode.c:24-54 | No two legal labels stand for one frame |
| Timecode.FramesFollowLabels | veejay-current/veejay-client/src/mpegtimecode.c:24-54 | Labels are ordered as their frames are |
| Timecode.FrameLabelCounts | veejay-current/veejay-client/src/mpegtimecode.c:73-89 | At 29.97 and 59.94 frames a second the computed labels are those of counting whole frames with 2 and 4 dropped |
| Timecode.LabelCountFormula | veejay-current/veejay-client/src/mpegtimecode.c:73-89 | For the three drop rates the label count is n plus floor(8(9H + m mod 10)/k) with H the number of whole ten-minute blocks |
| Timecode.LabelsSkip | veejay-current/veejay-client/src/mpegtimecode.c:73-89 | Labels strictly increase, and one is skipped only on entering a minute not divisible by ten, by eight units in whole frames |
| Timecode.FirstFrame | veejay-current/veejay-client/src/mpegtimecode.c:80-81 | The code's test for the first frame of a minute, against the label of the frame before |
| Timecode.CodeLabel | veejay-current/veejay-client/src/mpegtimecode.c:73-89 | Truncating division agrees with the counting rule also where the intermediate value is negative |
| Timecode.DriftAtNtsc | veejay-current/veejay-client/src/mpegtimecode.c:73-89 | 1000 L(n) - 1001 n lies in [18H - 1799, 18H + 1816] with H = floor(n/17982) |
| Timecode.DriftInUnits | veejay-current/veejay-client/src/mpegtimecode.c:73-89 | The same bound in units of 1/119.88 s, for all drop rates |
| Ratio.ComputeGcd | veejay-current/veejay-client/src/yuv4mpeg_ratio.c:64-78 | The loop computes the greatest common divisor of the absolute values |
| Ratio.GcdDivides | veejay-current/veejay-client/src/yuv4mpeg_ratio.c:64-78 | It divides both numbers |
| Ratio.GcdIsGreatest | veejay-current/veejay-client/src/yuv4mpeg_ratio.c:64-78 | Every common divisor divides it |
| Ratio.RatioCell.Reduce | veejay-current/veejay-client/src/yuv4mpeg_ratio.c:85-92 | The fields are divided in place by their greatest common divisor; 0:0 stays |
| Ratio.ReducedFields | veejay-current/veejay-client/src/yuv4mpeg_ratio.c:85-92 | Both fields lose exactly that divisor, keep their signs and become coprime |
| Ratio.CoprimeIsUnique | veejay-current/veejay-client/src/yuv4mpeg_ratio.c:85-92 | Coprime ratios with positive denominators that denote one rational are one pair |
| Ratio.ReducedIsCanonical | veejay-current/veejay-client/src/yuv4mpeg_ratio.c:85-92 | Two ratios reduce to the same pair if and only if they denote the same rational |
| Ratio.ReducedTwice | veejay-current/veejay-client/src/yuv4mpeg_ratio.c:85-92 | A reduced ratio is left alone |
| FrameRate.FramerateCode | veejay-current/veejay-client/src/mpegconsts.c:185-198 | The code is c if and only if the ratio, however written, denotes rate c; otherwise it is 0 |
| FrameRate.RatesInNumbers | veejay-current/veejay-client/src/mpegconsts.c:30-41 | Which ratios denote which code, in numbers, for all eight |
| FrameRate.FramerateInverts | veejay-current/veejay-client/src/mpegconsts.c:171-178 | The ratio given for a code denotes the rate of just that code, and of none if it is not a code |
| FrameRate.ConformFramerate | veejay-current/veejay-client/src/mpegconsts.c:203-222 | For every fps, 0 included: the result denotes rate c if and only if fps is within tolerance of rate c; any other rate becomes its reduced eight-place decimal, which no code denotes |
| FrameRate.ConformsToOne | veejay-current/veejay-client/src/mpegconsts.c:203-222 | No rate is within tolerance of two table entries |
| FrameRate.DecimalConforms | veejay-current/veejay-client/src/mpegconsts.c:214-221 | A decimal never happens to equal a table rate outside the tolerance |
| FrameRate.DecimalFits | veejay-current/veejay-client/src/mpegconsts.c:216-219 | The decimal's numerator fits a 32-bit integer exactly for positive rates below 21.474836475 |
| MessageRing.StepKeepsInv | veejay-current/sendVIMS/sendVIMS.c:261-282 | Every interleaved memory access keeps the ring's invariant: at most 255 messages, each in its slot until it has been taken |
| MessageRing.StepRefinesQueue | veejay-current/sendVIMS/sendVIMS.c:261-282 | Every access is, to the queue of messages, nothing, an append, or the removal of the head the reader took |
| MessageRing.OtherThreadCannotSpoil | veejay-current/sendVIMS/sendVIMS.c:261-282 | What one thread saw when it looked stays good until its call ends; no store hits a slot that has not been read |
| MessageRing.RunIsFifo | veejay-current/sendVIMS/sendVIMS.c:261-282 | In every run the messages received are a first part of those accepted, in order and once each, with never more than 255 under way |
| MessageRing.DropsOnlyWhenFull | veejay-current/sendVIMS/sendVIMS.c:262-266 | A message is dropped only if the ring was full at an instant of the call |
| MessageRing.NothingOnlyWhenEmpty | veejay-current/sendVIMS/sendVIMS.c:275-276 | An empty answer is given only if the ring was empty at an instant of the call |
| MessageRing.MessagesCounts | veejay-current/sendVIMS/sendVIMS.c:262 | The masked difference of the indices is the number of messages |
| MessageRing.RunRecords | veejay-current/sendVIMS/sendVIMS.c:261-282 | The recorded histories are what the steps of the run published and received |
| MessageRing.Queue.Write | veejay-current/sendVIMS/sendVIMS.c:261-271 | Appends, or drops exactly if 255 messages are held |
| MessageRing.Queue.Read | veejay-current/sendVIMS/sendVIMS.c:273-282 | Takes the head, or answers empty exactly if nothing is held |
| MessageRing.HeadLeaves | veejay-current/sendVIMS/sendVIMS.c:278-279 | Advancing the read index, going round at the end, removes exactly the head |
| MessageRing.TailJoins | veejay-current/sendVIMS/sendVIMS.c:268-269 | Storing and advancing the write index appends exactly one message |
| VimsProtocol.SentInOrderOnTime | veejay-current/sendVIMS/sendVIMS.c:365-377 | In every run: what a session has sent is a first part of what was accepted in it, in order; each command left exactly its delay in status frames after it was fetched, none before its predecessor |
| VimsProtocol.SendWaitsItsDelay | veejay-current/sendVIMS/sendVIMS.c:365-442 | Whenever a command is sent, a step before took just that command from the ring, and from there to the send exactly its delay of status frames arrived and nothing else was taken or sent |
| VimsProtocol.LogIsOfSends | veejay-current/sendVIMS/sendVIMS.c:365-442 | Every entry of the record of sends is of one step that sent and one that fetched for it, in this session, with exactly the delay of frames between them, and entries are in the order of the steps |
| VimsProtocol.SendsAreLogged | veejay-current/sendVIMS/sendVIMS.c:380-442 | Every step that sent in the session has its entry in the record |
| VimsMessages.AcceptedIsSaid | veejay-current/sendVIMS/sendVIMS.c:492-496 | In every run what the command ring accepts or, holding 255, drops is the command the user last gave to the connected object, unchanged |
| VimsMessages.SayingBegins | veejay-current/sendVIMS/sendVIMS.c:492-496 | A command given to a connected object is being accepted, to any other ignored |
| VimsMessages.AcceptingEnds | veejay-current/sendVIMS/sendVIMS.c:492-496 | The main thread leaves that only by publishing the command, or dropping it when it found 255 |
| VimsMessages.AcceptedIsCaused | veejay-current/sendVIMS/sendVIMS.c:364-388 | In every run what the reply ring accepts or drops is the status that arrived last, or after a failure the disconnect notice |
| VimsMessages.PostingEnds | veejay-current/sendVIMS/sendVIMS.c:364-388 | Every status that arrives and every failure is posted before the worker goes on |
| VimsMessages.IdleWaitsAFrame | veejay-current/sendVIMS/sendVIMS.c:435-447 | A worker that finds no command looks again after exactly one frame |
| VimsMessages.PollEnds | veejay-current/sendVIMS/sendVIMS.c:511-525 | A poll takes the replies in order and ends only when a look finds the ring empty, turning aside to disconnect at a notice |
| VimsProgress.DisconnectEnds | veejay-current/sendVIMS/sendVIMS.c:403-426 | From any moment of any run at which the main thread disconnects, it is through after at most a number of steps computed from the state then, in whatever order the threads take them, and never stuck |
| VimsProgress.StepCounts | veejay-current/sendVIMS/sendVIMS.c:411-447 | Each step of either thread meanwhile lowers the number of steps left |
| VimsProgress.NotStuck | veejay-current/sendVIMS/sendVIMS.c:411-447 | And one is always possible |
| VimsProtocol.SessionBeginsEmpty | veejay-current/sendVIMS/sendVIMS.c:452-475 | A session starts with both rings empty: nothing accepted before it can be sent in it |
| VimsProtocol.DisconnectLeavesNothing | veejay-current/sendVIMS/sendVIMS.c:404-425 | A disconnect ends with both rings empty and idle, the thread gone and both flags down |
| VimsProtocol.DrainsAlone | veejay-current/sendVIMS/sendVIMS.c:404-425 | While the rings are drained no other event can happen at all |
| VimsProtocol.OneThreadPerSide | veejay-current/sendVIMS/sendVIMS.c:404-475 | No state lets two threads read, or two write, one ring; a thread is created only when there is none |
| VimsProtocol.TickNeverWaits | veejay-current/sendVIMS/sendVIMS.c:507-520 | A disconnect found by the poll is always about a thread that has ended, so its join returns at once |
| VimsProtocol.DeadThreadIsNoticed | veejay-current/sendVIMS/sendVIMS.c:315-321 | A thread that ended unasked has looked at the ring in this session to leave its notice, and the notice is the last reply if and only if the ring held fewer than 255 at that look |
| VimsProtocol.LookDecides | veejay-current/sendVIMS/sendVIMS.c:262-266 | What that look found decides whether the notice is lost, whatever the main thread does after it |
| VimsProtocol.LostNoticeStrands | veejay-current/sendVIMS/sendVIMS.c:315-321 | A dropped notice leaves the object connected to a dead thread |
| VimsProtocol.StrandedIsReached | veejay-current/sendVIMS/sendVIMS.c:261-447 | A run that gets there: the main thread does not poll, 255 statuses pile up, a frame fails and its notice is dropped |
| VimsProtocol.StrandedStays | veejay-current/sendVIMS/sendVIMS.c:404-520 | Only a disconnect or connect by the user ends that |
| VimsProtocol.RunIsGood | veejay-current/sendVIMS/sendVIMS.c:365-520 | The invariant holds in every state of every run |
| VimsProtocol.StepKeepsRoles | veejay-current/sendVIMS/sendVIMS.c:261-520 | Each step leaves a call under way only with the thread whose turn it is |
| VimsProtocol.StepKeepsPhases | veejay-current/sendVIMS/sendVIMS.c:404-475 | Each step keeps the flags, the thread and the phases of connecting and disconnecting in agreement |
| VimsProtocol.StepKeepsOrdered | veejay-current/sendVIMS/sendVIMS.c:428-447 | Each step keeps the sent commands a first part of the accepted ones |
| VimsProtocol.StepKeepsTimed | veejay-current/sendVIMS/sendVIMS.c:365-377 | Each step keeps the frames counted since a fetch and those still to wait for adding up to the delay |
| VimsProtocol.StepKeepsNoticed | veejay-current/sendVIMS/sendVIMS.c:315-321 | Each step keeps a disconnect notice the last word of an ended thread |
| Hsv.HsvToRgb | veejay-current/veejay-client/src/gtkhsv.c:423-493 | For every triple: with a hue in [0,1] or no saturation the six-sector code computes the sector-free conversion, each channel the value less the chroma times a trapezoid of the hue; hues from above -1/6 to 0 carry the first sector on; exactly for the other hues the switch has no case |
| Hsv.Primaries | veejay-current/veejay-client/src/gtkhsv.c:423-493 | Red, green and blue at hues 0, 1/3 and 2/3, for all saturations and values |
| Hsv.RgbToHsv | veejay-current/veejay-client/src/gtkhsv.c:495-568 | The branches compute hue, saturation and value from the highest and lowest channel |
| Hsv.RgbRoundTrip | veejay-current/veejay-client/src/gtkhsv.c:423-568 | hsv_to_rgb after rgb_to_hsv is the identity on all real triples but exactly those whose highest channel is 0 and lowest is not; so on all of [0,1]^3 |
| Hsv.HsvRoundTrip | veejay-current/veejay-client/src/gtkhsv.c:423-568 | rgb_to_hsv after hsv_to_rgb gives the canonical triple, with hue 1 as 0 and hue and saturation 0 where they mean nothing; it is the identity if and only if s > 0, v > 0 and h < 1, or s = 0 and h = 0 |
| Hsv.SectorFormula | veejay-current/veejay-client/src/gtkhsv.c:441-486 | The sector table against the trapezoids, for every sector and fraction |
| Hsv.SectorLevels | veejay-current/veejay-client/src/gtkhsv.c:441-486 | The truncated hue finds a sector exactly for those hues, and the code's levels are that sector's |
| Hsv.SectorIsRead | veejay-current/veejay-client/src/gtkhsv.c:503-563 | Every sector is read back, its boundary with the sector before included |
| Hsv.HsvInRange | veejay-current/veejay-client/src/gtkhsv.c:495-568 | Hue in [0,1), so its correction from above never applies; saturation in [0,1] for non-negative channels |
| Hsv.RgbInRange | veejay-current/veejay-client/src/gtkhsv.c:423-493 | Channels between 0 and the value |
| SimdLoops.SimdLoop | veejay-current/veejay-server/aclib/img_x86_common.h:206-233 | For every power-of-two block, every count of at least 1 and every routine: terminates and leaves in `dest` the shuffle of each word of the source exactly once and nothing else changed, in place or not; the mask pointer survives the small loop |
| SimdLoops.SmallLoop | veejay-current/veejay-server/aclib/img_x86_common.h:216-224 | The alignment loop does the words above the last multiple of the block |
| SimdLoops.MainLoop | veejay-current/veejay-server/aclib/img_x86_common.h:228-230 | The block loop does the rest |
| SimdLoops.MainBlock | veejay-current/veejay-server/aclib/img_x86_common.h:286-438 | A round shuffles one register, loaded before it is stored |
| SimdLoops.PlainLoop | veejay-current/veejay-server/aclib/img_x86_common.h:128-183 | The loops without SIMD leave the same words |
| SimdLoops.WordsAgree | veejay-current/veejay-server/aclib/img_x86_common.h:66-122 | For every routine and word the scalar instructions, the loop without SIMD and a lane of the masked and shifted main loop all compute the same byte permutation |
| SimdLoops.Rev32Agrees | veejay-current/veejay-server/aclib/img_x86_common.h:107-110 | `bswap` and the masked shifts reverse the bytes |
| SimdLoops.PlainRev32Agrees | veejay-current/veejay-server/aclib/img_x86_common.h:99-104 | Two byte exchanges around a half rotation reverse the bytes |
| SimdLoops.Swap16x2Agrees | veejay-current/veejay-server/aclib/img_x86_common.h:286-303 | Bytes swapped within both halves |
| SimdLoops.Swap32Agrees | veejay-current/veejay-server/aclib/img_x86_common.h:305-322 | Halves swapped |
| SimdLoops.Swap32_02Agrees | veejay-current/veejay-server/aclib/img_x86_common.h:324-347 | Bytes 0 and 2 swapped |
| SimdLoops.Swap32_13Agrees | veejay-current/veejay-server/aclib/img_x86_common.h:349-372 | Bytes 1 and 3 swapped |
| SimdLoops.Rol32Agrees | veejay-current/veejay-server/aclib/img_x86_common.h:402-419 | Rotated left by a byte |
| SimdLoops.Ror32Agrees | veejay-current/veejay-server/aclib/img_x86_common.h:421-438 | Rotated right by a byte |
| SimdLoops.MasksAre | veejay-current/veejay-server/aclib/img_x86_common.h:41-58 | The table has the mask wanted at each offset the loops use |
| SimdLoops.ShuffledByte | veejay-current/veejay-server/aclib/img_x86_common.h:64-122 | A shuffle moves each byte to its place and loses none |
| SimdLoops.UndoUndoes | veejay-current/veejay-server/aclib/img_x86_common.h:64-122 | The swaps and the reversal undo themselves, the rotations each other |
| Bits.LowBits | veejay-current/veejay-server/aclib/img_x86_common.h:211-219 | Masking with one less than a power of two is the remainder, and clearing those bits the multiple below |
| Average.AverageMmx | veejay-current/veejay-server/aclib/average.c:45-81 | Leaves the rounded means of all bytes and nothing else changed, for every length, also when `dest` is a source |
| Average.AveragePavgb | veejay-current/veejay-server/aclib/average.c:91-137 | The same for the SSE form and, with registers of 16 bytes, the SSE2 form |
| Average.Average | veejay-current/veejay-server/aclib/average.c:33-39 | The scalar loop, from any offset |
| Average.MeanRoundsUp | veejay-current/veejay-server/aclib/average.c:38 | The mean lies between the two bytes, is rounded up when half way, and does not depend on their order |
| Average.VersionsAgree | veejay-current/veejay-server/aclib/average.c:33-204 | All versions leave the same bytes, whatever was there before |
| Average.MmxHalfMeans | veejay-current/veejay-server/aclib/average.c:58-66 | The 16-bit lanes never overflow and never saturate |
| Average.MmxRoundMeans | veejay-current/veejay-server/aclib/average.c:53-68 | Unpacking, adding, shifting and packing gives the rounded means in byte order |
| Average.PavgbLoops | veejay-current/veejay-server/aclib/average.c:157-198 | Wide rounds while a whole block is left, then rounds of 8, over a positive multiple of 8 |
| Average.PavgbRound | veejay-current/veejay-server/aclib/average.c:97-114 | Four registers loaded before they are stored |
| Average.WideMask | veejay-current/veejay-server/aclib/average.c:96-117 | The complemented mask is non-zero exactly while a whole block is left |
| SampleBank.EveryRunIsGood | veejay-current/veejay-client/src/vj-api.c:7437-7506 | After every sequence of placements, removals, resets and frees: pages in use are the first ones, no sample stands twice, and, if all samples placed have keys of their own (a kind of at most two digits or an id of at most three), the index leads to a sample's slot exactly if it is there |
| SampleBank.LookupAfterRun | veejay-current/veejay-client/src/vj-api.c:7555-7566 | Whatever the ids and kinds: after every sequence of operations the index leads to a sample's slot exactly if the sample is there and no other was put in a slot under its key since |
| SampleBank.AddingIsRight | veejay-current/veejay-client/src/vj-api.c:8064-8080 | For all ids and kinds: a known sample keeps its slot and the banks stay; a new one goes to the first free slot in page order and every other sample stays; with nothing free the table is unchanged; the index keeps leading to all samples if the new one has a key of its own |
| SampleBank.FindIsFirst | veejay-current/veejay-client/src/vj-api.c:7578-7626 | The search gives the sample's place, else the first free place, else nothing exactly when nothing is free |
| SampleBank.LookupIsRight | veejay-current/veejay-client/src/vj-api.c:7555-7566 | The index answers rightly for exactly the samples in the banks |
| SampleBank.FreedLookupDangles | veejay-current/veejay-client/src/vj-api.c:7469-7506 | Freeing leaves the index leading to slots that are gone |
| SampleBank.ResetKeepsGood | veejay-current/veejay-client/src/vj-api.c:7437-7467 | A reset leaves no sample and keeps the invariant |
| SampleBank.RemovalKeepsGood | veejay-current/veejay-client/src/vj-api.c:8090-8129 | Emptying a slot keeps the invariant |
| SampleBank.KeysDiffer | veejay-current/veejay-client/src/vj-api.c:8173-8174 | Different samples have different keys if the kind of each has at most two digits or its id at most three |
| SampleBank.OwnKeys | veejay-current/veejay-client/src/vj-api.c:8173-8174 | Exactly the samples with a kind of at most two digits or an id of at most three have keys of their own: no other of them has the same key, and each remaining sample shares its key with one of them |
| SampleBank.KeysCollide | veejay-current/veejay-client/src/vj-api.c:8173-8174 | A kind of three digits or more shares the key of every sample whose id has four digits or more with another sample of a two-digit kind |
| SampleBank.CollisionMisleads | veejay-current/veejay-client/src/vj-api.c:7555-7566 | And when that other sample is placed, the index no longer leads to the first, which is still there |
| SampleBank.NegativeKeysDiffer | veejay-current/veejay-client/src/vj-api.c:8173-8174 | The key of a negative id is none of a positive one |
| SampleBank.KeyInDigits | veejay-current/veejay-client/src/vj-api.c:8173-8174 | The key of small numbers: a letter, four digits of the id, two of the kind |
| SampleBank.SampleBanks.FindBankBySample | veejay-current/veejay-client/src/vj-api.c:7578-7626 | Both nested passes, against the specified search |
| SampleBank.SampleBanks.VerifyBankCapacity | veejay-current/veejay-client/src/vj-api.c:3869-3896 | Opens the page if need be; reports failure and leaves the arguments alone exactly when nothing is free |
| SampleBank.SampleBanks.AddBank | veejay-current/veejay-client/src/vj-api.c:7367-7395 | A page of empty slots |
| SampleBank.SampleBanks.UpdateSampleSlotData | veejay-current/veejay-client/src/vj-api.c:8157-8178 | One slot and, unless its id is 0, one index entry change, and no other |
| SampleBank.SampleBanks.AddSample | veejay-current/veejay-client/src/vj-api.c:8064-8080 | Search, page and slot together do what adding is specified to do, for all ids and kinds |
| SampleBank.SampleBanks.ResetSampleBank | veejay-current/veejay-client/src/vj-api.c:7437-7467 | Every slot with a non-zero id is emptied; the index is left as it is |
| SampleBank.SampleBanks.FreeSampleBank | veejay-current/veejay-client/src/vj-api.c:7469-7506 | All pages go; the index is left as it is |
| SampleBank.SampleBanks.FindSlotBySample | veejay-current/veejay-client/src/vj-api.c:7555-7566 | Finds a slot for every key ever set; it is a live slot with the sample exactly if the sample is in the banks |

## Left out

- GTK widgets, dialogs, themes, Pure Data outlets, ALSA, sockets and polling, and the callbacks' `data`
  pointers: libraries this model does not have.
- Memory exhaustion, freeing, and uninitialised storage: tag lists start with empty slots, and the
  local stream description in y4m_reread_stream_header_line_cb (yuv4mpeg.c:784-792), which is cleared
  but never initialised, starts initialised.
- Overflow of C integers in sizes, `atoi` and frame numbers, and the `char` fields of a time code:
  integers are unbounded.  `HeaderRoundTrip.Representable` keeps to 32 bits what the header writer prints,
  and `FrameRate.DecimalFits` says which decimals fit.
- Tags of 32 characters or more, which strncpy stores without a terminator: theorems about headers
  take tags shorter than that.
- Y4mFieldsIO.ReadFieldsDataCb: stops where C copies octets it has not read (`fault`); what the fields and
  the later planes then hold is whatever was in and behind the buffer.
- Negative delays of commands, with which the original's frame loop does not end, and the text of
  commands and of status messages.
- Memory order: the rings are proved under sequential consistency, since the original has no barriers.
- Partly overlapping buffers of the SIMD kernels (same or different buffers are covered), a count of 0
  in the SIMD loops, from which the original runs away, prefetching, alignment, and the choice of a
  kernel by processor.
- Rounding of doubles in colours and frame rates: real numbers stand for them.
- Titles, timecodes, pictures and selections of sample slots.
- recvvims, track lists, curve keyframes, y4m_guess_sar, aspect-ratio tables, chroma subsampling
  ratios and other tables: simple look-ups, or code that does not do what its counterpart expects.
