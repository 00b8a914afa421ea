/**
 A frame as two fields (y4m_read_fields, y4m_write_fields): all planes, and what the two forms of
 writing and reading have to do with each other.
 */
module Y4mFieldsIO {
  import opened XTags
  import opened Y4mHeader
  import opened HeaderRoundTrip
  import opened Y4mStream
  import opened StreamRoundTrip
  import opened ByteIO
  import opened Y4mIO
  import opened Y4mFrameIO
  import opened Fields

  /** The pairs of lines of a plane; the loops go over one line too many if the height is odd. */
  function Pairs(h: Header, plane: int): nat
    requires Sized(h) && 0 <= plane < PlaneCount(h)
  {
    PlanesAreSized(h, plane);
    (PlaneHeight(h, plane) + 1) / 2
  }

  function FieldLength(h: Header, plane: int): nat
    requires Sized(h) && 0 <= plane < PlaneCount(h)
  {
    PlanesAreSized(h, plane);
    Lines(PlaneWidth(h, plane), Pairs(h, plane))
  }

  ghost predicate FieldBuffers(field: seq<array<char>>, h: Header)
    requires Sized(h)
  {
    PlaneBuffers(field, h) && forall i :: 0 <= i < |field| ==> FieldLength(h, i) <= field[i].Length
  }

  /** The planes the first `n` planes of two fields weave to. */
  ghost function Woven(upper: seq<array<char>>, lower: seq<array<char>>, h: Header, n: nat): seq<string>
    requires Sized(h) && FieldBuffers(upper, h) && FieldBuffers(lower, h) && n <= |upper|
    reads upper, lower
  {
    if n == 0 then []
    else
      PlanesAreSized(h, n - 1);
      Woven(upper, lower, h, n - 1)
        + [Weave(upper[n - 1][..], lower[n - 1][..], PlaneWidth(h, n - 1), Pairs(h, n - 1))]
  }

  /** y4m_write_fields */
  method WriteFieldsCb(fd: Sink, si: Header, fi: FrameInfo, upper: seq<array<char>>, lower: seq<array<char>>,
                       p: Settings)
    returns (ret: int)
    requires !fd.failed && Sized(si) && FieldBuffers(upper, si) && FieldBuffers(lower, si)
    modifies fd
    ensures PrintFrame(fi, si.interlace, p).Err? ==>
              ret == PrintFrame(fi, si.interlace, p).code && fd.written == old(fd.written)
    ensures PrintFrame(fi, si.interlace, p).Ok? ==>
              if fd.failed then ret == Y4M_ERR_SYSTEM
              else ret == Y4M_OK
                   && fd.written == old(fd.written) + FrameBytes(Frame(fi, Woven(upper, lower, si, |upper|)), si)
  {
    hide FrameLine, FieldBuffers;
    ret := WriteFrameHeader(fd, si, fi, p);
    if ret != Y4M_OK {
      return;
    }
    ret := WriteFieldPlanes(fd, si, upper, lower);
  }

  /**
   The loops of y4m_write_fields, and the write of what is still staged behind them.  Direct writes
   never overtake staged lines, because the widths of the planes never increase.
   */
  method WriteFieldPlanes(fd: Sink, si: Header, upper: seq<array<char>>, lower: seq<array<char>>) returns (ret: int)
    requires !fd.failed && Sized(si) && FieldBuffers(upper, si) && FieldBuffers(lower, si)
    modifies fd
    ensures ret == if fd.failed then Y4M_ERR_SYSTEM else Y4M_OK
    ensures !fd.failed ==> fd.written == old(fd.written) + Concat(Woven(upper, lower, si, |upper|))
  {
    hide Emitted, Weave, Lines, PlaneWidth, PlaneHeight;
    ret := Y4M_OK;
    ghost var before := fd.written;
    var wbuf := new char[STAGING];
    var numwbuf := 0;
    NothingStaged(fd, wbuf);
    var i := 0;
    while i < |upper|
      invariant 0 <= i <= |upper| && !fd.failed && ret == Y4M_OK && 0 <= numwbuf <= STAGING
      invariant numwbuf > 0 ==> forall k :: i <= k < |upper| ==> 2 * PlaneWidth(si, k) < STAGING
      invariant Emitted(fd, wbuf, numwbuf) == before + Concat(Woven(upper, lower, si, i))
    {
      PlanesAreSized(si, i);
      ConcatOne(Woven(upper, lower, si, i), Weave(upper[i][..], lower[i][..], PlaneWidth(si, i), Pairs(si, i)));
      ret, numwbuf := WritePlane(fd, wbuf, numwbuf, upper[i], lower[i], PlaneWidth(si, i), PlaneHeight(si, i));
      if ret != Y4M_OK {
        return;
      }
      forall k | i < k < |upper| ensures PlaneWidth(si, k) <= PlaneWidth(si, i) {
        WidthsNeverIncrease(si, i, k);
      }
      i := i + 1;
    }
    StagedAndWritten(fd, wbuf, numwbuf);
    if numwbuf > 0 {
      var r := Y4mWrite(fd, wbuf[..numwbuf]);
      if r != 0 {
        return Y4M_ERR_SYSTEM;
      }
    }
  }

  lemma NothingStaged(fd: Sink, wbuf: array<char>)
    ensures Emitted(fd, wbuf, 0) == fd.written
  {
  }

  lemma StagedAndWritten(fd: Sink, wbuf: array<char>, n: nat)
    requires n <= wbuf.Length
    ensures Emitted(fd, wbuf, n) == fd.written + wbuf[..n] && (n == 0 ==> fd.written + wbuf[..n] == fd.written)
  {
  }

  // ------------------------------------------------------------ reading

  /** What reading the planes from one on into two fields comes to. */
  datatype FieldRead = Took(planes: seq<string>, rest: string) | Cut | Stale(rest: string)

  /** A plane that leaves the staging buffer with octets in it that were never read. */
  predicate PlaneRunsOver(h: Header, plane: int)
    requires Sized(h) && 0 <= plane < PlaneCount(h)
  {
    PlanesAreSized(h, plane);
    RunsOver(PlaneWidth(h, plane), PlaneHeight(h, plane))
  }

  /** Those of an odd height whose lines, of up to 16383 octets, go through the buffer. */
  lemma WhatRunsOver(h: Header, plane: int)
    requires Sized(h) && 0 <= plane < PlaneCount(h)
    ensures PlaneRunsOver(h, plane) <==> PlaneHeight(h, plane) % 2 == 1 && 0 < PlaneWidth(h, plane) < 16384
  {
  }

  /**
   y4m_read_fields_data on a string: the pairs of lines of every plane.  Lines too wide for the buffer
   are read in pairs even if their number is odd; an odd number of others ends in stale octets.
   */
  function ReadFieldPlanes(input: string, h: Header, plane: nat): FieldRead
    requires Sized(h)
    decreases PlaneCount(h) - plane
  {
    if plane >= PlaneCount(h) then Took([], input)
    else
      PlanesAreSized(h, plane);
      var n := Wanted(PlaneWidth(h, plane), PlaneHeight(h, plane));
      if n > |input| then Cut
      else if PlaneRunsOver(h, plane) then Stale(input[n..])
      else
        match ReadFieldPlanes(input[n..], h, plane + 1)
        case Took(planes, rest) => Took([input[..n]] + planes, rest)
        case other => other
  }

  predicate EvenHeights(h: Header)
    requires Sized(h)
  {
    forall i :: 0 <= i < PlaneCount(h) ==> PlaneHeight(h, i) % 2 == 0
  }

  /** A plane that does not run over is taken in pairs of lines; one of even height is that and no more. */
  lemma PlaneInPairs(h: Header, i: int)
    requires Sized(h) && 0 <= i < PlaneCount(h)
    ensures PlaneWidth(h, i) >= 0 && PlaneHeight(h, i) >= 0 && Pairs(h, i) == (PlaneHeight(h, i) + 1) / 2
    ensures Octets(PlaneWidth(h, i), Pairs(h, i)) == FieldLength(h, i) * 2
    ensures !PlaneRunsOver(h, i) ==> Wanted(PlaneWidth(h, i), PlaneHeight(h, i)) == FieldLength(h, i) * 2
    ensures PlaneHeight(h, i) % 2 == 0 ==> !PlaneRunsOver(h, i) && FieldLength(h, i) * 2 == PlaneLength(h, i)
  {
    PlanesAreSized(h, i);
    WantedSplit(PlaneWidth(h, i), 0, PlaneHeight(h, i));
    PairAfter(PlaneWidth(h, i), 0);
    if PlaneHeight(h, i) % 2 == 0 {
      OctetsOfRows(PlaneWidth(h, i), PlaneHeight(h, i));
    }
  }

  /** With even heights the fields take just what a frame takes, and that is y4m_si_get_framelength octets. */
  lemma {:induction false} EvenFieldsAreFrames(input: string, h: Header, p: nat)
    requires Sized(h) && EvenHeights(h)
    ensures match ReadFieldPlanes(input, h, p)
            case Took(planes, rest) =>
              ReadPlanes(input, h, p) == Read(Ok(planes), rest) && |input| - |rest| == LengthFrom(h, p)
            case Cut => ReadPlanes(input, h, p) == Read(Err(Y4M_ERR_SYSTEM), []) && |input| < LengthFrom(h, p)
            case Stale(_) => false
    decreases PlaneCount(h) - p
  {
    PlanesTakeTheirLengths(input, h, p);
    if p >= PlaneCount(h) {
    } else {
      hide Wanted, PlaneLength, PlaneRunsOver, LengthFrom;
      PlanesAreSized(h, p);
      PlaneInPairs(h, p);
      if PlaneLength(h, p) <= |input| {
        EvenFieldsAreFrames(input[PlaneLength(h, p)..], h, p + 1);
      }
    }
  }

  /** Planes of whole pairs of lines. */
  predicate InPairs(planes: seq<string>, h: Header)
    requires Sized(h)
  {
    |planes| <= PlaneCount(h) && forall i :: 0 <= i < |planes| ==> |planes[i]| == FieldLength(h, i) * 2
  }

  /** The even lines of every plane. */
  function Tops(planes: seq<string>, h: Header): (r: seq<string>)
    requires Sized(h) && InPairs(planes, h)
    ensures |r| == |planes|
  {
    if planes == [] then []
    else
      var n := |planes| - 1;
      PlaneInPairs(h, n);
      Tops(planes[..n], h) + [TopLines(planes[n], PlaneWidth(h, n), Pairs(h, n))]
  }

  /** The odd lines of every plane. */
  function Bottoms(planes: seq<string>, h: Header): (r: seq<string>)
    requires Sized(h) && InPairs(planes, h)
    ensures |r| == |planes|
  {
    if planes == [] then []
    else
      var n := |planes| - 1;
      PlaneInPairs(h, n);
      Bottoms(planes[..n], h) + [BottomLines(planes[n], PlaneWidth(h, n), Pairs(h, n))]
  }

  /** What the first `n` planes of a field hold. */
  ghost function HeldField(field: seq<array<char>>, h: Header, n: nat): seq<string>
    requires Sized(h) && FieldBuffers(field, h) && n <= |field|
    reads field[..n]
  {
    if n == 0 then [] else HeldField(field, h, n - 1) + [field[n - 1][..FieldLength(h, n - 1)]]
  }

  /** The planes are pairs of lines of the planes from `p` on. */
  predicate PairsFrom(planes: seq<string>, h: Header, p: nat)
    requires Sized(h) && p <= PlaneCount(h)
  {
    |planes| == PlaneCount(h) - p && forall i :: 0 <= i < |planes| ==> |planes[i]| == FieldLength(h, p + i) * 2
  }

  lemma PairsInFront(plane: string, more: seq<string>, h: Header, p: nat)
    requires Sized(h) && p < PlaneCount(h) && PairsFrom(more, h, p + 1) && |plane| == FieldLength(h, p) * 2
    ensures PairsFrom([plane] + more, h, p)
  {
    hide FieldLength;
    var planes := [plane] + more;
    forall i | 0 <= i < |planes| ensures |planes[i]| == FieldLength(h, p + i) * 2 {
      if i > 0 {
        assert planes[i] == more[i - 1] && p + 1 + (i - 1) == p + i;
      }
    }
  }

  lemma {:induction false} FieldPlanesFit(input: string, h: Header, p: nat)
    requires Sized(h) && p <= PlaneCount(h)
    ensures var r := ReadFieldPlanes(input, h, p);
            r.Took? ==> PairsFrom(r.planes, h, p) && forall i :: p <= i < PlaneCount(h) ==> !PlaneRunsOver(h, i)
    decreases PlaneCount(h) - p
  {
    if p == PlaneCount(h) {
    } else {
      hide Wanted, FieldLength, PlaneRunsOver, PairsFrom, PlaneWidth, PlaneHeight;
      PlaneInPairs(h, p);
      var n := Wanted(PlaneWidth(h, p), PlaneHeight(h, p));
      if n <= |input| && !PlaneRunsOver(h, p) {
        FieldPlanesFit(input[n..], h, p + 1);
        var more := ReadFieldPlanes(input[n..], h, p + 1);
        if more.Took? {
          PairsInFront(input[..n], more.planes, h, p);
        }
      }
    }
  }

  /** `r` with `done` read before it. */
  ghost function PrependPlanes(done: seq<string>, r: FieldRead): FieldRead {
    match r
    case Took(planes, rest) => Took(done + planes, rest)
    case other => other
  }

  lemma PrependPlane(done: seq<string>, input: string, h: Header, p: nat)
    requires Sized(h) && p < PlaneCount(h)
    ensures PlaneWidth(h, p) >= 0 && PlaneHeight(h, p) >= 0
    ensures var n := Wanted(PlaneWidth(h, p), PlaneHeight(h, p));
            PrependPlanes(done, ReadFieldPlanes(input, h, p)) ==
            if n > |input| then Cut
            else if PlaneRunsOver(h, p) then Stale(input[n..])
            else PrependPlanes(done + [input[..n]], ReadFieldPlanes(input[n..], h, p + 1))
  {
    hide Wanted, PlaneRunsOver;
    PlanesAreSized(h, p);
    var n := Wanted(PlaneWidth(h, p), PlaneHeight(h, p));
    if n <= |input| && !PlaneRunsOver(h, p) {
      var more := ReadFieldPlanes(input[n..], h, p + 1);
      if more.Took? {
        assert done + ([input[..n]] + more.planes) == done + [input[..n]] + more.planes;
      }
    }
  }

  lemma PrependNone(r: FieldRead)
    ensures PrependPlanes([], r) == r
  {
    if r.Took? {
      assert [] + r.planes == r.planes;
    }
  }

  lemma PrependLast(done: seq<string>, input: string, h: Header, p: nat)
    requires Sized(h) && p >= PlaneCount(h)
    ensures PrependPlanes(done, ReadFieldPlanes(input, h, p)) == Took(done, input)
  {
    assert done + [] == done;
  }

  /** The next plane of a frame, taken apart. */
  lemma NextPlane(done: seq<string>, plane: string, rest: string, h: Header)
    requires Sized(h) && InPairs(done, h) && |done| < PlaneCount(h) && |plane| == FieldLength(h, |done|) * 2
    ensures InPairs(done + [plane], h)
    ensures var n := |done|;
            var w, k := PlaneWidth(h, n), Pairs(h, n);
            && w >= 0 && Octets(w, k) == |plane| <= |plane + rest|
            && Tops(done + [plane], h) == Tops(done, h) + [TopLines(plane + rest, w, k)]
            && Bottoms(done + [plane], h) == Bottoms(done, h) + [BottomLines(plane + rest, w, k)]
  {
    hide FieldLength;
    PlaneInPairs(h, |done|);
    var w, k := PlaneWidth(h, |done|), Pairs(h, |done|);
    LinesOfPrefix(plane, rest, w, k);
    assert (done + [plane])[..|done|] == done;
  }

  /** One turn of the outer loop: the next plane, `done` being those before it. */
  method ReadFieldPlane(fd: Source, si: Header, rbuf: array<char>, pos: nat, i: nat,
                        top: array<char>, bottom: array<char>, ghost done: seq<string>)
    returns (ret: int, pos': nat, fault: bool, ghost plane: string)
    requires !fd.failed && Sized(si) && i == |done| < PlaneCount(si) && InPairs(done, si)
    requires rbuf.Length == STAGING && pos <= STAGING && rbuf != top && rbuf != bottom && top != bottom
    requires FieldLength(si, i) <= top.Length && FieldLength(si, i) <= bottom.Length
    modifies fd, rbuf, top, bottom
    ensures pos' <= STAGING && (ret == Y4M_OK || ret == Y4M_ERR_SYSTEM) && (fd.failed ==> ret != Y4M_OK)
    ensures ret != Y4M_OK ==> !fault
    ensures !fd.failed ==>
              var read := PrependPlanes(done, ReadFieldPlanes(old(fd.rest), si, i));
              if ret != Y4M_OK then read == Cut && fd.rest == []
              else if fault then read == Stale(fd.rest)
              else
                && read == PrependPlanes(done + [plane], ReadFieldPlanes(fd.rest, si, i + 1))
                && InPairs(done + [plane], si)
                && Tops(done + [plane], si) == Tops(done, si) + [top[..FieldLength(si, i)]]
                && Bottoms(done + [plane], si) == Bottoms(done, si) + [bottom[..FieldLength(si, i)]]
  {
    hide ReadFieldPlanes, PrependPlanes, PlaneLength, PlaneWidth, PlaneHeight, Lines, Octets, Wanted, PlaneRunsOver;
    hide TopLines, BottomLines, Tops, Bottoms, PlaneRead, FieldLength, InPairs;
    ghost var input := fd.rest;
    plane := [];
    FieldFits(si, i);
    PrependPlane(done, input, si, i);
    ret, pos', fault := ReadPlane(fd, rbuf, pos, top, bottom, PlaneWidth(si, i), PlaneHeight(si, i));
    if ret != Y4M_OK {
      return ret, pos', false, plane;
    }
    PlaneReadMeans(input, fd.rest, top[..], bottom[..], si, i, fault);
    if !fault {
      plane := input[..FieldLength(si, i) * 2];
      NextPlane(done, plane, fd.rest, si);
      assert input == plane + fd.rest;
    }
  }

  /**
   y4m_read_fields_data.  `fault` is set at the first plane that leaves stale octets in the buffer: from
   there on C fills the fields without reading.
   */
  method ReadFieldsDataCb(fd: Source, si: Header, upper: seq<array<char>>, lower: seq<array<char>>)
    returns (ret: int, fault: bool)
    requires !fd.failed && Sized(si) && FieldBuffers(upper, si) && FieldBuffers(lower, si)
    requires forall i, j :: 0 <= i < |upper| && 0 <= j < |lower| ==> upper[i] != lower[j]
    modifies fd, upper, lower
    ensures fd.failed ==> ret == Y4M_ERR_SYSTEM && !fault
    ensures !fd.failed ==>
              match ReadFieldPlanes(old(fd.rest), si, 0)
              case Cut => ret == Y4M_ERR_SYSTEM && !fault && fd.rest == []
              case Stale(rest) => fault && fd.rest == rest
              case Took(planes, rest) =>
                && ret == Y4M_OK && !fault && fd.rest == rest && |planes| == PlaneCount(si) && InPairs(planes, si)
                && HeldField(upper, si, |upper|) == Tops(planes, si)
                && HeldField(lower, si, |lower|) == Bottoms(planes, si)
  {
    hide ReadFieldPlanes, PrependPlanes, PlaneLength, PlaneWidth, PlaneHeight, Tops, Bottoms, FieldLength, InPairs;
    ghost var wanted, done := ReadFieldPlanes(fd.rest, si, 0), [];
    PrependNone(wanted);
    NothingTaken(si);
    var rbuf := new char[STAGING];
    var pos := 0;
    var i := 0;
    while i < |upper|
      invariant 0 <= i <= |upper| && !fd.failed && 0 <= pos <= STAGING
      invariant |done| == i && InPairs(done, si)
      invariant wanted == PrependPlanes(done, ReadFieldPlanes(fd.rest, si, i))
      invariant forall k :: 0 <= k < i ==> upper[k][..FieldLength(si, k)] == Tops(done, si)[k]
      invariant forall k :: 0 <= k < i ==> lower[k][..FieldLength(si, k)] == Bottoms(done, si)[k]
    {
      var r;
      ghost var plane;
      r, pos, fault, plane := ReadFieldPlane(fd, si, rbuf, pos, i, upper[i], lower[i], done);
      if r != Y4M_OK {
        return Y4M_ERR_SYSTEM, false;
      }
      if fault {
        return Y4M_OK, true;
      }
      done := done + [plane];
      i := i + 1;
    }
    PrependLast(done, fd.rest, si, i);
    HeldFieldIs(upper, si, i, Tops(done, si));
    HeldFieldIs(lower, si, i, Bottoms(done, si));
    return Y4M_OK, false;
  }

  lemma {:induction false} HeldFieldIs(field: seq<array<char>>, h: Header, n: nat, held: seq<string>)
    requires Sized(h) && FieldBuffers(field, h) && n <= |field| && |held| == n
    requires forall k :: 0 <= k < n ==> field[k][..FieldLength(h, k)] == held[k]
    ensures HeldField(field, h, n) == held
  {
    hide FieldLength;
    if n == 0 {
    } else {
      HeldFieldIs(field, h, n - 1, held[..n - 1]);
    }
  }

  lemma FieldFits(h: Header, i: int)
    requires Sized(h) && 0 <= i < PlaneCount(h)
    ensures PlaneWidth(h, i) >= 0 && PlaneHeight(h, i) >= 0
    ensures FieldLength(h, i) == Lines(PlaneWidth(h, i), (PlaneHeight(h, i) + 1) / 2)
  {
    PlanesAreSized(h, i);
  }

  /** A plane that was read, in terms of the header. */
  lemma PlaneReadMeans(input: string, rest: string, top: string, bottom: string, h: Header, i: int, fault: bool)
    requires Sized(h) && 0 <= i < PlaneCount(h) && PlaneWidth(h, i) >= 0 && PlaneHeight(h, i) >= 0
    requires PlaneRead(input, rest, top, bottom, PlaneWidth(h, i), PlaneHeight(h, i), fault)
    ensures Wanted(PlaneWidth(h, i), PlaneHeight(h, i)) <= |input|
    ensures rest == input[Wanted(PlaneWidth(h, i), PlaneHeight(h, i))..] && (fault <==> PlaneRunsOver(h, i))
    ensures !fault ==>
              var n := FieldLength(h, i);
              && Wanted(PlaneWidth(h, i), PlaneHeight(h, i)) == n * 2 == Octets(PlaneWidth(h, i), Pairs(h, i))
              && n <= |top| && n <= |bottom|
              && top[..n] == TopLines(input, PlaneWidth(h, i), Pairs(h, i))
              && bottom[..n] == BottomLines(input, PlaneWidth(h, i), Pairs(h, i))
  {
    hide Wanted, Lines, Octets, TopLines, BottomLines, RunsOver, PlaneWidth, PlaneHeight;
    FieldFits(h, i);
    PlaneInPairs(h, i);
    SameRunOver(h, i);
  }

  lemma SameRunOver(h: Header, i: int)
    requires Sized(h) && 0 <= i < PlaneCount(h) && PlaneWidth(h, i) >= 0 && PlaneHeight(h, i) >= 0
    ensures PlaneRunsOver(h, i) <==> RunsOver(PlaneWidth(h, i), PlaneHeight(h, i))
  {
  }

  lemma NothingTaken(h: Header)
    requires Sized(h)
    ensures InPairs([], h) && Tops([], h) == [] && Bottoms([], h) == []
  {
  }

  // ------------------------------------------------------------ fields against frames

  lemma {:induction false} WovenLengths(upper: seq<array<char>>, lower: seq<array<char>>, h: Header, n: nat)
    requires Sized(h) && FieldBuffers(upper, h) && FieldBuffers(lower, h) && n <= |upper|
    ensures |Woven(upper, lower, h, n)| == n
    ensures forall i :: 0 <= i < n ==> |Woven(upper, lower, h, n)[i]| == FieldLength(h, i) * 2
  {
    if n == 0 {
    } else {
      hide Lines, Weave;
      WovenLengths(upper, lower, h, n - 1);
      PlanesAreSized(h, n - 1);
      WeaveLength(upper[n - 1][..], lower[n - 1][..], PlaneWidth(h, n - 1), Pairs(h, n - 1));
    }
  }

  lemma LinesAgainstPlane(h: Header, i: int)
    requires Sized(h) && 0 <= i < PlaneCount(h)
    ensures FieldLength(h, i) * 2 == PlaneLength(h, i) + (if PlaneHeight(h, i) % 2 == 0 then 0 else PlaneWidth(h, i))
  {
    PlanesAreSized(h, i);
    var w, l, k := PlaneWidth(h, i), PlaneHeight(h, i), Pairs(h, i);
    Product(w, k, k);
    if l % 2 != 0 {
      Product(w, l, 1);
    }
  }

  /** Writing by fields writes planes of the right size exactly where there is no odd number of lines. */
  lemma WovenFits(upper: seq<array<char>>, lower: seq<array<char>>, h: Header)
    requires Sized(h) && FieldBuffers(upper, h) && FieldBuffers(lower, h)
    ensures PlanesFit(Woven(upper, lower, h, |upper|), h) <==>
            forall i :: 0 <= i < PlaneCount(h) ==> PlaneHeight(h, i) % 2 == 0 || PlaneWidth(h, i) == 0
  {
    var woven := Woven(upper, lower, h, |upper|);
    WovenLengths(upper, lower, h, |upper|);
    forall i | 0 <= i < PlaneCount(h)
      ensures |woven[i]| == PlaneLength(h, i) <==> PlaneHeight(h, i) % 2 == 0 || PlaneWidth(h, i) == 0
    {
      LinesAgainstPlane(h, i);
    }
  }

  lemma {:induction false} WovenApart(upper: seq<array<char>>, lower: seq<array<char>>, h: Header, n: nat)
    requires Sized(h) && FieldBuffers(upper, h) && FieldBuffers(lower, h) && n <= |upper|
    ensures |Woven(upper, lower, h, n)| == n && InPairs(Woven(upper, lower, h, n), h)
    ensures Tops(Woven(upper, lower, h, n), h) == HeldField(upper, h, n)
    ensures Bottoms(Woven(upper, lower, h, n), h) == HeldField(lower, h, n)
  {
    hide Lines, Weave, TopLines, BottomLines, PlaneWidth, PlaneHeight, Octets, Tops, Bottoms, FieldLength;
    NothingTaken(h);
    if n == 0 {
    } else {
      WovenApart(upper, lower, h, n - 1);
      PlaneInPairs(h, n - 1);
      FieldFits(h, n - 1);
      var top, bottom, w, k := upper[n - 1][..], lower[n - 1][..], PlaneWidth(h, n - 1), Pairs(h, n - 1);
      UnweaveWeave(top, bottom, w, k);
      PairsAhead(w, k, k);
      var before, plane := Woven(upper, lower, h, n - 1), Weave(top, bottom, w, k);
      NextPlane(before, plane, [], h);
      assert plane + [] == plane;
    }
  }

  /** Planes of whole pairs are read into fields just as they are, exactly if none of them runs over. */
  lemma FieldPlanesReadBack(planes: seq<string>, h: Header, rest: string)
    requires Sized(h) && |planes| == PlaneCount(h) && InPairs(planes, h)
    ensures ReadFieldPlanes(Concat(planes) + rest, h, 0) == Took(planes, rest)
            <==> forall i :: 0 <= i < PlaneCount(h) ==> !PlaneRunsOver(h, i)
  {
    hide InPairs, PlaneRunsOver;
    FieldPlanesFit(Concat(planes) + rest, h, 0);
    if forall i :: 0 <= i < PlaneCount(h) ==> !PlaneRunsOver(h, i) {
      FieldPlanesReadFrom(planes, h, 0, rest);
      assert planes[0..] == planes;
    }
  }

  lemma {:induction false} FieldPlanesReadFrom(planes: seq<string>, h: Header, i: nat, rest: string)
    requires Sized(h) && |planes| == PlaneCount(h) && InPairs(planes, h) && i <= |planes|
    requires forall k :: 0 <= k < PlaneCount(h) ==> !PlaneRunsOver(h, k)
    ensures ReadFieldPlanes(Concat(planes[i..]) + rest, h, i) == Took(planes[i..], rest)
    decreases |planes| - i
  {
    hide PlaneRunsOver, Wanted, FieldLength, ReadFieldPlanes, PlaneWidth, PlaneHeight, InPairs;
    var input := Concat(planes[i..]) + rest;
    if i == |planes| {
      assert input == rest;
      PrependLast([], rest, h, i);
      PrependNone(ReadFieldPlanes(rest, h, i));
    } else {
      PlaneInPairs(h, i);
      PlaneSplit(planes, h, i, rest);
      PrependPlane([], input, h, i);
      PrependNone(ReadFieldPlanes(input, h, i));
      FieldPlanesReadFrom(planes, h, i + 1, rest);
      assert [] + [planes[i]] + planes[i + 1..] == planes[i..];
    }
  }

  lemma PlaneSplit(planes: seq<string>, h: Header, i: nat, rest: string)
    requires Sized(h) && |planes| == PlaneCount(h) && InPairs(planes, h) && i < |planes|
    ensures var input, n := Concat(planes[i..]) + rest, FieldLength(h, i) * 2;
            n <= |input| && input[..n] == planes[i] && input[n..] == Concat(planes[i + 1..]) + rest
  {
    hide FieldLength;
    assert planes[i..][1..] == planes[i + 1..];
    assert Concat(planes[i..]) + rest == planes[i] + (Concat(planes[i + 1..]) + rest);
  }

  lemma {:induction false} PlanesReadFit(input: string, h: Header, p: nat)
    requires Sized(h) && p <= PlaneCount(h)
    ensures var r := ReadPlanes(input, h, p).outcome;
            r.Ok? ==> |r.value| == PlaneCount(h) - p
                      && forall i :: 0 <= i < |r.value| ==> |r.value[i]| == PlaneLength(h, p + i)
    decreases PlaneCount(h) - p
  {
    if p >= PlaneCount(h) {
    } else {
      PlanesAreSized(h, p);
      if PlaneLength(h, p) <= |input| {
        PlanesReadFit(input[PlaneLength(h, p)..], h, p + 1);
        var more := ReadPlanes(input[PlaneLength(h, p)..], h, p + 1).outcome;
        var r := ReadPlanes(input, h, p).outcome;
        if r.Ok? {
          forall i | 0 <= i < |r.value| ensures |r.value[i]| == PlaneLength(h, p + i) {
            if i > 0 {
              assert r.value[i] == more.value[i - 1] && p + 1 + (i - 1) == p + i;
            }
          }
        }
      }
    }
  }

  /**
   Two fields written, and read back.  Read as a frame they are the two fields interleaved line by line
   exactly if no plane with a positive width has an odd height.  Read as fields they are the two fields
   exactly if no such plane goes through the staging buffer; and taken apart, the interleaved planes
   are always the two fields.
   */
  lemma FieldsRoundTrip(upper: seq<array<char>>, lower: seq<array<char>>, fi: FrameInfo, h: Header, p: Settings,
                        rest: string)
    requires Sized(h) && FieldBuffers(upper, h) && FieldBuffers(lower, h)
    requires RepresentableTags(fi.tags) && PrintFrame(fi, h.interlace, p).Ok? && TransmissibleFrame(fi, h, p)
    ensures var woven := Woven(upper, lower, h, |upper|);
            && (ReadFrame(FrameBytes(Frame(fi, woven), h) + rest, h, p) == Read(Ok(Frame(Received(fi, h), woven)), rest)
                <==> forall i :: 0 <= i < PlaneCount(h) ==> PlaneHeight(h, i) % 2 == 0 || PlaneWidth(h, i) == 0)
            && ReadFrameHeader(FrameBytes(Frame(fi, woven), h) + rest, h, p)
            == Read(Ok(Received(fi, h)), Concat(woven) + rest)
            && (ReadFieldPlanes(Concat(woven) + rest, h, 0) == Took(woven, rest)
                <==> forall i :: 0 <= i < PlaneCount(h) ==> !PlaneRunsOver(h, i))
            && InPairs(woven, h)
            && Tops(woven, h) == HeldField(upper, h, |upper|) && Bottoms(woven, h) == HeldField(lower, h, |lower|)
  {
    var woven := Woven(upper, lower, h, |upper|);
    WovenApart(upper, lower, h, |upper|);
    WovenFits(upper, lower, h);
    FieldPlanesReadBack(woven, h, rest);
    FramesReadBack(Frame(fi, woven), h, p, rest);
  }

  /** A written frame is read back exactly if its planes have the sizes the header gives. */
  lemma FramesReadBack(f: Frame, h: Header, p: Settings, rest: string)
    requires Sized(h) && RepresentableTags(f.info.tags) && PrintFrame(f.info, h.interlace, p).Ok?
    requires TransmissibleFrame(f.info, h, p)
    ensures ReadFrameHeader(FrameBytes(f, h) + rest, h, p) == Read(Ok(Received(f.info, h)), Concat(f.planes) + rest)
    ensures ReadFrame(FrameBytes(f, h) + rest, h, p) == Read(Ok(Arrived(f, h)), rest) <==> PlanesFit(f.planes, h)
  {
    hide FrameLine, Received;
    assert FrameBytes(f, h) + rest == FrameLine(f.info, h.interlace) + (Concat(f.planes) + rest);
    FrameLineReadBack(f.info, h, p, Concat(f.planes) + rest);
    if PlanesFit(f.planes, h) {
      FrameReadBack(f, h, p, rest);
    }
    PlanesReadFit(Concat(f.planes) + rest, h, 0);
  }
}
