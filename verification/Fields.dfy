/**
 Two fields woven into a frame through a staging buffer (y4m_write_fields, y4m_read_fields).

 The specification is plain interleaving, line by line.  Writing through the buffer emits exactly
 that, wherever the buffer is flushed; reading through it undoes it.
 */
module Fields {
  import opened XTags
  import opened Y4mHeader
  import opened ByteIO

  /** The size of the staging buffers. */
  const STAGING := 32 * 1024

  // ------------------------------------------------------------ interleaving

  /** The octets of `n` lines. */
  function Lines(w: nat, n: nat): nat {
    w * n
  }

  lemma LineAfter(w: nat, n: nat)
    ensures Lines(w, 0) == 0 && Lines(w, n + 1) == Lines(w, n) + w
  {
  }

  /** The first `pairs` lines of both fields, alternating; a line has `w` octets. */
  function Weave(top: string, bottom: string, w: nat, pairs: nat): string
    requires Lines(w, pairs) <= |top| && Lines(w, pairs) <= |bottom|
  {
    if pairs == 0 then []
    else
      LineAfter(w, pairs - 1);
      Weave(top, bottom, w, pairs - 1)
        + top[Lines(w, pairs - 1)..Lines(w, pairs)] + bottom[Lines(w, pairs - 1)..Lines(w, pairs)]
  }

  /** The even lines of a frame of `2 * pairs` lines. */
  function TopLines(frame: string, w: nat, pairs: nat): string
    requires Lines(w, pairs) * 2 <= |frame|
  {
    if pairs == 0 then []
    else
      LineAfter(w, pairs - 1);
      var at := Lines(w, pairs - 1) * 2;
      TopLines(frame, w, pairs - 1) + frame[at..at + w]
  }

  /** The odd lines of a frame of `2 * pairs` lines. */
  function BottomLines(frame: string, w: nat, pairs: nat): string
    requires Lines(w, pairs) * 2 <= |frame|
  {
    if pairs == 0 then []
    else
      LineAfter(w, pairs - 1);
      var at := Lines(w, pairs - 1) * 2;
      BottomLines(frame, w, pairs - 1) + frame[at + w..at + 2 * w]
  }

  lemma {:induction false} WeaveLength(top: string, bottom: string, w: nat, pairs: nat)
    requires Lines(w, pairs) <= |top| && Lines(w, pairs) <= |bottom|
    ensures |Weave(top, bottom, w, pairs)| == Lines(w, pairs) * 2
  {
    hide Lines;
    LineAfter(w, 0);
    if pairs == 0 {
    } else {
      LineAfter(w, pairs - 1);
      WeaveLength(top, bottom, w, pairs - 1);
    }
  }

  lemma {:induction false} WovenLineAt(top: string, bottom: string, w: nat, pairs: nat, j: nat)
    requires Lines(w, pairs) <= |top| && Lines(w, pairs) <= |bottom| && j < pairs
    ensures var n, r := Lines(w, j), Weave(top, bottom, w, pairs);
            && |r| == 2 * Lines(w, pairs) && n + w <= Lines(w, pairs)
            && r[2 * n..2 * n + w] == top[n..n + w] && r[2 * n + w..2 * n + 2 * w] == bottom[n..n + w]
  {
    hide Lines, Weave;
    WeaveLength(top, bottom, w, pairs);
    WeaveStep(top, bottom, w, pairs - 1);
    WeaveLength(top, bottom, w, pairs - 1);
    LineFits(w, j, pairs);
    if j < pairs - 1 {
      WovenLineAt(top, bottom, w, pairs - 1, j);
      PrefixKept(Weave(top, bottom, w, pairs - 1), Weave(top, bottom, w, pairs), 2 * Lines(w, j), w);
    }
  }

  lemma PrefixKept(s: string, r: string, n: nat, w: nat)
    requires s <= r && n + 2 * w <= |s|
    ensures r[n..n + w] == s[n..n + w] && r[n + w..n + 2 * w] == s[n + w..n + 2 * w]
  {
  }

  /** Line `2 * j` of a woven frame is line `j` of the upper field, and the one after it that of the lower. */
  lemma WovenLine(top: string, bottom: string, w: nat, pairs: nat, j: nat)
    requires w * pairs <= |top| && w * pairs <= |bottom| && j < pairs
    ensures var n, r := w * j, Weave(top, bottom, w, pairs);
            && n >= 0 && |r| == 2 * (w * pairs) && n + w <= w * pairs
            && r[2 * n..2 * n + w] == top[n..n + w] && r[2 * n + w..2 * n + 2 * w] == bottom[n..n + w]
  {
    hide Weave;
    assert Lines(w, pairs) == w * pairs && Lines(w, j) == w * j;
    WovenLineAt(top, bottom, w, pairs, j);
  }

  lemma {:induction false} LinesLength(frame: string, w: nat, pairs: nat)
    requires Lines(w, pairs) * 2 <= |frame|
    ensures |TopLines(frame, w, pairs)| == |BottomLines(frame, w, pairs)| == Lines(w, pairs)
  {
    hide Lines;
    LineAfter(w, 0);
    if pairs == 0 {
    } else {
      LineAfter(w, pairs - 1);
      LinesLength(frame, w, pairs - 1);
    }
  }

  lemma {:induction false} LinesOfPrefix(frame: string, more: string, w: nat, pairs: nat)
    requires Lines(w, pairs) * 2 <= |frame|
    ensures TopLines(frame + more, w, pairs) == TopLines(frame, w, pairs)
    ensures BottomLines(frame + more, w, pairs) == BottomLines(frame, w, pairs)
  {
    hide Lines;
    if pairs == 0 {
    } else {
      LineAfter(w, pairs - 1);
      LinesOfPrefix(frame, more, w, pairs - 1);
    }
  }

  /** Taking a woven frame apart gives back the two fields. */
  lemma {:induction false} UnweaveWeave(top: string, bottom: string, w: nat, pairs: nat)
    requires Lines(w, pairs) <= |top| && Lines(w, pairs) <= |bottom|
    ensures |Weave(top, bottom, w, pairs)| == Lines(w, pairs) * 2
    ensures TopLines(Weave(top, bottom, w, pairs), w, pairs) == top[..Lines(w, pairs)]
    ensures BottomLines(Weave(top, bottom, w, pairs), w, pairs) == bottom[..Lines(w, pairs)]
  {
    hide Lines;
    WeaveLength(top, bottom, w, pairs);
    if pairs == 0 {
    } else {
      var n := Lines(w, pairs - 1);
      LineAfter(w, pairs - 1);
      UnweaveWeave(top, bottom, w, pairs - 1);
      LinesOfMore(Weave(top, bottom, w, pairs - 1), top[n..n + w], bottom[n..n + w], w, pairs - 1);
      WeaveStep(top, bottom, w, pairs - 1);
      OneMoreLine(top, n, w);
      OneMoreLine(bottom, n, w);
    }
  }

  lemma OneMoreLine(s: string, n: nat, w: nat)
    requires n + w <= |s|
    ensures s[..n + w] == s[..n] + s[n..n + w]
  {
  }

  lemma LinesOfMore(frame: string, line: string, line': string, w: nat, pairs: nat)
    requires |frame| == Lines(w, pairs) * 2 && |line| == |line'| == w
    ensures Lines(w, pairs + 1) * 2 == |frame + (line + line')|
    ensures TopLines(frame + (line + line'), w, pairs + 1) == TopLines(frame, w, pairs) + line
    ensures BottomLines(frame + (line + line'), w, pairs + 1) == BottomLines(frame, w, pairs) + line'
  {
    hide Lines;
    var more := frame + (line + line');
    LineAfter(w, pairs);
    LinesOfPrefix(frame, line + line', w, pairs);
    assert more[|frame|..|frame| + w] == line && more[|frame| + w..|frame| + 2 * w] == line';
  }

  /** And weaving the lines of a frame gives back the frame. */
  lemma {:induction false} WeaveUnweave(frame: string, w: nat, pairs: nat)
    requires Lines(w, pairs) * 2 <= |frame|
    ensures |TopLines(frame, w, pairs)| == |BottomLines(frame, w, pairs)| == Lines(w, pairs)
    ensures Weave(TopLines(frame, w, pairs), BottomLines(frame, w, pairs), w, pairs) == frame[..Lines(w, pairs) * 2]
  {
    hide Lines;
    LinesLength(frame, w, pairs);
    if pairs == 0 {
      assert frame[..0] == [];
    } else {
      LineAfter(w, pairs - 1);
      WeaveUnweave(frame, w, pairs - 1);
      WeaveUnweaveStep(frame, w, pairs - 1);
    }
  }

  lemma WeaveUnweaveStep(frame: string, w: nat, k: nat)
    requires Lines(w, k + 1) == Lines(w, k) + w && Lines(w, k + 1) * 2 <= |frame|
    requires |TopLines(frame, w, k)| == |BottomLines(frame, w, k)| == Lines(w, k)
    requires |TopLines(frame, w, k + 1)| == |BottomLines(frame, w, k + 1)| == Lines(w, k + 1)
    requires Weave(TopLines(frame, w, k), BottomLines(frame, w, k), w, k) == frame[..Lines(w, k) * 2]
    ensures Weave(TopLines(frame, w, k + 1), BottomLines(frame, w, k + 1), w, k + 1) == frame[..Lines(w, k + 1) * 2]
  {
    hide Lines, Weave, TopLines, BottomLines;
    var n := Lines(w, k);
    var top, bottom := TopLines(frame, w, k), BottomLines(frame, w, k);
    NextLines(frame, w, k);
    var line, line' := frame[n * 2..][..w], frame[n * 2..][w..2 * w];
    WeaveOfPrefix(top, bottom, line, line', w, k);
    WeaveStep(top + line, bottom + line', w, k);
    assert (top + line)[n..n + w] == line && (bottom + line')[n..n + w] == line';
    assert frame[..n * 2] + line + line' == frame[..n * 2 + 2 * w];
  }

  lemma {:induction false} WeaveOfPrefix(top: string, bottom: string, more: string, more': string, w: nat, pairs: nat)
    requires Lines(w, pairs) <= |top| && Lines(w, pairs) <= |bottom|
    ensures Weave(top + more, bottom + more', w, pairs) == Weave(top, bottom, w, pairs)
  {
    hide Lines;
    if pairs == 0 {
    } else {
      var n := Lines(w, pairs - 1);
      LineAfter(w, pairs - 1);
      WeaveOfPrefix(top, bottom, more, more', w, pairs - 1);
      assert (top + more)[n..n + w] == top[n..n + w] && (bottom + more')[n..n + w] == bottom[n..n + w];
    }
  }

  // ------------------------------------------------------------ one plane, written

  /** All that has been handed over for writing: what has gone out, and then what is still staged. */
  ghost function Emitted(fd: Sink, wbuf: array<char>, staged: nat): string
    requires staged <= wbuf.Length
    reads fd, wbuf
  {
    fd.written + wbuf[..staged]
  }

  /** memcpy of `n` octets between buffers */
  method CopyInto(dest: array<char>, at: nat, src: array<char>, from: nat, n: nat)
    requires dest != src && at + n <= dest.Length && from + n <= src.Length
    modifies dest
    ensures dest[at..at + n] == src[from..from + n]
    ensures forall k :: 0 <= k < dest.Length && !(at <= k < at + n) ==> dest[k] == old(dest[k])
  {
    forall k | 0 <= k < n {
      dest[at + k] := src[from + k];
    }
  }

  /**
   One round of the inner loop of y4m_write_fields: a line of each field is appended to what has been
   written and what is still staged, taken together.  Lines too wide for the buffer go out directly,
   which is in order only because nothing is staged then.
   */
  method WriteLines(fd: Sink, wbuf: array<char>, staged: nat, top: array<char>, bottom: array<char>,
                    src: nat, width: nat)
    returns (ret: int, staged': nat)
    requires !fd.failed && wbuf.Length == STAGING && staged <= STAGING && wbuf != top && wbuf != bottom
    requires src + width <= top.Length && src + width <= bottom.Length
    requires staged > 0 ==> 2 * width < STAGING
    modifies fd, wbuf
    ensures ret == if fd.failed then Y4M_ERR_SYSTEM else Y4M_OK
    ensures staged' <= STAGING && (staged' > 0 ==> 2 * width < STAGING)
    ensures !fd.failed ==>
              Emitted(fd, wbuf, staged')
              == old(Emitted(fd, wbuf, staged)) + top[src..src + width] + bottom[src..src + width]
  {
    staged' := staged;
    if width * 2 >= STAGING {
      assert wbuf[..staged] == [] && forall s: string :: s + wbuf[..staged] == s;
      ret := WriteLinesDirectly(fd, top, bottom, src, width);
    } else {
      ret := Y4M_OK;
      if staged' + 2 * width > STAGING {
        var r := Y4mWrite(fd, wbuf[..staged']);
        if r != 0 { return Y4M_ERR_SYSTEM, staged'; }
        staged' := 0;
        assert wbuf[..staged'] == [];
      }
      StageLines(wbuf, staged', top, bottom, src, width);
      staged' := staged' + 2 * width;
    }
  }

  method WriteLinesDirectly(fd: Sink, top: array<char>, bottom: array<char>, src: nat, width: nat) returns (ret: int)
    requires !fd.failed && src + width <= top.Length && src + width <= bottom.Length
    modifies fd
    ensures ret == if fd.failed then Y4M_ERR_SYSTEM else Y4M_OK
    ensures !fd.failed ==> fd.written == old(fd.written) + top[src..src + width] + bottom[src..src + width]
  {
    ret := Y4M_ERR_SYSTEM;
    var r := Y4mWrite(fd, top[src..src + width]);
    if r != 0 { return; }
    r := Y4mWrite(fd, bottom[src..src + width]);
    if r != 0 { return; }
    ret := Y4M_OK;
  }

  /** The two copies into the buffer. */
  method StageLines(wbuf: array<char>, staged: nat, top: array<char>, bottom: array<char>, src: nat, width: nat)
    requires wbuf != top && wbuf != bottom && staged + 2 * width <= wbuf.Length
    requires src + width <= top.Length && src + width <= bottom.Length
    modifies wbuf
    ensures wbuf[..staged + 2 * width]
         == old(wbuf[..staged]) + top[src..src + width] + bottom[src..src + width]
  {
    ghost var held := wbuf[..staged];
    CopyInto(wbuf, staged, top, src, width);
    assert wbuf[..staged + width] == held + top[src..src + width];
    ghost var half := wbuf[..staged + width];
    CopyInto(wbuf, staged + width, bottom, src, width);
    assert wbuf[..staged + width] == half;
  }

  /** One round of the outer loop: all lines of a plane. */
  method WritePlane(fd: Sink, wbuf: array<char>, staged: nat, top: array<char>, bottom: array<char>,
                    width: nat, height: nat)
    returns (ret: int, staged': nat)
    requires !fd.failed && wbuf.Length == STAGING && staged <= STAGING && wbuf != top && wbuf != bottom
    requires Lines(width, (height + 1) / 2) <= top.Length && Lines(width, (height + 1) / 2) <= bottom.Length
    requires staged > 0 ==> 2 * width < STAGING
    modifies fd, wbuf
    ensures ret == if fd.failed then Y4M_ERR_SYSTEM else Y4M_OK
    ensures staged' <= STAGING && (staged' > 0 ==> 2 * width < STAGING)
    ensures !fd.failed ==>
              Emitted(fd, wbuf, staged')
              == old(Emitted(fd, wbuf, staged)) + Weave(top[..], bottom[..], width, (height + 1) / 2)
  {
    hide Weave, Lines, Emitted;
    ret, staged' := Y4M_OK, staged;
    ghost var before := Emitted(fd, wbuf, staged);
    ghost var k := 0;
    ghost var pairs := (height + 1) / 2;
    ghost var t, b := top[..], bottom[..];
    NothingWoven(t, b, width, pairs);
    var y, src := 0, 0;
    while y < height
      invariant y == 2 * k && 0 <= k <= pairs && src == Lines(width, k) <= Lines(width, pairs)
      invariant !fd.failed && ret == Y4M_OK && staged' <= STAGING && (staged' > 0 ==> 2 * width < STAGING)
      invariant top[..] == t && bottom[..] == b
      invariant Emitted(fd, wbuf, staged') == before + Weave(t, b, width, k)
    {
      LineFits(width, k, pairs);
      assert top[src..src + width] == t[src..src + width] && bottom[src..src + width] == b[src..src + width];
      ghost var emitted := Emitted(fd, wbuf, staged');
      ret, staged' := WriteLines(fd, wbuf, staged', top, bottom, src, width);
      if ret != Y4M_OK {
        return;
      }
      OneMoreWoven(before, emitted, t, b, width, k);
      src := src + width;
      y, k := y + 2, k + 1;
    }
  }

  lemma NothingWoven(top: string, bottom: string, w: nat, n: nat)
    ensures 0 == Lines(w, 0) <= Lines(w, n) && Weave(top, bottom, w, 0) == []
  {
    LineAfter(w, 0);
  }

  lemma OneMoreWoven(before: string, emitted: string, top: string, bottom: string, w: nat, k: nat)
    requires Lines(w, k + 1) <= |top| && Lines(w, k + 1) <= |bottom| && Lines(w, k) + w == Lines(w, k + 1)
    requires emitted == before + Weave(top, bottom, w, k)
    ensures emitted + top[Lines(w, k)..Lines(w, k) + w] + bottom[Lines(w, k)..Lines(w, k) + w]
         == before + Weave(top, bottom, w, k + 1)
  {
    WeaveStep(top, bottom, w, k);
  }

  lemma WeaveStep(top: string, bottom: string, w: nat, k: nat)
    requires Lines(w, k + 1) <= |top| && Lines(w, k + 1) <= |bottom|
    ensures 0 <= Lines(w, k) && Lines(w, k) + w == Lines(w, k + 1)
    ensures Weave(top, bottom, w, k + 1)
         == Weave(top, bottom, w, k) + top[Lines(w, k)..Lines(w, k) + w] + bottom[Lines(w, k)..Lines(w, k) + w]
    ensures Weave(top, bottom, w, k + 1)
         == Weave(top, bottom, w, k) + (top[Lines(w, k)..Lines(w, k) + w] + bottom[Lines(w, k)..Lines(w, k) + w])
  {
    hide Lines;
    LineAfter(w, k);
    var before := Weave(top, bottom, w, k);
    var line, line' := top[Lines(w, k)..Lines(w, k) + w], bottom[Lines(w, k)..Lines(w, k) + w];
    assert before + (line + line') == before + line + line';
  }

  lemma LineFits(w: nat, k: nat, n: nat)
    requires k < n
    ensures Lines(w, 0) == 0 && Lines(w, k + 1) == Lines(w, k) + w <= Lines(w, n)
  {
    LineAfter(w, k);
    Product(w, k + 1, n - k - 1);
  }

  lemma Product(w: nat, a: nat, b: nat)
    ensures w * (a + b) == w * a + w * b >= w * a
  {
  }

  // ------------------------------------------------------------ one plane, read

  /** The octets of `n` pairs of lines. */
  function Octets(w: nat, n: nat): nat {
    Lines(w, n) * 2
  }

  lemma PairAfter(w: nat, n: nat)
    ensures Octets(w, 0) == 0 && Octets(w, n + 1) == Octets(w, n) + 2 * w
  {
    LineAfter(w, n);
  }

  lemma FewerOctets(w: nat, m: nat, n: nat)
    requires m <= n
    ensures Octets(w, m) <= Octets(w, n)
  {
    Product(w, m, n - m);
  }

  lemma OctetsOfRows(w: nat, rows: nat)
    requires rows % 2 == 0
    ensures Octets(w, rows / 2) == w * rows == rows * w
  {
    assert rows == rows / 2 + rows / 2;
    Product(w, rows / 2, rows / 2);
  }

  /**
   The octets the loop over `rows` lines takes from the input: the lines themselves if they go through
   the buffer, and one line more, to make up the last pair, if they are too wide for it and odd in number.
   */
  function Wanted(w: nat, rows: nat): nat {
    if w * 2 >= STAGING then Octets(w, (rows + 1) / 2) else Lines(w, rows)
  }

  /** Only lines that go through the buffer can be copied from behind what it holds. */
  predicate RunsOver(w: nat, rows: nat) {
    rows % 2 == 1 && 0 < w && w * 2 < STAGING
  }

  lemma LinesInPairs(w: nat, rows: nat)
    ensures Lines(w, rows) == Octets(w, rows / 2) + (if rows % 2 == 1 then w else 0)
  {
    Product(w, rows / 2, rows / 2);
    Product(w, rows / 2 + rows / 2, rows % 2);
  }

  lemma WantedSplit(w: nat, k: nat, rows: nat)
    requires 2 * k <= rows
    ensures Wanted(w, rows) == Octets(w, k) + Wanted(w, rows - 2 * k)
    ensures !RunsOver(w, rows) ==> Wanted(w, rows) == Octets(w, (rows + 1) / 2)
  {
    LinesInPairs(w, rows);
    LinesInPairs(w, rows - 2 * k);
    PairsAhead(w, k, rows / 2);
    PairsAhead(w, k, (rows + 1) / 2);
    assert (rows - 2 * k) / 2 == rows / 2 - k && (rows - 2 * k + 1) / 2 == (rows + 1) / 2 - k;
    if w == 0 {
      assert Lines(0, rows) == 0 && Octets(0, (rows + 1) / 2) == 0;
    }
  }

  /**
   What the staging buffer holds of a plane that lacks `rows` lines: `left` pairs, and behind them
   the last line without its partner if `tail` is its length.
   */
  predicate Staged(octets: int, w: nat, rows: int, left: nat, tail: nat) {
    && octets == Octets(w, left) + tail
    && (if rows < 2 then left == 0 else left <= rows / 2)
    && (tail == 0 || (tail == w && rows > 0 && rows % 2 == 1 && left == rows / 2))
    && (w * 2 >= STAGING ==> left == 0 && tail == 0)
  }

  /**
   Refilling the empty buffer of y4m_read_fields_data: a whole number of pairs of lines, or all the
   `rows` lines the plane still lacks, and none beyond them.
   */
  method Refill(fd: Source, rbuf: array<char>, width: nat, rows: nat)
    returns (ret: int, len: nat, ghost left: nat, ghost tail: nat)
    requires !fd.failed && rbuf.Length == STAGING && 2 * width < STAGING && rows > 0
    modifies fd, rbuf
    ensures len <= STAGING && Staged(len, width, rows, left, tail)
    ensures (rows >= 2 ==> left >= 1) && (rows == 1 ==> tail == width)
    ensures fd.failed ==> ret != 0
    ensures ret == 0 ==> rbuf[..len] + fd.rest == old(fd.rest)
    ensures ret != 0 && !fd.failed ==> fd.rest == [] && |old(fd.rest)| < Wanted(width, rows)
  {
    LinesInPairs(width, rows);
    assert rows * width == Lines(width, rows);
    len, left, tail := rows * width, rows / 2, if rows % 2 == 1 then width else 0;
    if len > STAGING {
      PairsThatFit(width, rows);
      len := STAGING - STAGING % (2 * width);
      left, tail := STAGING / (2 * width), 0;
    }
    ret := Y4mRead(fd, rbuf, 0, len);
  }

  /** The largest whole number of pairs of lines that fits the buffer. */
  lemma PairsThatFit(w: nat, rows: nat)
    requires 2 * w < STAGING < Lines(w, rows)
    ensures w > 0
    ensures var n := STAGING / (2 * w);
            STAGING - STAGING % (2 * w) == Octets(w, n) < Lines(w, rows) && 1 <= n <= rows / 2
  {
    LinesInPairs(w, rows);
    assert w > 0 by { assert Lines(0, rows) == 0; }
    var b := 2 * w;
    var n, r := STAGING / b, STAGING % b;
    assert STAGING == b * n + r && 0 <= r < b;
    assert n >= 1;
    assert b * n == w * n * 2;
    if n > rows / 2 {
      FewerOctets(w, rows / 2 + 1, n);
      PairAfter(w, rows / 2);
    }
  }

  /** What a round finds in the buffer, and leaves. */
  lemma NextTurn(octets: nat, w: nat, rows: nat, left: nat, tail: nat)
    requires rows > 0 && 2 * w < STAGING && Staged(octets, w, rows, left, tail)
    requires octets > 0 || ((rows >= 2 ==> left >= 1) && (rows == 1 ==> tail == w))
    ensures octets < 2 * w <==> rows == 1 && RunsOver(w, rows)
    ensures octets < 2 * w ==> octets == w
    ensures octets >= 2 * w ==>
              Staged(octets - 2 * w, w, rows - 2, if left == 0 then 0 else left - 1, if w == 0 then 0 else tail)
  {
    PairAfter(w, if left == 0 then 0 else left - 1);
    if w == 0 {
      assert forall n: nat :: Octets(0, n) == 0;
    } else if left >= 1 {
      FewerOctets(w, 1, left);
    }
  }

  /**
   One round of the inner loop of y4m_read_fields_data: the next two lines go to the two fields.  What
   lies ahead is what the buffer still holds and then the rest of the input; `rows` lines of the plane
   are missing, and `left` pairs of them are in the buffer, with `tail` octets behind.  `fault` is set
   where C would copy octets from behind what has been read into the buffer.
   */
  method ReadLines(fd: Source, rbuf: array<char>, rbufpos: nat, rbuflen: nat, top: array<char>, bottom: array<char>,
                   dst: nat, width: nat, rows: nat, ghost left: nat, ghost tail: nat)
    returns (ret: int, pos: nat, len: nat, fault: bool, ghost left': nat, ghost tail': nat)
    requires !fd.failed && rbuf.Length == STAGING && rbufpos <= rbuflen <= STAGING
    requires rbuf != top && rbuf != bottom && top != bottom && dst + width <= top.Length && dst + width <= bottom.Length
    requires rows > 0 && Staged(rbuflen - rbufpos, width, rows, left, tail)
    modifies fd, rbuf, top, bottom
    ensures pos <= len <= STAGING && (ret == Y4M_OK || ret == Y4M_ERR_SYSTEM) && (fd.failed ==> ret != Y4M_OK)
    ensures ret == Y4M_OK ==> top[..dst] == old(top[..dst]) && bottom[..dst] == old(bottom[..dst])
    ensures ret == Y4M_OK ==> (fault <==> rows == 1 && RunsOver(width, rows))
    ensures ret == Y4M_OK && !fault ==>
              var ahead := old(rbuf[rbufpos..rbuflen] + fd.rest);
              && Staged(len - pos, width, rows - 2, left', tail')
              && 2 * width <= |ahead| && rbuf[pos..len] + fd.rest == ahead[2 * width..]
              && top[dst..dst + width] == ahead[..width] && bottom[dst..dst + width] == ahead[width..2 * width]
    ensures ret == Y4M_OK && fault ==>
              var ahead := old(rbuf[rbufpos..rbuflen] + fd.rest);
              width <= |ahead| && fd.rest == ahead[width..] && top[dst..dst + width] == ahead[..width]
    ensures !fd.failed && ret != Y4M_OK ==>
              fd.rest == [] && |old(rbuf[rbufpos..rbuflen] + fd.rest)| < Wanted(width, rows)
  {
    hide Octets, Lines, Staged, Wanted, RunsOver;
    ghost var ahead := rbuf[rbufpos..rbuflen] + fd.rest;
    pos, len, fault, left', tail' := rbufpos, rbuflen, false, left, tail;
    if width * 2 >= STAGING {
      DirectTurn(rbuflen - rbufpos, width, rows, left, tail);
      assert rbuf[pos..len] == [] && rbuf[pos..len] + fd.rest == fd.rest;
      left', tail' := 0, 0;
      ret := ReadLinesDirectly(fd, top, bottom, dst, width);
    } else {
      if pos == len {
        assert ahead == fd.rest;
        var r;
        r, len, left', tail' := Refill(fd, rbuf, width, rows);
        pos := 0;
        if r != 0 {
          return Y4M_ERR_SYSTEM, pos, len, false, left', tail';
        }
        assert rbuf[pos..len] == rbuf[..len];
      }
      ret := Y4M_OK;
      assert rbuf[pos..len] + fd.rest == ahead && len - pos <= |ahead|;
      NextTurn(len - pos, width, rows, left', tail');
      pos, fault := CopyLines(fd, rbuf, pos, len, top, bottom, dst, width);
      left', tail' := if left' == 0 then 0 else left' - 1, if width == 0 then 0 else tail';
    }
  }

  lemma DirectTurn(octets: nat, w: nat, rows: nat, left: nat, tail: nat)
    requires rows > 0 && w * 2 >= STAGING && Staged(octets, w, rows, left, tail)
    ensures octets == 0 && 2 * w <= Wanted(w, rows) && Staged(0, w, rows - 2, 0, 0) && !RunsOver(w, rows)
  {
    PairAfter(w, 0);
    FewerOctets(w, 1, (rows + 1) / 2);
  }

  /** The copies out of the buffer. */
  method CopyLines(fd: Source, rbuf: array<char>, pos: nat, len: nat, top: array<char>, bottom: array<char>,
                   dst: nat, width: nat)
    returns (pos': nat, fault: bool)
    requires rbuf != top && rbuf != bottom && top != bottom && pos <= len <= rbuf.Length
    requires len - pos < 2 * width ==> len - pos == width
    requires dst + width <= top.Length && dst + width <= bottom.Length
    modifies top, bottom
    ensures fault <==> len - pos < 2 * width
    ensures pos' == if fault then len else pos + 2 * width
    ensures top[..dst] == old(top[..dst]) && bottom[..dst] == old(bottom[..dst])
    ensures !fault ==>
              var ahead := old(rbuf[pos..len]) + fd.rest;
              && rbuf[pos'..len] + fd.rest == ahead[2 * width..]
              && top[dst..dst + width] == ahead[..width] && bottom[dst..dst + width] == ahead[width..2 * width]
    ensures fault ==>
              var ahead := old(rbuf[pos..len]) + fd.rest;
              fd.rest == ahead[width..] && top[dst..dst + width] == ahead[..width]
  {
    fault := pos + 2 * width > len;
    if fault {
      TakeTop(fd, rbuf, pos, len, top, dst, width);
      pos' := pos + width;
    } else {
      TakeLines(fd, rbuf, pos, len, top, bottom, dst, width);
      pos' := pos + 2 * width;
    }
  }

  /** The two copies, in terms of what lies ahead. */
  method TakeLines(fd: Source, rbuf: array<char>, pos: nat, len: nat, top: array<char>, bottom: array<char>,
                   dst: nat, width: nat)
    requires rbuf != top && rbuf != bottom && top != bottom && pos + 2 * width <= len <= rbuf.Length
    requires dst + width <= top.Length && dst + width <= bottom.Length
    modifies top, bottom
    ensures var ahead := old(rbuf[pos..len]) + fd.rest;
            && top[dst..dst + width] == ahead[..width] && bottom[dst..dst + width] == ahead[width..2 * width]
            && rbuf[pos + 2 * width..len] + fd.rest == ahead[2 * width..]
    ensures top[..dst] == old(top[..dst]) && bottom[..dst] == old(bottom[..dst])
  {
    ghost var buffer := rbuf[..];
    SplitAhead(buffer, pos, len, fd.rest, width);
    assert rbuf[pos..len] == buffer[pos..len];
    assert rbuf[pos..pos + width] == buffer[pos..pos + width];
    assert rbuf[pos + width..pos + 2 * width] == buffer[pos + width..pos + 2 * width];
    assert rbuf[pos + 2 * width..len] == buffer[pos + 2 * width..len];
    CopyInto(top, dst, rbuf, pos, width);
    ghost var copied := top[..];
    CopyInto(bottom, dst, rbuf, pos + width, width);
    assert top[..] == copied;
    assert rbuf[pos + 2 * width..len] == buffer[pos + 2 * width..len];
  }

  /** The first of the two copies, where the second has nothing to copy. */
  method TakeTop(fd: Source, rbuf: array<char>, pos: nat, len: nat, top: array<char>, dst: nat, width: nat)
    requires rbuf != top && pos + width == len <= rbuf.Length && dst + width <= top.Length
    modifies top
    ensures var ahead := old(rbuf[pos..len]) + fd.rest;
            top[dst..dst + width] == ahead[..width] && fd.rest == ahead[width..]
    ensures top[..dst] == old(top[..dst])
  {
    CopyInto(top, dst, rbuf, pos, width);
  }

  /** The two reads past the buffer, for lines too wide for it. */
  method ReadLinesDirectly(fd: Source, top: array<char>, bottom: array<char>, dst: nat, width: nat) returns (ret: int)
    requires !fd.failed && top != bottom && dst + width <= top.Length && dst + width <= bottom.Length
    modifies fd, top, bottom
    ensures (ret == Y4M_OK || ret == Y4M_ERR_SYSTEM) && (fd.failed ==> ret != Y4M_OK)
    ensures ret == Y4M_OK ==>
              var ahead := old(fd.rest);
              && 2 * width <= |ahead| && fd.rest == ahead[2 * width..]
              && top[dst..dst + width] == ahead[..width] && bottom[dst..dst + width] == ahead[width..2 * width]
              && top[..dst] == old(top[..dst]) && bottom[..dst] == old(bottom[..dst])
    ensures !fd.failed && ret != Y4M_OK ==> fd.rest == [] && |old(fd.rest)| < 2 * width
  {
    ghost var ahead := fd.rest;
    ret := Y4M_ERR_SYSTEM;
    var r := Y4mRead(fd, top, dst, width);
    if r != 0 {
      return;
    }
    ghost var read := top[..];
    r := Y4mRead(fd, bottom, dst, width);
    if r != 0 {
      return;
    }
    assert top[..] == read;
    assert top[..dst] == old(top[..dst]) && bottom[..dst] == old(bottom[..dst]);
    assert ahead[width..][..width] == ahead[width..2 * width] && ahead[width..][width..] == ahead[2 * width..];
    ret := Y4M_OK;
  }

  lemma SplitAhead(buffer: string, pos: nat, len: nat, rest: string, w: nat)
    requires pos + 2 * w <= len <= |buffer|
    ensures var ahead := buffer[pos..len] + rest;
            && ahead[..w] == buffer[pos..pos + w] && ahead[w..2 * w] == buffer[pos + w..pos + 2 * w]
            && ahead[2 * w..] == buffer[pos + 2 * w..len] + rest
  {
  }

  /** One round of the inner loop, in terms of the plane. */
  method ReadTurn(fd: Source, rbuf: array<char>, rbufpos: nat, rbuflen: nat, top: array<char>, bottom: array<char>,
                  dst: nat, width: nat, rows: nat, ghost left: nat, ghost tail: nat, ghost input: string, ghost k: nat)
    returns (ret: int, pos: nat, len: nat, fault: bool, ghost left': nat, ghost tail': nat)
    requires !fd.failed && rbuf.Length == STAGING && rbufpos <= rbuflen <= STAGING
    requires rbuf != top && rbuf != bottom && top != bottom && dst + width <= top.Length && dst + width <= bottom.Length
    requires rows > 0 && Staged(rbuflen - rbufpos, width, rows, left, tail)
    requires Taken(input, rbuf[rbufpos..rbuflen] + fd.rest, top[..dst], bottom[..dst], width, k)
    modifies fd, rbuf, top, bottom
    ensures pos <= len <= STAGING && (ret == Y4M_OK || ret == Y4M_ERR_SYSTEM) && (fd.failed ==> ret != Y4M_OK)
    ensures ret == Y4M_OK ==> (fault <==> rows == 1 && RunsOver(width, rows))
    ensures ret == Y4M_OK && !fault ==>
              && Staged(len - pos, width, rows - 2, left', tail')
              && Taken(input, rbuf[pos..len] + fd.rest, top[..dst + width], bottom[..dst + width], width, k + 1)
    ensures ret == Y4M_OK && fault ==>
              Taken(input, top[dst..dst + width] + fd.rest, top[..dst], bottom[..dst], width, k)
    ensures !fd.failed && ret != Y4M_OK ==>
              fd.rest == [] && |input| < Octets(width, k) + Wanted(width, rows)
  {
    hide Octets, Lines, Wanted, RunsOver, Staged, TopLines, BottomLines, Taken;
    ghost var ahead, done, done' := rbuf[rbufpos..rbuflen] + fd.rest, top[..dst], bottom[..dst];
    TakenLength(input, ahead, done, done', width, k);
    ret, pos, len, fault, left', tail' :=
      ReadLines(fd, rbuf, rbufpos, rbuflen, top, bottom, dst, width, rows, left, tail);
    if ret == Y4M_OK && fault {
      assert top[dst..dst + width] + fd.rest == ahead;
    } else if ret == Y4M_OK {
      Extends(top[..], done, dst, width);
      Extends(bottom[..], done', dst, width);
      TwoMoreTaken(input, ahead, done, done', width, k);
    }
  }

  /**
   What is left of the input and stands in the fields after a plane: the even and the odd lines, all
   of them, or but for the partner of the last line if `fault`.
   */
  predicate PlaneRead(input: string, rest: string, top: string, bottom: string, w: nat, height: nat, fault: bool) {
    && Wanted(w, height) <= |input| && rest == input[Wanted(w, height)..]
    && (fault <==> RunsOver(w, height))
    && var n := if fault then height / 2 else (height + 1) / 2;
       && Lines(w, n) * 2 <= |input| && Lines(w, n) <= |top| && Lines(w, n) <= |bottom|
       && top[..Lines(w, n)] == TopLines(input, w, n) && bottom[..Lines(w, n)] == BottomLines(input, w, n)
       && if fault then Lines(w, n) + w <= |top| && top[Lines(w, n)..Lines(w, n) + w] + rest == input[Lines(w, n) * 2..]
          else Wanted(w, height) == Lines(w, n) * 2
  }

  /**
   One round of the outer loop.  The buffer is empty before the plane.  Where it is empty behind the
   plane too, nothing of the next plane has been read; `fault` is set exactly where it is not, which
   is for an odd number of lines that go through the buffer.  An input too short is read to its end.
   */
  method ReadPlane(fd: Source, rbuf: array<char>, pos: nat, top: array<char>, bottom: array<char>,
                   width: nat, height: nat)
    returns (ret: int, pos': nat, fault: bool)
    requires !fd.failed && rbuf.Length == STAGING && pos <= STAGING
    requires rbuf != top && rbuf != bottom && top != bottom
    requires Lines(width, (height + 1) / 2) <= top.Length && Lines(width, (height + 1) / 2) <= bottom.Length
    modifies fd, rbuf, top, bottom
    ensures pos' <= STAGING && (ret == Y4M_OK || ret == Y4M_ERR_SYSTEM) && (fd.failed ==> ret != Y4M_OK)
    ensures !fd.failed && ret != Y4M_OK ==> fd.rest == [] && |old(fd.rest)| < Wanted(width, height)
    ensures ret == Y4M_OK ==> PlaneRead(old(fd.rest), fd.rest, top[..], bottom[..], width, height, fault)
  {
    hide Octets, Lines, Wanted, Staged, TopLines, BottomLines, Taken, PlaneRead;
    ghost var input, pairs, k, left, tail := fd.rest, (height + 1) / 2, 0, 0, 0;
    NoLines(input, width, pairs);
    NothingIsStaged(width, height);
    var rbufpos, rbuflen := pos, pos;
    var y, dst := 0, 0;
    fault := false;
    NothingTaken(input, rbuf[rbufpos..rbuflen] + fd.rest, width);
    while y < height
      invariant y == 2 * k && 0 <= k <= pairs && dst == Lines(width, k) <= Lines(width, pairs)
      invariant !fd.failed && !fault && 0 <= rbufpos <= rbuflen <= STAGING
      invariant Staged(rbuflen - rbufpos, width, height - y, left, tail)
      invariant y > height ==> !RunsOver(width, height)
      invariant Taken(input, rbuf[rbufpos..rbuflen] + fd.rest, top[..dst], bottom[..dst], width, k)
    {
      LineFits(width, k, pairs);
      WantedSplit(width, k, height);
      ret, rbufpos, rbuflen, fault, left, tail :=
        ReadTurn(fd, rbuf, rbufpos, rbuflen, top, bottom, dst, width, height - y, left, tail, input, k);
      if ret != Y4M_OK {
        return ret, rbufpos, false;
      }
      if fault {
        LastLine(input, top[..], bottom[..], fd.rest, dst, width, k, height);
        return ret, rbufpos, true;
      }
      dst := dst + width;
      y, k := y + 2, k + 1;
    }
    WantedSplit(width, 0, height);
    NothingIsLeft(rbuflen - rbufpos, width, height - y, left, tail);
    assert rbuf[rbufpos..rbuflen] + fd.rest == fd.rest;
    AllTaken(input, top[..], bottom[..], fd.rest, dst, width, k, height);
    return Y4M_OK, rbufpos, false;
  }

  /** After `k` pairs of lines: what lies ahead, and what the fields hold. */
  predicate Taken(input: string, ahead: string, top: string, bottom: string, w: nat, k: nat) {
    && Lines(w, k) * 2 <= |input| && ahead == input[Lines(w, k) * 2..]
    && top == TopLines(input, w, k) && bottom == BottomLines(input, w, k)
  }

  lemma NothingTaken(input: string, ahead: string, w: nat)
    requires ahead == input
    ensures Taken(input, ahead, [], [], w, 0)
  {
    NoLines(input, w, 0);
  }

  lemma TakenLength(input: string, ahead: string, top: string, bottom: string, w: nat, k: nat)
    requires Taken(input, ahead, top, bottom, w, k)
    ensures |input| == Octets(w, k) + |ahead|
  {
  }

  lemma TwoMoreTaken(input: string, ahead: string, top: string, bottom: string, w: nat, k: nat)
    requires Taken(input, ahead, top, bottom, w, k) && 2 * w <= |ahead|
    ensures Taken(input, ahead[2 * w..], top + ahead[..w], bottom + ahead[w..2 * w], w, k + 1)
  {
    hide Lines;
    PairAfter(w, k);
    NextLines(input, w, k);
  }

  lemma AllTaken(input: string, top: string, bottom: string, rest: string, dst: nat, w: nat, k: nat, height: nat)
    requires dst == Lines(w, k) <= |top| && dst <= |bottom| && k == (height + 1) / 2 && !RunsOver(w, height)
    requires Taken(input, rest, top[..dst], bottom[..dst], w, k)
    ensures PlaneRead(input, rest, top, bottom, w, height, false)
  {
    WantedSplit(w, 0, height);
    hide Lines;
  }

  lemma NothingIsStaged(w: nat, rows: nat)
    ensures Staged(0, w, rows, 0, 0)
  {
    PairAfter(w, 0);
  }

  lemma NothingIsLeft(octets: int, w: nat, rows: int, left: nat, tail: nat)
    requires rows <= 0 && Staged(octets, w, rows, left, tail)
    ensures octets == 0
  {
    PairAfter(w, 0);
  }

  /** Behind the last pair there is one line. */
  lemma LastLine(input: string, top: string, bottom: string, rest: string, dst: nat, w: nat, k: nat, height: nat)
    requires height == 2 * k + 1 && RunsOver(w, height) && dst == Lines(w, k) && dst + w <= |top| && dst <= |bottom|
    requires Taken(input, top[dst..dst + w] + rest, top[..dst], bottom[..dst], w, k)
    ensures PlaneRead(input, rest, top, bottom, w, height, true)
  {
    hide Lines, TopLines, BottomLines, Wanted;
    WantedOfOdd(w, k, height);
    RestBehind(input, Lines(w, k) * 2, top[dst..dst + w], rest);
  }

  lemma WantedOfOdd(w: nat, k: nat, height: nat)
    requires height == 2 * k + 1 && w * 2 < STAGING
    ensures Wanted(w, height) == Lines(w, k) * 2 + w
  {
    LinesInPairs(w, height);
    hide Lines;
  }

  lemma RestBehind(input: string, at: nat, line: string, rest: string)
    requires at <= |input| && line + rest == input[at..]
    ensures at + |line| <= |input| && rest == input[at + |line|..]
  {
    assert rest == (line + rest)[|line|..];
  }

  lemma NoLines(input: string, w: nat, n: nat)
    ensures Lines(w, 0) == Octets(w, 0) == 0 && Lines(w, 0) <= Lines(w, n)
    ensures TopLines(input, w, 0) == BottomLines(input, w, 0) == []
  {
    LineAfter(w, 0);
  }

  lemma PairsAhead(w: nat, k: nat, pairs: nat)
    requires k <= pairs
    ensures Octets(w, pairs) == Octets(w, k) + Octets(w, pairs - k)
    ensures Octets(w, k) == Lines(w, k) * 2 && Octets(w, k + 1) == Lines(w, k + 1) * 2
  {
    Product(w, k, pairs - k);
  }

  /** The next pair of lines of a frame. */
  lemma NextLines(frame: string, w: nat, k: nat)
    requires Octets(w, k) + 2 * w <= |frame|
    ensures Octets(w, k) == Lines(w, k) * 2 && Octets(w, k + 1) == Lines(w, k + 1) * 2 == Octets(w, k) + 2 * w
    ensures var ahead := frame[Octets(w, k)..];
            && TopLines(frame, w, k + 1) == TopLines(frame, w, k) + ahead[..w]
            && BottomLines(frame, w, k + 1) == BottomLines(frame, w, k) + ahead[w..2 * w]
            && ahead[2 * w..] == frame[Octets(w, k + 1)..]
  {
    LineAfter(w, k);
    hide Lines;
    var at := Octets(w, k);
    assert frame[at..][..w] == frame[at..at + w] && frame[at..][w..2 * w] == frame[at + w..at + 2 * w];
  }

  lemma Extends(s: string, done: string, at: nat, n: nat)
    requires at + n <= |s| && s[..at] == done
    ensures s[..at + n] == done + s[at..at + n]
  {
  }
}
