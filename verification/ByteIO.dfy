/**
 The transfers under every reader and writer (y4m_read, y4m_write).  The operating system may move
 any positive number of octets a call, may report the end of the input, and may fail.  An octet is a
 Dafny `char`.
 */
module ByteIO {

  /** An open descriptor for reading: `rest` is what has not been read, `failed` that read() has failed. */
  class Source {
    var rest: string
    var failed: bool

    constructor (input: string)
      ensures rest == input && !failed
    {
      rest, failed := input, false;
    }

    /** read(): 0 at the end of the input, negative on an error, else any number up to `want`. */
    method OsRead(want: nat) returns (n: int, got: string)
      requires want > 0 && !failed
      modifies this
      ensures failed <==> n < 0
      ensures n < 0 ==> rest == old(rest)
      ensures n >= 0 ==> n <= want && n <= |old(rest)| && got == old(rest)[..n] && rest == old(rest)[n..]
      ensures n == 0 <==> old(rest) == [] && !failed
    {
      if * {
        failed := true;
        return -1, [];
      }
      if rest == [] {
        return 0, [];
      }
      n :| 1 <= n <= want && n <= |rest|;
      got, rest := rest[..n], rest[n..];
    }
  }

  /**
   y4m_read: fills `buf[at..at + len]`, however the transfers are split.  Returns 0, or the number of
   octets missing at the end of the input, or minus the number missing at an error.
   */
  method Y4mRead(fd: Source, buf: array<char>, at: nat, len: nat) returns (ret: int)
    requires !fd.failed && at + len <= buf.Length
    modifies fd, buf
    ensures fd.failed <==> ret < 0
    ensures !fd.failed && len <= |old(fd.rest)| ==>
              ret == 0 && buf[at..at + len] == old(fd.rest)[..len] && fd.rest == old(fd.rest)[len..]
    ensures !fd.failed && len > |old(fd.rest)| ==> ret == len - |old(fd.rest)| && fd.rest == []
    ensures forall k :: 0 <= k < buf.Length && !(at <= k < at + len) ==> buf[k] == old(buf[k])
  {
    ghost var input := fd.rest;
    var done := 0;
    while len - done > 0
      invariant 0 <= done <= len && done <= |input| && !fd.failed
      invariant fd.rest == input[done..]
      invariant forall k :: 0 <= k < done ==> buf[at + k] == input[k]
      invariant forall k :: 0 <= k < buf.Length && !(at <= k < at + len) ==> buf[k] == old(buf[k])
    {
      var n, got := fd.OsRead(len - done);
      if n <= 0 {
        return if n == 0 then len - done else done - len;
      }
      forall k | 0 <= k < n {
        buf[at + done + k] := got[k];
      }
      done := done + n;
    }
    ret := 0;
    assert buf[at..at + len] == input[..len];
  }

  /** An open descriptor for writing. */
  class Sink {
    var written: string
    var failed: bool

    constructor ()
      ensures written == [] && !failed
    {
      written, failed := [], false;
    }

    /** write(): any number of octets from the front of `buf`, none only on an error. */
    method OsWrite(buf: string) returns (n: int)
      requires buf != [] && !failed
      modifies this
      ensures failed <==> n <= 0
      ensures n <= 0 ==> written == old(written)
      ensures n > 0 ==> n <= |buf| && written == old(written) + buf[..n]
    {
      if * {
        failed := true;
        n :| n == 0 || n == -1;
        return;
      }
      n :| 1 <= n <= |buf|;
      written := written + buf[..n];
    }
  }

  /** y4m_write: all of `buf`, however the transfers are split, or a prefix of it and an error. */
  method Y4mWrite(fd: Sink, buf: string) returns (ret: int)
    requires !fd.failed
    modifies fd
    ensures fd.failed <==> ret < 0
    ensures ret <= 0
    ensures !fd.failed ==> fd.written == old(fd.written) + buf
    ensures fd.failed ==> old(fd.written) <= fd.written < old(fd.written) + buf
  {
    var done := 0;
    while |buf| - done > 0
      invariant 0 <= done <= |buf| && !fd.failed
      invariant fd.written == old(fd.written) + buf[..done]
    {
      var n := fd.OsWrite(buf[done..]);
      if n <= 0 {
        return done - |buf|;
      }
      assert buf[..done] + buf[done..][..n] == buf[..done + n];
      done := done + n;
    }
    assert buf[..done] == buf;
    ret := 0;
  }
}
