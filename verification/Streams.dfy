/**
 SocketStream's read-ahead buffer (httplib.h:7048-7092) and stream_line_reader
 (httplib.h:2986-3063) on top of it.
 */
module Streams {
  import opened Text

  const READ_BUFF_SIZE: nat := 4096
  const MAX_LINE_LENGTH: nat := 32768

  /** A connected socket: what the peer sends, and how each recv turns out. */
  class SocketStream {
    /** Bytes the peer will still send before it closes. */
    var wire: string
    /** Set once waiting or receiving has failed. */
    var failed: bool
    const readBuff: array<char>
    var readBuffOff: nat
    var readBuffContentSize: nat

    ghost predicate Valid()
      reads this
    {
      readBuff.Length == READ_BUFF_SIZE && readBuffOff <= readBuffContentSize <= READ_BUFF_SIZE
    }

    /** The stream that is still to be read: buffered bytes first. */
    ghost function Pending(): string
      requires Valid()
      reads this, readBuff
    {
      readBuff[readBuffOff..readBuffContentSize] + wire
    }

    constructor (wire: string)
      ensures Valid() && Pending() == wire && !failed && fresh(readBuff)
    {
      this.wire, failed := wire, false;
      readBuff := new char[READ_BUFF_SIZE];
      readBuffOff, readBuffContentSize := 0, 0;
      new;
      assert readBuff[0..0] + wire == wire;
    }

    /** recv: any non-empty prefix that fits, nothing at end of stream, or a failure. */
    method ReadSocket(size: nat) returns (n: int, data: string)
      modifies this`wire, this`failed
      ensures n < 0 ==> failed && data == "" && wire == old(wire)
      ensures n >= 0 ==> failed == old(failed) && n == |data| <= size && old(wire) == data + wire
      ensures n == 0 && size > 0 ==> old(wire) == ""
    {
      var breaks: bool := *;
      if breaks {
        failed := true;
        return -1, "";
      }
      if size == 0 || wire == "" {
        return 0, "";
      }
      var k: nat :| 1 <= k <= size && k <= |wire|;
      n, data := k, wire[..k];
      wire := wire[k..];
    }

    /** The first branch of `read`: serve from what was read ahead. */
    method ReadBuffered(size: nat) returns (data: string)
      requires Valid() && readBuffOff < readBuffContentSize
      modifies this`readBuffOff
      ensures Valid() && |data| <= size && (size > 0 ==> data != "") && old(Pending()) == data + Pending()
    {
      var remaining := readBuffContentSize - readBuffOff;
      var take := if size <= remaining then size else remaining;
      data := readBuff[readBuffOff..readBuffOff + take];
      ghost var rest := readBuff[readBuffOff + take..readBuffContentSize];
      assert readBuff[readBuffOff..readBuffContentSize] == data + rest;
      readBuffOff := readBuffOff + take;
      assert data + rest + wire == data + (rest + wire);
    }

    /** The second branch: receive into the read-ahead buffer and keep what does not fit. */
    method ReadAhead(size: nat) returns (n: int, data: string)
      requires Valid() && readBuffOff == readBuffContentSize == 0
      modifies this`wire, this`failed, this`readBuffOff, this`readBuffContentSize, readBuff
      ensures Valid()
      ensures n < 0 ==> failed && data == "" && Pending() == old(Pending())
      ensures n >= 0 ==> failed == old(failed) && n == |data| <= size && old(Pending()) == data + Pending()
      ensures n == 0 && size > 0 ==> old(Pending()) == ""
    {
      var got: string;
      n, got := ReadSocket(READ_BUFF_SIZE);
      if n <= 0 {
        return n, "";
      }
      forall i | 0 <= i < |got| {
        readBuff[i] := got[i];
      }
      assert readBuff[..n] == got;
      if n <= size {
        data := readBuff[..n];
      } else {
        data := readBuff[..size];
        readBuffOff, readBuffContentSize := size, n;
        assert got == data + readBuff[size..n];
        assert data + readBuff[size..n] + wire == data + (readBuff[size..n] + wire);
        n := size;
      }
    }

    /** `read`: at most `size` bytes, the next ones of the stream, never zero before its end. */
    method Read(size: nat) returns (n: int, data: string)
      requires Valid()
      modifies this`wire, this`failed, this`readBuffOff, this`readBuffContentSize, readBuff
      ensures Valid()
      ensures n < 0 ==> failed && data == "" && Pending() == old(Pending())
      ensures n >= 0 ==> failed == old(failed) && n == |data| <= size && old(Pending()) == data + Pending()
      ensures n == 0 && size > 0 ==> old(Pending()) == ""
    {
      if readBuffOff < readBuffContentSize {
        data := ReadBuffered(size);
        return |data|, data;
      }
      readBuffOff, readBuffContentSize := 0, 0;
      if size < READ_BUFF_SIZE {
        n, data := ReadAhead(size);
      } else {
        n, data := ReadSocket(size);
      }
    }
  }

  /** The line at the front of `s`: through the first CRLF, or all of it. */
  function LineOf(s: string): (line: string)
    ensures |line| <= |s|
  {
    var pos := Find(s, CRLF);
    if pos == |s| then s else s[..pos + |CRLF|]
  }

  /** Whether getline succeeds on `s`: not empty, not over the limit. */
  predicate LineReadable(s: string) {
    s != "" &&
    if Find(s, CRLF) == |s| then |s| < MAX_LINE_LENGTH else Find(s, CRLF) + |CRLF| <= MAX_LINE_LENGTH
  }

  /** What a getline that fails on its own leaves: nothing, or what is behind the limit. */
  function Unread(s: string): string {
    if |s| <= MAX_LINE_LENGTH then "" else s[MAX_LINE_LENGTH..]
  }

  /** The line buffer: a fixed buffer that spills into a growable one. */
  class StreamLineReader {
    const strm: SocketStream
    const fixedBuffer: array<char>
    var fixedUsed: nat
    var growable: string

    ghost predicate Valid()
      reads this
    {
      && fixedUsed < fixedBuffer.Length
      && fixedBuffer != strm.readBuff
      && (growable != "" ==> fixedUsed == fixedBuffer.Length - 1)
    }

    constructor (strm: SocketStream, fixedBufferSize: nat)
      requires fixedBufferSize > 0
      ensures Valid() && this.strm == strm && fresh(fixedBuffer) && fixedBuffer.Length == fixedBufferSize
    {
      this.strm := strm;
      fixedBuffer := new char[fixedBufferSize](_ => '\0');
      fixedUsed, growable := 0, "";
    }

    /** The bytes `ptr()` and `size()` describe. */
    ghost function Line(): string
      requires Valid()
      reads this, fixedBuffer
    {
      if growable == "" then fixedBuffer[..fixedUsed] else growable
    }

    method Get() returns (line: string)
      requires Valid()
      ensures line == Line()
    {
      line := if growable == "" then fixedBuffer[..fixedUsed] else growable;
    }

    method Append(c: char)
      requires Valid()
      modifies this`fixedUsed, this`growable, fixedBuffer
      ensures Valid() && Line() == old(Line()) + [c]
    {
      if fixedUsed < fixedBuffer.Length - 1 {
        fixedBuffer[fixedUsed] := c;
        fixedUsed := fixedUsed + 1;
        fixedBuffer[fixedUsed] := '\0';
      } else {
        if growable == "" {
          growable := fixedBuffer[..fixedUsed];
        }
        growable := growable + [c];
      }
    }

    /** `getline`: byte by byte through the first CRLF or to the end of the stream. */
    method Getline() returns (ok: bool)
      requires Valid() && strm.Valid()
      modifies this`fixedUsed, this`growable, fixedBuffer
      modifies strm`wire, strm`failed, strm`readBuffOff, strm`readBuffContentSize, strm.readBuff
      ensures Valid() && strm.Valid() && (old(strm.failed) ==> strm.failed)
      ensures ok ==> strm.failed == old(strm.failed)
      ensures ok ==> LineReadable(old(strm.Pending())) && Line() == LineOf(old(strm.Pending()))
                     && old(strm.Pending()) == Line() + strm.Pending()
      ensures !ok && !strm.failed ==> !LineReadable(old(strm.Pending())) && strm.Pending() == Unread(old(strm.Pending()))
    {
      hide LineReadable, LineOf, Unread, NoCrlfBefore;
      fixedUsed, growable := 0, "";
      ghost var s := strm.Pending();
      NothingYet(s);
      ghost var failed0 := strm.failed;
      var prevByte := '\0';
      var i := 0;
      while true
        invariant Valid() && strm.Valid() && strm.failed == failed0
        invariant 0 <= i <= |s| && i <= MAX_LINE_LENGTH && Line() == s[..i] && strm.Pending() == s[i..]
        invariant prevByte == if i == 0 then '\0' else s[i - 1]
        invariant NoCrlfBefore(s, i)
        decreases MAX_LINE_LENGTH - i
      {
        var line := Get();
        if |line| >= MAX_LINE_LENGTH {
          LineTooLong(s, i);
          assert strm.Pending() == Unread(s);
          return false;
        }
        var n, byte := strm.Read(1);
        assert Line() == s[..i];
        if n < 0 {
          return false;
        } else if n == 0 {
          LineToEnd(s, i);
          assert Line() == s && strm.Pending() == "";
          return i > 0;
        }
        TakeByte(s, i, byte, strm.Pending());
        Append(byte[0]);
        assert Line() == s[..i + 1] && strm.Pending() == s[i + 1..];
        if prevByte == '\r' && byte[0] == '\n' {
          LineEnds(s, i);
          return true;
        }
        LineGrows(s, i);
        prevByte := byte[0];
        i := i + 1;
      }
    }
  }

  ghost predicate NoCrlfBefore(s: string, i: nat) {
    forall j: nat :: j + |CRLF| <= i ==> !OccursAt(s, CRLF, j)
  }

  lemma NothingYet(s: string)
    ensures NoCrlfBefore(s, 0)
  {
  }

  lemma TakeByte(s: string, i: nat, byte: string, rest: string)
    requires i <= |s| && |byte| == 1 && s[i..] == byte + rest
    ensures i < |s| && byte[0] == s[i] && rest == s[i + 1..] && s[..i] + [byte[0]] == s[..i + 1]
  {
    assert |s[i..]| == 1 + |rest|;
    assert s[i..][0] == byte[0] && s[i..][1..] == rest;
  }

  lemma LineEnds(s: string, i: nat)
    requires 0 < i < |s| && s[i - 1] == '\r' && s[i] == '\n' && i < MAX_LINE_LENGTH && NoCrlfBefore(s, i)
    ensures LineReadable(s) && s[..i + 1] == LineOf(s) && s == s[..i + 1] + s[i + 1..]
  {
    assert s[i - 1..i + 1] == CRLF;
    FindIs(s, CRLF, i - 1);
  }

  lemma LineGrows(s: string, i: nat)
    requires i < |s| && NoCrlfBefore(s, i) && !(0 < i && s[i - 1] == '\r' && s[i] == '\n')
    ensures NoCrlfBefore(s, i + 1)
  {
    if i > 0 {
      Mismatch(s, CRLF, i - 1, if s[i - 1] == '\r' then 1 else 0);
    }
  }

  lemma LineTooLong(s: string, i: nat)
    requires i == MAX_LINE_LENGTH <= |s| && NoCrlfBefore(s, i)
    ensures !LineReadable(s) && Unread(s) == s[i..]
  {
    FindFirst(s, CRLF);
  }

  lemma LineToEnd(s: string, i: nat)
    requires i <= |s| && i < MAX_LINE_LENGTH && s[i..] == "" && NoCrlfBefore(s, i)
    ensures Find(s, CRLF) == |s| == i && s[..i] == s && LineOf(s) == s && (LineReadable(s) <==> i > 0)
    ensures Unread(s) == ""
  {
    assert |s[i..]| == |s| - i;
    FindFirst(s, CRLF);
  }
}
