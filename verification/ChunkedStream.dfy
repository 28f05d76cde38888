/**
 The chunked writer and reader as they run on streams, proved to do what ChunkedSpec says
 for every way the socket may cut its bytes.
 */
module ChunkedStream {
  import opened Text
  import opened Hex
  import opened Streams
  import opened ChunkedSpec
  import opened ChunkedRoundTrip

  const RECV_BUFSIZ: nat := 16384
  const LINE_BUFSIZ: nat := 16

  /** The content receiver: it may refuse a piece. */
  class ContentSink {
    const accept: string -> bool
    var data: string

    constructor (accept: string -> bool)
      ensures this.accept == accept && data == ""
    {
      this.accept := accept;
      data := "";
    }

    method Receive(piece: string) returns (ok: bool)
      modifies this
      ensures ok == accept(piece)
      ensures data == if ok then old(data) + piece else old(data)
    {
      ok := accept(piece);
      if ok {
        data := data + piece;
      }
    }
  }

  ghost predicate AcceptsAll(sink: ContentSink) {
    forall piece :: sink.accept(piece)
  }

  /** read_content_with_length (httplib.h:4695-4716). */
  method ReadContentWithLength(strm: SocketStream, len: nat, sink: ContentSink) returns (ok: bool)
    requires strm.Valid()
    modifies strm`wire, strm`failed, strm`readBuffOff, strm`readBuffContentSize, strm.readBuff, sink
    ensures strm.Valid() && (old(strm.failed) ==> strm.failed)
    ensures ok ==> strm.failed == old(strm.failed)
    ensures exists k: nat {:trigger old(strm.Pending())[..k]} :: k <= len && k <= |old(strm.Pending())|
              && sink.data == old(sink.data) + old(strm.Pending())[..k]
              && (ok ==> k == len && strm.Pending() == old(strm.Pending())[len..])
              && (!ok && !strm.failed && AcceptsAll(sink) ==> k == |old(strm.Pending())| < len)
  {
    ghost var s := strm.Pending();
    ghost var before := sink.data;
    ghost var failed0 := strm.failed;
    var r: nat := 0;
    while r < len
      invariant strm.Valid() && strm.failed == failed0
      invariant r <= len && r <= |s| && sink.data == before + s[..r] && strm.Pending() == s[r..]
    {
      var want := if len - r < RECV_BUFSIZ then len - r else RECV_BUFSIZ;
      var n, piece := strm.Read(want);
      if n <= 0 {
        return false;
      }
      PieceTaken(s, r, piece, strm.Pending(), before);
      var taken := sink.Receive(piece);
      if !taken {
        return false;
      }
      r := r + n;
    }
    return true;
  }

  lemma PieceTaken(s: string, r: nat, piece: string, rest: string, before: string)
    requires r <= |s| && s[r..] == piece + rest
    ensures r + |piece| <= |s| && rest == s[r + |piece|..] && before + s[..r] + piece == before + s[..r + |piece|]
  {
    assert |s[r..]| == |piece| + |rest|;
    assert s[r..][..|piece|] == piece && s[r..][|piece|..] == rest;
    assert s[..r] + piece == s[..r + |piece|];
  }

  /** One getline as ChunkedSpec sees it: the line and the stream behind it. */
  method NextLine(reader: StreamLineReader) returns (ok: bool, line: string)
    requires reader.Valid() && reader.strm.Valid()
    modifies reader`fixedUsed, reader`growable, reader.fixedBuffer
    modifies reader.strm`wire, reader.strm`failed, reader.strm`readBuffOff, reader.strm`readBuffContentSize,
             reader.strm.readBuff
    ensures reader.Valid() && reader.strm.Valid() && (old(reader.strm.failed) ==> reader.strm.failed)
    ensures ok ==> reader.strm.failed == old(reader.strm.failed)
    ensures ok ==> LineReadable(old(reader.strm.Pending())) && line == LineOf(old(reader.strm.Pending()))
                   && reader.strm.Pending() == AfterLine(old(reader.strm.Pending()))
    ensures !ok && !reader.strm.failed ==>
              !LineReadable(old(reader.strm.Pending())) && reader.strm.Pending() == Unread(old(reader.strm.Pending()))
  {
    ghost var s := reader.strm.Pending();
    ok := reader.Getline();
    line := reader.Get();
    if ok {
      assert s[|line|..] == reader.strm.Pending();
    }
  }

  /** The bytes of one chunk and the line behind them, which must be empty. */
  method ReadChunk(reader: StreamLineReader, n: nat, sink: ContentSink) returns (ok: bool)
    requires reader.Valid() && reader.strm.Valid()
    modifies reader`fixedUsed, reader`growable, reader.fixedBuffer
    modifies reader.strm`wire, reader.strm`failed, reader.strm`readBuffOff, reader.strm`readBuffContentSize,
             reader.strm.readBuff, sink
    ensures reader.Valid() && reader.strm.Valid() && (old(reader.strm.failed) ==> reader.strm.failed)
    ensures |sink.data| <= |old(sink.data)| + n
    ensures var t := old(reader.strm.Pending());
            ok ==> reader.strm.failed == old(reader.strm.failed) && n <= |t| && EndsWithCrlf(t, n)
                   && sink.data == old(sink.data) + t[..n] && reader.strm.Pending() == AfterLine(t[n..])
    ensures var t := old(reader.strm.Pending());
            !ok && !reader.strm.failed && AcceptsAll(sink) ==>
              if |t| < n then sink.data == old(sink.data) + t
              else !EndsWithCrlf(t, n) && sink.data == old(sink.data) + t[..n]
  {
    ghost var t := reader.strm.Pending();
    ok := ReadContentWithLength(reader.strm, n, sink);
    if !ok {
      assert t[..|t|] == t;
      return false;
    }
    var line;
    ok, line := NextLine(reader);
    if ok && CString(line) != CRLF {
      ok := false;
    }
  }

  /** The lines behind the last chunk. */
  method ReadTrailers(reader: StreamLineReader) returns (res: ReadResult)
    requires reader.Valid() && reader.strm.Valid()
    modifies reader`fixedUsed, reader`growable, reader.fixedBuffer
    modifies reader.strm`wire, reader.strm`failed, reader.strm`readBuffOff, reader.strm`readBuffContentSize,
             reader.strm.readBuff
    ensures reader.Valid() && reader.strm.Valid()
    ensures var t := old(reader.strm.Pending());
            !reader.strm.failed ==>
              if LineReadable(t) then
                res == SkipTrailers(t).result && (res == Success ==> reader.strm.Pending() == SkipTrailers(t).rest)
              else res == Success && reader.strm.Pending() == Unread(t)
  {
    hide CString, LineReadable, LineOf, AfterLine, Unread, SkipTrailers;
    ghost var c := reader.strm.Pending();
    ghost var t := c;
    var ok, line := NextLine(reader);
    if !ok {
      return Success;
    }
    while CString(line) != CRLF
      invariant reader.Valid() && reader.strm.Valid() && reader.strm.failed == old(reader.strm.failed)
      invariant LineReadable(t) && LineReadable(c)
      invariant line == LineOf(c) && reader.strm.Pending() == AfterLine(c)
      invariant SkipTrailers(t) == SkipTrailers(c)
      decreases |c|
    {
      TrailerStep(c);
      if |line| > HEADER_MAX_LENGTH {
        return Error;
      }
      ghost var d := AfterLine(c);
      ok, line := NextLine(reader);
      if !ok {
        return Error;
      }
      c := d;
    }
    TrailerStep(c);
    return Success;
  }

  /** How the method must end if the socket held: as `o`, with `o.data` on top of `before`. */
  ghost predicate EndsAs(o: Outcome, res: ReadResult, before: string, data: string, pending: string) {
    res == o.result && data == before + o.data && (res == Success ==> pending == o.rest)
  }

  /** The read ends after `got` with `o`, which itself delivers `o.data`. */
  lemma EndsAfter(got: string, o: Outcome, res: ReadResult, before: string, data: string, pending: string)
    requires EndsAs(o, res, before + got, data, pending)
    ensures EndsAs(Prepend(got, o), res, before, data, pending)
  {
    assert before + got + o.data == before + (got + o.data);
  }

  lemma EndsEmpty(got: string, res: ReadResult, before: string, pending: string)
    requires res != Success
    ensures EndsAs(Prepend(got, Outcome(res, "", "")), res, before, before + got, pending)
  {
    assert got + "" == got;
  }

  lemma MoreGot(before: string, got: string, piece: string)
    ensures before + got + piece == before + (got + piece) && |got + piece| == |got| + |piece|
  {
  }

  /** The size lines and chunks, from the first line to the end of the message. */
  method ReadChunks(reader: StreamLineReader, limit: nat, sink: ContentSink) returns (res: ReadResult)
    requires reader.Valid() && reader.strm.Valid()
    modifies reader`fixedUsed, reader`growable, reader.fixedBuffer
    modifies reader.strm`wire, reader.strm`failed, reader.strm`readBuffOff, reader.strm`readBuffContentSize,
             reader.strm.readBuff, sink
    ensures reader.Valid() && reader.strm.Valid()
    ensures |sink.data| <= |old(sink.data)| + limit
    ensures !reader.strm.failed && AcceptsAll(sink) ==>
              EndsAs(Decode(old(reader.strm.Pending()), limit, 0), res, old(sink.data), sink.data, reader.strm.Pending())
  {
    hide Strtoul16, CString, LineReadable, LineOf, AfterLine, EndsWithCrlf, Unread, Decode, DecodeChunk, SkipTrailers, Prepend;
    ghost var s := reader.strm.Pending();
    ghost var before := sink.data;
    PrependNothing(Decode(s, limit, 0));
    var ok, line := NextLine(reader);
    if !ok {
      if !reader.strm.failed { Unreadable(s, limit, 0); }
      return Error;
    }
    var total: nat := 0;
    ghost var c := s;
    ghost var got := "";
    while true
      invariant reader.Valid() && reader.strm.Valid() && reader.strm.failed == old(reader.strm.failed)
      invariant total <= limit && |got| == total && sink.data == before + got
      invariant LineReadable(c) && line == LineOf(c) && reader.strm.Pending() == AfterLine(c)
      invariant Decode(s, limit, 0) == Prepend(got, Decode(c, limit, total))
      decreases limit - total
    {
      var size := Strtoul16(CString(line));
      BadSizeLine(c, limit, total);
      if size == NoDigits || size.value == ULONG_MAX {
        EndsEmpty(got, Error, before, reader.strm.Pending());
        return Error;
      }
      var n := size.value;
      if n == 0 {
        LastSizeLine(c, limit, total);
        res := ReadTrailers(reader);
        if !reader.strm.failed {
          EndsAfter(got, Decode(c, limit, total), res, before, sink.data, reader.strm.Pending());
        }
        return;
      }
      if limit - total < n {
        EndsEmpty(got, PayloadTooLarge, before, reader.strm.Pending());
        return PayloadTooLarge;
      }
      ghost var t := reader.strm.Pending();
      ChunkFollows(c, n, limit, total);
      ok := ReadChunk(reader, n, sink);
      if !ok {
        if !reader.strm.failed && AcceptsAll(sink) {
          EndsAfter(got, Decode(c, limit, total), Error, before, sink.data, reader.strm.Pending());
        }
        return Error;
      }
      PrependTwice(got, t[..n], Decode(AfterLine(t[n..]), limit, total + n));
      MoreGot(before, got, t[..n]);
      total := total + n;
      got := got + t[..n];
      c := AfterLine(t[n..]);
      ok, line := NextLine(reader);
      if !ok {
        if !reader.strm.failed {
          Unreadable(c, limit, total);
          EndsEmpty(got, Error, before, reader.strm.Pending());
        }
        return Error;
      }
    }
  }

  /** read_content_chunked: unless the socket fails, the result, the delivered bytes and the bytes left in
      the stream are those of Decode; and never more than the limit is delivered. */
  method ReadContentChunked(strm: SocketStream, limit: nat, sink: ContentSink) returns (res: ReadResult)
    requires strm.Valid()
    modifies strm`wire, strm`failed, strm`readBuffOff, strm`readBuffContentSize, strm.readBuff, sink
    ensures strm.Valid()
    ensures |sink.data| <= |old(sink.data)| + limit
    ensures !strm.failed && AcceptsAll(sink) ==>
              EndsAs(Decode(old(strm.Pending()), limit, 0), res, old(sink.data), sink.data, strm.Pending())
  {
    var reader := new StreamLineReader(strm, LINE_BUFSIZ);
    res := ReadChunks(reader, limit, sink);
  }

  /** The data sink of write_content_chunked over a stream that takes every byte. */
  class ChunkedSink {
    var out: string
    var dataAvailable: bool

    constructor ()
      ensures out == "" && dataAvailable
    {
      out, dataAvailable := "", true;
    }

    method Write(d: string)
      modifies this
      ensures dataAvailable == (d != "")
      ensures out == old(out) + Emit(Action.Write(d))
    {
      dataAvailable := |d| > 0;
      if d != "" {
        var size := FromIToHex(|d|);
        out := out + (size + CRLF + d + CRLF);
      }
    }

    method Done()
      modifies this
      ensures !dataAvailable && out == old(out) + Emit(Action.Done)
    {
      dataAvailable := false;
      out := out + "0\r\n";
      out := out + CRLF;
    }
  }

  /** write_content_chunked: the provider is called while data is available, and each call acts on the
      sink any number of times. */
  method WriteContentChunked(calls: seq<seq<Action>>) returns (wire: string)
    ensures wire == Encode(calls)
  {
    hide EmitAll, Emit, Available;
    var sink := new ChunkedSink();
    var i := 0;
    while sink.dataAvailable && i < |calls|
      invariant 0 <= i <= |calls| && fresh(sink)
      invariant Encode(calls) == sink.out + if sink.dataAvailable then Encode(calls[i..]) else ""
    {
      ghost var out := sink.out;
      CallProvider(sink, calls[i]);
      EncodeNext(calls, i, out);
      i := i + 1;
    }
    wire := sink.out;
    assert calls[|calls|..] == [];
  }

  /** One call of the content provider. */
  method CallProvider(sink: ChunkedSink, call: seq<Action>)
    requires sink.dataAvailable
    modifies sink
    ensures sink.out == old(sink.out) + EmitAll(call) && sink.dataAvailable == Available(call)
  {
    hide EmitAll, Available, Emit;
    var j := 0;
    NoAction(call);
    while j < |call|
      invariant 0 <= j <= |call|
      invariant sink.out == old(sink.out) + EmitAll(call[..j]) && sink.dataAvailable == Available(call[..j])
    {
      NextAction(call, j);
      ghost var (before, sent) := (sink.out, EmitAll(call[..j]));
      match call[j] {
        case Write(d) => sink.Write(d);
        case Done => sink.Done();
      }
      assert sink.out == before + Emit(call[j]);
      Appended(old(sink.out), sent, Emit(call[j]));
      j := j + 1;
    }
    assert call[..j] == call;
  }

  lemma Appended(a: string, b: string, c: string)
    ensures (a + b) + c == a + (b + c)
  {
  }

  lemma NoAction(call: seq<Action>)
    ensures EmitAll(call[..0]) == "" && Available(call[..0])
  {
  }

  lemma NextAction(call: seq<Action>, j: nat)
    requires j < |call|
    ensures EmitAll(call[..j + 1]) == EmitAll(call[..j]) + Emit(call[j])
    ensures Available(call[..j + 1]) == (call[j].Write? && call[j].data != "")
  {
    hide Emit;
    assert call[..j + 1][..j] == call[..j];
  }

  lemma EncodeNext(calls: seq<seq<Action>>, i: nat, out: string)
    requires i < |calls|
    ensures out + Encode(calls[i..]) ==
            out + EmitAll(calls[i]) + if Available(calls[i]) then Encode(calls[i + 1..]) else ""
  {
    hide EmitAll, Available;
    assert calls[i..][1..] == calls[i + 1..];
  }

  /** What the writer puts on the wire comes out of the reader, however the socket cuts it,
      and what follows stays in the stream. */
  method Transfer(calls: seq<seq<string>>, last: seq<string>, following: string, limit: nat)
    returns (res: ReadResult, data: string, broken: bool, ghost left: string)
    requires NoneEndsEmpty(calls) && Sized(Flat(calls, last))
    ensures |data| <= limit
    ensures var payload := Payload(Flat(calls, last));
            !broken && |payload| <= limit ==> res == Success && data == payload && left == following
    ensures !broken && |Payload(Flat(calls, last))| > limit ==>
              res == PayloadTooLarge && data == Fitting(Flat(calls, last), limit, 0)
  {
    hide Decode, Encode, Provider, Flat, Payload, Fitting;
    var wire := WriteContentChunked(Provider(calls, last));
    var strm := new SocketStream(wire + following);
    var sink := new ContentSink(_ => true);
    res := ReadContentChunked(strm, limit, sink);
    RoundTrip(calls, last, following, limit, 0);
    data, broken, left := sink.data, strm.failed, strm.Pending();
  }
}
