/**
 Chunked transfer coding (section 7.1 of RFC 9112) as httplib.h writes it
 (write_content_chunked, httplib.h:5149-5246) and reads it back
 (read_content_chunked, httplib.h:4760-4881), without compressors and declared trailers.
 */
module ChunkedSpec {
  import opened Text
  import opened Hex
  import opened Streams

  const HEADER_MAX_LENGTH := 8192

  datatype ReadResult = Success | PayloadTooLarge | Error

  /** How a read ends, what it has delivered and, on success, what it leaves in the stream. */
  datatype Outcome = Outcome(result: ReadResult, data: string, rest: string)

  function Prepend(data: string, o: Outcome): Outcome {
    o.(data := data + o.data)
  }

  /** What C string functions see of a line: everything before the first NUL. */
  function CString(s: string): string {
    if s == "" || s[0] == '\0' then "" else [s[0]] + CString(s[1..])
  }

  function AfterLine(s: string): string {
    s[|LineOf(s)|..]
  }

  /** The lines behind the last chunk, `s` starting at one that could be read. */
  function SkipTrailers(s: string): Outcome
    requires LineReadable(s)
    decreases |s|
  {
    if CString(LineOf(s)) == CRLF then Outcome(Success, "", AfterLine(s))
    else if |LineOf(s)| > HEADER_MAX_LENGTH then Outcome(Error, "", "")
    else if !LineReadable(AfterLine(s)) then Outcome(Error, "", "")
    else SkipTrailers(AfterLine(s))
  }

  /** The reader on the stream `s`, `total` bytes into the payload. */
  function Decode(s: string, limit: nat, total: nat): Outcome
    decreases |s|
  {
    if !LineReadable(s) then Outcome(Error, "", "")
    else
      match Strtoul16(CString(LineOf(s)))
      case NoDigits => Outcome(Error, "", "")
      case Number(n) =>
        if n == ULONG_MAX then Outcome(Error, "", "")
        else if n == 0 then
          // An unreadable line here is taken as the end of the message.
          if LineReadable(AfterLine(s)) then SkipTrailers(AfterLine(s)) else Outcome(Success, "", Unread(AfterLine(s)))
        else if total > limit || limit - total < n then Outcome(PayloadTooLarge, "", "")
        else DecodeChunk(AfterLine(s), n, limit, total + n)
  }

  /** The `n` bytes of one chunk and the CRLF behind them. */
  function DecodeChunk(s: string, n: nat, limit: nat, total: nat): Outcome
    decreases |s|
  {
    if |s| < n then Outcome(Error, s, "")
    else
      var t := s[n..];
      if !LineReadable(t) || CString(LineOf(t)) != CRLF then Outcome(Error, s[..n], "")
      else Prepend(s[..n], Decode(AfterLine(t), limit, total))
  }

  /** What the content provider does with the data sink. */
  datatype Action = Write(data: string) | Done

  function Chunk(data: string): string {
    ToHex(|data|) + CRLF + data + CRLF
  }

  const LAST_CHUNK: string := "0\r\n" + CRLF

  /** The bytes of one action; an empty write sends none. */
  function Emit(a: Action): string {
    match a
    case Done => LAST_CHUNK
    case Write(d) => if d == "" then "" else Chunk(d)
  }

  /** The bytes of one call of the provider, which may act any number of times. */
  function EmitAll(call: seq<Action>): string {
    if call == [] then "" else EmitAll(call[..|call| - 1]) + Emit(call[|call| - 1])
  }

  /** data_available behind a call: what its last action makes it. */
  predicate Available(call: seq<Action>) {
    call == [] || (call[|call| - 1].Write? && call[|call| - 1].data != "")
  }

  /** The bytes on the wire: the provider is called while data is available. */
  function Encode(calls: seq<seq<Action>>): string {
    if calls == [] then ""
    else EmitAll(calls[0]) + if Available(calls[0]) then Encode(calls[1..]) else ""
  }

  function Payload(writes: seq<string>): string {
    if writes == [] then "" else writes[0] + Payload(writes[1..])
  }

  function Writes(writes: seq<string>): seq<Action> {
    if writes == [] then [] else Writes(writes[..|writes| - 1]) + [Write(writes[|writes| - 1])]
  }

  /** Calls that only write, and one that writes and is done. */
  function Provider(calls: seq<seq<string>>, last: seq<string>): seq<seq<Action>> {
    if calls == [] then [Writes(last) + [Done]] else [Writes(calls[0])] + Provider(calls[1..], last)
  }

  /** All writes in order. */
  function Flat(calls: seq<seq<string>>, last: seq<string>): seq<string> {
    if calls == [] then last else calls[0] + Flat(calls[1..], last)
  }
}

module ChunkedRoundTrip {
  import opened Text
  import opened Hex
  import opened Streams
  import opened ChunkedSpec

  /** Each write fits an unsigned long. */
  predicate Sized(writes: seq<string>) {
    forall i :: 0 <= i < |writes| ==> |writes[i]| < ULONG_MAX
  }

  lemma {:induction false} CStringClean(s: string)
    requires '\0' !in s
    ensures CString(s) == s
  {
    if s != "" {
      CStringClean(s[1..]);
    }
  }

  /** A line without CR of its own is found, whatever follows. */
  lemma LineAt(line: string, rest: string)
    requires '\r' !in line && |line| + 2 <= MAX_LINE_LENGTH
    ensures var s := line + CRLF + rest;
            LineReadable(s) && LineOf(s) == line + CRLF && AfterLine(s) == rest
  {
    var s := line + CRLF + rest;
    assert s[|line|..|line| + 2] == CRLF;
    forall j: nat | j < |line|
      ensures !OccursAt(s, CRLF, j)
    {
      assert s[j] == line[j];
      Mismatch(s, CRLF, j, 0);
    }
    FindIs(s, CRLF, |line|);
    assert s[..|line| + 2] == line + CRLF;
  }

  lemma {:induction false} HexShort(n: nat, k: nat)
    requires n < Pow16(k) && k > 0
    ensures |ToHex(n)| <= k
    decreases k
  {
    if n >= 16 {
      HexShort(n / 16, k - 1);
    }
  }

  function Pow16(k: nat): nat {
    if k == 0 then 1 else 16 * Pow16(k - 1)
  }

  lemma SizeLine(n: nat, rest: string)
    requires n < ULONG_MAX
    ensures var s := ToHex(n) + CRLF + rest;
            LineReadable(s) && AfterLine(s) == rest && Strtoul16(CString(LineOf(s))) == Number(n)
  {
    var h := ToHex(n);
    assert Pow16(16) == ULONG_MAX + 1 by {
      assert Pow16(4) == 0x1_0000 && Pow16(8) == 0x1_0000_0000 && Pow16(12) == 0x1_0000_0000_0000;
    }
    HexShort(n, 16);
    assert '\r' !in h;
    LineAt(h, rest);
    CStringClean(h + CRLF);
    SizeReadBack(n, CRLF);
  }

  lemma BlankLine(rest: string)
    ensures var s := CRLF + rest;
            LineReadable(s) && LineOf(s) == CRLF && CString(LineOf(s)) == CRLF && AfterLine(s) == rest
  {
    LineAt("", rest);
    assert "" + CRLF + rest == CRLF + rest && "" + CRLF == CRLF;
    CStringClean(CRLF);
  }

  lemma LastChunkDecodes(rest: string, limit: nat, total: nat)
    ensures Decode(LAST_CHUNK + rest, limit, total) == Outcome(Success, "", rest)
  {
    assert ToHex(0) == "0";
    assert LAST_CHUNK + rest == ToHex(0) + CRLF + (CRLF + rest);
    SizeLine(0, CRLF + rest);
    BlankLine(rest);
  }

  lemma Assoc(h: string, c: string, d: string, r: string)
    ensures h + c + d + c + r == h + c + (d + (c + r))
  {
  }

  lemma ChunkSplit(d: string, rest: string)
    ensures Chunk(d) + rest == ToHex(|d|) + CRLF + (d + (CRLF + rest))
  {
    Assoc(ToHex(|d|), CRLF, d, rest);
  }

  lemma ChunkBytes(d: string, rest: string, limit: nat, total: nat)
    ensures DecodeChunk(d + (CRLF + rest), |d|, limit, total) == Prepend(d, Decode(rest, limit, total))
  {
    var s := d + (CRLF + rest);
    assert s[..|d|] == d && s[|d|..] == CRLF + rest;
    BlankLine(rest);
  }

  lemma SizedLine(s: string, n: nat, t: string, limit: nat, total: nat)
    requires LineReadable(s) && AfterLine(s) == t && Strtoul16(CString(LineOf(s))) == Number(n)
    requires 0 < n < ULONG_MAX && total + n <= limit
    ensures Decode(s, limit, total) == DecodeChunk(t, n, limit, total + n)
  {
    hide Strtoul16, CString, LineReadable, LineOf, AfterLine, DecodeChunk, SkipTrailers, Unread;
  }

  lemma ChunkDecodes(d: string, rest: string, limit: nat, total: nat)
    requires 0 < |d| < ULONG_MAX && total + |d| <= limit
    ensures Decode(Chunk(d) + rest, limit, total) == Prepend(d, Decode(rest, limit, total + |d|))
  {
    ChunkSplit(d, rest);
    ChunkOnStream(Chunk(d) + rest, d, rest, limit, total);
  }

  lemma ChunkOnStream(s: string, d: string, rest: string, limit: nat, total: nat)
    requires 0 < |d| < ULONG_MAX && total + |d| <= limit
    requires s == ToHex(|d|) + CRLF + (d + (CRLF + rest))
    ensures Decode(s, limit, total) == Prepend(d, Decode(rest, limit, total + |d|))
  {
    hide *;
    var tail := d + (CRLF + rest);
    SizeLine(|d|, tail);
    SizedLine(s, |d|, tail, limit, total);
    ChunkBytes(d, rest, limit, total + |d|);
  }

  lemma ChunkTooLarge(d: string, rest: string, limit: nat, total: nat)
    requires 0 < |d| < ULONG_MAX && limit < total + |d|
    ensures Decode(Chunk(d) + rest, limit, total) == Outcome(PayloadTooLarge, "", "")
  {
    ChunkSplit(d, rest);
    SizeLine(|d|, d + (CRLF + rest));
  }

  /** The longest run of whole writes that stays within the limit. */
  function Fitting(writes: seq<string>, limit: nat, total: nat): string {
    if writes == [] || total + |writes[0]| > limit then ""
    else writes[0] + Fitting(writes[1..], limit, total + |writes[0]|)
  }

  /** The chunks of the writes. */
  function Body(writes: seq<string>): string {
    if writes == [] then "" else Emit(Write(writes[0])) + Body(writes[1..])
  }

  /** What reading all of `writes` comes to. */
  function Expected(writes: seq<string>, rest: string, limit: nat, total: nat): Outcome {
    if total + |Payload(writes)| <= limit then Outcome(Success, Payload(writes), rest)
    else Outcome(PayloadTooLarge, Fitting(writes, limit, total), "")
  }

  /** What the reader makes of some chunks and the bytes behind them. */
  function AfterBody(writes: seq<string>, rest: string, limit: nat, total: nat): Outcome {
    if total + |Payload(writes)| <= limit
    then Prepend(Payload(writes), Decode(rest, limit, total + |Payload(writes)|))
    else Outcome(PayloadTooLarge, Fitting(writes, limit, total), "")
  }

  lemma AfterBodyStep(writes: seq<string>, rest: string, limit: nat, total: nat)
    requires writes != [] && total <= limit
    ensures var d := writes[0];
            AfterBody(writes, rest, limit, total) ==
            if total + |d| > limit then Outcome(PayloadTooLarge, "", "")
            else Prepend(d, AfterBody(writes[1..], rest, limit, total + |d|))
  {
    hide Decode;
    var (d, p) := (writes[0], Payload(writes[1..]));
    if total + |d| <= limit && total + |Payload(writes)| <= limit {
      PrependTwice(d, p, Decode(rest, limit, total + |d| + |p|));
    }
  }

  lemma PrependTwice(a: string, b: string, o: Outcome)
    ensures Prepend(a, Prepend(b, o)) == Prepend(a + b, o)
  {
    assert a + (b + o.data) == a + b + o.data;
  }

  lemma PrependNothing(o: Outcome)
    ensures Prepend("", o) == o
  {
    assert "" + o.data == o.data;
  }

  lemma BodySplit(writes: seq<string>, rest: string)
    requires writes != []
    ensures Body(writes) + rest == Emit(Write(writes[0])) + (Body(writes[1..]) + rest)
  {
    hide Emit;
  }

  /** Writes of any size, empty ones too, are read back in order, as far as they fit the limit. */
  lemma {:induction false} BodyDecodes(writes: seq<string>, rest: string, limit: nat, total: nat)
    requires Sized(writes) && total <= limit
    ensures Decode(Body(writes) + rest, limit, total) == AfterBody(writes, rest, limit, total)
    decreases |writes|
  {
    hide Decode, AfterBody, Body, Chunk, Prepend;
    if writes == [] {
      NoBody(writes, rest, limit, total);
    } else {
      var d := writes[0];
      BodySplit(writes, rest);
      AfterBodyStep(writes, rest, limit, total);
      if total + |d| <= limit {
        BodyDecodes(writes[1..], rest, limit, total + |d|);
        if d == "" {
          EmptyEmits(Body(writes[1..]) + rest);
          PrependNothing(AfterBody(writes[1..], rest, limit, total));
        } else {
          ChunkDecodes(d, Body(writes[1..]) + rest, limit, total);
        }
      } else {
        ChunkTooLarge(d, Body(writes[1..]) + rest, limit, total);
      }
    }
  }

  lemma EmptyEmits(rest: string)
    ensures Emit(Write("")) + rest == rest
  {
  }

  lemma NoBody(writes: seq<string>, rest: string, limit: nat, total: nat)
    requires writes == [] && total <= limit
    ensures Decode(Body(writes) + rest, limit, total) == AfterBody(writes, rest, limit, total)
  {
    hide Decode;
    assert Body(writes) + rest == rest;
    PrependNothing(Decode(rest, limit, total));
  }

  // ---- what the provider's calls put on the wire ----

  lemma {:induction false} EmitWrites(writes: seq<string>)
    ensures EmitAll(Writes(writes)) == Body(writes)
    decreases |writes|
  {
    hide Emit;
    if writes != [] {
      var (front, d) := (writes[..|writes| - 1], writes[|writes| - 1]);
      EmitWrites(front);
      assert Writes(writes)[..|Writes(writes)| - 1] == Writes(front);
      BodyPlus(front, [d]);
      assert writes == front + [d] && [d][1..] == [] && Body([d]) == Emit(Write(d)) + Body([]);
    }
  }

  lemma {:induction false} BodyPlus(a: seq<string>, b: seq<string>)
    ensures Body(a + b) == Body(a) + Body(b)
    decreases |a|
  {
    hide Emit;
    if a == [] {
      assert a + b == b;
    } else {
      BodyPlus(a[1..], b);
      assert (a + b)[1..] == a[1..] + b;
    }
  }

  /** The call leaves no data available, although it is not done. */
  predicate EndsEmpty(call: seq<string>) {
    call != [] && call[|call| - 1] == ""
  }

  predicate NoneEndsEmpty(calls: seq<seq<string>>) {
    forall i :: 0 <= i < |calls| ==> !EndsEmpty(calls[i])
  }

  lemma WritesAvailable(call: seq<string>)
    ensures Available(Writes(call)) <==> !EndsEmpty(call)
  {
  }

  lemma EncodeCall(calls: seq<seq<string>>, last: seq<string>)
    requires calls != []
    ensures Encode(Provider(calls, last)) ==
            Body(calls[0]) + if EndsEmpty(calls[0]) then "" else Encode(Provider(calls[1..], last))
  {
    hide EmitAll, Available;
    EmitWrites(calls[0]);
    WritesAvailable(calls[0]);
    assert Provider(calls, last)[1..] == Provider(calls[1..], last);
  }

  lemma EncodeLast(last: seq<string>)
    ensures Encode(Provider([], last)) == Body(last) + LAST_CHUNK
  {
    hide Emit, Body;
    var call := Writes(last) + [Done];
    assert call[..|call| - 1] == Writes(last);
    EmitWrites(last);
    assert EmitAll(call) == Body(last) + Emit(Done);
    DoneEmits();
  }

  lemma DoneEmits()
    ensures Emit(Done) == LAST_CHUNK
  {
  }

  /** If no call ends with an empty write, all chunks go out and the last chunk behind them. */
  lemma {:induction false} EncodeWhole(calls: seq<seq<string>>, last: seq<string>)
    requires NoneEndsEmpty(calls)
    ensures Encode(Provider(calls, last)) == Body(Flat(calls, last)) + LAST_CHUNK
    decreases |calls|
  {
    hide Encode, Provider, Body, EndsEmpty;
    if calls == [] {
      EncodeLast(last);
    } else {
      EncodeCall(calls, last);
      EncodeWhole(calls[1..], last);
      BodyPlus(calls[0], Flat(calls[1..], last));
    }
  }

  function FirstEndsEmpty(calls: seq<seq<string>>): (k: nat)
    requires !NoneEndsEmpty(calls)
    ensures k < |calls| && EndsEmpty(calls[k]) && NoneEndsEmpty(calls[..k])
  {
    if EndsEmpty(calls[0]) then 0
    else
      assert !NoneEndsEmpty(calls[1..]) by {
        var i :| 0 <= i < |calls| && EndsEmpty(calls[i]);
        assert calls[1..][i - 1] == calls[i];
      }
      var k := FirstEndsEmpty(calls[1..]);
      assert NoneEndsEmpty(calls[..k + 1]) by {
        var front := calls[..k + 1];
        forall i | 0 <= i < |front|
          ensures !EndsEmpty(front[i])
        {
          if i > 0 { assert calls[1..][..k][i - 1] == calls[i]; }
        }
      }
      k + 1
  }

  /** The first call that does so is the last one made, and nothing follows its chunks. */
  lemma {:induction false} EncodeCutOff(calls: seq<seq<string>>, last: seq<string>, k: nat)
    requires k < |calls| && EndsEmpty(calls[k]) && NoneEndsEmpty(calls[..k])
    ensures Encode(Provider(calls, last)) == Body(Flat(calls[..k], calls[k]))
    decreases k
  {
    hide Encode, Provider, Body, EndsEmpty;
    EncodeCall(calls, last);
    if k == 0 {
      assert calls[..0] == [] && Body(calls[0]) + "" == Body(calls[0]);
    } else {
      assert calls[..k][0] == calls[0] && calls[..k][1..] == calls[1..][..k - 1];
      NoneOfRest(calls, k);
      EncodeCutOff(calls[1..], last, k - 1);
      BodyPlus(calls[0], Flat(calls[1..][..k - 1], calls[k]));
    }
  }

  lemma NoneOfRest(calls: seq<seq<string>>, k: nat)
    requires 0 < k < |calls| && NoneEndsEmpty(calls[..k])
    ensures !EndsEmpty(calls[0]) && NoneEndsEmpty(calls[1..][..k - 1])
  {
    var middle := calls[1..][..k - 1];
    forall i | 0 <= i < |middle|
      ensures !EndsEmpty(middle[i])
    {
      assert calls[..k][i + 1] == calls[i + 1];
    }
    assert calls[..k][0] == calls[0];
  }

  /** Whatever is written is read back exactly, and the following bytes are left alone, if it fits the
      limit; if it does not, the whole writes that fit are delivered and PayloadTooLarge is returned. */
  lemma RoundTrip(calls: seq<seq<string>>, last: seq<string>, rest: string, limit: nat, total: nat)
    requires NoneEndsEmpty(calls) && Sized(Flat(calls, last)) && total <= limit
    ensures Decode(Encode(Provider(calls, last)) + rest, limit, total) ==
            Expected(Flat(calls, last), rest, limit, total)
  {
    hide Decode, Encode, Provider, Body, Flat;
    var writes := Flat(calls, last);
    EncodeWhole(calls, last);
    assert Body(writes) + LAST_CHUNK + rest == Body(writes) + (LAST_CHUNK + rest);
    BodyDecodes(writes, LAST_CHUNK + rest, limit, total);
    LastChunkDecodes(rest, limit, total + |Payload(writes)|);
    assert Payload(writes) + "" == Payload(writes);
  }

  predicate EndsWithCrlf(t: string, n: nat)
    requires n <= |t|
  {
    LineReadable(t[n..]) && CString(LineOf(t[n..])) == CRLF
  }

  lemma ChunkFollows(c: string, n: nat, limit: nat, total: nat)
    requires LineReadable(c) && Strtoul16(CString(LineOf(c))) == Number(n)
    requires 0 < n < ULONG_MAX && total + n <= limit
    ensures var t := AfterLine(c);
            Decode(c, limit, total) ==
            if |t| < n then Outcome(Error, t, "")
            else if !EndsWithCrlf(t, n) then Outcome(Error, t[..n], "")
            else Prepend(t[..n], Decode(AfterLine(t[n..]), limit, total + n))
  {
    hide Strtoul16, CString, LineReadable, LineOf;
  }

  /** The other ways a size line ends the read. */
  lemma LastSizeLine(c: string, limit: nat, total: nat)
    requires LineReadable(c) && Strtoul16(CString(LineOf(c))) == Number(0)
    ensures var t := AfterLine(c);
            Decode(c, limit, total) == (if LineReadable(t) then SkipTrailers(t) else Outcome(Success, "", Unread(t)))
            && Decode(c, limit, total).data == ""
  {
    hide Strtoul16, CString, LineReadable, LineOf;
    if LineReadable(AfterLine(c)) {
      TrailersDeliverNothing(AfterLine(c));
    }
  }

  lemma BadSizeLine(c: string, limit: nat, total: nat)
    requires LineReadable(c)
    ensures var size := Strtoul16(CString(LineOf(c)));
            && (size == NoDigits || size == Number(ULONG_MAX) ==> Decode(c, limit, total) == Outcome(Error, "", ""))
            && (size.Number? && 0 < size.value < ULONG_MAX && limit < total + size.value ==>
                  Decode(c, limit, total) == Outcome(PayloadTooLarge, "", ""))
  {
    hide Strtoul16, CString, LineReadable, LineOf;
  }

  lemma Unreadable(s: string, limit: nat, total: nat)
    requires !LineReadable(s)
    ensures Decode(s, limit, total) == Outcome(Error, "", "")
  {
  }

  lemma TrailerStep(c: string)
    requires LineReadable(c)
    ensures |AfterLine(c)| < |c|
    ensures CString(LineOf(c)) != CRLF && |LineOf(c)| <= HEADER_MAX_LENGTH && LineReadable(AfterLine(c)) ==>
              SkipTrailers(c) == SkipTrailers(AfterLine(c))
    ensures CString(LineOf(c)) == CRLF ==> SkipTrailers(c) == Outcome(Success, "", AfterLine(c))
    ensures CString(LineOf(c)) != CRLF && (|LineOf(c)| > HEADER_MAX_LENGTH || !LineReadable(AfterLine(c))) ==>
              SkipTrailers(c) == Outcome(Error, "", "")
  {
    hide CString;
    assert |LineOf(c)| > 0;
  }

  lemma {:induction false} TrailersDeliverNothing(s: string)
    requires LineReadable(s)
    ensures SkipTrailers(s).data == "" && SkipTrailers(s).result != PayloadTooLarge
    decreases |s|
  {
    if CString(LineOf(s)) != CRLF && LineReadable(AfterLine(s)) {
      TrailersDeliverNothing(AfterLine(s));
    }
  }

  /** On any stream at all, no more than the limit is ever delivered. */
  lemma {:induction false} NeverOverLimit(s: string, limit: nat, total: nat)
    requires total <= limit
    ensures total + |Decode(s, limit, total).data| <= limit
    decreases |s|
  {
    hide Strtoul16, CString, LineReadable, LineOf;
    if LineReadable(s) && Strtoul16(CString(LineOf(s))).Number? {
      var n := Strtoul16(CString(LineOf(s))).value;
      var t := AfterLine(s);
      if n == 0 {
        if LineReadable(t) {
          TrailersDeliverNothing(t);
        }
      } else if n < ULONG_MAX && total + n <= limit {
        ChunkFollows(s, n, limit, total);
        if |t| < n {
          assert Decode(s, limit, total).data == t;
        } else if EndsWithCrlf(t, n) {
          NeverOverLimit(AfterLine(t[n..]), limit, total + n);
        } else {
          assert Decode(s, limit, total).data == t[..n];
        }
      } else {
        assert Decode(s, limit, total).data == "";
      }
    }
  }

  // ---- which writes arrive ----

  lemma {:induction false} TrailersShorten(s: string)
    requires LineReadable(s)
    ensures SkipTrailers(s).result == Success ==> |SkipTrailers(s).rest| < |s|
    decreases |s|
  {
    hide CString;
    assert |LineOf(s)| > 0;
    if CString(LineOf(s)) != CRLF && LineReadable(AfterLine(s)) {
      TrailersShorten(AfterLine(s));
    }
  }

  /** A successful read takes something from the stream. */
  lemma {:induction false} ReadShortens(s: string, limit: nat, total: nat)
    ensures Decode(s, limit, total).result == Success ==> |Decode(s, limit, total).rest| < |s|
    decreases |s|
  {
    hide Strtoul16, CString, LineReadable, SkipTrailers, LineOf, Unread;
    if LineReadable(s) && Strtoul16(CString(LineOf(s))).Number? {
      var n := Strtoul16(CString(LineOf(s))).value;
      var t := AfterLine(s);
      LineTakes(s);
      if n == 0 {
        LastSizeLine(s, limit, total);
        if LineReadable(t) { TrailersShorten(t); } else { UnreadShorter(t); }
      } else if n < ULONG_MAX && total + n <= limit {
        ChunkFollows(s, n, limit, total);
        if n <= |t| && EndsWithCrlf(t, n) {
          LineTakes(t[n..]);
          ReadShortens(AfterLine(t[n..]), limit, total + n);
        }
      } else {
        BadSizeLine(s, limit, total);
      }
    }
  }

  lemma LineTakes(s: string)
    requires LineReadable(s)
    ensures |AfterLine(s)| < |s|
  {
    assert |LineOf(s)| > 0;
  }

  lemma UnreadShorter(s: string)
    ensures |Unread(s)| <= |s|
  {
  }

  /** A call that ends with an empty write is the last one: the terminating chunk is never sent, and the
      reader goes on with whatever follows; at the end of the stream it reports an error. */
  lemma EmptyWriteLosesTerminator(calls: seq<seq<string>>, last: seq<string>, k: nat, rest: string, limit: nat,
                                  total: nat)
    requires k < |calls| && EndsEmpty(calls[k]) && NoneEndsEmpty(calls[..k])
    requires var sent := Flat(calls[..k], calls[k]); Sized(sent) && total + |Payload(sent)| <= limit
    ensures var sent := Flat(calls[..k], calls[k]);
            Decode(Encode(Provider(calls, last)) + rest, limit, total) ==
            Prepend(Payload(sent), Decode(rest, limit, total + |Payload(sent)|))
            && (rest == "" ==> Decode(Encode(Provider(calls, last)) + rest, limit, total) ==
                               Outcome(Error, Payload(sent), ""))
  {
    hide Decode, Encode, Provider, Body, EndsEmpty, Payload;
    var sent := Flat(calls[..k], calls[k]);
    EncodeCutOff(calls, last, k);
    BodyDecodes(sent, rest, limit, total);
    if rest == "" {
      Unreadable(rest, limit, total + |Payload(sent)|);
      assert Payload(sent) + "" == Payload(sent);
    }
  }

  lemma {:induction false} PayloadPlus(a: seq<string>, b: seq<string>)
    ensures Payload(a + b) == Payload(a) + Payload(b)
    decreases |a|
  {
    if a == [] {
      assert a + b == b;
    } else {
      PayloadPlus(a[1..], b);
      assert (a + b)[1..] == a[1..] + b;
    }
  }

  /** The writes of the first calls are a prefix of all. */
  lemma {:induction false} FlatPrefix(calls: seq<seq<string>>, last: seq<string>, k: nat) returns (more: seq<string>)
    requires k < |calls|
    ensures Flat(calls, last) == Flat(calls[..k], calls[k]) + more
    decreases k
  {
    if k == 0 {
      more := Flat(calls[1..], last);
    } else {
      more := FlatPrefix(calls[1..], last, k - 1);
      assert calls[..k][0] == calls[0] && calls[..k][1..] == calls[1..][..k - 1];
      assert calls[0] + (Flat(calls[1..][..k - 1], calls[k]) + more) == calls[0] + Flat(calls[1..][..k - 1], calls[k]) + more;
    }
  }

  /** Within the limit everything arrives, with the following bytes left alone, if and only if no call
      before the one that is done ends with an empty write. */
  lemma WritesArriveExactly(calls: seq<seq<string>>, last: seq<string>, rest: string, limit: nat, total: nat)
    requires var writes := Flat(calls, last); Sized(writes) && total + |Payload(writes)| <= limit
    ensures Decode(Encode(Provider(calls, last)) + rest, limit, total) ==
            Outcome(Success, Payload(Flat(calls, last)), rest)
            <==> NoneEndsEmpty(calls)
  {
    hide Decode, Encode, Provider, Flat, Payload, NoneEndsEmpty;
    if NoneEndsEmpty(calls) {
      RoundTrip(calls, last, rest, limit, total);
    } else {
      var k := FirstEndsEmpty(calls);
      var sent := Flat(calls[..k], calls[k]);
      var more := FlatPrefix(calls, last, k);
      PayloadPlus(sent, more);
      SizedPrefix(sent, more);
      EmptyWriteLosesTerminator(calls, last, k, rest, limit, total);
      ReadShortens(rest, limit, total + |Payload(sent)|);
    }
  }

  lemma SizedPrefix(a: seq<string>, b: seq<string>)
    requires Sized(a + b)
    ensures Sized(a)
  {
    assert forall i :: 0 <= i < |a| ==> a[i] == (a + b)[i];
  }
}
