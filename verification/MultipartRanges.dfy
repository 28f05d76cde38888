/**
 multipart/byteranges bodies (section 14.6 of RFC 9110): the one traversal
 process_multipart_ranges_data (httplib.h:6024-6059) under its three interpretations
 (httplib.h:6061-6109), and what range_error guarantees them.
 */
module MultipartRanges {
  import opened Ranges
  import opened RangeProperties
  import opened RangeMeaning
  import opened Decimal

  const CRLF: string := "\r\n"

  /** get_range_offset_and_length; its asserts are the precondition. */
  function OffsetAndLength(r: Range, len: nat): (p: (nat, nat))
    requires InBounds(r, len)
    ensures p.1 > 0 && p.0 + p.1 <= len && p.1 == Size(r)
  {
    (r.first, r.last - r.first + 1)
  }

  function ContentRange(offset: nat, length: nat, total: nat): string {
    "bytes " + ToText(offset) + "-" + ToText(offset + length - 1) + "/" + ToText(total)
  }

  function TypeLine(contentType: string): string {
    if contentType == "" then "" else "Content-Type: " + contentType + CRLF
  }

  function PartHead(r: Range, boundary: string, contentType: string, total: nat): string
    requires InBounds(r, total)
  {
    var (offset, length) := OffsetAndLength(r, total);
    "--" + boundary + CRLF + TypeLine(contentType) + ("Content-Range: " + ContentRange(offset, length, total) + CRLF) + CRLF
  }

  function Slice(body: string, r: Range): string
    requires InBounds(r, |body|)
  {
    body[r.first..r.last + 1]
  }

  /** The parts of the body, each with exactly the requested slice. */
  function Parts(rs: seq<Range>, boundary: string, contentType: string, body: string): string
    requires AllInBounds(rs, |body|)
  {
    if rs == [] then ""
    else
      var front := rs[..|rs| - 1];
      Parts(front, boundary, contentType, body)
      + PartHead(rs[|rs| - 1], boundary, contentType, |body|) + Slice(body, rs[|rs| - 1]) + CRLF
  }

  function Body(rs: seq<Range>, boundary: string, contentType: string, body: string): string
    requires AllInBounds(rs, |body|)
  {
    Parts(rs, boundary, contentType, body) + "--" + boundary + "--"
  }

  /** What the traversal does with a token and with a span of content. */
  datatype Target = Materialise(data: string) | Count(length: nat) | Stream(sent: string)

  function Token(t: Target, token: string): Target {
    match t
    case Materialise(d) => Materialise(d + token)
    case Count(n) => Count(n + |token|)
    case Stream(s) => Stream(s + token)
  }

  /** The target stands for the bytes emitted so far. */
  predicate Holds(t: Target, bytes: string) {
    match t
    case Materialise(d) => d == bytes
    case Count(n) => n == |bytes|
    case Stream(s) => s == bytes
  }

  /** write_content: the provider supplies the span in pieces of any size. */
  method WriteContent(sent: string, body: string, offset: nat, length: nat) returns (out: string)
    requires offset + length <= |body|
    ensures out == sent + body[offset..offset + length]
  {
    out := sent;
    var at := offset;
    while at < offset + length
      invariant offset <= at <= offset + length && out == sent + body[offset..at]
    {
      var n: nat :| 1 <= n <= offset + length - at;
      assert body[offset..at] + body[at..at + n] == body[offset..at + n];
      out := out + body[at..at + n];
      at := at + n;
    }
  }

  method Content(t: Target, body: string, offset: nat, length: nat) returns (u: Target)
    requires offset + length <= |body|
    ensures u == Token(t, body[offset..offset + length])
  {
    match t {
      case Materialise(d) => u := Materialise(d + body[offset..offset + length]);
      case Count(n) => u := Count(n + length);
      case Stream(s) =>
        var sent := WriteContent(s, body, offset, length);
        u := Stream(sent);
    }
  }

  /** process_multipart_ranges_data. */
  method ProcessMultipartRanges(rs: seq<Range>, boundary: string, contentType: string, body: string, start: Target)
    returns (t: Target)
    requires AllInBounds(rs, |body|) && Holds(start, "")
    ensures Holds(t, Body(rs, boundary, contentType, body))
    ensures start.Materialise? ==> t.Materialise?
    ensures start.Count? ==> t.Count?
    ensures start.Stream? ==> t.Stream?
  {
    t := start;
    var i := 0;
    while i < |rs|
      invariant 0 <= i <= |rs|
      invariant Holds(t, Parts(rs[..i], boundary, contentType, body))
      invariant start.Materialise? ==> t.Materialise?
      invariant start.Count? ==> t.Count?
      invariant start.Stream? ==> t.Stream?
    {
      t := EmitPart(t, rs, i, boundary, contentType, body);
      i := i + 1;
    }
    assert rs[..|rs|] == rs;
    ghost var parts := Parts(rs, boundary, contentType, body);
    TokenHolds(t, parts, "--");
    t := Token(t, "--");
    TokenHolds(t, parts + "--", boundary);
    t := Token(t, boundary);
    TokenHolds(t, parts + "--" + boundary, "--");
    t := Token(t, "--");
  }

  lemma TokenHolds(t: Target, bytes: string, token: string)
    requires Holds(t, bytes)
    ensures Holds(Token(t, token), bytes + token)
    ensures t.Materialise? ==> Token(t, token).Materialise?
    ensures t.Count? ==> Token(t, token).Count?
    ensures t.Stream? ==> Token(t, token).Stream?
  {
  }

  method EmitPart(start: Target, rs: seq<Range>, i: nat, boundary: string, contentType: string, body: string)
    returns (t: Target)
    requires i < |rs| && AllInBounds(rs, |body|)
    requires Holds(start, Parts(rs[..i], boundary, contentType, body))
    ensures Holds(t, Parts(rs[..i + 1], boundary, contentType, body))
    ensures start.Materialise? ==> t.Materialise?
    ensures start.Count? ==> t.Count?
    ensures start.Stream? ==> t.Stream?
  {
    hide PartHead, Holds, Token;
    ghost var bytes := Parts(rs[..i], boundary, contentType, body);
    var (offset, length) := OffsetAndLength(rs[i], |body|);
    var head := PartHead(rs[i], boundary, contentType, |body|);
    TokenHolds(start, bytes, head);
    t := Token(start, head);
    TokenHolds(t, bytes + head, body[offset..offset + length]);
    t := Content(t, body, offset, length);
    TokenHolds(t, bytes + head + Slice(body, rs[i]), CRLF);
    t := Token(t, CRLF);
    PartsPlus(rs, i, boundary, contentType, body);
  }

  lemma PartsPlus(rs: seq<Range>, i: nat, boundary: string, contentType: string, body: string)
    requires i < |rs| && AllInBounds(rs, |body|)
    ensures Parts(rs[..i + 1], boundary, contentType, body) ==
            Parts(rs[..i], boundary, contentType, body) + PartHead(rs[i], boundary, contentType, |body|) + Slice(body, rs[i]) + CRLF
  {
    hide PartHead;
    assert rs[..i + 1][..i] == rs[..i];
  }

  /** What answers the ranges: one slice, or a part for each. */
  function Answer(rs: seq<Range>, boundary: string, contentType: string, body: string): string
    requires AllInBounds(rs, |body|)
  {
    if |rs| == 1 then Slice(body, rs[0]) else Body(rs, boundary, contentType, body)
  }

  /** Refused exactly when there are too many ranges or the list is not acceptable; otherwise what is left covers
      exactly the bytes asked for. The declared length, the materialised answer and the streamed answer agree, for every list that
      range_error lets through, and no more than three times the content is sent in slices. */
  method RespondWithRanges(req: Request, boundary: string, contentType: string, body: string)
    returns (err: bool, contentRange: string, declared: nat, data: string, sent: string)
    requires req.ranges != []
    modifies req
    ensures err <==> |old(req.ranges)| > 1024 || !Acceptable(old(req.ranges), |body|)
    ensures !err ==> forall x :: Covered(req.ranges, x) <==> AskedByAny(old(req.ranges), |body|, x)
    ensures !err ==> AllInBounds(req.ranges, |body|) && req.ranges != [] && Sum(req.ranges) <= 3 * |body|
    ensures !err ==> data == Answer(req.ranges, boundary, contentType, body) == sent && declared == |data|
    ensures contentRange == if !err && |req.ranges| == 1
                            then ContentRange(req.ranges[0].first, Size(req.ranges[0]), |body|) else ""
    ensures err ==> data == sent == "" && declared == 0
  {
    hide Validate, Acceptable, AskedByAny, Coalesced;
    AcceptedExactly(req.ranges, |body|);
    err := RangeError(req, 206, |body|);
    contentRange, declared, data, sent := "", 0, "", "";
    if !err {
      CoalescedMeans(old(req.ranges), |body|, req.ranges);
      AcceptedBound(old(req.ranges), |body|, req.ranges);
      if |req.ranges| == 1 {
        var (offset, length) := OffsetAndLength(req.ranges[0], |body|);
        contentRange := ContentRange(offset, length, |body|);
        declared, data := length, body[offset..offset + length];
        sent := WriteContent("", body, offset, length);
        assert "" + data == data;
      } else {
        var c := ProcessMultipartRanges(req.ranges, boundary, contentType, body, Count(0));
        var m := ProcessMultipartRanges(req.ranges, boundary, contentType, body, Materialise(""));
        var s := ProcessMultipartRanges(req.ranges, boundary, contentType, body, Stream(""));
        declared, data, sent := c.length, m.data, s.sent;
      }
    }
  }
}
