/**
 The parser run on a whole upload, one `parse` call per read.
 */
module MultipartUpload {
  import opened Text
  import opened Disposition
  import opened MultipartSpec
  import opened MultipartConfluence
  import opened MultipartRoundTrip
  import opened FormDataParserClass

  /** One `parse` per chunk, stopping at the first false. */
  method ParseAll(parser: FormDataParser, rcv: Receiver, chunks: seq<string>) returns (ok: bool)
    requires parser.Valid()
    modifies parser, parser.buf, rcv
    ensures parser.Valid() && (parser.buf == old(parser.buf) || fresh(parser.buf))
    ensures parser.EnvOf(rcv) == old(parser.EnvOf(rcv))
    ensures (ok, parser.Abs(rcv)) == FeedAll(parser.EnvOf(rcv), old(parser.Abs(rcv)), chunks)
  {
    hide Feed;
    ghost var env := parser.EnvOf(rcv);
    ghost var start := parser.Abs(rcv);
    var i := 0;
    assert chunks[0..] == chunks;
    while i < |chunks|
      invariant 0 <= i <= |chunks| && parser.Valid() && parser.EnvOf(rcv) == env
      invariant parser.buf == old(parser.buf) || fresh(parser.buf)
      invariant FeedAll(env, start, chunks) == FeedAll(env, parser.Abs(rcv), chunks[i..])
    {
      assert chunks[i..][1..] == chunks[i + 1..] && chunks[i..][0] == chunks[i];
      ok := parser.Parse(chunks[i], rcv);
      if !ok {
        return false;
      }
      i := i + 1;
    }
    return true;
  }

  /** serialize_multipart_formdata: the items one after the other, then the closing line. */
  method SerializeItems(items: seq<Part>, boundary: string) returns (body: string)
    ensures body == Serialize(items, boundary)
  {
    hide ItemBytes;
    body := "";
    var i := 0;
    assert items[0..] == items && "" + Serialize(items, boundary) == Serialize(items, boundary);
    while i < |items|
      invariant 0 <= i <= |items| && body + Serialize(items[i..], boundary) == Serialize(items, boundary)
    {
      assert items[i..][1..] == items[i + 1..] && items[i..][0] == items[i];
      body := body + ItemBytes(items[i], boundary);
      i := i + 1;
    }
    body := body + (DASH + boundary + DASH + CRLF);
  }

  /** A receiver that accepts everything gets exactly the serialized items, whatever the reads were. */
  method Receive(items: seq<Part>, boundary: string, chunks: seq<string>, decodePath: string -> string)
    returns (valid: bool, parts: seq<Part>)
    requires items != [] && BoundaryCharsValid(boundary)
    requires forall i :: 0 <= i < |items| ==> Survives(items[i], boundary)
    requires Concat(chunks) == Serialize(items, boundary)
    ensures valid && parts == items
  {
    var rcv := new Receiver(_ => true, _ => true);
    var parser := new FormDataParser(decodePath);
    parser.SetBoundary(boundary);
    ghost var env := parser.EnvOf(rcv);
    assert parser.Abs(rcv) == INIT;
    RoundTrip(env, decodePath, items, chunks);
    var ok := ParseAll(parser, rcv, chunks);
    valid, parts := ok && parser.isValid, rcv.parts;
  }
}
