/**
 Where the multipart round trip ends: content that holds the delimiter.
 */
module MultipartExact {
  import opened Text
  import opened Disposition
  import opened DispositionRoundTrip
  import opened MultipartSpec
  import opened MultipartConfluence
  import opened MultipartRoundTrip

  /** Parts no later step can touch: all but the one whose body is open. */
  function Closed(p: Parser): nat {
    if p.stage == Body && p.parts != [] then |p.parts| - 1 else |p.parts|
  }

  lemma StepKeepsClosed(env: Env, p: Parser)
    ensures var r := Step(env, p); Closed(p) <= Closed(r.p) && r.p.parts[..Closed(p)] == p.parts[..Closed(p)]
  {
    if p.stage == Body && p.parts != [] {
      BodyKeepsClosed(env, p, env.CrlfDashBoundary());
    }
  }

  lemma BodyKeepsClosed(env: Env, p: Parser, d: string)
    requires p.stage == Body && p.parts != [] && d != ""
    ensures var r := BodyStep(env, p, d); Closed(p) <= Closed(r.p) && r.p.parts[..Closed(p)] == p.parts[..Closed(p)]
  {
  }

  lemma {:induction false} RunKeepsClosed(env: Env, p: Parser)
    ensures var q := Run(env, p).1; Closed(p) <= |q.parts| && q.parts[..Closed(p)] == p.parts[..Closed(p)]
    decreases |p.view|, Rank(p.stage)
  {
    if p.view != "" {
      StepKeepsClosed(env, p);
      var r := Step(env, p);
      if r.Next? {
        RunStep(env, p);
        RunKeepsClosed(env, r.p);
        assert Run(env, p).1.parts[..Closed(r.p)][..Closed(p)] == Run(env, p).1.parts[..Closed(p)];
      }
    }
  }

  /** A body that holds the delimiter is delivered short. */
  lemma BodyCutShort(env: Env, p: Parser, content: string, rest: string)
    requires Receives(env) && p.stage == Body && p.parts != []
    requires var d := env.CrlfDashBoundary(); p.view == content + d + rest && Contains(content, d)
    ensures var q := Run(env, p).1;
            |p.parts| <= |q.parts| && |q.parts[|p.parts| - 1].content| < |p.parts[|p.parts| - 1].content| + |content|
  {
    var d := env.CrlfDashBoundary();
    var pos := Find(p.view, d);
    var i: nat :| OccursAt(content, d, i);
    EarlyDelimiter(content, d, rest, i);
    BodyCases(env, p, d, pos);
    RunStep(env, p);
    var q := Step(env, p).p;
    RunKeepsClosed(env, q);
    var k := |p.parts| - 1;
    assert q.parts[..Closed(q)][k] == q.parts[k];
    assert Run(env, p).1.parts[..Closed(q)][k] == Run(env, p).1.parts[k];
  }

  lemma EarlyDelimiter(content: string, d: string, rest: string, i: nat)
    requires d != "" && OccursAt(content, d, i)
    ensures Find(content + d + rest, d) < |content|
  {
    var v := content + d + rest;
    assert v == content + (d + rest);
    OccursInPrefix(content, d + rest, d, i);
    FindFirst(v, d);
  }

  predicate GoodHeaders(items: seq<Part>) {
    forall i :: 0 <= i < |items| ==> HeadersSurvive(items[i].info)
  }

  ghost predicate FreeContents(items: seq<Part>, boundary: string) {
    forall i :: 0 <= i < |items| ==> !Contains(items[i].content, CRLF + DASH + boundary)
  }

  lemma FirstSectionBad(env: Env, decodePath: string -> string, p: Parser, item: Part, rest: string)
    requires BoundaryCharsValid(env.boundary) && HeadersSurvive(item.info)
    requires Contains(item.content, env.CrlfDashBoundary())
    requires p.stage == NewEntry && p.view == HeaderLines(item.info) + (item.content + env.CrlfDashBoundary() + rest)
    requires Receives(env) && StandardHeaders(env, decodePath)
    ensures var q := Run(env, p).1; |p.parts| < |q.parts| && q.parts[|p.parts|] != item
  {
    var tail := item.content + env.CrlfDashBoundary() + rest;
    var b := p.(stage := Body, view := tail, info := item.info, parts := p.parts + [Part(item.info, "")]);
    HeadersYield(env, decodePath, p, item.info, tail, Same(Run(env, b)));
    BodyCutShort(env, b, item.content, rest);
  }

  lemma SectionsTail(items: seq<Part>, boundary: string, tail: string)
    requires items != []
    ensures Sections(items, boundary) + tail ==
            HeaderLines(items[0].info) + (items[0].content + (CRLF + DASH + boundary) +
            if |items| == 1 then DASH + tail else CRLF + (Sections(items[1..], boundary) + tail))
  {
    SectionsSplit(items, boundary);
    var (h, c, d) := (HeaderLines(items[0].info), items[0].content, CRLF + DASH + boundary);
    if |items| == 1 {
      TailAssoc(h, c, d, DASH, "", tail);
    } else {
      TailAssoc(h, c, d, CRLF, Sections(items[1..], boundary), tail);
    }
  }

  lemma TailAssoc(h: string, c: string, d: string, r: string, s: string, tail: string)
    ensures h + (c + d + (r + s)) + tail == h + (c + d + (r + (s + tail)))
    ensures s == "" ==> h + (c + d + r) + tail == h + (c + d + (r + tail))
  {
    assert h + (c + d + (r + s)) + tail == h + (c + d + ((r + s) + tail));
    if s == "" {
      assert r + s == r;
    }
  }

  /** Whatever follows, a content that holds the delimiter keeps the items from being delivered. */
  lemma {:induction false} SectionsBad(env: Env, decodePath: string -> string, p: Parser, items: seq<Part>, tail: string)
    requires items != [] && BoundaryCharsValid(env.boundary) && GoodHeaders(items)
    requires !FreeContents(items, env.boundary)
    requires p.stage == NewEntry && p.view == Sections(items, env.boundary) + tail
    requires Receives(env) && StandardHeaders(env, decodePath)
    ensures Run(env, p).1.parts != p.parts + items
    decreases |items|
  {
    hide Sections, HeaderLines, HeadersSurvive;
    SectionsTail(items, env.boundary, tail);
    if Contains(items[0].content, env.CrlfDashBoundary()) {
      var rest := if |items| == 1 then DASH + tail else CRLF + (Sections(items[1..], env.boundary) + tail);
      FirstSectionBad(env, decodePath, p, items[0], rest);
    } else {
      LaterBad(items, env.boundary);
      var n := p.(info := items[0].info, parts := p.parts + [items[0]], view := Sections(items[1..], env.boundary) + tail);
      SectionsBad(env, decodePath, n, items[1..], tail);
      assert p.parts + items == n.parts + items[1..];
      assert Survives(items[0], env.boundary);
      NextSectionYields(env, n.(stage := Delimiter, view := CRLF + n.view), n.view, Same(Run(env, n)));
      SectionYields(env, decodePath, p, items[0], CRLF + n.view, Same(Run(env, n)));
    }
  }

  lemma LaterBad(items: seq<Part>, boundary: string)
    requires items != [] && GoodHeaders(items) && !FreeContents(items, boundary)
    requires !Contains(items[0].content, CRLF + DASH + boundary)
    ensures items[1..] != [] && GoodHeaders(items[1..]) && !FreeContents(items[1..], boundary)
  {
    var i :| 0 <= i < |items| && Contains(items[i].content, CRLF + DASH + boundary);
    assert items[1..][i - 1] == items[i];
  }

  /** With survivable headers, one call delivers exactly the items, validly,
      if and only if no content holds the delimiter. */
  lemma RoundTripExact(env: Env, decodePath: string -> string, items: seq<Part>)
    requires items != [] && BoundaryCharsValid(env.boundary) && GoodHeaders(items)
    requires Receives(env) && StandardHeaders(env, decodePath)
    ensures var (ok, q) := Feed(env, INIT, Serialize(items, env.boundary));
            (ok && q.valid && q.parts == items) <==> FreeContents(items, env.boundary)
  {
    var body := Serialize(items, env.boundary);
    if FreeContents(items, env.boundary) {
      assert forall i :: 0 <= i < |items| ==> Survives(items[i], env.boundary);
      OneChunk(env, INIT, body);
      RoundTrip(env, decodePath, items, [body]);
    } else {
      SerializeSections(items, env.boundary);
      BodyBad(env, decodePath, items, body);
    }
  }

  lemma OneChunk(env: Env, p: Parser, body: string)
    ensures FeedAll(env, p, [body]) == Feed(env, p, body) && Concat([body]) == body
  {
    assert [body][1..] == [];
    assert Concat([]) == "" && body + "" == body;
  }

  lemma BodyBad(env: Env, decodePath: string -> string, items: seq<Part>, body: string)
    requires items != [] && BoundaryCharsValid(env.boundary) && GoodHeaders(items)
    requires Receives(env) && StandardHeaders(env, decodePath)
    requires !FreeContents(items, env.boundary)
    requires body == (DASH + env.boundary + CRLF) + Sections(items, env.boundary) + CRLF
    ensures Feed(env, INIT, body).1.parts != items
  {
    var n := INIT.(stage := NewEntry, view := Sections(items, env.boundary) + CRLF);
    SectionsBad(env, decodePath, n, items, CRLF);
    assert INIT.parts + items == items;
    assert "" + body == env.DashBoundaryCrlf() + n.view;
    PreambleYields(env, Plus(INIT, body), n.view, Same(Run(env, n)));
  }
}
