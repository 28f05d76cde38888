/**
 The whole of the serialized form against the parser (httplib.h:5551-5695, 5819-5874): which items come
 back under every way of cutting the body into `parse` calls.
 */
module MultipartLines {
  import opened Text
  import opened Disposition
  import opened DispositionRoundTrip
  import opened MultipartSpec
  import opened MultipartConfluence
  import opened MultipartRoundTrip
  import opened MultipartExact
  import opened MultipartSplits

  predicate PlainItems(items: seq<Part>) {
    forall i :: 0 <= i < |items| ==> HeadersPlain(items[i].info)
  }

  predicate LinesShort(items: seq<Part>) {
    forall i :: 0 <= i < |items| ==> LinesFit(items[i].info)
  }

  // ---- a header line that is not short ----

  /** Cut in front of the line and behind its CR. */
  lemma LineCut(env: Env, p: Parser, v: string, front: string, q: Parser, line: string, rest: string)
    requires v == front + (line + CRLF + rest)
    requires Run(env, At(p, front)) == (true, q) && q.view == "" && !Feed(env, q, line + "\r").0
    ensures |front| + |line| + 1 <= |v| && CutFails(env, p, v, |front|, |front| + |line| + 1)
  {
    hide Run, Feed;
    assert v[..|front|] == front;
    assert v[|front|..|front| + |line| + 1] == line + "\r";
  }

  lemma EntryLimitFails(env: Env, p: Parser, line: string)
    requires p.stage == NewEntry && p.view == "" && |line| >= HEADER_MAX_LENGTH && '\r' !in line
    ensures !Feed(env, p, line + "\r").0
  {
    var w := line + "\r";
    var h := p.(stage := Headers(false), info := EMPTY_INFO);
    assert "" + w == w;
    LimitFails(env, h, line);
    RunStep(env, At(p, w));
  }

  /** The first header line, alone in its read. */
  lemma FirstLineAlone(env: Env, p: Parser, line: string, info: FormInfo)
    requires p.stage == NewEntry && Reads(env, EMPTY_INFO, line, info)
    ensures Run(env, At(p, line + CRLF)) == (true, At(p.(stage := Headers(false), info := info), ""))
  {
    var h := At(p.(stage := Headers(false), info := EMPTY_INFO), "");
    var v := line + CRLF;
    assert v + "" == v && "" + v == v;
    RunStep(env, At(p, v));
    FirstLineChecked(env, h, line, "");
    LineRead(env, h.(stage := Headers(true)), line, info, "");
    RunEmpty(env, At(h.(stage := Headers(true), info := info), ""));
  }

  lemma FirstLineCut(env: Env, p: Parser, line: string, tail: string)
    requires p.stage == NewEntry && p.view == line + CRLF + tail && |line| >= HEADER_MAX_LENGTH && '\r' !in line
    ensures |line| + 1 <= |p.view| && CutFails(env, p, p.view, 0, |line| + 1)
  {
    hide Run, Feed, CutFails;
    RunEmpty(env, At(p, ""));
    EntryLimitFails(env, At(p, ""), line);
    assert "" + (line + CRLF + tail) == line + CRLF + tail;
    LineCut(env, p, p.view, "", At(p, ""), line, tail);
  }

  lemma SecondLineCut(env: Env, p: Parser, line: string, info: FormInfo, t: string, tail: string)
    requires p.stage == NewEntry && p.view == line + CRLF + (t + CRLF + tail) && Reads(env, EMPTY_INFO, line, info)
    requires |t| >= HEADER_MAX_LENGTH && '\r' !in t
    ensures |line + CRLF| + |t| + 1 <= |p.view|
    ensures CutFails(env, p, p.view, |line + CRLF|, |line + CRLF| + |t| + 1)
  {
    hide Run, Feed, CutFails;
    var q := At(p.(stage := Headers(false), info := info), "");
    FirstLineAlone(env, p, line, info);
    LimitFails(env, q, t);
    LineCut(env, p, p.view, line + CRLF, q, t, tail);
  }

  lemma LongLineCut(env: Env, decodePath: string -> string, p: Parser, info: FormInfo, rest: string)
    returns (n: nat, k: nat)
    requires StandardHeaders(env, decodePath) && HeadersPlain(info) && !LinesFit(info)
    requires p.stage == NewEntry && p.view == HeaderLines(info) + rest
    ensures n <= k <= |p.view| && CutFails(env, p, p.view, n, k)
  {
    hide DispositionLine, ContentTypeLine, Run, Feed, CutFails, HeadersPlain, HeaderLines, HandleHeader;
    var (line, t) := (DispositionLine(info), ContentTypeLine(info));
    DispositionParses(decodePath, info);
    HeaderLinesSplit(info, rest);
    if |line| >= HEADER_MAX_LENGTH {
      FirstLineCut(env, p, line, if info.contentType == "" then CRLF + rest else t + CRLF + (CRLF + rest));
      n, k := 0, |line| + 1;
    } else {
      ShortType(info);
      ContentTypeParses(decodePath, info);
      SecondLineCut(env, p, line, info.(contentType := ""), t, CRLF + rest);
      n, k := |line + CRLF|, |line + CRLF| + |t| + 1;
    }
  }

  lemma ShortType(info: FormInfo)
    requires |ContentTypeLine(info)| >= HEADER_MAX_LENGTH
    ensures info.contentType != ""
  {
  }

  // ---- the first item that does not come through ----

  /** A good section is read through, with any bytes behind it or none. */
  lemma SectionRun(env: Env, decodePath: string -> string, p: Parser, item: Part, v: string)
    requires BoundaryCharsValid(env.boundary) && Survives(item, env.boundary) && p.stage == NewEntry
    requires Receives(env) && StandardHeaders(env, decodePath)
    ensures Run(env, At(p, HeaderLines(item.info) + (item.content + env.CrlfDashBoundary() + (CRLF + v)))) ==
            Run(env, At(p.(info := item.info, parts := p.parts + [item]), v))
  {
    hide HeaderLines, HeadersSurvive, Run;
    var n := At(p.(info := item.info, parts := p.parts + [item]), v);
    NextSectionYields(env, n.(stage := Delimiter, view := CRLF + v), v, Same(Run(env, n)));
    var view := HeaderLines(item.info) + (item.content + env.CrlfDashBoundary() + (CRLF + v));
    SectionYields(env, decodePath, At(p, view), item, CRLF + v, Same(Run(env, n)));
  }

  lemma SectionFront(h: string, c: string, d: string, v: string)
    ensures h + (c + d + (CRLF + v)) == (h + (c + d + CRLF)) + v
  {
  }

  lemma CutBehind(front: string, v: string, n: nat, k: nat)
    requires n <= k <= |v|
    ensures (front + v)[..|front| + n] == front + v[..n] && (front + v)[|front| + n..|front| + k] == v[n..k]
  {
  }

  /** A cut that fails behind a good section fails in front of it. */
  lemma CutBehindSection(env: Env, decodePath: string -> string, p: Parser, item: Part, v: string, n: nat, k: nat)
    returns (c: nat)
    requires BoundaryCharsValid(env.boundary) && Survives(item, env.boundary) && p.stage == NewEntry
    requires Receives(env) && StandardHeaders(env, decodePath)
    requires p.view == HeaderLines(item.info) + (item.content + env.CrlfDashBoundary() + (CRLF + v))
    requires n <= k <= |v| && CutFails(env, p.(info := item.info, parts := p.parts + [item]), v, n, k)
    ensures c + k <= |p.view| && CutFails(env, p, p.view, c + n, c + k)
  {
    hide HeaderLines, HeadersSurvive, Run, Feed;
    var front := HeaderLines(item.info) + (item.content + env.CrlfDashBoundary() + CRLF);
    c := |front|;
    SectionFront(HeaderLines(item.info), item.content, env.CrlfDashBoundary(), v);
    SectionFront(HeaderLines(item.info), item.content, env.CrlfDashBoundary(), v[..n]);
    CutBehind(front, v, n, k);
    SectionRun(env, decodePath, p, item, v[..n]);
  }

  /** Whatever follows: if some header line is not short or some content holds the delimiter, then some cut
      fails, or the items are not what a single call delivers. */
  lemma {:induction false} SectionsSpoiled(env: Env, decodePath: string -> string, p: Parser, items: seq<Part>, tail: string)
    returns (n: nat, k: nat)
    requires items != [] && BoundaryCharsValid(env.boundary) && PlainItems(items)
    requires !(LinesShort(items) && FreeContents(items, env.boundary))
    requires p.stage == NewEntry && p.view == Sections(items, env.boundary) + tail
    requires Receives(env) && StandardHeaders(env, decodePath)
    ensures n <= k <= |p.view|
    ensures CutFails(env, p, p.view, n, k) || Run(env, p).1.parts != p.parts + items
    decreases |items|
  {
    hide Sections, HeaderLines, HeadersPlain, LinesFit, CutFails, Run;
    SectionsTail(items, env.boundary, tail);
    var item := items[0];
    var rest := if |items| == 1 then DASH + tail else CRLF + (Sections(items[1..], env.boundary) + tail);
    if !LinesFit(item.info) {
      n, k := LongLineCut(env, decodePath, p, item.info, item.content + env.CrlfDashBoundary() + rest);
    } else if Contains(item.content, env.CrlfDashBoundary()) {
      n, k := 0, 0;
      FirstSectionBad(env, decodePath, p, item, rest);
    } else {
      LaterSpoiled(items, env.boundary);
      var v := Sections(items[1..], env.boundary) + tail;
      var q := p.(info := item.info, parts := p.parts + [item]);
      n, k := SectionsSpoiled(env, decodePath, At(q, v), items[1..], tail);
      assert q.parts + items[1..] == p.parts + items;
      assert At(p, p.view) == p;
      SectionRun(env, decodePath, p, item, v);
      if CutFails(env, At(q, v), v, n, k) {
        SameCut(env, At(q, v), q, v, n, k);
        var c := CutBehindSection(env, decodePath, p, item, v, n, k);
        n, k := c + n, c + k;
      } else {
        n, k := 0, 0;
      }
    }
  }

  lemma SameCut(env: Env, p: Parser, q: Parser, v: string, n: nat, k: nat)
    requires n <= k <= |v| && p == At(q, v) && CutFails(env, p, v, n, k)
    ensures CutFails(env, q, v, n, k)
  {
    hide Run, Feed;
    assert At(p, v[..n]) == At(q, v[..n]);
  }

  lemma LaterSpoiled(items: seq<Part>, boundary: string)
    requires items != [] && PlainItems(items) && !(LinesShort(items) && FreeContents(items, boundary))
    requires LinesFit(items[0].info) && !Contains(items[0].content, CRLF + DASH + boundary)
    ensures items[1..] != [] && PlainItems(items[1..])
    ensures !(LinesShort(items[1..]) && FreeContents(items[1..], boundary))
  {
    hide HeadersPlain, LinesFit, Contains;
    var i :| 0 <= i < |items| && (!LinesFit(items[i].info) || Contains(items[i].content, CRLF + DASH + boundary));
    assert items[1..][i - 1] == items[i];
  }

  // ---- the exact condition ----

  /** However the body is cut into calls, they deliver exactly the items, validly. */
  ghost predicate AlwaysDelivers(env: Env, items: seq<Part>) {
    forall chunks | Concat(chunks) == Serialize(items, env.boundary) ::
      var (ok, q) := FeedAll(env, INIT, chunks); ok && q.valid && q.parts == items
  }

  lemma PreambleRun(env: Env, v: string)
    ensures Run(env, At(INIT, env.DashBoundaryCrlf() + v)) == Run(env, At(INIT.(stage := NewEntry), v))
  {
    hide Run;
    var n := At(INIT.(stage := NewEntry), v);
    PreambleYields(env, At(INIT, env.DashBoundaryCrlf() + v), v, Same(Run(env, n)));
  }

  lemma Spoiled(env: Env, decodePath: string -> string, items: seq<Part>) returns (chunks: seq<string>)
    requires items != [] && BoundaryCharsValid(env.boundary) && PlainItems(items)
    requires !(LinesShort(items) && FreeContents(items, env.boundary))
    requires Receives(env) && StandardHeaders(env, decodePath)
    ensures Concat(chunks) == Serialize(items, env.boundary)
    ensures var (ok, q) := FeedAll(env, INIT, chunks); !ok || q.parts != items
  {
    hide Run, Serialize, Sections, CutFails;
    var body := Serialize(items, env.boundary);
    var (d, v) := (env.DashBoundaryCrlf(), Sections(items, env.boundary) + CRLF);
    SerializeSections(items, env.boundary);
    assert body == d + v;
    var p := At(INIT.(stage := NewEntry), v);
    var n, k := SectionsSpoiled(env, decodePath, p, items, CRLF);
    if CutFails(env, p, v, n, k) {
      PreambleCut(env, v, n, k);
      chunks := Cut(body, |d| + n, |d| + k);
      CutIsWhole(body, |d| + n, |d| + k);
      CutFailsAll(env, INIT, body, |d| + n, |d| + k);
    } else {
      chunks := [body];
      OneChunk(env, INIT, body);
      PreambleRun(env, v);
      assert "" + body == body && Plus(INIT, body) == At(INIT, body);
      assert INIT.parts + items == items;
    }
  }

  lemma PreambleCut(env: Env, v: string, n: nat, k: nat)
    requires n <= k <= |v| && CutFails(env, At(INIT.(stage := NewEntry), v), v, n, k)
    ensures var d := env.DashBoundaryCrlf(); CutFails(env, INIT, d + v, |d| + n, |d| + k)
  {
    hide Run, Feed;
    CutBehind(env.DashBoundaryCrlf(), v, n, k);
    PreambleRun(env, v[..n]);
    SameCut(env, At(INIT.(stage := NewEntry), v), INIT.(stage := NewEntry), v, n, k);
  }

  /** Items with plain headers come back from every cut of their serialized form if and only if all their
      header lines are shorter than the limit and no content holds the delimiter. */
  lemma UploadExact(env: Env, decodePath: string -> string, items: seq<Part>)
    requires items != [] && BoundaryCharsValid(env.boundary) && PlainItems(items)
    requires Receives(env) && StandardHeaders(env, decodePath)
    ensures AlwaysDelivers(env, items) <==> LinesShort(items) && FreeContents(items, env.boundary)
  {
    hide Serialize, FeedAll, HeadersPlain, LinesFit, Contains;
    if LinesShort(items) && FreeContents(items, env.boundary) {
      forall chunks | Concat(chunks) == Serialize(items, env.boundary)
        ensures var (ok, q) := FeedAll(env, INIT, chunks); ok && q.valid && q.parts == items
      {
        RoundTrip(env, decodePath, items, chunks);
      }
    } else {
      var chunks := Spoiled(env, decodePath, items);
    }
  }
}
