/**
 serialize_multipart_formdata (httplib.h:5819-5874) and FormDataParser are inverse,
 however the serialized body is cut into `parse` calls.
 */
module MultipartRoundTrip {
  import opened Text
  import opened Disposition
  import opened DispositionRoundTrip
  import opened MultipartSpec
  import opened MultipartConfluence

  /** is_multipart_boundary_chars_valid. */
  predicate BoundaryCharsValid(boundary: string) {
    forall i :: 0 <= i < |boundary| ==> IsAlnum(boundary[i]) || boundary[i] == '-' || boundary[i] == '_'
  }

  /** serialize_multipart_formdata_item_begin without the dash-boundary line. */
  function HeaderLines(info: FormInfo): string {
    DispositionLine(info) + CRLF +
    (if info.contentType == "" then "" else ContentTypeLine(info) + CRLF) + CRLF
  }

  function ItemBytes(item: Part, boundary: string): string {
    DASH + boundary + CRLF + HeaderLines(item.info) + item.content + CRLF
  }

  /** serialize_multipart_formdata with `finish`. */
  function Serialize(items: seq<Part>, boundary: string): string {
    if items == [] then DASH + boundary + DASH + CRLF
    else ItemBytes(items[0], boundary) + Serialize(items[1..], boundary)
  }

  /** The same bytes as the parser meets them: everything behind the first dash-boundary line,
      up to the closing dashes. */
  function Sections(items: seq<Part>, boundary: string): string
    requires items != []
  {
    HeaderLines(items[0].info) + items[0].content + (CRLF + DASH + boundary) +
    if |items| == 1 then DASH else CRLF + Sections(items[1..], boundary)
  }

  lemma LastSection(d: string, h: string, c: string)
    ensures (d + CRLF + h + c + CRLF) + (d + DASH + CRLF) == (d + CRLF) + (h + c + (CRLF + d) + DASH) + CRLF
  {
  }

  lemma InnerSection(d: string, h: string, c: string, s: string)
    ensures (d + CRLF + h + c + CRLF) + ((d + CRLF) + s + CRLF) == (d + CRLF) + (h + c + (CRLF + d) + (CRLF + s)) + CRLF
  {
  }

  lemma {:induction false} SerializeSections(items: seq<Part>, boundary: string)
    requires items != []
    ensures Serialize(items, boundary) == (DASH + boundary + CRLF) + Sections(items, boundary) + CRLF
  {
    var (h, c, d) := (HeaderLines(items[0].info), items[0].content, DASH + boundary);
    assert CRLF + DASH + boundary == CRLF + d;
    if |items| == 1 {
      LastSection(d, h, c);
    } else {
      SerializeSections(items[1..], boundary);
      InnerSection(d, h, c, Sections(items[1..], boundary));
    }
  }

  /** Without CR, `s` cannot run into a following delimiter that starts with CR. */
  lemma FindAfterClean(s: string, d: string, rest: string)
    requires d != "" && d[0] == '\r' && '\r' !in s
    ensures Find(s + d + rest, d) == |s|
  {
    var t := s + d + rest;
    assert t[|s|..|s| + |d|] == d;
    forall j: nat | j < |s|
      ensures !OccursAt(t, d, j)
    {
      assert t[j] == s[j];
      Mismatch(t, d, j, 0);
    }
    FindIs(t, d, |s|);
  }

  /** A delimiter whose only CR is its first byte overlaps neither itself nor content free of it. */
  lemma FindDelimiter(content: string, d: string, rest: string)
    requires d != "" && d[0] == '\r' && '\r' !in d[1..] && !Contains(content, d)
    ensures Find(content + d + rest, d) == |content|
  {
    var t := content + d + rest;
    assert t == content + (d + rest) && t[|content|..|content| + |d|] == d;
    forall j: nat | j < |content|
      ensures !OccursAt(t, d, j)
    {
      var k := |content| - j;
      if |d| <= k {
        assert !OccursAt(content, d, j);
        OccursInPrefix(content, d + rest, d, j);
      } else {
        assert d[k] == d[1..][k - 1] && t[j + k] == d[0];
        Mismatch(t, d, j, k);
      }
    }
    FindIs(t, d, |content|);
  }

  /** What a run is to come to: a proper close with these parts, or a given result. */
  datatype Goal = Delivers(parts: seq<Part>) | Same(result: (bool, Parser))

  ghost predicate Yields(env: Env, p: Parser, goal: Goal) {
    match goal
    case Delivers(parts) =>
      && Smooth(env, p)
      && var (ok, q) := Run(env, p);
         ok && q.stage == Delimiter && q.view == "" && q.valid && q.parts == parts
    case Same(result) => Run(env, p) == result
  }

  lemma YieldsStep(env: Env, p: Parser, goal: Goal)
    requires p.view != "" && Step(env, p).Next? && Yields(env, Step(env, p).p, goal)
    requires (p.stage.Headers? ==> LineShort(p.view)) && (Closes(p) ==> |p.view| == |DASH|)
    ensures Yields(env, p, goal)
  {
    RunStep(env, p);
  }

  ghost predicate Receives(env: Env) {
    AcceptsContent(env) && forall i :: env.acceptHeader(i)
  }

  ghost predicate StandardHeaders(env: Env, decodePath: string -> string) {
    forall i, l :: env.headerLine(i, l) == HandleHeader(decodePath, i, l)
  }

  lemma LineFound(line: string, rest: string)
    requires '\r' !in line && |line| < HEADER_MAX_LENGTH
    ensures var v := line + CRLF + rest;
            Find(v, CRLF) == |line| && LineShort(v) && v[..|line|] == line && v[|line| + |CRLF|..] == rest
  {
    FindAfterClean(line, CRLF, rest);
  }

  /** `line` is within the limit and takes the section info from `i` to `j`. */
  predicate Reads(env: Env, i: FormInfo, line: string, j: FormInfo) {
    && line != ""
    && '\r' !in line
    && |line| < HEADER_MAX_LENGTH
    && env.headerLine(i, line) == HeaderOutcome(true, j)
  }

  lemma HeaderLineYields(env: Env, p: Parser, line: string, rest: string, info: FormInfo, goal: Goal)
    requires p.stage == Headers(true) && p.view == line + CRLF + rest
    requires Reads(env, p.info, line, info)
    requires Yields(env, p.(view := rest, info := info), goal)
    ensures Yields(env, p, goal)
  {
    LineFound(line, rest);
    YieldsStep(env, p, goal);
  }

  lemma BlankLineYields(env: Env, p: Parser, rest: string, goal: Goal)
    requires p.stage == Headers(true) && p.view == CRLF + rest && Receives(env)
    requires Yields(env, p.(stage := Body, view := rest, parts := p.parts + [Part(p.info, "")]), goal)
    ensures Yields(env, p, goal)
  {
    LineFound("", rest);
    assert "" + CRLF + rest == CRLF + rest;
    YieldsStep(env, p, goal);
  }

  lemma BodyYields(env: Env, p: Parser, content: string, rest: string, goal: Goal)
    requires p.stage == Body && Receives(env)
    requires var d := env.CrlfDashBoundary();
             '\r' !in d[1..] && !Contains(content, d) && p.view == content + d + rest
    requires Yields(env, p.(stage := Delimiter, view := rest, parts := Deliver(p.parts, content)), goal)
    ensures Yields(env, p, goal)
  {
    var d := env.CrlfDashBoundary();
    FindDelimiter(content, d, rest);
    BodyCases(env, p, d, |content|);
    assert p.view[..|content|] == content && p.view[|content| + |d|..] == rest;
    YieldsStep(env, p, goal);
  }

  lemma CloseYields(env: Env, p: Parser)
    requires p.stage == Delimiter && p.view == DASH
    ensures Yields(env, p, Delivers(p.parts))
  {
    YieldsStep(env, p, Delivers(p.parts));
  }

  lemma NextSectionYields(env: Env, p: Parser, rest: string, goal: Goal)
    requires p.stage == Delimiter && p.view == CRLF + rest
    requires Yields(env, p.(stage := NewEntry, view := rest), goal)
    ensures Yields(env, p, goal)
  {
    assert p.view[|CRLF|..] == rest && p.view[..|CRLF|] == CRLF;
    YieldsStep(env, p, goal);
  }

  lemma HeaderEntryYields(env: Env, p: Parser, line: string, rest: string, goal: Goal)
    requires p.stage == NewEntry && p.view == line + CRLF + rest
    requires '\r' !in line && |line| < HEADER_MAX_LENGTH
    requires Yields(env, p.(stage := Headers(true), info := EMPTY_INFO), goal)
    ensures Yields(env, p, goal)
  {
    LineFound(line, rest);
    YieldsStep(env, p.(stage := Headers(false), info := EMPTY_INFO), goal);
    YieldsStep(env, p, goal);
  }

  lemma OneLineYields(env: Env, p: Parser, line: string, info: FormInfo, rest: string, goal: Goal)
    requires p.stage == NewEntry && p.view == line + CRLF + (CRLF + rest)
    requires Receives(env) && Reads(env, EMPTY_INFO, line, info)
    requires Yields(env, p.(stage := Body, view := rest, info := info, parts := p.parts + [Part(info, "")]), goal)
    ensures Yields(env, p, goal)
  {
    BlankLineYields(env, p.(stage := Headers(true), view := CRLF + rest, info := info), rest, goal);
    HeaderLineYields(env, p.(stage := Headers(true), info := EMPTY_INFO), line, CRLF + rest, info, goal);
    HeaderEntryYields(env, p, line, CRLF + rest, goal);
  }

  lemma TwoLinesYield(env: Env, p: Parser, line: string, i: FormInfo, line2: string, info: FormInfo, rest: string, goal: Goal)
    requires p.stage == NewEntry && p.view == line + CRLF + (line2 + CRLF + (CRLF + rest))
    requires Receives(env) && Reads(env, EMPTY_INFO, line, i) && Reads(env, i, line2, info)
    requires Yields(env, p.(stage := Body, view := rest, info := info, parts := p.parts + [Part(info, "")]), goal)
    ensures Yields(env, p, goal)
  {
    var rest1 := line2 + CRLF + (CRLF + rest);
    BlankLineYields(env, p.(stage := Headers(true), view := CRLF + rest, info := info), rest, goal);
    HeaderLineYields(env, p.(stage := Headers(true), view := rest1, info := i), line2, CRLF + rest, info, goal);
    HeaderLineYields(env, p.(stage := Headers(true), info := EMPTY_INFO), line, rest1, i, goal);
    HeaderEntryYields(env, p, line, rest1, goal);
  }

  lemma LinesRead(env: Env, decodePath: string -> string, info: FormInfo)
    requires StandardHeaders(env, decodePath) && HeadersSurvive(info)
    ensures Reads(env, EMPTY_INFO, DispositionLine(info), info.(contentType := ""))
    ensures info.contentType != "" ==> Reads(env, info.(contentType := ""), ContentTypeLine(info), info)
  {
    DispositionParses(decodePath, info);
    if info.contentType != "" {
      ContentTypeParses(decodePath, info);
    }
  }

  lemma HeaderLinesSplit(info: FormInfo, rest: string)
    ensures HeaderLines(info) + rest ==
            DispositionLine(info) + CRLF +
            if info.contentType == "" then CRLF + rest else ContentTypeLine(info) + CRLF + (CRLF + rest)
  {
    var (a, b) := (DispositionLine(info), ContentTypeLine(info));
    HeaderLinesAssoc(a, b, rest);
  }

  lemma HeaderLinesAssoc(a: string, b: string, rest: string)
    ensures a + CRLF + "" + CRLF + rest == a + CRLF + (CRLF + rest)
    ensures a + CRLF + (b + CRLF) + CRLF + rest == a + CRLF + (b + CRLF + (CRLF + rest))
  {
  }

  lemma HeadersYield(env: Env, decodePath: string -> string, p: Parser, info: FormInfo, rest: string, goal: Goal)
    requires p.stage == NewEntry && p.view == HeaderLines(info) + rest
    requires Receives(env) && StandardHeaders(env, decodePath) && HeadersSurvive(info)
    requires Yields(env, p.(stage := Body, view := rest, info := info, parts := p.parts + [Part(info, "")]), goal)
    ensures Yields(env, p, goal)
  {
    LinesRead(env, decodePath, info);
    HeaderLinesSplit(info, rest);
    if info.contentType == "" {
      OneLineYields(env, p, DispositionLine(info), info, rest, goal);
    } else {
      TwoLinesYield(env, p, DispositionLine(info), info.(contentType := ""), ContentTypeLine(info), info, rest, goal);
    }
  }

  /** What an item must be like to come back byte for byte. */
  ghost predicate Survives(item: Part, boundary: string) {
    HeadersSurvive(item.info) && !Contains(item.content, CRLF + DASH + boundary)
  }

  /** The delimiter has a single CR, in front. */
  lemma DelimiterShape(boundary: string)
    requires BoundaryCharsValid(boundary)
    ensures var d := CRLF + DASH + boundary; d[0] == '\r' && '\r' !in d[1..]
    ensures '\r' !in DASH + boundary
  {
  }

  /** From a section's first byte to the byte behind its delimiter. */
  lemma SectionYields(env: Env, decodePath: string -> string, p: Parser, item: Part, rest: string, goal: Goal)
    requires BoundaryCharsValid(env.boundary) && Survives(item, env.boundary)
    requires p.stage == NewEntry && p.view == HeaderLines(item.info) + (item.content + env.CrlfDashBoundary() + rest)
    requires Receives(env) && StandardHeaders(env, decodePath)
    requires Yields(env, p.(stage := Delimiter, view := rest, info := item.info, parts := p.parts + [item]), goal)
    ensures Yields(env, p, goal)
  {
    var tail := item.content + env.CrlfDashBoundary() + rest;
    DelimiterShape(env.boundary);
    DeliverFirst(p.parts, item.info, item.content);
    BodyYields(env, p.(stage := Body, view := tail, info := item.info, parts := p.parts + [Part(item.info, "")]),
               item.content, rest, goal);
    HeadersYield(env, decodePath, p, item.info, tail, goal);
  }

  lemma SectionsSplit(items: seq<Part>, boundary: string)
    requires items != []
    ensures Sections(items, boundary) ==
            HeaderLines(items[0].info) + (items[0].content + (CRLF + DASH + boundary) +
            if |items| == 1 then DASH else CRLF + Sections(items[1..], boundary))
  {
    hide HeaderLines;
    var d := CRLF + DASH + boundary;
    SectionAssoc(HeaderLines(items[0].info), items[0].content, d,
                 if |items| == 1 then DASH else CRLF + Sections(items[1..], boundary));
  }

  lemma SectionAssoc(h: string, c: string, d: string, r: string)
    ensures h + c + d + r == h + (c + d + r)
  {
  }

  lemma {:induction false} SectionsYield(env: Env, decodePath: string -> string, p: Parser, items: seq<Part>)
    requires items != [] && BoundaryCharsValid(env.boundary)
    requires p.stage == NewEntry && p.view == Sections(items, env.boundary)
    requires Receives(env) && StandardHeaders(env, decodePath)
    requires forall i :: 0 <= i < |items| ==> Survives(items[i], env.boundary)
    ensures Yields(env, p, Delivers(p.parts + items))
    decreases |items|
  {
    var all := Delivers(p.parts + items);
    var q := p.(stage := Delimiter, info := items[0].info, parts := p.parts + [items[0]]);
    SectionsSplit(items, env.boundary);
    if |items| == 1 {
      assert q.parts == all.parts;
      CloseYields(env, q.(view := DASH));
      SectionYields(env, decodePath, p, items[0], DASH, all);
    } else {
      var rest := Sections(items[1..], env.boundary);
      assert q.parts + items[1..] == all.parts;
      SectionsYield(env, decodePath, q.(stage := NewEntry, view := rest), items[1..]);
      NextSectionYields(env, q.(view := CRLF + rest), rest, all);
      SectionYields(env, decodePath, p, items[0], CRLF + rest, all);
    }
  }

  lemma DeliverFirst(parts: seq<Part>, info: FormInfo, content: string)
    ensures Deliver(parts + [Part(info, "")], content) == parts + [Part(info, content)]
  {
    var ps := parts + [Part(info, "")];
    assert ps[..|ps| - 1] == parts && "" + content == content;
  }

  /** The serialized body up to the closing dashes. */
  function Core(items: seq<Part>, boundary: string): string
    requires items != []
  {
    (DASH + boundary + CRLF) + Sections(items, boundary)
  }

  lemma FindHere(d: string, rest: string)
    requires d != ""
    ensures Find(d + rest, d) == 0
  {
    assert (d + rest)[0..|d|] == d;
    FindIs(d + rest, d, 0);
  }

  lemma PreambleYields(env: Env, p: Parser, rest: string, goal: Goal)
    requires p.stage == Preamble && p.view == env.DashBoundaryCrlf() + rest
    requires Yields(env, p.(stage := NewEntry, view := rest), goal)
    ensures Yields(env, p, goal)
  {
    var d := env.DashBoundaryCrlf();
    FindHere(d, rest);
    assert p.view[|d|..] == rest;
    YieldsStep(env, p, goal);
  }

  lemma CoreYields(env: Env, decodePath: string -> string, items: seq<Part>)
    requires items != [] && BoundaryCharsValid(env.boundary)
    requires Receives(env) && StandardHeaders(env, decodePath)
    requires forall i :: 0 <= i < |items| ==> Survives(items[i], env.boundary)
    ensures Yields(env, Plus(INIT, Core(items, env.boundary)), Delivers(items))
  {
    var rest := Sections(items, env.boundary);
    SectionsYield(env, decodePath, INIT.(stage := NewEntry, view := rest), items);
    assert INIT.parts + items == items;
    assert "" + Core(items, env.boundary) == Core(items, env.boundary);
    PreambleYields(env, Plus(INIT, Core(items, env.boundary)), rest, Delivers(items));
  }

  /** Behind the closing delimiter only bytes of the serializer's last CRLF are still to come. */
  predicate Done(p: Parser, rest: string) {
    && p.valid
    && (  (p.stage == Delimiter && p.view + rest in {"", "\n", "\r\n"})
       || (p.stage == NewEntry && p.view == "" && rest == ""))
  }

  lemma DoneFeed(env: Env, p: Parser, c: string, rest: string)
    requires Done(p, c + rest)
    ensures var (ok, q) := Feed(env, p, c); ok && Done(q, rest) && q.parts == p.parts
  {
    var v := p.view + c;
    assert p.view + (c + rest) == v + rest;
    assert |v| <= 2;
    if p.stage == Delimiter && |v| == 2 {
      assert v == "\r\n" && rest == "";
      assert v[|CRLF|..] == "";
      RunStep(env, Plus(p, c));
    }
  }

  lemma {:induction false} DoneFeedAll(env: Env, p: Parser, chunks: seq<string>)
    requires Done(p, Concat(chunks))
    ensures var (ok, q) := FeedAll(env, p, chunks); ok && q.valid && q.parts == p.parts
    decreases |chunks|
  {
    if chunks != [] {
      DoneFeed(env, p, chunks[0], Concat(chunks[1..]));
      DoneFeedAll(env, Feed(env, p, chunks[0]).1, chunks[1..]);
    }
  }

  lemma FirstChunk(a: string, b: string, core: string, tail: string)
    requires a + b == core + tail
    ensures |a| <= |core| ==> core == a + core[|a|..] && b == core[|a|..] + tail
    ensures |a| > |core| ==> a == core + a[|core|..] && tail == a[|core|..] + b
  {
    if |a| <= |core| {
      assert core[..|a|] == (core + tail)[..|a|] == a;
      assert b == (a + b)[|a|..] == core[|a|..] + tail;
    } else {
      assert a[..|core|] == (a + b)[..|core|] == core;
      assert tail == (core + tail)[|core|..] == a[|core|..] + b;
    }
  }

  /** A body cut anywhere, also inside the CRLF behind its closing delimiter. */
  lemma {:induction false} CutAnywhere(env: Env, p: Parser, chunks: seq<string>, core: string, parts: seq<Part>)
    requires Receives(env) && !p.valid && core != ""
    requires Concat(chunks) == core + CRLF && Yields(env, Plus(p, core), Delivers(parts))
    ensures var (ok, q) := FeedAll(env, p, chunks); ok && q.valid && q.parts == parts
    decreases |chunks|
  {
    var (c, b) := (chunks[0], Concat(chunks[1..]));
    FirstChunk(c, b, core, CRLF);
    if |c| <= |core| {
      var left := core[|c|..];
      PlusTwice(p, c, left);
      SmoothSplit(env, Plus(p, c), left);
      var q := Feed(env, p, c).1;
      if left != "" {
        CutAnywhere(env, q, chunks[1..], left, parts);
      } else {
        assert Plus(p, core) == Plus(p, c);
        assert b == CRLF;
        DoneFeedAll(env, q, chunks[1..]);
      }
    } else {
      PlusTwice(p, core, c[|core|..]);
      EpilogueIgnored(env, Plus(p, core), c[|core|..]);
      assert |c[|core|..]| + |b| == 2;
      TailLeft(c[|core|..], b);
      DoneFeedAll(env, Feed(env, p, c).1, chunks[1..]);
    }
  }

  lemma PlusTwice(p: Parser, a: string, b: string)
    ensures Plus(Plus(p, a), b) == Plus(p, a + b)
  {
    assert p.view + a + b == p.view + (a + b);
  }

  lemma TailLeft(a: string, b: string)
    requires a != "" && a + b == CRLF
    ensures "" + b in {"", "\n"}
  {
    assert b == (a + b)[|a|..] == CRLF[|a|..];
    assert CRLF[1..] == "\n" && CRLF[2..] == "";
    assert "" + b == b && (b == "" || b == "\n");
  }

  /** Every split of the serialized items into `parse` calls delivers exactly the items and ends valid. */
  lemma RoundTrip(env: Env, decodePath: string -> string, items: seq<Part>, chunks: seq<string>)
    requires items != [] && BoundaryCharsValid(env.boundary)
    requires Receives(env) && StandardHeaders(env, decodePath)
    requires forall i :: 0 <= i < |items| ==> Survives(items[i], env.boundary)
    requires Concat(chunks) == Serialize(items, env.boundary)
    ensures var (ok, q) := FeedAll(env, INIT, chunks); ok && q.valid && q.parts == items
  {
    CoreYields(env, decodePath, items);
    SerializeSections(items, env.boundary);
    CutAnywhere(env, INIT, chunks, Core(items, env.boundary), items);
  }
}
