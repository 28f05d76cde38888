/**
 Multipart bodies whose sections carry any header lines (httplib.h:5551-5695): what comes back is what the
 lines say, one after the other, and lines the parser has no use for change nothing.
 */
module MultipartSections {
  import opened Text
  import opened Disposition
  import opened DispositionRoundTrip
  import opened SectionHeaders
  import opened MultipartSpec
  import opened MultipartConfluence
  import opened MultipartRoundTrip

  /** A section as it is written: header lines and content. */
  datatype Section = Section(lines: seq<string>, content: string)

  function Block(lines: seq<string>): string {
    if lines == [] then CRLF else lines[0] + CRLF + Block(lines[1..])
  }

  /** The sections, each with its delimiter. */
  function SectionsText(sections: seq<Section>, boundary: string): string
    requires sections != []
  {
    Block(sections[0].lines) + (sections[0].content + (CRLF + DASH + boundary) +
    if |sections| == 1 then DASH else CRLF + SectionsText(sections[1..], boundary))
  }

  /** From the opening delimiter to the closing dashes. */
  function FormText(sections: seq<Section>, boundary: string): string
    requires sections != []
  {
    DASH + boundary + CRLF + SectionsText(sections, boundary)
  }

  /** The lines, one after the other, take the section info from `i` to `j`. */
  ghost predicate Give(env: Env, i: FormInfo, lines: seq<string>, j: FormInfo)
    decreases |lines|
  {
    if lines == [] then i == j
    else Reads(env, i, lines[0], env.headerLine(i, lines[0]).info) && Give(env, env.headerLine(i, lines[0]).info, lines[1..], j)
  }

  /** The section comes back as this part. */
  ghost predicate Brings(env: Env, s: Section, part: Part) {
    && Give(env, EMPTY_INFO, s.lines, part.info) && s.content == part.content
    && !Contains(s.content, env.CrlfDashBoundary())
  }

  lemma BlockSplit(lines: seq<string>, rest: string)
    requires lines != []
    ensures Block(lines) + rest == lines[0] + CRLF + (Block(lines[1..]) + rest)
  {
  }

  lemma {:induction false} BlockYields(env: Env, p: Parser, lines: seq<string>, info: FormInfo, rest: string, goal: Goal)
    requires p.stage == Headers(true) && p.view == Block(lines) + rest && Receives(env)
    requires Give(env, p.info, lines, info)
    requires Yields(env, p.(stage := Body, view := rest, info := info, parts := p.parts + [Part(info, "")]), goal)
    ensures Yields(env, p, goal)
    decreases |lines|
  {
    hide Yields;
    if lines == [] {
      assert p.(info := info) == p;
      BlankLineYields(env, p, rest, goal);
    } else {
      var i := env.headerLine(p.info, lines[0]).info;
      var tail := Block(lines[1..]) + rest;
      BlockSplit(lines, rest);
      BlockYields(env, p.(view := tail, info := i), lines[1..], info, rest, goal);
      HeaderLineYields(env, p, lines[0], tail, i, goal);
    }
  }

  lemma EntryYields(env: Env, p: Parser, lines: seq<string>, info: FormInfo, rest: string, goal: Goal)
    requires p.stage == NewEntry && p.view == Block(lines) + rest && Receives(env)
    requires Give(env, EMPTY_INFO, lines, info)
    requires Yields(env, p.(stage := Body, view := rest, info := info, parts := p.parts + [Part(info, "")]), goal)
    ensures Yields(env, p, goal)
  {
    hide Yields;
    BlockYields(env, p.(stage := Headers(true), info := EMPTY_INFO), lines, info, rest, goal);
    if lines == [] {
      assert p.view == "" + CRLF + rest;
      HeaderEntryYields(env, p, "", rest, goal);
    } else {
      BlockSplit(lines, rest);
      HeaderEntryYields(env, p, lines[0], Block(lines[1..]) + rest, goal);
    }
  }

  lemma AnySectionYields(env: Env, p: Parser, s: Section, part: Part, rest: string, goal: Goal)
    requires BoundaryCharsValid(env.boundary) && Receives(env) && Brings(env, s, part)
    requires p.stage == NewEntry && p.view == Block(s.lines) + (s.content + env.CrlfDashBoundary() + rest)
    requires Yields(env, p.(stage := Delimiter, view := rest, info := part.info, parts := p.parts + [part]), goal)
    ensures Yields(env, p, goal)
  {
    hide Yields, Give;
    var tail := s.content + env.CrlfDashBoundary() + rest;
    DelimiterShape(env.boundary);
    DeliverFirst(p.parts, part.info, part.content);
    BodyYields(env, p.(stage := Body, view := tail, info := part.info, parts := p.parts + [Part(part.info, "")]),
               s.content, rest, goal);
    EntryYields(env, p, s.lines, part.info, tail, goal);
  }

  lemma {:induction false} AllSectionsYield(env: Env, p: Parser, sections: seq<Section>, parts: seq<Part>)
    requires sections != [] && |parts| == |sections| && BoundaryCharsValid(env.boundary) && Receives(env)
    requires forall i :: 0 <= i < |sections| ==> Brings(env, sections[i], parts[i])
    requires p.stage == NewEntry && p.view == SectionsText(sections, env.boundary)
    ensures Yields(env, p, Delivers(p.parts + parts))
    decreases |sections|
  {
    hide Yields, Brings, Block;
    var all := Delivers(p.parts + parts);
    var q := p.(stage := Delimiter, info := parts[0].info, parts := p.parts + [parts[0]]);
    if |sections| == 1 {
      assert q.parts == all.parts;
      CloseYields(env, q.(view := DASH));
      AnySectionYields(env, p, sections[0], parts[0], DASH, all);
    } else {
      var rest := SectionsText(sections[1..], env.boundary);
      assert q.parts + parts[1..] == all.parts;
      AllSectionsYield(env, q.(stage := NewEntry, view := rest), sections[1..], parts[1..]);
      NextSectionYields(env, q.(view := CRLF + rest), rest, all);
      AnySectionYields(env, p, sections[0], parts[0], CRLF + rest, all);
    }
  }

  lemma FormYields(env: Env, sections: seq<Section>, parts: seq<Part>)
    requires sections != [] && |parts| == |sections| && BoundaryCharsValid(env.boundary) && Receives(env)
    requires forall i :: 0 <= i < |sections| ==> Brings(env, sections[i], parts[i])
    ensures Yields(env, Plus(INIT, FormText(sections, env.boundary)), Delivers(parts))
  {
    hide Yields, Brings, SectionsText;
    var rest := SectionsText(sections, env.boundary);
    AllSectionsYield(env, INIT.(stage := NewEntry, view := rest), sections, parts);
    assert INIT.parts + parts == parts;
    assert "" + FormText(sections, env.boundary) == env.DashBoundaryCrlf() + rest;
    PreambleYields(env, Plus(INIT, FormText(sections, env.boundary)), rest, Delivers(parts));
  }

  /** However the body is cut into calls, with or without a CRLF behind it: each section comes back as the
      part its lines say, with its content byte for byte. */
  lemma SectionsComeBack(env: Env, sections: seq<Section>, parts: seq<Part>, chunks: seq<string>)
    requires sections != [] && |parts| == |sections| && BoundaryCharsValid(env.boundary) && Receives(env)
    requires forall i :: 0 <= i < |sections| ==> Brings(env, sections[i], parts[i])
    requires var text := FormText(sections, env.boundary); Concat(chunks) in {text, text + CRLF}
    ensures var (ok, q) := FeedAll(env, INIT, chunks); ok && q.valid && q.parts == parts
  {
    hide Brings;
    var text := FormText(sections, env.boundary);
    FormYields(env, sections, parts);
    assert text != "";
    if Concat(chunks) == text {
      AnySplit(env, INIT, chunks);
    } else {
      CutAnywhere(env, INIT, chunks, text, parts);
    }
  }

  // ---- lines the parser has no use for ----

  /** A well-formed line of another field, within the limit. */
  predicate Spare(line: string) {
    && '\r' !in line && |line| < HEADER_MAX_LENGTH && HeaderWellFormed(line)
    && !SameNoCase(FieldName(line), "Content-Type") && !SameNoCase(FieldName(line), "Content-Disposition")
  }

  /** `lines` are `own` with any number of spare lines in front of, between and behind them. */
  predicate Padded(lines: seq<string>, own: seq<string>)
    decreases |lines|
  {
    if lines == [] then own == []
    else (own != [] && lines[0] == own[0] && Padded(lines[1..], own[1..])) || (Spare(lines[0]) && Padded(lines[1..], own))
  }

  lemma SpareReads(env: Env, decodePath: string -> string, i: FormInfo, line: string)
    requires StandardHeaders(env, decodePath) && Spare(line)
    ensures Reads(env, i, line, i) && env.headerLine(i, line).info == i
  {
    OtherHeaderKept(decodePath, i, line);
    HasColon(line);
  }

  lemma {:induction false} PaddedGive(env: Env, decodePath: string -> string, i: FormInfo, lines: seq<string>,
                                      own: seq<string>, j: FormInfo)
    requires StandardHeaders(env, decodePath) && Padded(lines, own) && Give(env, i, own, j)
    ensures Give(env, i, lines, j)
    decreases |lines|
  {
    hide Spare, StandardHeaders, Reads;
    if lines != [] {
      if own != [] && lines[0] == own[0] && Padded(lines[1..], own[1..]) {
        PaddedGive(env, decodePath, env.headerLine(i, lines[0]).info, lines[1..], own[1..], j);
      } else {
        SpareReads(env, decodePath, i, lines[0]);
        PaddedGive(env, decodePath, i, lines[1..], own, j);
      }
    }
  }

  /** The lines the serializer prints for an item. */
  function OwnLines(info: FormInfo): seq<string> {
    if info.contentType == "" then [DispositionLine(info)] else [DispositionLine(info), ContentTypeLine(info)]
  }

  lemma OwnGive(env: Env, decodePath: string -> string, info: FormInfo)
    requires StandardHeaders(env, decodePath) && HeadersSurvive(info)
    ensures Give(env, EMPTY_INFO, OwnLines(info), info)
  {
    hide HandleHeader, HeadersSurvive, DispositionLine, ContentTypeLine, StandardHeaders;
    LinesRead(env, decodePath, info);
    var bare := info.(contentType := "");
    assert Give(env, info, [], info) && (info.contentType == "" ==> bare == info);
    if info.contentType != "" {
      assert [DispositionLine(info), ContentTypeLine(info)][1..] == [ContentTypeLine(info)];
      assert [ContentTypeLine(info)][1..] == [];
      assert Give(env, bare, [ContentTypeLine(info)], info);
    } else {
      assert [DispositionLine(info)][1..] == [];
    }
  }

  /** The items' own header lines, with any spare lines among them. */
  ghost predicate Writes(sections: seq<Section>, items: seq<Part>, boundary: string) {
    && |sections| == |items|
    && forall i :: 0 <= i < |items| ==>
         && Survives(items[i], boundary) && sections[i].content == items[i].content
         && Padded(sections[i].lines, OwnLines(items[i].info))
  }

  /** Items come back unchanged from every cut of a body whose sections carry any other header lines, at any
      place. */
  lemma SpareLinesChangeNothing(env: Env, decodePath: string -> string, sections: seq<Section>, items: seq<Part>,
                                chunks: seq<string>)
    requires items != [] && BoundaryCharsValid(env.boundary) && Receives(env) && StandardHeaders(env, decodePath)
    requires Writes(sections, items, env.boundary)
    requires var text := FormText(sections, env.boundary); Concat(chunks) in {text, text + CRLF}
    ensures var (ok, q) := FeedAll(env, INIT, chunks); ok && q.valid && q.parts == items
  {
    hide HeadersSurvive, OwnLines, Give, Padded, Contains, FormText, FeedAll, StandardHeaders;
    forall i | 0 <= i < |items|
      ensures Brings(env, sections[i], items[i])
    {
      OwnGive(env, decodePath, items[i].info);
      PaddedGive(env, decodePath, EMPTY_INFO, sections[i].lines, OwnLines(items[i].info), items[i].info);
    }
    SectionsComeBack(env, sections, items, chunks);
  }

  /** The serializer prints such a body, without spare lines. */
  lemma SerializedIsForm(items: seq<Part>, boundary: string) returns (sections: seq<Section>)
    requires items != []
    ensures |sections| == |items|
    ensures forall i :: 0 <= i < |items| ==> sections[i] == Section(OwnLines(items[i].info), items[i].content)
    ensures Serialize(items, boundary) == FormText(sections, boundary) + CRLF
  {
    hide OwnLines, HeaderLines, Block;
    sections := seq(|items|, i requires 0 <= i < |items| => Section(OwnLines(items[i].info), items[i].content));
    SerializeSections(items, boundary);
    SectionsAgree(items, sections, boundary);
  }

  lemma OwnBlock(info: FormInfo)
    ensures Block(OwnLines(info)) == HeaderLines(info)
  {
    hide DispositionLine, ContentTypeLine;
    var (a, b) := (DispositionLine(info), ContentTypeLine(info));
    assert Block([]) == CRLF;
    assert [a, b][1..] == [b] && [b][1..] == [] && [a][1..] == [];
    assert Block([b]) == b + CRLF + CRLF && Block([a]) == a + CRLF + CRLF;
    assert Block([a, b]) == a + CRLF + (b + CRLF + CRLF);
  }

  lemma {:induction false} SectionsAgree(items: seq<Part>, sections: seq<Section>, boundary: string)
    requires items != [] && |sections| == |items|
    requires forall i :: 0 <= i < |items| ==> sections[i] == Section(OwnLines(items[i].info), items[i].content)
    ensures Sections(items, boundary) == SectionsText(sections, boundary)
    decreases |items|
  {
    hide OwnLines, HeaderLines, Block;
    SectionsSplit(items, boundary);
    OwnBlock(items[0].info);
    if |items| > 1 {
      SectionsAgree(items[1..], sections[1..], boundary);
    }
  }

  // ---- refusals ----

  /** A header line that is refused ends the call with false, and the form is invalid. */
  lemma RefusedLine(env: Env, p: Parser, line: string, rest: string)
    requires p.stage == Headers(true) && p.view == line + CRLF + rest && line != "" && '\r' !in line
    requires !env.headerLine(p.info, line).ok
    ensures !Run(env, p).0 && !Run(env, p).1.valid && Run(env, p).1.parts == p.parts
  {
    FindAfterClean(line, CRLF, rest);
    assert p.view[..|line|] == line;
  }

  /** So does a header callback that refuses the section; the section is not opened. */
  lemma RefusedHeader(env: Env, p: Parser, rest: string)
    requires p.stage == Headers(true) && p.view == CRLF + rest && !env.acceptHeader(p.info)
    ensures !Run(env, p).0 && !Run(env, p).1.valid && Run(env, p).1.parts == p.parts
  {
    FindAfterClean("", CRLF, rest);
    assert "" + CRLF + rest == CRLF + rest;
  }

  /** And so does a content callback that refuses what is delivered. */
  lemma RefusedContent(env: Env, p: Parser, content: string, rest: string)
    requires p.stage == Body && p.view == content + env.CrlfDashBoundary() + rest
    requires BoundaryCharsValid(env.boundary) && !Contains(content, env.CrlfDashBoundary())
    requires !env.acceptContent(content)
    ensures !Run(env, p).0 && !Run(env, p).1.valid && Run(env, p).1.parts == p.parts
  {
    var d := env.CrlfDashBoundary();
    DelimiterShape(env.boundary);
    FindDelimiter(content, d, rest);
    assert p.view[..|content|] == content;
  }

  /** Bytes behind a delimiter that are neither a line end nor two dashes stop the parser for good: every call
      succeeds, no part is added or changed, and the form is not closed. */
  lemma {:induction false} JunkStops(env: Env, p: Parser, chunks: seq<string>)
    requires p.stage == Delimiter && |p.view| >= 2 && !StartsWith(p.view, CRLF) && !StartsWith(p.view, DASH)
    ensures FeedAll(env, p, chunks) == (true, Plus(p, Concat(chunks)))
    decreases |chunks|
  {
    if chunks == [] {
      assert p.view + "" == p.view;
    } else {
      var q := Plus(p, chunks[0]);
      assert q.view[..2] == p.view[..2];
      JunkStops(env, q, chunks[1..]);
      assert p.view + chunks[0] + Concat(chunks[1..]) == p.view + (chunks[0] + Concat(chunks[1..]));
    }
  }

  // ---- the text of an item ----

  lemma Literals()
    ensures DISPOSITION_START + "name=" + QUOTE == "Content-Disposition: form-data; name=\""
    ensures QUOTE + ";" + " " + "filename=" + QUOTE == "\"; filename=\"" && CONTENT_TYPE + " " == "Content-Type: "
    ensures QUOTE == "\"" && CRLF == "\r\n" && DASH == "--" && CRLF + CRLF == "\r\n\r\n"
  {
  }

  lemma ParamsText(start: string, name: string, q: string, filename: string)
    ensures start + ("name" + "=" + (q + name + q)) == start + "name=" + q + name + q
    ensures start + ("name" + "=" + (q + name + q) + (";" + (" " + ("filename" + "=" + (q + filename + q))))) ==
            start + "name=" + q + name + (q + ";" + " " + "filename=" + q) + filename + q
  {
    assert "name" + "=" == "name=" && "filename" + "=" == "filename=";
  }

  /** The disposition of an item, as it stands on the wire. */
  lemma DispositionText(info: FormInfo)
    ensures DispositionLine(info) ==
            "Content-Disposition: form-data; name=\"" + info.name +
            if info.filename == "" then "\"" else "\"; filename=\"" + info.filename + "\""
  {
    Literals();
    ParamsText(DISPOSITION_START, info.name, QUOTE, info.filename);
    DispositionUnfold(info, DISPOSITION_START, QUOTE);
  }

  lemma DispositionUnfold(info: FormInfo, start: string, q: string)
    requires start == DISPOSITION_START && q == QUOTE
    ensures DispositionLine(info) ==
            start + ("name" + "=" + (q + info.name + q) +
                     if info.filename == "" then "" else ";" + (" " + ("filename" + "=" + (q + info.filename + q))))
  {
  }

  lemma ItemParts(d: string, line: string, t: string, content: string)
    ensures d + "\r\n" + (line + "\r\n" + (t + "\r\n") + "\r\n") + content + "\r\n" ==
            d + "\r\n" + line + "\r\n" + t + "\r\n\r\n" + content + "\r\n"
    ensures d + "\r\n" + (line + "\r\n" + "" + "\r\n") + content + "\r\n" ==
            d + "\r\n" + line + "\r\n\r\n" + content + "\r\n"
  {
    assert "\r\n" + "\r\n" == "\r\n\r\n";
  }

  /** The serialized form, spelled out: an item without and with a content type, and the end. */
  lemma SerializedText(info: FormInfo, content: string, items: seq<Part>, b: string)
    ensures Serialize([], b) == "--" + b + "--" + "\r\n"
    ensures Serialize([Part(info, content)] + items, b) ==
            (if info.contentType == "" then
               "--" + b + "\r\n" + DispositionLine(info) + "\r\n\r\n" + content + "\r\n"
             else
               "--" + b + "\r\n" + DispositionLine(info) + "\r\n" + ("Content-Type: " + info.contentType) + "\r\n\r\n"
               + content + "\r\n")
            + Serialize(items, b)
  {
    hide DispositionLine;
    Literals();
    var all := [Part(info, content)] + items;
    assert all[0] == Part(info, content) && all[1..] == items;
    ItemUnfold(Part(info, content), b, CRLF, DASH);
    ItemParts("--" + b, DispositionLine(info), "Content-Type: " + info.contentType, content);
  }

  lemma ItemUnfold(item: Part, b: string, crlf: string, dash: string)
    requires crlf == CRLF && dash == DASH
    ensures ItemBytes(item, b) ==
            dash + b + crlf + (DispositionLine(item.info) + crlf +
                               (if item.info.contentType == "" then "" else ContentTypeLine(item.info) + crlf) + crlf)
            + item.content + crlf
    ensures Serialize([], b) == dash + b + dash + crlf
  {
    hide DispositionLine, ContentTypeLine;
  }
}
