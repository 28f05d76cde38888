/**
 A multipart/byteranges body read back (section 14.6 of RFC 9110): the parser of multipart forms finds in
 it exactly the slices that were asked for, each under a Content-Range field that names it
 (httplib.h:6010-6059, 5551-5695).
 */
module RangesReadBack {
  import opened Common
  import opened Text
  import opened Decimal
  import opened Disposition
  import opened DispositionRoundTrip
  import opened SectionHeaders
  import opened MultipartSpec
  import opened MultipartRoundTrip
  import opened MultipartSections
  import opened Ranges
  import opened RangeProperties
  import MultipartRanges

  // ---- the Content-Range field ----

  const UNIT: string := "bytes "

  /** First position, last position and content length of a Content-Range value. */
  function ReadContentRange(value: string): Option<(int, int, int)> {
    if !StartsWith(value, UNIT) then None
    else
      var s := value[|UNIT|..];
      var i := IndexOf(s, '-');
      if i == |s| then None
      else
        var t := s[i + 1..];
        var j := IndexOf(t, '/');
        if j == |t| then None
        else
          match (Parse(s[..i], 0, INT64_MAX), Parse(t[..j], 0, INT64_MAX), Parse(t[j + 1..], 0, INT64_MAX))
          case (Number(a), Number(b), Number(c)) => Some((a, b, c))
          case _ => None
  }

  lemma DigitsClean(n: nat, c: char)
    requires !IsDigit(c)
    ensures c !in ToText(n)
  {
    assert ToText(n) == NatText(n);
  }

  lemma SplitAt(a: string, d: char, b: string)
    requires d !in a
    ensures var s := a + [d] + b; IndexOf(s, d) == |a| < |s| && s[..|a|] == a && s[|a| + 1..] == b
  {
    IndexOfIs(a + [d] + b, d, |a|);
  }

  lemma FieldText(offset: nat, length: nat, total: nat)
    ensures MultipartRanges.ContentRange(offset, length, total) ==
            UNIT + (ToText(offset) + ['-'] + (ToText(offset + length - 1) + ['/'] + ToText(total)))
  {
    hide ToText;
  }

  lemma SplitField(value: string, a: string, b: string, c: string)
    requires value == UNIT + (a + ['-'] + (b + ['/'] + c)) && '-' !in a && '/' !in b
    ensures StartsWith(value, UNIT)
    ensures var s := value[|UNIT|..];
            var i := IndexOf(s, '-');
            && i < |s| && s[..i] == a
            && var t := s[i + 1..];
               var j := IndexOf(t, '/');
               j < |t| && t[..j] == b && t[j + 1..] == c
  {
    hide IndexOf;
    var t := b + ['/'] + c;
    var s := a + ['-'] + t;
    assert value[..|UNIT|] == UNIT && value[|UNIT|..] == s;
    SplitAt(a, '-', t);
    SplitAt(b, '/', c);
  }

  /** The printed field names the span and the whole length. */
  lemma ContentRangeReadBack(offset: nat, length: nat, total: nat)
    requires 0 < length && offset + length <= total <= INT64_MAX
    ensures ReadContentRange(MultipartRanges.ContentRange(offset, length, total)) ==
            Some((offset, offset + length - 1, total))
  {
    hide Parse, ToText, IndexOf, StartsWith, MultipartRanges.ContentRange;
    FieldText(offset, length, total);
    DigitsClean(offset, '-');
    DigitsClean(offset + length - 1, '/');
    SplitField(MultipartRanges.ContentRange(offset, length, total),
               ToText(offset), ToText(offset + length - 1), ToText(total));
    ParseToText(offset, 0, INT64_MAX);
    ParseToText(offset + length - 1, 0, INT64_MAX);
    ParseToText(total, 0, INT64_MAX);
  }

  // ---- the header lines of a part ----

  const RANGE_KEY: string := "Content-Range"

  lemma RangeKeyIsName()
    ensures IsFieldName(RANGE_KEY) && ':' !in RANGE_KEY
    ensures !SameNoCase(RANGE_KEY, "Content-Type") && !SameNoCase(RANGE_KEY, "Content-Disposition")
  {
  }

  lemma {:induction false} DigitsShort(n: nat, k: nat)
    requires k > 0 && n < Pow10(k)
    ensures |NatText(n)| <= k
    decreases k
  {
    if n >= 10 {
      DigitsShort(n / 10, k - 1);
    }
  }

  function Pow10(k: nat): nat {
    if k == 0 then 1 else 10 * Pow10(k - 1)
  }

  lemma WordShort(n: nat)
    requires n <= INT64_MAX
    ensures |ToText(n)| <= 20
  {
    assert Pow10(20) > INT64_MAX by {
      assert Pow10(5) == 100000 && Pow10(10) == 10000000000 && Pow10(15) == 1000000000000000;
    }
    DigitsShort(n, 20);
  }

  lemma DigitsAreField(n: nat)
    ensures AllFieldChars(ToText(n)) && ToText(n) != "" && !IsBlank(ToText(n)[|ToText(n)| - 1])
  {
    var s := ToText(n);
    forall i | 0 <= i < |s|
      ensures IsFieldChar(s[i]) && !IsBlank(s[i])
    {
      assert IsDigit(NatText(n)[i]);
    }
  }

  /** The value of a part's Content-Range field. */
  function RangeValue(r: Range, total: nat): string
    requires InBounds(r, total)
  {
    MultipartRanges.ContentRange(r.first, Size(r), total)
  }

  lemma RangeValueGood(r: Range, total: nat)
    requires InBounds(r, total) && total <= INT64_MAX
    ensures var v := RangeValue(r, total);
            v != "" && NoEdgeBlank(v) && AllFieldChars(v) && |v| <= 100
            && ReadContentRange(v) == Some((r.first, r.last, total))
  {
    hide ToText, ReadContentRange;
    ContentRangeReadBack(r.first, Size(r), total);
    DigitsAreField(r.first);
    DigitsAreField(r.last);
    DigitsAreField(total);
    WordShort(r.first);
    WordShort(r.last);
    WordShort(total);
    var v := RangeValue(r, total);
    assert v == UNIT + ToText(r.first) + "-" + ToText(r.last) + "/" + ToText(total);
    assert v[|v| - 1] == ToText(total)[|ToText(total)| - 1];
    assert v[0] == 'b';
  }

  function RangeLine(r: Range, total: nat): string
    requires InBounds(r, total)
  {
    RANGE_KEY + ":" + (" " + RangeValue(r, total))
  }

  lemma RangeLineSpare(r: Range, total: nat)
    requires InBounds(r, total) && total <= INT64_MAX
    ensures Spare(RangeLine(r, total))
  {
    hide NoEdgeBlank, AllFieldChars, HeaderWellFormed, SameNoCase, RangeValue;
    var v := RangeValue(r, total);
    RangeValueGood(r, total);
    RangeKeyIsName();
    FieldValue(v);
    FieldCharsNoCr(v);
    WellFormedLine(RANGE_KEY, v);
    LineColon(RANGE_KEY, " " + v);
    LineParts(RANGE_KEY, " " + v);
    NoCrIn(v);
  }

  lemma NoCrIn(v: string)
    requires '\r' !in v
    ensures '\r' !in RANGE_KEY + ":" + (" " + v)
  {
  }

  // ---- the body ----

  predicate TypeFits(contentType: string) {
    NoEdgeBlank(contentType) && AllFieldChars(contentType) && |CONTENT_TYPE + " " + contentType| < HEADER_MAX_LENGTH
  }

  function PartLines(r: Range, contentType: string, total: nat): seq<string>
    requires InBounds(r, total)
  {
    (if contentType == "" then [] else [CONTENT_TYPE + " " + contentType]) + [RangeLine(r, total)]
  }

  function PartSection(r: Range, contentType: string, body: string): Section
    requires InBounds(r, |body|)
  {
    Section(PartLines(r, contentType, |body|), MultipartRanges.Slice(body, r))
  }

  /** What a reader gets of one range: its slice, under the given content type. */
  function RangePart(r: Range, contentType: string, body: string): Part
    requires InBounds(r, |body|)
  {
    Part(FormInfo("", "", contentType), body[r.first..r.last + 1])
  }

  /** Sections in front of a delimiter. */
  function Opened(sections: seq<Section>, boundary: string): string {
    if sections == [] then ""
    else Opened(sections[..|sections| - 1], boundary) + One(sections[|sections| - 1], boundary)
  }

  function One(s: Section, boundary: string): string {
    DASH + boundary + CRLF + Block(s.lines) + s.content + CRLF
  }

  lemma OpenedLast(sections: seq<Section>, boundary: string)
    requires sections != []
    ensures var n := |sections| - 1;
            Opened(sections, boundary) == Opened(sections[..n], boundary) + One(sections[n], boundary)
  {
    hide One;
  }

  lemma Assoc(a: string, b: string, c: string)
    ensures a + b + c == a + (b + c) && "" + a == a + ""
  {
  }

  lemma {:induction false} OpenedFirst(sections: seq<Section>, boundary: string)
    requires sections != []
    ensures Opened(sections, boundary) == One(sections[0], boundary) + Opened(sections[1..], boundary)
    decreases |sections|
  {
    hide One, Opened;
    var n := |sections| - 1;
    var (first, last) := (One(sections[0], boundary), One(sections[n], boundary));
    OpenedLast(sections, boundary);
    NothingOpened(boundary);
    if n == 0 {
      assert sections[..0] == [] && sections[1..] == [];
      Assoc(first, "", "");
    } else {
      var inner := sections[1..n];
      OpenedFirst(sections[..n], boundary);
      OpenedLast(sections[1..], boundary);
      assert sections[..n][1..] == inner && sections[1..][..n - 1] == inner && sections[1..][n - 1] == sections[n];
      Assoc(first, Opened(inner, boundary), last);
    }
  }

  lemma CloseOne(d: string, b: string, c: string)
    ensures d + CRLF + (b + (c + (CRLF + d) + DASH)) == (d + CRLF + b + c + CRLF) + (d + DASH)
  {
  }

  lemma NextOne(d: string, b: string, c: string, t: string)
    ensures d + CRLF + (b + (c + (CRLF + d) + (CRLF + t))) == (d + CRLF + b + c + CRLF) + (d + CRLF + t)
  {
  }

  lemma {:induction false} FormOpened(sections: seq<Section>, boundary: string)
    requires sections != []
    ensures FormText(sections, boundary) == Opened(sections, boundary) + (DASH + boundary + DASH)
    decreases |sections|
  {
    hide Block, Opened;
    var (s, d) := (sections[0], DASH + boundary);
    OpenedFirst(sections, boundary);
    assert CRLF + DASH + boundary == CRLF + d;
    if |sections| == 1 {
      assert sections[1..] == [];
      NothingOpened(boundary);
      CloseOne(d, Block(s.lines), s.content);
    } else {
      FormOpened(sections[1..], boundary);
      NextOne(d, Block(s.lines), s.content, SectionsText(sections[1..], boundary));
    }
  }

  lemma NothingOpened(boundary: string)
    ensures Opened([], boundary) == ""
  {
  }

  lemma HeadWithType(h: string, t: string, line: string)
    ensures h + (t + CRLF) + (line + CRLF) + CRLF == h + (t + CRLF + (line + CRLF + CRLF))
    ensures h + "" + (line + CRLF) + CRLF == h + (line + CRLF + CRLF)
  {
  }

  lemma BlockOf(t: string, line: string)
    ensures Block([line]) == line + CRLF + CRLF && Block([t, line]) == t + CRLF + (line + CRLF + CRLF)
  {
    assert [t, line][1..] == [line] && [line][1..] == [] && Block([]) == CRLF;
  }

  lemma PartBlock(r: Range, boundary: string, contentType: string, total: nat)
    requires InBounds(r, total)
    ensures MultipartRanges.PartHead(r, boundary, contentType, total) ==
            DASH + boundary + CRLF + Block(PartLines(r, contentType, total))
  {
    hide MultipartRanges.ContentRange, Block;
    var (line, t, h) := (RangeLine(r, total), CONTENT_TYPE + " " + contentType, DASH + boundary + CRLF);
    assert "Content-Range: " + RangeValue(r, total) == line;
    assert "Content-Type: " + contentType == t;
    HeadWithType(h, t, line);
    BlockOf(t, line);
    assert [t] + [line] == [t, line] && [] + [line] == [line];
  }

  function RangeSections(rs: seq<Range>, contentType: string, body: string): (sections: seq<Section>)
    requires AllInBounds(rs, |body|)
    ensures |sections| == |rs|
    ensures forall i :: 0 <= i < |rs| ==> sections[i] == PartSection(rs[i], contentType, body)
  {
    seq(|rs|, i requires 0 <= i < |rs| => PartSection(rs[i], contentType, body))
  }

  lemma PartsStep(rs: seq<Range>, boundary: string, contentType: string, body: string)
    requires rs != [] && AllInBounds(rs, |body|)
    ensures var n := |rs| - 1;
            MultipartRanges.Parts(rs, boundary, contentType, body) ==
            MultipartRanges.Parts(rs[..n], boundary, contentType, body)
            + MultipartRanges.PartHead(rs[n], boundary, contentType, |body|) + MultipartRanges.Slice(body, rs[n]) + CRLF
  {
    hide MultipartRanges.PartHead, MultipartRanges.Slice;
  }

  lemma AssocFour(a: string, b: string, c: string, d: string)
    ensures a + b + c + d == a + (b + c + d)
  {
  }

  lemma PartsLast(rs: seq<Range>, boundary: string, contentType: string, body: string)
    requires rs != [] && AllInBounds(rs, |body|)
    ensures var n := |rs| - 1;
            MultipartRanges.Parts(rs, boundary, contentType, body) ==
            MultipartRanges.Parts(rs[..n], boundary, contentType, body) + One(PartSection(rs[n], contentType, body), boundary)
  {
    hide Block, PartLines, MultipartRanges.Parts, MultipartRanges.PartHead, MultipartRanges.Slice;
    var n := |rs| - 1;
    PartBlock(rs[n], boundary, contentType, |body|);
    PartsStep(rs, boundary, contentType, body);
    AssocFour(MultipartRanges.Parts(rs[..n], boundary, contentType, body),
              MultipartRanges.PartHead(rs[n], boundary, contentType, |body|), MultipartRanges.Slice(body, rs[n]), CRLF);
  }

  lemma {:induction false} PartsOpened(rs: seq<Range>, boundary: string, contentType: string, body: string)
    requires AllInBounds(rs, |body|)
    ensures MultipartRanges.Parts(rs, boundary, contentType, body) ==
            Opened(RangeSections(rs, contentType, body), boundary)
    decreases |rs|
  {
    hide One, PartSection, RangeSections;
    if rs == [] {
      NothingOpened(boundary);
      assert RangeSections(rs, contentType, body) == [];
    } else {
      var n := |rs| - 1;
      var sections := RangeSections(rs, contentType, body);
      PartsOpened(rs[..n], boundary, contentType, body);
      assert sections[..n] == RangeSections(rs[..n], contentType, body);
      PartsLast(rs, boundary, contentType, body);
    }
  }

  lemma PartReads(env: Env, decodePath: string -> string, r: Range, contentType: string, body: string)
    requires StandardHeaders(env, decodePath) && InBounds(r, |body|) && |body| <= INT64_MAX && TypeFits(contentType)
    requires !Contains(MultipartRanges.Slice(body, r), env.CrlfDashBoundary())
    ensures Brings(env, PartSection(r, contentType, body), RangePart(r, contentType, body))
  {
    hide HandleHeader, StandardHeaders, RangeLine, Spare, NoEdgeBlank, AllFieldChars, Contains;
    var (line, info) := (RangeLine(r, |body|), FormInfo("", "", contentType));
    RangeLineSpare(r, |body|);
    SpareReads(env, decodePath, info, line);
    assert [line][1..] == [] && Give(env, info, [line], info);
    if contentType == "" {
      assert info == EMPTY_INFO && [] + [line] == [line];
    } else {
      TypeReads(env, decodePath, contentType);
      var t := CONTENT_TYPE + " " + contentType;
      assert [t] + [line] == [t, line] && [t, line][1..] == [line];
    }
  }

  lemma TypeReads(env: Env, decodePath: string -> string, contentType: string)
    requires StandardHeaders(env, decodePath) && TypeFits(contentType) && contentType != ""
    ensures var info := FormInfo("", "", contentType);
            Reads(env, EMPTY_INFO, CONTENT_TYPE + " " + contentType, info)
  {
    hide HandleHeader, NoEdgeBlank, AllFieldChars;
    var info := FormInfo("", "", contentType);
    PlainNothing();
    ContentTypeParses(decodePath, info);
  }

  lemma PlainNothing()
    ensures Plain("") && AllFieldChars("")
  {
  }

  function RangeParts(rs: seq<Range>, contentType: string, body: string): (parts: seq<Part>)
    requires AllInBounds(rs, |body|)
    ensures |parts| == |rs|
    ensures forall i :: 0 <= i < |rs| ==> parts[i] == RangePart(rs[i], contentType, body)
  {
    seq(|rs|, i requires 0 <= i < |rs| => RangePart(rs[i], contentType, body))
  }

  lemma RangesText(rs: seq<Range>, boundary: string, contentType: string, body: string)
    requires rs != [] && AllInBounds(rs, |body|)
    ensures MultipartRanges.Body(rs, boundary, contentType, body) == FormText(RangeSections(rs, contentType, body), boundary)
  {
    hide FormText, Opened, PartSection, RangeSections, MultipartRanges.Parts, MultipartRanges.Body;
    PartsOpened(rs, boundary, contentType, body);
    FormOpened(RangeSections(rs, contentType, body), boundary);
    BodyText(rs, boundary, contentType, body);
  }

  /** However the body is cut into calls, a reader finds the slices of the ranges, in order and nothing else;
      and the Content-Range field of each part names its positions and the length of the whole. */
  lemma RangesComeBack(env: Env, decodePath: string -> string, rs: seq<Range>, contentType: string, body: string,
                       chunks: seq<string>)
    requires rs != [] && AllInBounds(rs, |body|) && |body| <= INT64_MAX && TypeFits(contentType)
    requires BoundaryCharsValid(env.boundary) && Receives(env) && StandardHeaders(env, decodePath)
    requires forall i :: 0 <= i < |rs| ==> !Contains(body[rs[i].first..rs[i].last + 1], env.CrlfDashBoundary())
    requires Concat(chunks) == MultipartRanges.Body(rs, env.boundary, contentType, body)
    ensures var (ok, q) := FeedAll(env, INIT, chunks);
            && ok && q.valid && |q.parts| == |rs|
            && forall i :: 0 <= i < |rs| ==>
                 q.parts[i] == Part(FormInfo("", "", contentType), body[rs[i].first..rs[i].last + 1])
    ensures forall i :: 0 <= i < |rs| ==> ReadContentRange(RangeValue(rs[i], |body|)) == Some((rs[i].first, rs[i].last, |body|))
  {
    hide FeedAll, Brings, StandardHeaders, TypeFits, FormText, PartSection, RangeSections, RangeParts, ReadContentRange;
    hide Contains, MultipartRanges.Body, MultipartRanges.Parts, BoundaryCharsValid, Receives, Concat;
    var (sections, parts) := (RangeSections(rs, contentType, body), RangeParts(rs, contentType, body));
    forall i | 0 <= i < |rs|
      ensures Brings(env, sections[i], parts[i])
      ensures ReadContentRange(RangeValue(rs[i], |body|)) == Some((rs[i].first, rs[i].last, |body|))
    {
      PartReads(env, decodePath, rs[i], contentType, body);
      RangeValueGood(rs[i], |body|);
    }
    RangesText(rs, env.boundary, contentType, body);
    SectionsComeBack(env, sections, parts, chunks);
  }

  lemma BodyText(rs: seq<Range>, boundary: string, contentType: string, body: string)
    requires AllInBounds(rs, |body|)
    ensures MultipartRanges.Body(rs, boundary, contentType, body) ==
            MultipartRanges.Parts(rs, boundary, contentType, body) + (DASH + boundary + DASH)
  {
  }
}
