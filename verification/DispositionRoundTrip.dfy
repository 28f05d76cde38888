/**
 The header lines serialize_multipart_formdata_item_begin prints (httplib.h:5819-5837) are
 read back by FormDataParser, exactly when they contain no separator of their own.
 */
module DispositionRoundTrip {
  import opened Common
  import opened Text
  import opened Disposition

  const DISPOSITION_START: string := CONTENT_DISPOSITION + " " + FORM_DATA + " "
  const QUOTE: string := "\""

  function Quoted(key: string, value: string): string {
    key + "=" + (QUOTE + value + QUOTE)
  }

  function ParamText(info: FormInfo): string {
    Quoted("name", info.name) +
    if info.filename == "" then "" else ";" + (" " + Quoted("filename", info.filename))
  }

  function DispositionLine(info: FormInfo): string {
    DISPOSITION_START + ParamText(info)
  }

  function ContentTypeLine(info: FormInfo): string {
    CONTENT_TYPE + " " + info.contentType
  }

  predicate AllFieldChars(s: string) {
    forall i :: 0 <= i < |s| ==> IsFieldChar(s[i])
  }

  /** No byte that ends a parameter or splits a key from its value. */
  predicate Plain(s: string) {
    ';' !in s && '=' !in s
  }

  lemma SplitLast(s: string, d: char)
    requires d !in s && NoEdgeBlank(s) && s != ""
    ensures Split(s, d) == [s]
  {
    IndexOfIs(s, d, |s|);
    assert s[..|s|] == s;
    TrimIdentity(s);
  }

  lemma SplitFirst(a: string, b: string, d: char)
    requires d !in a && NoEdgeBlank(a) && a != ""
    ensures Split(a + [d] + b, d) == [a] + Split(b, d)
  {
    var s := a + [d] + b;
    IndexOfIs(s, d, |a|);
    assert s[..|a|] == a && s[|a| + 1..] == b;
    TrimIdentity(a);
  }

  lemma TrimSpace(s: string)
    requires s != "" && NoEdgeBlank(s)
    ensures TrimLeft(" " + s) == s && Trim(" " + s) == s
  {
    assert (" " + s)[1..] == s;
    TrimIdentity(s);
  }

  lemma PairPieces(key: string, q: string)
    requires key != "" && NoEdgeBlank(key) && '=' !in key
    requires q != "" && NoEdgeBlank(q) && '=' !in q
    ensures Split(key + ['='] + q, '=') == [key, q]
  {
    hide NoEdgeBlank, Split;
    SplitFirst(key, q, '=');
    SplitLast(q, '=');
  }

  lemma QuotedValue(value: string)
    requires '=' !in value
    ensures var q := QUOTE + value + QUOTE; q != "" && NoEdgeBlank(q) && '=' !in q
  {
  }

  lemma UnquoteQuoted(value: string)
    ensures Unquote(QUOTE + value + QUOTE) == value
  {
    var q := QUOTE + value + QUOTE;
    assert q[1..|q| - 1] == value;
  }

  lemma KeyValueQuoted(key: string, value: string)
    requires key != "" && NoEdgeBlank(key) && '=' !in key && key[0] != '"' && '=' !in value
    ensures KeyValue(Quoted(key, value)) == Some((key, value))
  {
    hide Split, NoEdgeBlank;
    var q := QUOTE + value + QUOTE;
    QuotedValue(value);
    PairPieces(key, q);
    UnquoteQuoted(value);
    assert Quoted(key, value) == key + ['='] + q;
  }

  lemma QuotedEdges(key: string, value: string)
    requires key != "" && !IsBlank(key[0])
    ensures var q := Quoted(key, value); q != "" && q[0] == key[0] && NoEdgeBlank(q)
    ensures ';' !in key && ';' !in value ==> ';' !in Quoted(key, value)
  {
    var q := Quoted(key, value);
    assert q[|q| - 1] == '"';
  }

  /** A printed parameter is one piece, and reads back as its key and value. */
  lemma QuotedGood(key: string, value: string)
    requires key != "" && NoEdgeBlank(key) && Plain(key) && key[0] != '"' && Plain(value)
    ensures var q := Quoted(key, value);
            q != "" && q[0] == key[0] && NoEdgeBlank(q) && ';' !in q && KeyValue(q) == Some((key, value))
  {
    hide KeyValue;
    KeyValueQuoted(key, value);
    QuotedEdges(key, value);
  }

  lemma SplitSpaced(f: string)
    requires f != "" && NoEdgeBlank(f) && ';' !in f
    ensures Split(" " + f, ';') == [f]
  {
    var s := " " + f;
    IndexOfIs(s, ';', |s|);
    assert s[..|s|] == s;
    TrimSpace(f);
  }

  lemma TwoPieces(n: string, f: string)
    requires n != "" && NoEdgeBlank(n) && ';' !in n
    requires f != "" && NoEdgeBlank(f) && ';' !in f
    ensures Split(n + ";" + (" " + f), ';') == [n, f]
  {
    SplitFirst(n, " " + f, ';');
    SplitSpaced(f);
  }

  lemma OneParam(n: string, a: (string, string))
    requires n != "" && NoEdgeBlank(n) && ';' !in n && KeyValue(n) == Some(a)
    ensures DispositionParams(n) == [a]
  {
    SplitLast(n, ';');
    assert Params([], {} + {n}) == [];
  }

  lemma TwoParams(n: string, f: string, a: (string, string), b: (string, string))
    requires n != "" && NoEdgeBlank(n) && ';' !in n && KeyValue(n) == Some(a)
    requires f != "" && NoEdgeBlank(f) && ';' !in f && KeyValue(f) == Some(b)
    requires n[0] != f[0]
    ensures DispositionParams(n + ";" + (" " + f)) == [a, b]
  {
    hide KeyValue, Split;
    TwoPieces(n, f);
    assert [n, f][1..] == [f] && [f][1..] == [];
    assert Params([], {} + {n} + {f}) == [];
    assert Params([f], {} + {n}) == [b];
  }

  lemma KeysGood()
    ensures NoEdgeBlank("name") && Plain("name") && NoEdgeBlank("filename") && Plain("filename")
  {
  }

  lemma ParamsReadOne(info: FormInfo)
    requires Plain(info.name) && info.filename == ""
    ensures DispositionParams(ParamText(info)) == [("name", info.name)]
  {
    hide DispositionParams, ParamText, Quoted, KeyValue, NoEdgeBlank, Plain;
    KeysGood();
    var n := Quoted("name", info.name);
    QuotedGood("name", info.name);
    OneParam(n, ("name", info.name));
    ParamTextOne(info);
  }

  lemma ParamTextOne(info: FormInfo)
    requires info.filename == ""
    ensures ParamText(info) == Quoted("name", info.name)
  {
  }

  lemma ParamsReadTwo(info: FormInfo)
    requires Plain(info.name) && Plain(info.filename) && info.filename != ""
    ensures DispositionParams(ParamText(info)) == [("name", info.name), ("filename", info.filename)]
  {
    hide DispositionParams, ParamText, Quoted, KeyValue, NoEdgeBlank, Plain;
    KeysGood();
    QuotedGood("name", info.name);
    QuotedGood("filename", info.filename);
    TwoParams(Quoted("name", info.name), Quoted("filename", info.filename),
              ("name", info.name), ("filename", info.filename));
    ParamTextTwo(info);
  }

  lemma ParamTextTwo(info: FormInfo)
    requires info.filename != ""
    ensures ParamText(info) == Quoted("name", info.name) + ";" + (" " + Quoted("filename", info.filename))
  {
  }

  lemma LineTrimmed(key: string, value: string)
    requires key != "" && !IsBlank(key[0]) && value != "" && NoEdgeBlank(value)
    ensures TrimRight(key + ":" + (" " + value)) == key + ":" + (" " + value)
  {
    var line := key + ":" + (" " + value);
    assert line[|line| - 1] == value[|value| - 1];
    TrimIdentity(line);
  }

  lemma LineColon(key: string, rest: string)
    requires ':' !in key
    ensures IndexOf(key + ":" + rest, ':') == |key|
  {
    IndexOfIs(key + ":" + rest, ':', |key|);
  }

  lemma LineParts(key: string, rest: string)
    ensures var line := key + ":" + rest; |key| < |line| && line[..|key|] == key && line[|key| + 1..] == rest
  {
  }

  lemma WellFormedAt(line: string, i: nat)
    requires TrimRight(line) == line && IndexOf(line, ':') == i < |line|
    requires IsFieldName(line[..i]) && IsFieldValue(TrimLeft(line[i + 1..]))
    ensures HeaderWellFormed(line)
  {
    hide TrimRight, TrimLeft, IndexOf, IsFieldName, IsFieldValue;
  }

  lemma WellFormedLine(key: string, value: string)
    requires IsFieldName(key) && ':' !in key
    requires value != "" && NoEdgeBlank(value) && IsFieldValue(value)
    ensures HeaderWellFormed(key + ":" + (" " + value))
  {
    hide TrimRight, TrimLeft, Trim, IndexOf, IsFieldValue, HeaderWellFormed, NoEdgeBlank;
    var line := key + ":" + (" " + value);
    NameIsNotBlank(key);
    LineTrimmed(key, value);
    LineColon(key, " " + value);
    TrimSpace(value);
    LineParts(key, " " + value);
    WellFormedAt(line, |key|);
  }

  lemma NameIsNotBlank(key: string)
    requires IsFieldName(key)
    ensures key != "" && !IsBlank(key[0])
  {
    assert IsTokenChar(key[0]);
  }

  lemma FieldValue(value: string)
    requires NoEdgeBlank(value) && AllFieldChars(value)
    ensures IsFieldValue(value)
  {
  }

  lemma NoCasePrefix(a: string, b: string)
    ensures |a| <= |a + b| && StartsWithNoCase(a + b, a) && (a + b)[|a|..] == b
  {
    assert (a + b)[..|a|] == a;
  }

  lemma MatchSteps(line: string, v: string, text: string)
    requires StartsWithNoCase(line, CONTENT_DISPOSITION) && |CONTENT_DISPOSITION| <= |line|
    requires TrimLeft(line[|CONTENT_DISPOSITION|..]) == v
    requires StartsWithNoCase(v, FORM_DATA) && |FORM_DATA| <= |v| && TrimLeft(v[|FORM_DATA|..]) == text
    ensures MatchDisposition(line) == Some(text)
  {
    hide TrimLeft, StartsWithNoCase;
  }

  lemma Spaced(a: string, b: string, text: string)
    ensures a + " " + b + " " + text == a + (" " + (b + (" " + text)))
  {
  }

  lemma EdgesOf(a: string, text: string)
    requires a != "" && !IsBlank(a[0]) && text != "" && NoEdgeBlank(text)
    ensures var v := a + (" " + text); v != "" && NoEdgeBlank(v)
  {
    var v := a + (" " + text);
    assert v[0] == a[0] && v[|v| - 1] == text[|text| - 1];
  }

  /** A disposition line with clean text is a well-formed header that matches the pattern. */
  lemma DispositionMatches(text: string)
    requires text != "" && NoEdgeBlank(text)
    ensures MatchDisposition(DISPOSITION_START + text) == Some(text)
  {
    hide TrimLeft, Trim, StartsWithNoCase, NoEdgeBlank, MatchDisposition;
    var v := FORM_DATA + (" " + text);
    Spaced(CONTENT_DISPOSITION, FORM_DATA, text);
    NoCasePrefix(CONTENT_DISPOSITION, " " + v);
    TrimSpace(text);
    NoCasePrefix(FORM_DATA, " " + text);
    EdgesOf(FORM_DATA, text);
    TrimSpace(v);
    MatchSteps(DISPOSITION_START + text, v, text);
  }

  const DISPOSITION_KEY: string := "Content-Disposition"

  lemma DispositionKeyIsName()
    ensures IsFieldName(DISPOSITION_KEY) && ':' !in DISPOSITION_KEY
    ensures DISPOSITION_KEY + ":" == CONTENT_DISPOSITION
  {
  }

  lemma DispositionWellFormed(text: string)
    requires text != "" && NoEdgeBlank(text) && AllFieldChars(text)
    ensures HeaderWellFormed(DISPOSITION_START + text)
  {
    FormDataValue(text);
    DispositionKeyIsName();
    WellFormedLine(DISPOSITION_KEY, FORM_DATA + (" " + text));
    DispositionStartSplit(text);
  }

  lemma DispositionStartSplit(text: string)
    ensures DISPOSITION_START + text == DISPOSITION_KEY + ":" + (" " + (FORM_DATA + (" " + text)))
  {
    DispositionKeyIsName();
  }

  lemma FormDataValue(text: string)
    requires text != "" && NoEdgeBlank(text) && AllFieldChars(text)
    ensures var v := FORM_DATA + (" " + text);
            v != "" && NoEdgeBlank(v) && IsFieldValue(v)
  {
    var v := FORM_DATA + (" " + text);
    assert AllFieldChars(FORM_DATA) && AllFieldChars(" ");
    AllFieldCharsPlus(" ", text);
    AllFieldCharsPlus(FORM_DATA, " " + text);
    assert v[|v| - 1] == text[|text| - 1];
    FieldValue(v);
  }

  lemma DispositionIsNoContentType(text: string)
    ensures !StartsWithNoCase(DISPOSITION_START + text, CONTENT_TYPE)
  {
    assert Lower((DISPOSITION_START + text)[8]) != Lower(CONTENT_TYPE[8]);
  }

  lemma AllFieldCharsPlus(a: string, b: string)
    requires AllFieldChars(a) && AllFieldChars(b)
    ensures AllFieldChars(a + b)
  {
  }

  // ---- which names survive ----

  lemma {:induction false} SplitClean(s: string, d: char)
    ensures forall p :: p in Split(s, d) ==> d !in p
    decreases |s|
  {
    hide Trim;
    var i := IndexOf(s, d);
    assert d !in s[..i];
    TrimInside(s[..i]);
    if i < |s| {
      SplitClean(s[i + 1..], d);
    }
  }

  lemma TrimInside(s: string)
    ensures forall c :: c in Trim(s) ==> c in s
  {
    var l := TrimLeft(s);
    var r := TrimRight(l);
    forall c | c in r
      ensures c in s
    {
      assert c in l;
    }
  }

  lemma UnquoteInside(s: string, d: char)
    requires d !in s
    ensures d !in Unquote(s)
  {
  }

  /** Neither a ';' nor a '=' ever reaches a parsed value. */
  lemma ValuePlain(kv: string, p: (string, string))
    requires ';' !in kv && KeyValue(kv) == Some(p)
    ensures Plain(p.1)
  {
    SplitClean(kv, '=');
    var ps := Split(kv, '=');
    PiecesInside(kv, '=', ';');
    if |ps| > 1 {
      var last := ps[|ps| - 1];
      assert last in ps;
      UnquoteInside(last, '=');
      UnquoteInside(last, ';');
    }
  }

  lemma {:induction false} PiecesInside(s: string, d: char, c: char)
    requires c !in s
    ensures forall p :: p in Split(s, d) ==> c !in p
    decreases |s|
  {
    hide Trim;
    var i := IndexOf(s, d);
    TrimInside(s[..i]);
    assert c !in s[..i];
    if i < |s| {
      assert c !in s[i + 1..];
      PiecesInside(s[i + 1..], d, c);
    }
  }

  lemma {:induction false} LookupPlain(pieces: seq<string>, seen: set<string>, key: string)
    requires forall p :: p in pieces ==> ';' !in p
    ensures var r := Lookup(Params(pieces, seen), key); r.Some? ==> Plain(r.value)
  {
    if pieces != [] {
      var rest := pieces[1..];
      LookupPlain(rest, seen, key);
      LookupPlain(rest, seen + {pieces[0]}, key);
      if KeyValue(pieces[0]).Some? {
        ValuePlain(pieces[0], KeyValue(pieces[0]).value);
      }
    }
  }

  ghost predicate ReadsBack(info: FormInfo) {
    var ps := DispositionParams(ParamText(info));
    && Lookup(ps, "name") == Some(info.name)
    && (info.filename != "" ==> Lookup(ps, "filename") == Some(info.filename))
  }

  /** The printed name and filename are read back exactly when neither contains ';' or '='. */
  lemma DispositionExact(info: FormInfo)
    ensures ReadsBack(info) <==> Plain(info.name) && Plain(info.filename)
  {
    var pieces := Split(ParamText(info), ';');
    SplitClean(ParamText(info), ';');
    LookupPlain(pieces, {}, "name");
    LookupPlain(pieces, {}, "filename");
    if Plain(info.name) && Plain(info.filename) {
      ParamsRead(info);
    }
  }

  lemma ParamsRead(info: FormInfo)
    requires Plain(info.name) && Plain(info.filename)
    ensures ReadsBack(info) && Lookup(DispositionParams(ParamText(info)), "filename*") == None
    ensures info.filename == "" ==> Lookup(DispositionParams(ParamText(info)), "filename") == None
  {
    KeysDiffer();
    if info.filename == "" {
      ParamsReadOne(info);
      LookupOne("name", info.name);
    } else {
      ParamsReadTwo(info);
      LookupTwo("name", info.name, "filename", info.filename);
    }
  }

  lemma KeysDiffer()
    ensures "name" != "filename" && "name" != "filename*" && "filename" != "filename*"
  {
    assert |"name"| == 4 && |"filename"| == 8 && |"filename*"| == 9;
  }

  lemma LookupOne(k: string, v: string)
    ensures forall key :: Lookup([(k, v)], key) == if key == k then Some(v) else None
  {
    assert [(k, v)][1..] == [];
  }

  lemma LookupTwo(k: string, v: string, l: string, w: string)
    ensures forall key :: Lookup([(k, v), (l, w)], key) == if key == k then Some(v) else if key == l then Some(w) else None
  {
    LookupOne(l, w);
    assert [(k, v), (l, w)][1..] == [(l, w)];
  }

  // ---- the whole header lines ----

  /** What the header lines of an item must be like to come back: no separator or control byte in
      the names, a trimmed content type, and lines below the parser's limit. */
  predicate HeadersSurvive(info: FormInfo) {
    HeadersPlain(info) && LinesFit(info)
  }

  predicate HeadersPlain(info: FormInfo) {
    && Plain(info.name) && AllFieldChars(info.name)
    && Plain(info.filename) && AllFieldChars(info.filename)
    && NoEdgeBlank(info.contentType) && AllFieldChars(info.contentType)
  }

  predicate LinesFit(info: FormInfo) {
    |DispositionLine(info)| < HEADER_MAX_LENGTH && |ContentTypeLine(info)| < HEADER_MAX_LENGTH
  }

  lemma ParamTextGood(info: FormInfo)
    requires AllFieldChars(info.name) && AllFieldChars(info.filename)
    ensures ParamText(info) != "" && NoEdgeBlank(ParamText(info)) && AllFieldChars(ParamText(info))
  {
    QuotedChars("name", info.name);
    QuotedChars("filename", info.filename);
    if info.filename == "" {
      ParamTextOne(info);
    } else {
      ParamTextTwo(info);
      var (n, f) := (Quoted("name", info.name), Quoted("filename", info.filename));
      AllFieldCharsPlus(n, ";");
      AllFieldCharsPlus(" ", f);
      AllFieldCharsPlus(n + ";", " " + f);
    }
  }

  lemma QuotedChars(key: string, value: string)
    requires key != "" && !IsBlank(key[0]) && AllFieldChars(key) && AllFieldChars(value)
    ensures var q := Quoted(key, value);
            q != "" && q[0] == key[0] && q[|q| - 1] == '"' && NoEdgeBlank(q) && AllFieldChars(q)
  {
  }

  lemma FieldCharsNoCr(s: string)
    requires AllFieldChars(s)
    ensures '\r' !in s
  {
  }

  lemma DispositionParses(decodePath: string -> string, info: FormInfo)
    requires HeadersPlain(info)
    ensures HandleHeader(decodePath, EMPTY_INFO, DispositionLine(info)) ==
            HeaderOutcome(true, info.(contentType := ""))
    ensures '\r' !in DispositionLine(info) && DispositionLine(info) != ""
  {
    var text := ParamText(info);
    ParamTextGood(info);
    DispositionWellFormed(text);
    DispositionMatches(text);
    DispositionIsNoContentType(text);
    ParamsRead(info);
    DispositionNoCr(text);
  }

  lemma DispositionNoCr(text: string)
    requires AllFieldChars(text)
    ensures '\r' !in DISPOSITION_START + text && DISPOSITION_START + text != ""
  {
    FieldCharsNoCr(text);
    assert AllFieldChars(DISPOSITION_START);
    FieldCharsNoCr(DISPOSITION_START);
  }

  lemma ContentTypeParses(decodePath: string -> string, info: FormInfo)
    requires HeadersPlain(info) && info.contentType != ""
    ensures HandleHeader(decodePath, info.(contentType := ""), ContentTypeLine(info)) == HeaderOutcome(true, info)
    ensures '\r' !in ContentTypeLine(info) && ContentTypeLine(info) != ""
  {
    var t := info.contentType;
    ContentTypeKeyIsName();
    FieldValue(t);
    FieldCharsNoCr(t);
    WellFormedLine(CONTENT_TYPE_KEY, t);
    ContentTypeSplit(t);
    NoCasePrefix(CONTENT_TYPE, " " + t);
    TrimSpace(t);
  }

  const CONTENT_TYPE_KEY: string := "Content-Type"

  lemma ContentTypeKeyIsName()
    ensures IsFieldName(CONTENT_TYPE_KEY) && ':' !in CONTENT_TYPE_KEY
    ensures CONTENT_TYPE_KEY + ":" == CONTENT_TYPE
  {
  }

  lemma ContentTypeSplit(t: string)
    requires '\r' !in t
    ensures CONTENT_TYPE + " " + t == CONTENT_TYPE_KEY + ":" + (" " + t) == CONTENT_TYPE + (" " + t)
    ensures '\r' !in CONTENT_TYPE + " " + t
  {
    ContentTypeKeyIsName();
  }
}
