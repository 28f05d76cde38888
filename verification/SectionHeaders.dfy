/**
 The header lines of a section that the serializer does not print (httplib.h:5585-5644): other fields,
 malformed lines, extended filenames, and dispositions without a name.
 */
module SectionHeaders {
  import opened Common
  import opened Text
  import opened Disposition
  import opened DispositionRoundTrip

  /** The field name of a header line. */
  function FieldName(line: string): string {
    line[..IndexOf(line, ':')]
  }

  /** Equal but for the case of letters. */
  predicate SameNoCase(a: string, b: string) {
    |a| == |b| && forall i :: 0 <= i < |a| ==> Lower(a[i]) == Lower(b[i])
  }

  lemma LowerColon(c: char)
    ensures Lower(c) == ':' <==> c == ':'
  {
  }

  /** A line starts with a field's name and a colon exactly when that is its name. */
  lemma NameAndColon(line: string, name: string)
    requires ':' in line && ':' !in name && StartsWithNoCase(line, name + ":")
    ensures SameNoCase(FieldName(line), name)
  {
    var key := name + ":";
    var n := |name|;
    forall i | 0 <= i < |key|
      ensures Lower(line[i]) == Lower(key[i])
    {
      assert line[..|key|][i] == line[i];
    }
    assert key[n] == ':';
    LowerColon(line[n]);
    forall i | 0 <= i < n
      ensures line[i] != ':'
    {
      assert key[i] == name[i] && name[i] in name;
      LowerColon(line[i]);
      LowerColon(key[i]);
    }
    IndexOfIs(line, ':', n);
    assert forall i :: 0 <= i < n ==> FieldName(line)[i] == line[i] && key[i] == name[i];
  }

  /** Well-formed lines of any other field are read over. */
  lemma OtherHeaderKept(decodePath: string -> string, info: FormInfo, line: string)
    requires HeaderWellFormed(line)
    requires !SameNoCase(FieldName(line), "Content-Type") && !SameNoCase(FieldName(line), "Content-Disposition")
    ensures HandleHeader(decodePath, info, line) == HeaderOutcome(true, info)
  {
    hide SameNoCase, StartsWithNoCase, TrimLeft, ApplyParams;
    HasColon(line);
    if StartsWithNoCase(line, CONTENT_TYPE) {
      ContentTypeKeyIsName();
      NameAndColon(line, CONTENT_TYPE_KEY);
    }
    if StartsWithNoCase(line, CONTENT_DISPOSITION) {
      DispositionKeyIsName();
      NameAndColon(line, DISPOSITION_KEY);
    }
  }

  lemma HasColon(line: string)
    requires HeaderWellFormed(line)
    ensures ':' in line
  {
    var s := TrimRight(line);
    assert s[IndexOf(s, ':')] == line[IndexOf(s, ':')];
  }

  /** A line without a colon, or without a name in front of it, is refused. */
  lemma MalformedRefused(decodePath: string -> string, info: FormInfo, line: string)
    requires ':' !in line || line[0] == ':'
    ensures HandleHeader(decodePath, info, line) == HeaderOutcome(false, info)
  {
    var s := TrimRight(line);
    var i := IndexOf(s, ':');
    if i < |s| {
      assert s[i] == line[i];
    }
  }

  // ---- dispositions ----

  lemma FormLine(decodePath: string -> string, info: FormInfo, text: string)
    requires text != "" && NoEdgeBlank(text) && AllFieldChars(text)
    ensures HandleHeader(decodePath, info, DISPOSITION_START + text) ==
            ApplyParams(decodePath, info, DispositionParams(text))
  {
    hide ApplyParams, DispositionParams;
    DispositionWellFormed(text);
    DispositionMatches(text);
    DispositionIsNoContentType(text);
  }

  lemma QuotedText(key: string, value: string)
    requires key != "" && !IsBlank(key[0]) && AllFieldChars(key) && AllFieldChars(value)
    ensures Quoted(key, value) != "" && NoEdgeBlank(Quoted(key, value)) && AllFieldChars(Quoted(key, value))
  {
    QuotedEdges(key, value);
    QuotedChars(key, value);
  }

  lemma FilenameKeys()
    ensures NoEdgeBlank("filename") && Plain("filename") && AllFieldChars("filename")
    ensures NoEdgeBlank("filename*") && Plain("filename*") && AllFieldChars("filename*")
    ensures NoEdgeBlank("name") && Plain("name") && AllFieldChars("name")
  {
  }

  /** A form-data disposition without a name is refused. */
  lemma NamelessRefused(decodePath: string -> string, info: FormInfo, filename: string)
    requires Plain(filename) && AllFieldChars(filename)
    ensures !HandleHeader(decodePath, info, DISPOSITION_START + Quoted("filename", filename)).ok
  {
    hide HandleHeader, Quoted, DispositionParams, Plain, NoEdgeBlank, AllFieldChars;
    var q := Quoted("filename", filename);
    FilenameKeys();
    QuotedText("filename", filename);
    QuotedGood("filename", filename);
    FormLine(decodePath, info, q);
    OneParam(q, ("filename", filename));
    LookupOne("filename", filename);
    KeysDiffer();
  }

  /** A disposition with a name alone sets the name, and leaves a filename that was read before. */
  lemma NameAlone(decodePath: string -> string, info: FormInfo, name: string)
    requires Plain(name) && AllFieldChars(name)
    ensures HandleHeader(decodePath, info, DISPOSITION_START + Quoted("name", name)) ==
            HeaderOutcome(true, info.(name := name))
  {
    hide HandleHeader, Quoted, DispositionParams, Plain, NoEdgeBlank, AllFieldChars;
    var q := Quoted("name", name);
    FilenameKeys();
    QuotedText("name", name);
    QuotedGood("name", name);
    FormLine(decodePath, info, q);
    OneParam(q, ("name", name));
    LookupOne("name", name);
    KeysDiffer();
  }

  /** An extended filename is what the percent decoder makes of it. */
  lemma ExtendedFilename(decodePath: string -> string, info: FormInfo, name: string, encoded: string)
    requires Plain(name) && AllFieldChars(name) && Plain(encoded) && AllFieldChars(encoded) && encoded != ""
    ensures var text := Quoted("name", name) + ";" + (" " + Quoted("filename*", UTF8 + encoded));
            HandleHeader(decodePath, info, DISPOSITION_START + text) ==
            HeaderOutcome(true, info.(name := name, filename := decodePath(encoded)))
  {
    hide HandleHeader, Quoted, DispositionParams, NoEdgeBlank, MatchExtended;
    var (n, f) := (Quoted("name", name), Quoted("filename*", UTF8 + encoded));
    var text := n + ";" + (" " + f);
    FilenameKeys();
    ExtendedPlain(encoded);
    QuotedText("name", name);
    QuotedText("filename*", UTF8 + encoded);
    QuotedGood("name", name);
    QuotedGood("filename*", UTF8 + encoded);
    JoinedText(n, f);
    FormLine(decodePath, info, text);
    TwoParams(n, f, ("name", name), ("filename*", UTF8 + encoded));
    LookupTwo("name", name, "filename*", UTF8 + encoded);
    KeysDiffer();
    ExtendedMatches(encoded);
  }

  lemma ExtendedPlain(encoded: string)
    requires Plain(encoded) && AllFieldChars(encoded)
    ensures Plain(UTF8 + encoded) && AllFieldChars(UTF8 + encoded)
  {
  }

  lemma ExtendedMatches(encoded: string)
    requires encoded != ""
    ensures MatchExtended(UTF8 + encoded) == Some(encoded)
  {
    NoCasePrefix(UTF8, encoded);
  }

  lemma JoinedText(n: string, f: string)
    requires n != "" && NoEdgeBlank(n) && AllFieldChars(n) && f != "" && NoEdgeBlank(f) && AllFieldChars(f)
    ensures var text := n + ";" + (" " + f); text != "" && NoEdgeBlank(text) && AllFieldChars(text)
  {
    var text := n + ";" + (" " + f);
    assert text[0] == n[0] && text[|text| - 1] == f[|f| - 1];
  }

  // ---- letter case ----

  /** A character and its other case. */
  lemma CaseOf(c: char, k: char)
    requires Lower(c) == Lower(k)
    ensures (c == k) || (IsAlnum(c) && IsAlnum(k))
  {
  }

  lemma StartsAnyCase(a: string, b: string, t: string)
    requires SameNoCase(a, t)
    ensures |t| <= |a + b| && StartsWithNoCase(a + b, t) && (a + b)[|t|..] == b
  {
    assert forall i :: 0 <= i < |t| ==> (a + b)[i] == a[i];
  }

  /** A name in another case is a name, without a colon. */
  lemma NameAnyCase(name: string, key: string)
    requires SameNoCase(name, key) && IsFieldName(key) && ':' !in key
    ensures IsFieldName(name) && ':' !in name
  {
    forall i | 0 <= i < |name|
      ensures IsTokenChar(name[i]) && name[i] != ':'
    {
      CaseOf(name[i], key[i]);
      assert key[i] in key;
    }
  }

  lemma ValueAnyCase(form: string, text: string)
    requires SameNoCase(form, FORM_DATA) && text != "" && NoEdgeBlank(text) && AllFieldChars(text)
    ensures var v := form + (" " + text); v != "" && NoEdgeBlank(v) && AllFieldChars(v)
  {
    forall i | 0 <= i < |form|
      ensures IsFieldChar(form[i]) && !IsBlank(form[i])
    {
      FormDataChar(i);
      CaseOf(form[i], FORM_DATA[i]);
    }
    var v := form + (" " + text);
    assert v[0] == form[0] && v[|v| - 1] == text[|text| - 1];
  }

  lemma FormDataChar(i: nat)
    requires i < |FORM_DATA|
    ensures IsFieldVchar(FORM_DATA[i])
  {
  }

  /** The names of the field and of the disposition are read in any letter case. */
  lemma AnyCaseDisposition(decodePath: string -> string, info: FormInfo, key: string, form: string, text: string)
    requires SameNoCase(key, DISPOSITION_KEY) && SameNoCase(form, FORM_DATA)
    requires text != "" && NoEdgeBlank(text) && AllFieldChars(text)
    ensures HandleHeader(decodePath, info, key + ":" + (" " + (form + (" " + text)))) ==
            ApplyParams(decodePath, info, DispositionParams(text))
  {
    hide ApplyParams, DispositionParams, SameNoCase, TrimLeft, TrimRight, Trim, StartsWithNoCase, NoEdgeBlank, AllFieldChars,
         IsFieldName, IsFieldValue, MatchDisposition, HeaderWellFormed;
    var v := form + (" " + text);
    var line := key + ":" + (" " + v);
    DispositionKeyIsName();
    NameAnyCase(key, DISPOSITION_KEY);
    ValueAnyCase(form, text);
    FieldValue(v);
    WellFormedLine(key, v);
    KeyColon(key);
    StartsAnyCase(key + ":", " " + v, CONTENT_DISPOSITION);
    TrimSpace(v);
    StartsAnyCase(form, " " + text, FORM_DATA);
    TrimSpace(text);
    MatchSteps(line, v, text);
    NotType(key, " " + v);
  }

  lemma KeyColon(key: string)
    requires SameNoCase(key, DISPOSITION_KEY)
    ensures SameNoCase(key + ":", CONTENT_DISPOSITION)
  {
    DispositionKeyIsName();
    var (a, b) := (key + ":", DISPOSITION_KEY + ":");
    forall i | 0 <= i < |a|
      ensures Lower(a[i]) == Lower(b[i])
    {
      if i < |key| { assert a[i] == key[i] && b[i] == DISPOSITION_KEY[i]; }
    }
  }

  lemma NotType(key: string, rest: string)
    requires SameNoCase(key, DISPOSITION_KEY)
    ensures !StartsWithNoCase(key + ":" + rest, CONTENT_TYPE)
  {
    var line := key + ":" + rest;
    assert line[8] == key[8] && Lower(key[8]) == Lower(DISPOSITION_KEY[8]);
    assert Lower(DISPOSITION_KEY[8]) != Lower(CONTENT_TYPE[8]);
  }

  /** And so is Content-Type, whose value is taken as it stands, without blanks around it. */
  lemma AnyCaseType(decodePath: string -> string, info: FormInfo, key: string, t: string)
    requires SameNoCase(key, CONTENT_TYPE_KEY) && t != "" && NoEdgeBlank(t) && AllFieldChars(t)
    ensures HandleHeader(decodePath, info, key + ":" + (" " + t)) == HeaderOutcome(true, info.(contentType := t))
  {
    hide ApplyParams, SameNoCase, TrimLeft, TrimRight, StartsWithNoCase, NoEdgeBlank, AllFieldChars,
         IsFieldName, IsFieldValue, HeaderWellFormed;
    ContentTypeKeyIsName();
    NameAnyCase(key, CONTENT_TYPE_KEY);
    FieldValue(t);
    WellFormedLine(key, t);
    TypeColon(key);
    StartsAnyCase(key + ":", " " + t, CONTENT_TYPE);
    TrimSpace(t);
  }

  lemma TypeColon(key: string)
    requires SameNoCase(key, CONTENT_TYPE_KEY)
    ensures SameNoCase(key + ":", CONTENT_TYPE)
  {
    ContentTypeKeyIsName();
    var (a, b) := (key + ":", CONTENT_TYPE_KEY + ":");
    forall i | 0 <= i < |a|
      ensures Lower(a[i]) == Lower(b[i])
    {
      if i < |key| { assert a[i] == key[i] && b[i] == CONTENT_TYPE_KEY[i]; }
    }
  }
}
