/**
 Which header lines of a section are well formed (section 5 of RFC 9110), and the spellings of their values
 that are read alike (httplib.h:4604-4646, 5334-5358, 5585-5644).
 */
module HeaderForms {
  import opened Common
  import opened Text
  import opened Disposition
  import opened DispositionRoundTrip
  import opened SectionHeaders

  // ---- well-formed lines ----

  /** A token's characters are the visible ones but for the delimiters (section 5.6.2). */
  lemma TokenChars(c: char)
    ensures IsTokenChar(c) <==> 33 <= c as int <= 126 && c !in "(),/:;<=>?@[\\]{}\""
  {
  }

  /** Blanks are spaces and tabs. */
  lemma BlanksAre(c: char)
    ensures IsBlank(c) <==> c in " \t"
  {
  }

  predicate Blanks(s: string) {
    forall i :: 0 <= i < |s| ==> IsBlank(s[i])
  }

  /** Characters of a field value: blanks and everything else that is no control character. */
  predicate ValueChar(c: char) {
    IsBlank(c) || (c as int >= 33 && c as int != 127)
  }

  lemma {:induction false} TrimLeftIs(pad: string, s: string)
    requires Blanks(pad) && (s != "" ==> !IsBlank(s[0]))
    ensures TrimLeft(pad + s) == s
    decreases |pad|
  {
    if pad == "" {
      assert pad + s == s;
    } else {
      assert (pad + s)[1..] == pad[1..] + s;
      TrimLeftIs(pad[1..], s);
    }
  }

  lemma {:induction false} TrimRightIs(s: string, pad: string)
    requires Blanks(pad) && (s != "" ==> !IsBlank(s[|s| - 1]))
    ensures TrimRight(s + pad) == s
    decreases |pad|
  {
    if pad == "" {
      assert s + pad == s;
    } else {
      var n := |pad| - 1;
      assert (s + pad)[..|s + pad| - 1] == s + pad[..n];
      TrimRightIs(s, pad[..n]);
    }
  }

  lemma FieldValueIs(value: string)
    requires NoEdgeBlank(value)
    ensures IsFieldValue(value) <==> forall i :: 0 <= i < |value| ==> ValueChar(value[i])
  {
  }

  /** A line is well formed exactly when its name is a token and its value has no control characters, blanks around
      the value aside. */
  lemma WellFormedExactly(name: string, pad: string, value: string, tail: string)
    requires ':' !in name && Blanks(pad) && Blanks(tail) && NoEdgeBlank(value)
    ensures HeaderWellFormed(name + ":" + (pad + value + tail)) <==>
              && name != "" && (forall i :: 0 <= i < |name| ==> IsTokenChar(name[i]))
              && forall i :: 0 <= i < |value| ==> ValueChar(value[i])
  {
    hide TrimLeft, TrimRight, IsTokenChar, IsFieldValue, ValueChar, NoEdgeBlank;
    var line := name + ":" + (pad + value + tail);
    var kept := if value == "" then "" else pad + value;
    LineTrims(name, pad, value, tail);
    LineColon(name, kept);
    LineParts(name, kept);
    FieldValueIs(value);
    ValueTrims(pad, value);
  }

  lemma LineTrims(name: string, pad: string, value: string, tail: string)
    requires Blanks(pad) && Blanks(tail) && NoEdgeBlank(value)
    ensures TrimRight(name + ":" + (pad + value + tail)) ==
            name + ":" + (if value == "" then "" else pad + value)
  {
    if value == "" {
      TrimRightIs(name + ":", pad + tail);
      assert name + ":" + (pad + value + tail) == name + ":" + (pad + tail);
    } else {
      var s := name + ":" + (pad + value);
      assert s[|s| - 1] == value[|value| - 1];
      TrimRightIs(s, tail);
      assert name + ":" + (pad + value + tail) == s + tail;
    }
  }

  lemma ValueTrims(pad: string, value: string)
    requires Blanks(pad) && NoEdgeBlank(value)
    ensures TrimLeft(if value == "" then "" else pad + value) == value
  {
    if value == "" { TrimLeftIs("", ""); } else { TrimLeftIs(pad, value); }
  }

  // ---- spellings of a value ----

  /** The content type is read without the blanks around it. */
  lemma TypeTrimmed(decodePath: string -> string, info: FormInfo, pad: string, t: string, tail: string)
    requires Blanks(pad) && Blanks(tail) && NoEdgeBlank(t) && forall i :: 0 <= i < |t| ==> ValueChar(t[i])
    ensures HandleHeader(decodePath, info, "Content-Type" + ":" + (pad + t + tail)) ==
            HeaderOutcome(true, info.(contentType := t))
  {
    hide HeaderWellFormed, TrimLeft, TrimRight, ValueChar;
    var line := "Content-Type" + ":" + (pad + t + tail);
    ContentTypeKeyIsName();
    assert "Content-Type" == CONTENT_TYPE_KEY;
    WellFormedExactly("Content-Type", pad, t, tail);
    NoCasePrefix(CONTENT_TYPE, pad + t + tail);
    assert "Content-Type" + ":" == CONTENT_TYPE;
    assert line[|CONTENT_TYPE|..] == pad + t + tail;
    TrimBoth(pad, t, tail);
  }

  lemma TrimBoth(pad: string, t: string, tail: string)
    requires Blanks(pad) && Blanks(tail) && NoEdgeBlank(t)
    ensures Trim(pad + t + tail) == t
  {
    hide TrimLeft, TrimRight;
    if t == "" {
      assert pad + t + tail == pad + tail + "";
      TrimLeftIs(pad + tail, "");
      TrimRightIs("", "");
    } else {
      assert pad + t + tail == pad + (t + tail);
      TrimLeftIs(pad, t + tail);
      TrimRightIs(t, tail);
    }
  }

  function InQuotes(s: string, quoted: bool): string {
    if quoted then QUOTE + s + QUOTE else s
  }

  predicate Word(s: string) {
    s != "" && NoEdgeBlank(s) && '=' !in s && '"' !in s
  }

  lemma UnquoteWord(s: string, quoted: bool)
    requires Word(s)
    ensures Unquote(InQuotes(s, quoted)) == s
  {
    if quoted { UnquoteQuoted(s); }
  }

  lemma QuotesClean(s: string, quoted: bool)
    requires Word(s)
    ensures InQuotes(s, quoted) != "" && NoEdgeBlank(InQuotes(s, quoted)) && '=' !in InQuotes(s, quoted)
  {
    var q := InQuotes(s, quoted);
    assert quoted ==> q[0] == '"' && q[|q| - 1] == '"';
  }

  lemma PieceLast(a: string, k: string, d: char)
    requires d !in a && Trim(a) == k != ""
    ensures Split(a, d) == [k]
  {
    hide Trim;
    IndexOfIs(a, d, |a|);
    assert a[..|a|] == a;
  }

  lemma PieceFirst(a: string, k: string, d: char, rest: string)
    requires d !in a && Trim(a) == k != ""
    ensures Split(a + [d] + rest, d) == [k] + Split(rest, d)
  {
    hide Trim;
    var s := a + [d] + rest;
    IndexOfIs(s, d, |a|);
    assert s[..|a|] == a && s[|a| + 1..] == rest;
  }

  lemma BlanksFree(k: string, pad: string)
    requires '=' !in k && Blanks(pad)
    ensures '=' !in k + pad && '=' !in pad + k
  {
  }

  lemma SpacedPieces(k: string, a: string, b: string, v: string)
    requires k != "" && NoEdgeBlank(k) && '=' !in k && v != "" && NoEdgeBlank(v) && '=' !in v && Blanks(a) && Blanks(b)
    ensures Split(k + a + "=" + (b + v), '=') == [k, v]
  {
    hide Trim, NoEdgeBlank, Split, Blanks;
    BlanksFree(k, a);
    BlanksFree(v, b);
    NoBlanks();
    TrimBoth("", k, a);
    assert "" + k + a == k + a && b + v + "" == b + v;
    TrimBoth(b, v, "");
    PieceFirst(k + a, k, '=', b + v);
    PieceLast(b + v, v, '=');
    assert "=" == ['='];
  }

  lemma NoBlanks()
    ensures Blanks("")
  {
  }

  /** A parameter is read the same with and without quotes around its key and its value, and with blanks around
      the equals sign. */
  lemma AnySpelling(k: string, kq: bool, a: string, b: string, v: string, vq: bool)
    requires Word(k) && Word(v) && Blanks(a) && Blanks(b)
    ensures KeyValue(InQuotes(k, kq) + a + "=" + (b + InQuotes(v, vq))) == Some((k, v))
  {
    hide Split, Unquote, Word, InQuotes, NoEdgeBlank;
    QuotesClean(k, kq);
    QuotesClean(v, vq);
    SpacedPieces(InQuotes(k, kq), a, b, InQuotes(v, vq));
    UnquoteWord(k, kq);
    UnquoteWord(v, vq);
  }

  // ---- extended filenames ----

  /** An extended filename that is not in UTF-8, or has nothing behind the charset, is refused. */
  lemma ExtendedRefused(decodePath: string -> string, info: FormInfo, name: string, value: string)
    requires Plain(name) && AllFieldChars(name) && Plain(value) && AllFieldChars(value)
    requires !StartsWithNoCase(value, "UTF-8''") || |value| == 7
    ensures var text := Quoted("name", name) + ";" + (" " + Quoted("filename*", value));
            !HandleHeader(decodePath, info, DISPOSITION_START + text).ok
  {
    hide HandleHeader, Quoted, DispositionParams, NoEdgeBlank, StartsWithNoCase;
    var (n, f) := (Quoted("name", name), Quoted("filename*", value));
    FilenameKeys();
    QuotedText("name", name);
    QuotedText("filename*", value);
    QuotedGood("name", name);
    QuotedGood("filename*", value);
    JoinedText(n, f);
    FormLine(decodePath, info, n + ";" + (" " + f));
    TwoParams(n, f, ("name", name), ("filename*", value));
    LookupTwo("name", name, "filename*", value);
    KeysDiffer();
  }
}
