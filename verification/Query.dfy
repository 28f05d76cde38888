/**
 Query strings (section 2.1 of RFC 3986): encode_query_component, decode_query_component,
 params_to_query_str and parse_query_text (httplib.h:5284-5317, 6613-6690), with spaces as '+'.
 */
module QuerySpec {
  import opened Common
  import opened Text
  import opened Disposition

  const UPPER: string := "0123456789ABCDEF"

  /** Bytes that stand for themselves in a component. */
  predicate Safe(c: char) {
    IsAlnum(c) || c in "-._~!$'()*,;:@/?"
  }

  /** A `char` of the original. */
  predicate IsByte(c: char) {
    c as int < 256
  }

  predicate AllBytes(s: string) {
    forall i :: 0 <= i < |s| ==> IsByte(s[i])
  }

  function Hex2(c: char): string
    requires IsByte(c)
  {
    [UPPER[c as int / 16], UPPER[c as int % 16]]
  }

  function EncodeChar(c: char): string
    requires IsByte(c)
  {
    if Safe(c) then [c] else if c == ' ' then "+" else "%" + Hex2(c)
  }

  function EncodeComponent(s: string): string
    requires AllBytes(s)
  {
    if s == "" then "" else EncodeChar(s[0]) + EncodeComponent(s[1..])
  }

  function HexValue(c: char): int {
    if '0' <= c <= '9' then c as int - '0' as int
    else if 'a' <= c <= 'f' then c as int - 'a' as int + 10
    else if 'A' <= c <= 'F' then c as int - 'A' as int + 10
    else -1
  }

  /** strtoul on exactly two characters, if it consumes both: two digits, or one behind a blank or sign. */
  function Byte2(a: char, b: char): (r: int)
    ensures -1 <= r < 256
  {
    if HexValue(b) < 0 then -1
    else if HexValue(a) >= 0 then 16 * HexValue(a) + HexValue(b)
    else if IsSpace(a) || a == '+' then HexValue(b)
    else if a == '-' then (256 - HexValue(b)) % 256
    else -1
  }

  function DecodeComponent(s: string): string {
    if s == "" then ""
    else if s[0] == '%' && |s| > 2 && Byte2(s[1], s[2]) >= 0 then
      [Byte2(s[1], s[2]) as char] + DecodeComponent(s[3..])
    else [if s[0] == '+' then ' ' else s[0]] + DecodeComponent(s[1..])
  }

  /** A multimap in iteration order: sorted by key, equal keys in insertion order. */
  type ParamList = seq<(string, string)>

  /** std::string's `<`. */
  predicate LexLess(a: string, b: string) {
    b != "" && (a == "" || a[0] < b[0] || (a[0] == b[0] && LexLess(a[1..], b[1..])))
  }

  /** multimap::emplace: behind all keys that are not greater. */
  function Emplace(ps: ParamList, p: (string, string)): ParamList {
    if ps != [] && LexLess(p.0, ps[|ps| - 1].0) then Emplace(ps[..|ps| - 1], p) + [ps[|ps| - 1]] else ps + [p]
  }

  predicate Sorted(ps: ParamList) {
    forall i, j :: 0 <= i < j < |ps| ==> !LexLess(ps[j].0, ps[i].0)
  }

  predicate ByteParams(ps: ParamList) {
    forall i :: 0 <= i < |ps| ==> AllBytes(ps[i].0) && AllBytes(ps[i].1)
  }

  function PairText(p: (string, string)): string
    requires AllBytes(p.0) && AllBytes(p.1)
  {
    EncodeComponent(p.0) + "=" + EncodeComponent(p.1)
  }

  /** params_to_query_str. */
  function QueryText(ps: ParamList): string
    requires ByteParams(ps)
  {
    if ps == [] then ""
    else if |ps| == 1 then PairText(ps[0])
    else PairText(ps[0]) + "&" + QueryText(ps[1..])
  }

  /** One piece of parse_query_text; a piece seen before or without a key adds nothing. */
  function AddPiece(ps: ParamList, seen: set<string>, kv: string): ParamList {
    var i := IndexOf(kv, '=');
    var value := if i < |kv| then kv[i + 1..] else "";
    if kv in seen || i == 0 then ps else Emplace(ps, (DecodeComponent(kv[..i]), DecodeComponent(value)))
  }

  function ParsePieces(pieces: seq<string>, seen: set<string>, ps: ParamList): ParamList
    decreases |pieces|
  {
    if pieces == [] then ps
    else ParsePieces(pieces[1..], seen + {pieces[0]}, AddPiece(ps, seen, pieces[0]))
  }

  /** parse_query_text into an empty multimap. */
  function ParseQuery(s: string): ParamList {
    ParsePieces(Split(s, '&'), {}, [])
  }
}

module QueryRoundTrip {
  import opened Text
  import opened Disposition
  import opened DispositionRoundTrip
  import opened QuerySpec

  /** What an encoded component is made of. */
  predicate Encoded(s: string) {
    forall i :: 0 <= i < |s| ==> Safe(s[i]) || s[i] == '+' || s[i] == '%'
  }

  lemma HexDigits(d: nat)
    requires d < 16
    ensures HexValue(UPPER[d]) == d && Safe(UPPER[d])
  {
  }

  lemma EncodeCharGood(c: char)
    requires IsByte(c)
    ensures EncodeChar(c) != "" && Encoded(EncodeChar(c))
  {
    HexDigits(c as int / 16);
    HexDigits(c as int % 16);
  }

  lemma DecodeChar(c: char, rest: string)
    requires IsByte(c)
    ensures DecodeComponent(EncodeChar(c) + rest) == [c] + DecodeComponent(rest)
  {
    var s := EncodeChar(c) + rest;
    if Safe(c) || c == ' ' {
      assert s[1..] == rest;
      assert c != '%' && c != '+';
    } else {
      HexDigits(c as int / 16);
      HexDigits(c as int % 16);
      assert s[3..] == rest;
    }
  }

  lemma {:induction false} ComponentRoundTrip(s: string)
    requires AllBytes(s)
    ensures DecodeComponent(EncodeComponent(s)) == s && Encoded(EncodeComponent(s))
    ensures s != "" <==> EncodeComponent(s) != ""
    decreases |s|
  {
    if s != "" {
      EncodeCharGood(s[0]);
      ComponentRoundTrip(s[1..]);
      DecodeChar(s[0], EncodeComponent(s[1..]));
    }
  }

  lemma SafeIsNoSeparator(c: char)
    requires Safe(c) || c == '+' || c == '%'
    ensures c != '&' && c != '=' && !IsBlank(c)
  {
  }

  lemma EncodedClean(s: string)
    requires Encoded(s)
    ensures '&' !in s && '=' !in s && NoEdgeBlank(s)
  {
    forall i | 0 <= i < |s|
      ensures s[i] != '&' && s[i] != '=' && !IsBlank(s[i])
    {
      SafeIsNoSeparator(s[i]);
    }
  }

  lemma PairTextGood(p: (string, string))
    requires AllBytes(p.0) && AllBytes(p.1)
    ensures var t := PairText(p);
            t != "" && NoEdgeBlank(t) && '&' !in t
            && IndexOf(t, '=') < |t| && (IndexOf(t, '=') == 0 <==> p.0 == "")
            && DecodeComponent(t[..IndexOf(t, '=')]) == p.0 && DecodeComponent(t[IndexOf(t, '=') + 1..]) == p.1
  {
    hide EncodeComponent, DecodeComponent, Encoded;
    var (k, v) := (EncodeComponent(p.0), EncodeComponent(p.1));
    ComponentRoundTrip(p.0);
    ComponentRoundTrip(p.1);
    EncodedClean(k);
    EncodedClean(v);
    var t := k + "=" + v;
    IndexOfIs(t, '=', |k|);
    assert t[..|k|] == k && t[|k| + 1..] == v;
  }

  lemma PairTextInjective(p: (string, string), q: (string, string))
    requires AllBytes(p.0) && AllBytes(p.1)
    requires AllBytes(q.0) && AllBytes(q.1)
    requires PairText(p) == PairText(q)
    ensures p == q
  {
    hide PairText;
    PairTextGood(p);
    PairTextGood(q);
  }

  function Texts(ps: ParamList): seq<string>
    requires ByteParams(ps)
  {
    if ps == [] then [] else [PairText(ps[0])] + Texts(ps[1..])
  }

  predicate Keyed(ps: ParamList) {
    forall i :: 0 <= i < |ps| ==> ps[i].0 != ""
  }

  lemma {:induction false} QuerySplits(ps: ParamList)
    requires ByteParams(ps)
    ensures Split(QueryText(ps), '&') == Texts(ps)
    decreases |ps|
  {
    hide PairText;
    if |ps| == 1 {
      PairTextGood(ps[0]);
      SplitLast(PairText(ps[0]), '&');
    } else if ps != [] {
      PairTextGood(ps[0]);
      QuerySplits(ps[1..]);
      SplitFirst(PairText(ps[0]), QueryText(ps[1..]), '&');
    }
  }

  predicate Distinct(ps: ParamList) {
    forall i, j :: 0 <= i < j < |ps| ==> ps[i] != ps[j]
  }

  lemma {:induction false} TextsOf(ps: ParamList, t: string)
    requires ByteParams(ps)
    ensures t in Texts(ps) <==> exists i :: 0 <= i < |ps| && PairText(ps[i]) == t
    decreases |ps|
  {
    hide PairText;
    if ps != [] {
      TextsOf(ps[1..], t);
      if PairText(ps[0]) != t && exists i :: 0 <= i < |ps| && PairText(ps[i]) == t {
        var i :| 0 <= i < |ps| && PairText(ps[i]) == t;
        assert ps[1..][i - 1] == ps[i];
      }
      if exists i :: 0 <= i < |ps[1..]| && PairText(ps[1..][i]) == t {
        var i :| 0 <= i < |ps[1..]| && PairText(ps[1..][i]) == t;
        assert ps[i + 1] == ps[1..][i];
      }
    }
  }

  lemma EmplaceLast(ps: ParamList, p: (string, string))
    requires Sorted(ps + [p])
    ensures Emplace(ps, p) == ps + [p]
  {
    if ps != [] {
      assert (ps + [p])[|ps|] == p && (ps + [p])[|ps| - 1] == ps[|ps| - 1];
    }
  }

  /** The pieces of the rest, behind the parameters already read. */
  lemma {:induction false} PiecesReadBack(done: ParamList, todo: ParamList, seen: set<string>)
    requires ByteParams(done + todo) && Keyed(done + todo) && Sorted(done + todo)
    requires ByteParams(todo) && forall t :: t in seen ==> t !in Texts(todo)
    requires Distinct(todo)
    ensures ParsePieces(Texts(todo), seen, done) == done + todo
    decreases |todo|
  {
    hide PairText, Emplace, DecodeComponent, LexLess, Texts, Sorted, Split;
    if todo == [] {
      NoTexts(todo);
      assert done + todo == done;
    } else {
      var (p, rest) := (todo[0], todo[1..]);
      var t := PairText(p);
      assert (done + todo)[|done|] == p;
      PairTextGood(p);
      TextsStep(todo);
      PrefixSorted(done, p, rest, todo);
      EmplaceLast(done, p);
      NotAgain(todo);
      assert (done + [p]) + rest == done + todo;
      PiecesReadBack(done + [p], rest, seen + {t});
    }
  }

  lemma NoTexts(ps: ParamList)
    requires ps == []
    ensures ByteParams(ps) && Texts(ps) == []
  {
  }

  lemma TextsStep(ps: ParamList)
    requires ps != [] && ByteParams(ps)
    ensures Texts(ps) != [] && Texts(ps)[0] == PairText(ps[0]) && Texts(ps)[1..] == Texts(ps[1..])
  {
    hide PairText;
  }

  lemma PrefixSorted(done: ParamList, p: (string, string), rest: ParamList, todo: ParamList)
    requires todo == [p] + rest && Sorted(done + todo)
    ensures Sorted(done + [p])
  {
    hide LexLess;
    assert forall i :: 0 <= i <= |done| ==> (done + [p])[i] == (done + todo)[i];
  }

  lemma NotAgain(todo: ParamList)
    requires todo != [] && ByteParams(todo) && Distinct(todo)
    ensures PairText(todo[0]) !in Texts(todo[1..])
  {
    hide PairText;
    TextsOf(todo[1..], PairText(todo[0]));
    forall i | 0 <= i < |todo[1..]|
      ensures PairText(todo[1..][i]) != PairText(todo[0])
    {
      assert todo[1..][i] == todo[i + 1];
      if PairText(todo[1..][i]) == PairText(todo[0]) {
        PairTextInjective(todo[0], todo[i + 1]);
      }
    }
  }

  lemma EmplaceAdds(ps: ParamList, p: (string, string), b: (string, string))
    ensures |Emplace(ps, p)| == |ps| + 1
    ensures Keyed(ps) && p.0 != "" ==> Keyed(Emplace(ps, p))
  {
  }

  lemma {:induction false} DecodeNotEmpty(s: string)
    requires s != ""
    ensures DecodeComponent(s) != ""
  {
  }

  /** Some piece was seen, before or within the list. */
  ghost predicate Repeats(pieces: seq<string>, seen: set<string>) {
    exists i :: 0 <= i < |pieces| && (pieces[i] in seen || pieces[i] in pieces[..i])
  }

  /** No parsed parameter has an empty key, and a piece that repeats an earlier one adds none. */
  lemma {:induction false} ParsedShape(pieces: seq<string>, seen: set<string>, ps: ParamList)
    requires Keyed(ps)
    ensures var r := ParsePieces(pieces, seen, ps);
            Keyed(r) && |r| <= |ps| + |pieces|
            && (Repeats(pieces, seen) ==> |r| < |ps| + |pieces|)
    decreases |pieces|
  {
    hide Emplace, DecodeComponent;
    if pieces != [] {
      var (kv, rest) := (pieces[0], pieces[1..]);
      var i := IndexOf(kv, '=');
      if i > 0 {
        DecodeNotEmpty(kv[..i]);
      }
      EmplaceAdds(ps, (DecodeComponent(kv[..i]), DecodeComponent(if i < |kv| then kv[i + 1..] else "")), ("", ""));
      ParsedShape(rest, seen + {kv}, AddPiece(ps, seen, kv));
      if kv !in seen && Repeats(pieces, seen) {
        RepeatMoves(pieces, seen);
      }
    }
  }

  lemma RepeatMoves(pieces: seq<string>, seen: set<string>)
    requires pieces != [] && pieces[0] !in seen && Repeats(pieces, seen)
    ensures Repeats(pieces[1..], seen + {pieces[0]})
  {
    var i :| 0 <= i < |pieces| && (pieces[i] in seen || pieces[i] in pieces[..i]);
    var rest := pieces[1..];
    assert rest[i - 1] == pieces[i];
    if pieces[i] !in seen && pieces[i] != pieces[0] {
      var j :| 0 <= j < i && pieces[j] == pieces[i];
      assert rest[..i - 1][j - 1] == pieces[j];
    }
  }

  lemma {:induction false} TextsAt(ps: ParamList, k: nat)
    requires ByteParams(ps) && k < |ps|
    ensures |Texts(ps)| == |ps| && Texts(ps)[k] == PairText(ps[k])
    decreases |ps|
  {
    hide PairText;
    if k > 0 {
      TextsAt(ps[1..], k - 1);
    } else if |ps| > 1 {
      TextsAt(ps[1..], 0);
    }
  }

  lemma RepeatShortens(ps: ParamList, i: nat, j: nat)
    requires ByteParams(ps) && i < j < |ps| && ps[i] == ps[j]
    ensures |ParseQuery(QueryText(ps))| < |ps|
  {
    hide PairText, ParsePieces;
    QuerySplits(ps);
    var ts := Texts(ps);
    TextsAt(ps, i);
    TextsAt(ps, j);
    assert ts[..j][i] == ts[j];
    ParsedShape(ts, {}, []);
  }

  lemma ReadBack(ps: ParamList)
    requires ByteParams(ps) && Sorted(ps) && Keyed(ps) && Distinct(ps)
    ensures ParseQuery(QueryText(ps)) == ps
  {
    hide PairText, ParsePieces, QueryText, LexLess, Texts, Sorted, ByteParams, Keyed, Distinct, Split;
    QuerySplits(ps);
    var none: ParamList := [];
    assert none + ps == ps;
    PiecesReadBack([], ps, {});
  }

  lemma KeylessLost(ps: ParamList)
    requires ByteParams(ps) && !Keyed(ps)
    ensures ParseQuery(QueryText(ps)) != ps
  {
    hide PairText, ParsePieces, QueryText, Texts;
    QuerySplits(ps);
    ParsedShape(Texts(ps), {}, []);
  }

  /** A multimap of byte strings is read back from its query string if and only if no key is empty and no
      pair occurs twice. */
  lemma RoundTrip(ps: ParamList)
    requires ByteParams(ps) && Sorted(ps)
    ensures ParseQuery(QueryText(ps)) == ps <==> Keyed(ps) && Distinct(ps)
  {
    hide ParseQuery, QueryText, LexLess;
    if !Distinct(ps) {
      var i, j :| 0 <= i < j < |ps| && ps[i] == ps[j];
      RepeatShortens(ps, i, j);
    } else if Keyed(ps) {
      ReadBack(ps);
    } else {
      KeylessLost(ps);
    }
  }
}

module QueryCode {
  import opened Text
  import opened Disposition
  import opened QuerySpec

  method EncodeQueryComponent(component: string) returns (result: string)
    requires AllBytes(component)
    ensures result == EncodeComponent(component)
  {
    hide EncodeChar;
    result := "";
    var i := 0;
    while i < |component|
      invariant 0 <= i <= |component|
      invariant result + EncodeComponent(component[i..]) == EncodeComponent(component)
    {
      assert component[i..][1..] == component[i + 1..];
      result := result + EncodeChar(component[i]);
      i := i + 1;
    }
  }

  method DecodeQueryComponent(component: string) returns (result: string)
    ensures result == DecodeComponent(component)
  {
    hide Byte2, DecodeComponent;
    result := "";
    assert component[0..] == component;
    var i := 0;
    while i < |component|
      invariant 0 <= i <= |component|
      invariant result + DecodeComponent(component[i..]) == DecodeComponent(component)
    {
      DecodeStep(component, i);
      if component[i] == '%' && i + 2 < |component| && Byte2(component[i + 1], component[i + 2]) >= 0 {
        result := result + [Byte2(component[i + 1], component[i + 2]) as char];
        i := i + 2;
      } else if component[i] == '+' {
        result := result + [' '];
      } else {
        result := result + [component[i]];
      }
      i := i + 1;
    }
    DecodeNothing(component[i..]);
  }

  lemma DecodeStep(s: string, i: nat)
    requires i < |s|
    ensures DecodeComponent(s[i..]) ==
            if s[i] == '%' && i + 2 < |s| && Byte2(s[i + 1], s[i + 2]) >= 0 then
              [Byte2(s[i + 1], s[i + 2]) as char] + DecodeComponent(s[i + 3..])
            else [if s[i] == '+' then ' ' else s[i]] + DecodeComponent(s[i + 1..])
  {
    hide Byte2;
    assert s[i..][1..] == s[i + 1..];
    if i + 2 < |s| {
      assert s[i..][3..] == s[i + 3..];
    }
  }

  lemma DecodeNothing(s: string)
    requires s == ""
    ensures DecodeComponent(s) == ""
  {
  }

  method ParamsToQueryStr(params: ParamList) returns (query: string)
    requires ByteParams(params)
    ensures query == QueryText(params)
  {
    hide EncodeComponent, QueryText, Joint;
    JointEnds(params);
    query := "";
    var i := 0;
    while i < |params|
      invariant 0 <= i <= |params|
      invariant QueryText(params) == query + Joint(params, i)
    {
      JointStep(params, i);
      ghost var before := query;
      if i != 0 {
        query := query + "&";
      }
      var k := EncodeQueryComponent(params[i].0);
      var v := EncodeQueryComponent(params[i].1);
      query := query + k;
      query := query + "=";
      query := query + v;
      PairAssoc(before, if i == 0 then "" else "&", k, v, Joint(params, i + 1));
      i := i + 1;
    }
  }

  lemma PairAssoc(q: string, sep: string, k: string, v: string, rest: string)
    ensures q + (sep + (k + "=" + v) + rest) == (q + sep) + k + "=" + v + rest
    ensures q + "" == q
  {
  }

  /** What is still to be printed from parameter `i` on. */
  ghost function Joint(params: ParamList, i: nat): string
    requires ByteParams(params) && i <= |params|
  {
    if i == |params| then "" else (if i == 0 then "" else "&") + QueryText(params[i..])
  }

  lemma JointEnds(params: ParamList)
    requires ByteParams(params)
    ensures "" + Joint(params, 0) == QueryText(params) && Joint(params, |params|) == ""
  {
    assert params[0..] == params;
  }

  lemma JointStep(params: ParamList, i: nat)
    requires ByteParams(params) && i < |params|
    ensures Joint(params, i) == (if i == 0 then "" else "&") + PairText(params[i]) + Joint(params, i + 1)
  {
    hide PairText;
    assert params[i..][1..] == params[i + 1..];
  }
}
