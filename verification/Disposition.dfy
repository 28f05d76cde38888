/**
 The header lines of a multipart section: parse_header (httplib.h:4604-4646),
 parse_disposition_params (httplib.h:5334-5358) and the use FormDataParser makes of them.
 */
module Disposition {
  import opened Common
  import opened Text

  /** The fields of `FormData` a header line can set. */
  datatype FormInfo = FormInfo(name: string, filename: string, contentType: string)

  const HEADER_MAX_LENGTH := 8192

  const EMPTY_INFO := FormInfo("", "", "")

  predicate IsTokenChar(c: char) {
    IsAlnum(c) || c in "!#$%&'*+-.^_`|~"
  }

  predicate IsFieldName(s: string) {
    s != "" && forall i :: 0 <= i < |s| ==> IsTokenChar(s[i])
  }

  predicate IsFieldVchar(c: char) {
    33 <= c as int <= 126 || 128 <= c as int
  }

  predicate IsFieldChar(c: char) {
    IsBlank(c) || IsFieldVchar(c)
  }

  predicate IsFieldValue(s: string) {
    s != "" ==>
      IsFieldVchar(s[0]) && IsFieldVchar(s[|s| - 1]) && forall i :: 0 <= i < |s| ==> IsFieldChar(s[i])
  }

  /** parse_header's verdict on a line without its CRLF. */
  predicate HeaderWellFormed(line: string) {
    var s := TrimRight(line);
    var i := IndexOf(s, ':');
    i < |s| && IsFieldName(s[..i]) && IsFieldValue(TrimLeft(s[i + 1..]))
  }

  /** `split` (httplib.h:2964-2984): the trimmed non-empty pieces between separators. */
  function Split(s: string, d: char): seq<string>
    decreases |s|
  {
    var i := IndexOf(s, d);
    var rest := if i < |s| then Split(s[i + 1..], d) else [];
    if Trim(s[..i]) == "" then rest else [Trim(s[..i])] + rest
  }

  function Unquote(s: string): string {
    if |s| >= 2 && s[0] == '"' && s[|s| - 1] == '"' then s[1..|s| - 1] else s
  }

  /** The first '='-piece is the key, the last of the others the value. */
  function KeyValue(kv: string): Option<(string, string)> {
    var ps := Split(kv, '=');
    if ps == [] then None
    else Some((Unquote(ps[0]), if |ps| == 1 then "" else Unquote(ps[|ps| - 1])))
  }

  /** One (key, value) per distinct ';'-piece, in order. */
  function Params(pieces: seq<string>, seen: set<string>): seq<(string, string)>
  {
    if pieces == [] then []
    else if pieces[0] in seen then Params(pieces[1..], seen)
    else
      var rest := Params(pieces[1..], seen + {pieces[0]});
      match KeyValue(pieces[0])
      case None => rest
      case Some(p) => [p] + rest
  }

  function DispositionParams(s: string): seq<(string, string)> {
    Params(Split(s, ';'), {})
  }

  /** The first value stored under `key`. */
  function Lookup(params: seq<(string, string)>, key: string): Option<string> {
    if params == [] then None
    else if params[0].0 == key then Some(params[0].1)
    else Lookup(params[1..], key)
  }

  const CONTENT_TYPE := "Content-Type:"
  const CONTENT_DISPOSITION := "Content-Disposition:"
  const FORM_DATA := "form-data;"
  const UTF8 := "UTF-8''"

  /** The parameter text of a form-data Content-Disposition line. */
  function MatchDisposition(line: string): Option<string> {
    if !StartsWithNoCase(line, CONTENT_DISPOSITION) then None
    else
      var v := TrimLeft(line[|CONTENT_DISPOSITION|..]);
      if !StartsWithNoCase(v, FORM_DATA) then None
      else Some(TrimLeft(v[|FORM_DATA|..]))
  }

  function MatchExtended(v: string): Option<string> {
    if |v| > |UTF8| && StartsWithNoCase(v, UTF8) then Some(v[|UTF8|..]) else None
  }

  datatype HeaderOutcome = HeaderOutcome(ok: bool, info: FormInfo)

  function ApplyParams(decodePath: string -> string, info: FormInfo, ps: seq<(string, string)>): HeaderOutcome {
    match Lookup(ps, "name")
    case None => HeaderOutcome(false, info)
    case Some(name) =>
      var i1 := info.(name := name);
      var i2 := match Lookup(ps, "filename") case None => i1 case Some(f) => i1.(filename := f);
      match Lookup(ps, "filename*")
      case None => HeaderOutcome(true, i2)
      case Some(v) =>
        match MatchExtended(v)
        case None => HeaderOutcome(false, i2)
        case Some(e) => HeaderOutcome(true, i2.(filename := decodePath(e)))
  }

  /** One header line of a section (httplib.h:5585-5644). */
  function HandleHeader(decodePath: string -> string, info: FormInfo, line: string): HeaderOutcome {
    if !HeaderWellFormed(line) then HeaderOutcome(false, info)
    else if StartsWithNoCase(line, CONTENT_TYPE) then
      HeaderOutcome(true, info.(contentType := Trim(line[|CONTENT_TYPE|..])))
    else
      match MatchDisposition(line)
      case None => HeaderOutcome(true, info)
      case Some(s) => ApplyParams(decodePath, info, DispositionParams(s))
  }

}
