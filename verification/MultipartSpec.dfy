/**
 What one call of FormDataParser::parse (httplib.h:5551-5695) does, as a function of the
 parser's abstract state: the machine takes steps until its buffered view runs dry.
 */
module MultipartSpec {
  import opened Text
  import opened Disposition

  /** What the two callbacks have received: one part per accepted header callback. */
  datatype Part = Part(info: FormInfo, content: string)

  /** The boundary, the answers of the two callbacks, and the handling of one header line. */
  datatype Env = Env(
    boundary: string,
    acceptHeader: FormInfo -> bool,
    acceptContent: string -> bool,
    headerLine: (FormInfo, string) -> HeaderOutcome)
  {
    function DashBoundaryCrlf(): string { DASH + boundary + CRLF }
    function CrlfDashBoundary(): string { CRLF + DASH + boundary }
  }

  /** `state_`; Headers(true) is the inside of the inner header loop, past its length check. */
  datatype Stage = Preamble | NewEntry | Headers(checked: bool) | Body | Delimiter

  datatype Parser = Parser(stage: Stage, view: string, info: FormInfo, valid: bool, parts: seq<Part>)

  const INIT := Parser(Preamble, "", EMPTY_INFO, false, [])

  /** The machine goes on, or the call returns true (Halt) or false (Fail). */
  datatype StepResult = Next(p: Parser) | Halt(p: Parser) | Fail(p: Parser)

  /** The content callback appends to the part the last header callback opened. */
  function Deliver(parts: seq<Part>, content: string): (r: seq<Part>)
    ensures |r| == |parts|
  {
    if parts == [] then []
    else
      var last := parts[|parts| - 1];
      parts[..|parts| - 1] + [last.(content := last.content + content)]
  }

  function Step(env: Env, p: Parser): StepResult {
    match p.stage
    case Preamble => PreambleStep(env, p)
    case NewEntry => Next(p.(stage := Headers(false), info := EMPTY_INFO))
    case Headers(false) =>
      if Find(p.view, CRLF) > HEADER_MAX_LENGTH then Fail(p) else Next(p.(stage := Headers(true)))
    case Headers(true) => HeaderLineStep(env, p)
    case Body => BodyStep(env, p, env.CrlfDashBoundary())
    case Delimiter => DelimiterStep(p)
  }

  function PreambleStep(env: Env, p: Parser): StepResult {
    var d := env.DashBoundaryCrlf();
    var pos := Find(p.view, d);
    if pos == |p.view| then Halt(p)
    else Next(p.(stage := NewEntry, view := p.view[pos + |d|..]))
  }

  function HeaderLineStep(env: Env, p: Parser): StepResult {
    var pos := Find(p.view, CRLF);
    if pos == |p.view| then
      Halt(p.(stage := Headers(false)))
    else if pos == 0 then
      if !env.acceptHeader(p.info) then Fail(p.(stage := Headers(false), valid := false))
      else Next(p.(stage := Body, view := p.view[|CRLF|..], parts := p.parts + [Part(p.info, "")]))
    else
      var h := env.headerLine(p.info, p.view[..pos]);
      if !h.ok then Fail(p.(stage := Headers(false), info := h.info, valid := false))
      else Next(p.(view := p.view[pos + |CRLF|..], info := h.info))
  }

  function BodyStep(env: Env, p: Parser, d: string): StepResult
    requires d != ""
  {
    if |d| > |p.view| then Halt(p)
    else
      var pos := Find(p.view, d);
      if pos < |p.view| then
        if !env.acceptContent(p.view[..pos]) then Fail(p.(valid := false))
        else Next(p.(stage := Delimiter, view := p.view[pos + |d|..], parts := Deliver(p.parts, p.view[..pos])))
      else
        var len := |p.view| - |d|;
        if len == 0 then Halt(p)
        else if !env.acceptContent(p.view[..len]) then Fail(p.(valid := false))
        else Halt(p.(view := p.view[len..], parts := Deliver(p.parts, p.view[..len])))
  }

  function DelimiterStep(p: Parser): StepResult {
    if |CRLF| > |p.view| then Halt(p)
    else if StartsWith(p.view, CRLF) then Next(p.(stage := NewEntry, view := p.view[|CRLF|..]))
    else if StartsWith(p.view, DASH) then Next(p.(view := "", valid := true))
    else Halt(p)
  }

  /** `state_` 1 before 2, as the termination measure orders them. */
  function Rank(s: Stage): nat {
    match s
    case NewEntry => 2
    case Headers(false) => 1
    case _ => 0
  }

  function Rest(p: Parser): Parser {
    if p.stage == Headers(true) then p.(stage := Headers(false)) else p
  }

  /** The loop of `parse`: true with the state it leaves behind, or false. */
  function Run(env: Env, p: Parser): (r: (bool, Parser))
    decreases |p.view|, Rank(p.stage)
  {
    if p.view == "" then (true, Rest(p))
    else
      match Step(env, p)
      case Next(q) => Run(env, q)
      case Halt(q) => (true, q)
      case Fail(q) => (false, q)
  }

  function Plus(p: Parser, data: string): Parser {
    p.(view := p.view + data)
  }

  /** `parse(data)`. */
  function Feed(env: Env, p: Parser, data: string): (bool, Parser) {
    Run(env, Plus(p, data))
  }

  /** One `parse` per chunk; the caller stops at the first false. */
  function FeedAll(env: Env, p: Parser, chunks: seq<string>): (bool, Parser)
    decreases |chunks|
  {
    if chunks == [] then (true, p)
    else
      var (ok, q) := Feed(env, p, chunks[0]);
      if !ok then (false, q) else FeedAll(env, q, chunks[1..])
  }

  function Concat(chunks: seq<string>): string {
    if chunks == [] then "" else chunks[0] + Concat(chunks[1..])
  }
}
