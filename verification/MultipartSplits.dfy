/**
 When the way an input is cut into `parse` calls matters (httplib.h:5551-5695): exactly when bytes
 follow the closing delimiter in a later call, and exactly when a header line is not short.
 */
module MultipartSplits {
  import opened Text
  import opened Disposition
  import opened MultipartSpec
  import opened MultipartConfluence
  import opened MultipartRoundTrip

  // ---- bytes behind the closing delimiter ----

  /** How many parts there are when the run next reads a delimiter. */
  function PartsByThen(p: Parser): nat {
    if p.stage == Delimiter || p.stage == Body then |p.parts| else |p.parts| + 1
  }

  lemma StepAddsParts(env: Env, p: Parser)
    ensures PartsByThen(p) <= PartsByThen(Step(env, p).p)
    ensures p.stage != Delimiter && Step(env, p).p.stage == Delimiter ==> PartsByThen(p) <= |Step(env, p).p.parts|
  {
  }

  lemma {:induction false} RunAddsParts(env: Env, p: Parser)
    ensures PartsByThen(p) <= PartsByThen(Run(env, p).1)
    decreases |p.view|, Rank(p.stage)
  {
    if p.view != "" {
      StepAddsParts(env, p);
      if Step(env, p).Next? {
        RunStep(env, p);
        RunAddsParts(env, Step(env, p).p);
      }
    }
  }

  lemma OnlyClosingValidates(env: Env, p: Parser)
    requires !p.valid && Step(env, p).p.valid
    ensures Closes(p) && Step(env, p) == Next(p.(view := "", valid := true))
  {
  }

  /** A run that closes ends there: at the delimiter, with nothing buffered. */
  lemma {:induction false} ClosingRunEnds(env: Env, p: Parser)
    requires !p.valid && Run(env, p).0 && Run(env, p).1.valid
    ensures Run(env, p).1.stage == Delimiter && Run(env, p).1.view == ""
    decreases |p.view|, Rank(p.stage)
  {
    if Step(env, p).Next? {
      RunStep(env, p);
      if Step(env, p).p.valid {
        OnlyClosingValidates(env, p);
        RunEmpty(env, Step(env, p).p);
      } else {
        ClosingRunEnds(env, Step(env, p).p);
      }
    } else if Step(env, p).p.valid {
      OnlyClosingValidates(env, p);
    }
  }

  /** What a closed parser makes of the next bytes. */
  lemma AfterClose(env: Env, q: Parser, b: string)
    requires q.stage == Delimiter && q.view == "" && q.valid && Feed(env, q, b).0
    ensures Feed(env, q, b) == (true, q) <==> b == "" || StartsWith(b, DASH)
  {
    var s := Plus(q, b);
    assert s.view == b;
    if b == "" {
      RunEmpty(env, s);
    } else if StartsWith(b, DASH) {
      RunStep(env, s);
      RunEmpty(env, q);
    } else if StartsWith(b, CRLF) {
      RunStep(env, s);
      RunAddsParts(env, Step(env, s).p);
    }
  }

  /** If the first call closes the form, splitting changes nothing exactly when the second brings nothing
      or begins with two dashes again. */
  lemma EpilogueExact(env: Env, p: Parser, a: string, b: string)
    requires AcceptsContent(env) && !p.valid
    requires Feed(env, p, a).0 && Feed(env, p, a).1.valid && Feed(env, Feed(env, p, a).1, b).0
    ensures Feed(env, p, a + b) == Feed(env, Feed(env, p, a).1, b) <==> b == "" || StartsWith(b, DASH)
  {
    ClosingRunEnds(env, Plus(p, a));
    EpilogueIgnored(env, Plus(p, a), b);
    assert p.view + (a + b) == p.view + a + b;
    AfterClose(env, Feed(env, p, a).1, b);
  }

  /** For instance a part that follows: ignored in the same read, parsed in the next one. */
  lemma EpilogueDependsOnSplit(env: Env, p: Parser)
    requires Receives(env) && p.stage == Delimiter && p.view == "" && !p.valid
    ensures Feed(env, p, DASH + (CRLF + CRLF)).1.parts == p.parts
    ensures Feed(env, Feed(env, p, DASH).1, CRLF + CRLF).1.parts == p.parts + [Part(EMPTY_INFO, "")]
  {
    var closed := p.(valid := true);
    CloseAlone(env, p, "");
    CloseAlone(env, p, CRLF + CRLF);
    assert DASH + "" == DASH;
    var s := Plus(closed, CRLF + CRLF);
    assert "" + (CRLF + CRLF) == CRLF + CRLF && "" + CRLF + "" == CRLF && CRLF + "" == CRLF;
    var t := closed.(stage := Body, info := EMPTY_INFO, parts := p.parts + [Part(EMPTY_INFO, "")]);
    var goal := Same((true, t));
    BlankLineYields(env, s.(stage := Headers(true), view := CRLF, info := EMPTY_INFO), "", goal);
    HeaderEntryYields(env, s.(stage := NewEntry, view := CRLF), "", "", goal);
    NextSectionYields(env, s, CRLF, goal);
  }

  lemma CloseAlone(env: Env, p: Parser, epilogue: string)
    requires p.stage == Delimiter && p.view == ""
    ensures Feed(env, p, DASH + epilogue) == (true, p.(valid := true))
  {
    var s := Plus(p, DASH + epilogue);
    assert s.view == DASH + epilogue;
    RunStep(env, s);
  }

  // ---- header lines that are not short ----

  /** The run from `p` goes on until it closes the form, on its last byte. */
  ghost predicate ClosesLast(env: Env, p: Parser)
    decreases |p.view|, Rank(p.stage)
  {
    && p.view != "" && Step(env, p).Next?
    && if Closes(p) then |p.view| == |DASH| else ClosesLast(env, Step(env, p).p)
  }

  lemma {:induction false} ClosesLastRuns(env: Env, p: Parser)
    requires ClosesLast(env, p)
    ensures Run(env, p).0 && Run(env, p).1.valid
    decreases |p.view|, Rank(p.stage)
  {
    RunStep(env, p);
    if Closes(p) {
      RunEmpty(env, Step(env, p).p);
    } else {
      ClosesLastRuns(env, Step(env, p).p);
    }
  }

  function At(p: Parser, view: string): Parser {
    p.(view := view)
  }

  /** Cut behind `n` bytes and again behind `k`, the run fails. */
  ghost predicate CutFails(env: Env, p: Parser, v: string, n: nat, k: nat)
    requires n <= k <= |v|
  {
    var (ok, q) := Run(env, At(p, v[..n]));
    !ok || !Feed(env, q, v[n..k]).0
  }

  /** A header line that is not short fails if it starts a read that ends behind its CR. */
  lemma LineFails(env: Env, p: Parser, k: nat)
    requires p.view != "" && p.stage.Headers? && !LineShort(p.view) && Step(env, p).Next?
    requires k == Find(p.view, CRLF) + 1
    ensures k <= |p.view| && CutFails(env, p, p.view, 0, k)
  {
    var (v, w) := (p.view, p.view[..k]);
    FindFirst(v, CRLF);
    var q := p.(stage := Headers(false));
    assert v[..0] == "" && v[0..k] == w && "" + w == w;
    RunEmpty(env, At(p, ""));
    PartOfLine(v, k);
    RunFailsAt(env, At(q, w));
    assert Plus(At(q, ""), w) == At(q, w);
  }

  /** A line without its LF has no end. */
  lemma PartOfLine(v: string, k: nat)
    requires Find(v, CRLF) < |v| && k == Find(v, CRLF) + 1 <= |v|
    ensures Find(v[..k], CRLF) == k
  {
    var w := v[..k];
    FindFirst(v, CRLF);
    forall j: nat
      ensures !OccursAt(w, CRLF, j)
    {
      assert w + v[k..] == v;
      if j + |CRLF| <= k { OccursInPrefix(w, v[k..], CRLF, j); }
    }
    FindNone(w, CRLF);
  }

  lemma RunFailsAt(env: Env, p: Parser)
    requires p.stage == Headers(false) && Find(p.view, CRLF) > HEADER_MAX_LENGTH
    ensures !Run(env, p).0
  {
  }

  /** How much of the view a step takes that goes on. */
  function Taken(env: Env, p: Parser): nat {
    match p.stage
    case Preamble => Find(p.view, env.DashBoundaryCrlf()) + |env.DashBoundaryCrlf()|
    case Headers(true) => Find(p.view, CRLF) + |CRLF|
    case Body => Find(p.view, env.CrlfDashBoundary()) + |env.CrlfDashBoundary()|
    case Delimiter => |CRLF|
    case _ => 0
  }

  lemma FindInPrefix(v: string, d: string, n: nat)
    requires d != "" && Find(v, d) < |v| && Find(v, d) + |d| <= n <= |v|
    ensures Find(v[..n], d) == Find(v, d)
  {
    var (u, pos) := (v[..n], Find(v, d));
    assert u + v[n..] == v;
    FindFirst(v, d);
    OccursInPrefix(u, v[n..], d, pos);
    forall j: nat | j < pos
      ensures !OccursAt(u, d, j)
    {
      OccursInPrefix(u, v[n..], d, j);
    }
    FindIs(u, d, pos);
  }

  lemma DropTake(v: string, c: nat, n: nat)
    requires c + n <= |v|
    ensures v[..c + n][c..] == v[c..][..n] && v[..c + n][..c] == v[..c]
  {
  }

  /** A step that takes bytes is the same step when only they, and some more, are there. */
  lemma TakingStep(env: Env, p: Parser, n: nat)
    requires p.view != "" && Step(env, p).Next? && !Closes(p)
    requires p.stage != NewEntry && p.stage != Headers(false)
    requires n <= |Step(env, p).p.view|
    ensures var (c, q) := (Taken(env, p), Step(env, p).p);
            && 0 < c && c + n <= |p.view| && q.view == p.view[c..]
            && Step(env, At(p, p.view[..c + n])) == Next(At(q, q.view[..n]))
  {
    hide Find, PreambleStep, HeaderLineStep, BodyStep, DelimiterStep;
    match p.stage
    case Preamble => TakingPreamble(env, p, n);
    case Headers(true) => TakingLine(env, p, n);
    case Body => TakingBody(env, p, env.CrlfDashBoundary(), n);
    case Delimiter => TakingCrlf(env, p, n);
  }

  lemma TakingPreamble(env: Env, p: Parser, n: nat)
    requires p.stage == Preamble && p.view != "" && PreambleStep(env, p).Next? && n <= |PreambleStep(env, p).p.view|
    ensures var d := env.DashBoundaryCrlf(); var c := Find(p.view, d) + |d|; var q := PreambleStep(env, p).p;
            && c + n <= |p.view| && q.view == p.view[c..]
            && PreambleStep(env, At(p, p.view[..c + n])) == Next(At(q, q.view[..n]))
  {
    var d := env.DashBoundaryCrlf();
    var c := Find(p.view, d) + |d|;
    FindInPrefix(p.view, d, c + n);
    DropTake(p.view, c, n);
  }

  lemma TakingLine(env: Env, p: Parser, n: nat)
    requires p.stage == Headers(true) && p.view != "" && HeaderLineStep(env, p).Next? && n <= |HeaderLineStep(env, p).p.view|
    ensures var c := Find(p.view, CRLF) + |CRLF|; var q := HeaderLineStep(env, p).p;
            && c + n <= |p.view| && q.view == p.view[c..]
            && HeaderLineStep(env, At(p, p.view[..c + n])) == Next(At(q, q.view[..n]))
  {
    var pos := Find(p.view, CRLF);
    FindInPrefix(p.view, CRLF, pos + |CRLF| + n);
    DropTake(p.view, pos + |CRLF|, n);
    DropTake(p.view, pos, |CRLF| + n);
  }

  lemma TakingBody(env: Env, p: Parser, d: string, n: nat)
    requires d != "" && BodyStep(env, p, d).Next? && n <= |BodyStep(env, p, d).p.view|
    ensures var c := Find(p.view, d) + |d|; var q := BodyStep(env, p, d).p;
            && c + n <= |p.view| && q.view == p.view[c..]
            && BodyStep(env, At(p, p.view[..c + n]), d) == Next(At(q, q.view[..n]))
  {
    hide Find, Deliver;
    var pos := Find(p.view, d);
    FindInPrefix(p.view, d, pos + |d| + n);
    DropTake(p.view, pos + |d|, n);
    DropTake(p.view, pos, |d| + n);
  }

  lemma TakingCrlf(env: Env, p: Parser, n: nat)
    requires p.stage == Delimiter && !Closes(p) && DelimiterStep(p).Next? && n <= |DelimiterStep(p).p.view|
    ensures var c := |CRLF|; var q := DelimiterStep(p).p;
            && c + n <= |p.view| && q.view == p.view[c..]
            && DelimiterStep(At(p, p.view[..c + n])) == Next(At(q, q.view[..n]))
  {
    DropTake(p.view, |CRLF|, n);
  }

  /** A cut that fails behind a step that takes bytes fails in front of it. */
  lemma TakingCut(env: Env, p: Parser, n: nat, k: nat)
    requires p.view != "" && Step(env, p).Next? && !Closes(p)
    requires p.stage != NewEntry && p.stage != Headers(false)
    requires var q := Step(env, p).p; n <= k <= |q.view| && CutFails(env, q, q.view, n, k)
    ensures var c := Taken(env, p); 0 < c && c + k <= |p.view| && CutFails(env, p, p.view, c + n, c + k)
  {
    hide Step;
    var (c, q) := (Taken(env, p), Step(env, p).p);
    TakingStep(env, p, n);
    RunStep(env, At(p, p.view[..c + n]));
    assert p.view[c + n..c + k] == q.view[n..k];
  }

  /** And so does one behind the first look at a header. */
  lemma EntryCut(env: Env, p: Parser, n: nat, k: nat)
    requires p.view != "" && p.stage == NewEntry && n <= k <= |p.view|
    requires CutFails(env, Step(env, p).p, p.view, n, k)
    ensures CutFails(env, p, p.view, n, k)
  {
    var (v, q) := (p.view, Step(env, p).p);
    if n > 0 {
      RunStep(env, At(p, v[..n]));
    } else {
      assert v[..0] == "";
      RunEmpty(env, At(p, ""));
      RunEmpty(env, At(q, ""));
      var w := v[0..k];
      assert Plus(At(p, ""), w) == At(p, w) && Plus(At(q, ""), w) == At(q, w);
      if w != "" {
        RunStep(env, At(p, w));
      } else {
        RunEmpty(env, At(q, w));
      }
    }
  }

  /** The first line of a section passes the check when it is whole and short. */
  lemma CheckedCut(env: Env, p: Parser, n: nat, k: nat)
    requires p.view != "" && p.stage == Headers(false) && Step(env, p).Next? && n <= k <= |p.view|
    requires Find(p.view, CRLF) < |p.view| && Find(p.view, CRLF) + |CRLF| <= n
    requires CutFails(env, Step(env, p).p, p.view, n, k)
    ensures CutFails(env, p, p.view, n, k)
  {
    FindInPrefix(p.view, CRLF, n);
    RunStep(env, At(p, p.view[..n]));
  }

  /** Whatever comes next decides: a cut that fails from there fails from here. */
  lemma CutBefore(env: Env, p: Parser, n: nat, k: nat)
    requires p.view != "" && Step(env, p).Next? && !Closes(p)
    requires p.stage.Headers? ==> LineShort(p.view)
    requires var q := Step(env, p).p; n <= k <= |q.view| && CutFails(env, q, q.view, n, k)
    requires p.stage == Headers(false) ==> Find(p.view, CRLF) + |CRLF| <= n
    ensures var c := Taken(env, p); c + k <= |p.view| && CutFails(env, p, p.view, c + n, c + k)
  {
    hide Find, CutFails, LineShort, PreambleStep, HeaderLineStep, BodyStep, DelimiterStep;
    if p.stage == NewEntry {
      EntryCut(env, p, n, k);
    } else if p.stage == Headers(false) {
      CheckedCut(env, p, n, k);
    } else {
      TakingCut(env, p, n, k);
    }
  }

  lemma ClosingIsSmooth(env: Env, p: Parser)
    requires Closes(p) && |p.view| == |DASH|
    ensures Smooth(env, p)
  {
    assert Smooth(env, Step(env, p).p);
  }

  lemma ClosesLastStep(env: Env, p: Parser)
    requires ClosesLast(env, p) && !Smooth(env, p) && (p.stage.Headers? ==> LineShort(p.view))
    ensures p.view != "" && Step(env, p).Next? && !Closes(p)
    ensures ClosesLast(env, Step(env, p).p) && !Smooth(env, Step(env, p).p)
    ensures p.stage == Headers(false) ==> Step(env, p).p == p.(stage := Headers(true))
  {
    if Closes(p) {
      ClosingIsSmooth(env, p);
    }
  }

  /** A run that is not smooth has a cut in two places that fails; not within its first header line,
      if that is a short one. */
  lemma {:induction false} CutExists(env: Env, p: Parser) returns (n: nat, k: nat)
    requires ClosesLast(env, p) && !Smooth(env, p)
    ensures n <= k <= |p.view| && CutFails(env, p, p.view, n, k)
    ensures p.stage == Headers(true) && LineShort(p.view) ==> Find(p.view, CRLF) + |CRLF| <= n
    decreases |p.view|, Rank(p.stage)
  {
    hide Smooth, CutFails, LineShort, Find, Step, Closes;
    if p.stage.Headers? && !LineShort(p.view) {
      n, k := 0, Find(p.view, CRLF) + 1;
      LineFails(env, p, k);
    } else {
      ClosesLastStep(env, p);
      RunStep(env, p);
      n, k := CutExists(env, Step(env, p).p);
      CutBefore(env, p, n, k);
      n, k := Taken(env, p) + n, Taken(env, p) + k;
    }
  }

  /** The three calls of a cut in two places. */
  function Cut(body: string, n: nat, k: nat): seq<string>
    requires n <= k <= |body|
  {
    [body[..n], body[n..k], body[k..]]
  }

  lemma CutIsWhole(body: string, n: nat, k: nat)
    requires n <= k <= |body|
    ensures Concat(Cut(body, n, k)) == body
  {
    var c := Cut(body, n, k);
    assert c[1..][1..] == [body[k..]] && [body[k..]][1..] == [] && body[k..] + "" == body[k..];
    assert Concat([body[k..]]) == body[k..] + Concat([]);
    assert Concat(c[1..]) == body[n..k] + Concat(c[1..][1..]);
    assert body[..n] + (body[n..k] + body[k..]) == body;
  }

  lemma CutFailsAll(env: Env, p: Parser, body: string, n: nat, k: nat)
    requires p.view == "" && n <= k <= |body| && CutFails(env, p, body, n, k)
    ensures !FeedAll(env, p, Cut(body, n, k)).0
  {
    var c := Cut(body, n, k);
    assert Plus(p, body[..n]) == At(p, body[..n]);
    var (ok, q) := Feed(env, p, c[0]);
    if ok {
      assert c[1..][0] == body[n..k];
    }
  }

  /** Every way of cutting the input into calls ends as the single call does. */
  ghost predicate CutsAgree(env: Env, p: Parser, body: string) {
    forall chunks | chunks != [] && Concat(chunks) == body :: FeedAll(env, p, chunks) == Feed(env, p, body)
  }

  /** For an input that one call reads to the closing delimiter, its last bytes, every way of cutting it
      gives the same result if and only if its header lines are short. */
  lemma SplitExact(env: Env, p: Parser, body: string)
    requires AcceptsContent(env) && p.view == "" && ClosesLast(env, Plus(p, body))
    ensures CutsAgree(env, p, body) <==> Smooth(env, Plus(p, body))
  {
    if Smooth(env, Plus(p, body)) {
      forall chunks | chunks != [] && Concat(chunks) == body
        ensures FeedAll(env, p, chunks) == Feed(env, p, body)
      {
        AnySplit(env, p, chunks);
      }
    } else {
      assert "" + body == body;
      var n, k := CutExists(env, Plus(p, body));
      CutIsWhole(body, n, k);
      CutFailsAll(env, p, body, n, k);
      ClosesLastRuns(env, Plus(p, body));
    }
  }

  /** A header line of exactly the limit's length passes in one read and fails when a read ends
      behind its CR: the limit check also measures unfinished lines. */
  lemma LimitDependsOnSplit(env: Env, p: Parser, line: string, info: FormInfo)
    requires p.stage == Headers(false) && p.view == ""
    requires |line| == HEADER_MAX_LENGTH && '\r' !in line
    requires env.headerLine(p.info, line) == HeaderOutcome(true, info)
    ensures Feed(env, p, line + CRLF) == (true, p.(info := info))
    ensures !Feed(env, p, line + "\r").0
  {
    LimitPasses(env, p, line, info);
    LimitFails(env, p, line);
  }

  lemma LimitPasses(env: Env, p: Parser, line: string, info: FormInfo)
    requires p.stage == Headers(false) && p.view == ""
    requires |line| == HEADER_MAX_LENGTH && '\r' !in line
    requires env.headerLine(p.info, line) == HeaderOutcome(true, info)
    ensures Feed(env, p, line + CRLF) == (true, p.(info := info))
  {
    hide Run, Find;
    FindAfterClean(line, CRLF, "");
    var v := line + CRLF;
    assert v + "" == v && "" + v == v && v[..|line|] == line && v[|line| + |CRLF|..] == "";
    var q := p.(view := v);
    RunStep(env, q);
    RunStep(env, q.(stage := Headers(true)));
    RunEmpty(env, p.(stage := Headers(true), info := info));
  }

  lemma RunEmpty(env: Env, p: Parser)
    requires p.view == ""
    ensures Run(env, p) == (true, Rest(p))
  {
  }

  lemma LimitFails(env: Env, p: Parser, line: string)
    requires p.stage == Headers(false) && p.view == ""
    requires |line| >= HEADER_MAX_LENGTH && '\r' !in line
    ensures !Feed(env, p, line + "\r").0
  {
    var w := line + "\r";
    forall j: nat
      ensures !OccursAt(w, CRLF, j)
    {
      if j < |w| {
        Mismatch(w, CRLF, j, if j < |line| then 0 else 1);
      }
    }
    FindNone(w, CRLF);
    assert "" + w == w;
  }

  /** A later header line of any length passes in one read with the first, and fails when a read ends
      in front of it and the next one behind its CR. */
  lemma LaterLineDependsOnSplit(env: Env, p: Parser, first: string, i: FormInfo, line: string, j: FormInfo)
    requires p.stage == Headers(false) && p.view == ""
    requires '\r' !in first && 0 < |first| <= HEADER_MAX_LENGTH && env.headerLine(p.info, first) == HeaderOutcome(true, i)
    requires '\r' !in line && |line| >= HEADER_MAX_LENGTH && env.headerLine(i, line) == HeaderOutcome(true, j)
    ensures Feed(env, p, first + CRLF + (line + CRLF)) == (true, p.(info := j))
    ensures Feed(env, p, first + CRLF) == (true, p.(info := i)) && !Feed(env, p.(info := i), line + "\r").0
  {
    var q := p.(stage := Headers(true));
    LineRead(env, q.(info := i), line, j, "");
    assert line + CRLF + "" == line + CRLF && first + CRLF + "" == first + CRLF;
    LineRead(env, q, first, i, line + CRLF);
    LineRead(env, q, first, i, "");
    FirstLineChecked(env, p, first, line + CRLF);
    FirstLineChecked(env, p, first, "");
    RunEmpty(env, q.(info := j));
    RunEmpty(env, q.(info := i));
    LimitFails(env, p.(info := i), line);
  }

  lemma LineRead(env: Env, q: Parser, line: string, info: FormInfo, rest: string)
    requires q.stage == Headers(true) && '\r' !in line && line != ""
    requires env.headerLine(q.info, line) == HeaderOutcome(true, info)
    ensures Run(env, At(q, line + CRLF + rest)) == Run(env, At(q.(info := info), rest))
  {
    var v := line + CRLF + rest;
    FindAfterClean(line, CRLF, rest);
    assert v[..|line|] == line && v[|line| + |CRLF|..] == rest;
    RunStep(env, At(q, v));
  }

  lemma FirstLineChecked(env: Env, p: Parser, line: string, rest: string)
    requires p.stage == Headers(false) && p.view == "" && '\r' !in line && |line| <= HEADER_MAX_LENGTH
    ensures Feed(env, p, line + CRLF + rest) == Run(env, At(p.(stage := Headers(true)), line + CRLF + rest))
  {
    var v := line + CRLF + rest;
    FindAfterClean(line, CRLF, rest);
    assert "" + v == v;
    RunStep(env, At(p, v));
  }
}
