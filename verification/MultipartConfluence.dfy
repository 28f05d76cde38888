/**
 Splitting the input of FormDataParser into several `parse` calls does not change
 what is parsed (httplib.h:5556-5692).
 */
module MultipartConfluence {
  import opened Text
  import opened Disposition
  import opened MultipartSpec

  ghost predicate AcceptsContent(env: Env) {
    forall c :: env.acceptContent(c)
  }

  lemma DeliverTwice(parts: seq<Part>, x: string, y: string)
    ensures Deliver(Deliver(parts, x), y) == Deliver(parts, x + y)
  {
    if parts != [] {
      var last := parts[|parts| - 1];
      assert (last.content + x) + y == last.content + (x + y);
    }
  }

  /** The step that accepts the closing delimiter and drops what follows it. */
  predicate Closes(p: Parser) {
    p.stage == Delimiter && StartsWith(p.view, DASH)
  }

  /** The buffered header line has no end yet. */
  predicate Unfinished(p: Parser) {
    p.stage == Headers(false) && Find(p.view, CRLF) == |p.view|
  }

  lemma DropPlus(v: string, b: string, k: nat)
    requires k <= |v|
    ensures (v + b)[k..] == v[k..] + b && (v + b)[..k] == v[..k]
  {
  }

  lemma PreambleStable(env: Env, p: Parser, b: string)
    requires PreambleStep(env, p).Next?
    ensures PreambleStep(env, Plus(p, b)) == Next(Plus(PreambleStep(env, p).p, b))
  {
    var d := env.DashBoundaryCrlf();
    FindStable(p.view, b, d);
    DropPlus(p.view, b, Find(p.view, d) + |d|);
  }

  lemma HeaderLineStable(env: Env, p: Parser, b: string)
    requires HeaderLineStep(env, p).Next?
    ensures HeaderLineStep(env, Plus(p, b)) == Next(Plus(HeaderLineStep(env, p).p, b))
  {
    FindStable(p.view, b, CRLF);
    var pos := Find(p.view, CRLF);
    DropPlus(p.view, b, pos);
    DropPlus(p.view, b, pos + |CRLF|);
  }

  lemma BodyStable(env: Env, p: Parser, d: string, b: string)
    requires d != "" && BodyStep(env, p, d).Next?
    ensures BodyStep(env, Plus(p, b), d) == Next(Plus(BodyStep(env, p, d).p, b))
  {
    FindStable(p.view, b, d);
    var pos := Find(p.view, d);
    DropPlus(p.view, b, pos);
    DropPlus(p.view, b, pos + |d|);
  }

  lemma DelimiterStable(p: Parser, b: string)
    requires DelimiterStep(p).Next? && p.stage == Delimiter
    ensures DelimiterStep(Plus(p, b)) == Next(if Closes(p) then DelimiterStep(p).p else Plus(DelimiterStep(p).p, b))
  {
    DropPlus(p.view, b, |CRLF|);
  }

  /** A step that goes on is the same step whatever bytes follow the view. */
  lemma StepStable(env: Env, p: Parser, b: string)
    requires Step(env, p).Next? && !Unfinished(p)
    ensures Step(env, Plus(p, b)) == Next(if Closes(p) then Step(env, p).p else Plus(Step(env, p).p, b))
  {
    match p.stage
    case Preamble => PreambleStable(env, p, b);
    case NewEntry =>
    case Headers(false) => FindStable(p.view, b, CRLF);
    case Headers(true) => HeaderLineStable(env, p, b);
    case Body => BodyStable(env, p, env.CrlfDashBoundary(), b);
    case Delimiter => DelimiterStable(p, b);
  }

  lemma ShiftedOccurs(v: string, b: string, d: string, len: nat, j: nat)
    requires len <= |v|
    ensures OccursAt(v + b, d, len + j) <==> OccursAt(v[len..] + b, d, j)
  {
    var w := v[len..] + b;
    if j + |d| <= |w| {
      assert (v + b)[len + j..len + j + |d|] == w[j..j + |d|];
    }
  }

  /** Giving up the first bytes of a body, except a window as long as the delimiter, hides no delimiter. */
  lemma FindPastWindow(v: string, b: string, d: string)
    requires d != "" && |d| <= |v| && Find(v, d) == |v|
    ensures var len := |v| - |d|;
            Find(v + b, d) == len + Find(v[len..] + b, d)
  {
    hide OccursAt, Find;
    var len := |v| - |d|;
    var w := v[len..] + b;
    FindFirst(v, d);
    FindFirst(w, d);
    forall j: nat | j < len + Find(w, d) || Find(w, d) == |w|
      ensures !OccursAt(v + b, d, j)
    {
      if j < len {
        OccursInPrefix(v, b, d, j);
      } else {
        ShiftedOccurs(v, b, d, len, j - len);
      }
    }
    if Find(w, d) < |w| {
      ShiftedOccurs(v, b, d, len, Find(w, d));
      FindIs(v + b, d, len + Find(w, d));
    } else {
      FindNone(v + b, d);
    }
  }

  /** Two deliveries cut from adjacent stretches are one. */
  lemma BodyPieces(parts: seq<Part>, v: string, b: string, len: nat, k: nat)
    requires len <= |v| && len + k <= |v + b|
    ensures var t := v[len..] + b;
            Deliver(Deliver(parts, v[..len]), t[..k]) == Deliver(parts, (v + b)[..len + k])
            && t[k..] == (v + b)[len + k..]
  {
    var t := v[len..] + b;
    assert v[..len] + t[..k] == (v + b)[..len + k];
    DeliverTwice(parts, v[..len], t[..k]);
  }

  /** What the body state does, by the first delimiter `k`. */
  lemma BodyCases(env: Env, p: Parser, d: string, k: nat)
    requires AcceptsContent(env) && 0 < |d| <= |p.view| && Find(p.view, d) == k
    ensures BodyStep(env, p, d) ==
            if k < |p.view| then
              Next(p.(stage := Delimiter, view := p.view[k + |d|..], parts := Deliver(p.parts, p.view[..k])))
            else if |p.view| == |d| then Halt(p)
            else Halt(p.(view := p.view[|p.view| - |d|..], parts := Deliver(p.parts, p.view[..|p.view| - |d|])))
  {
  }

  /** A body without a delimiter yet: giving up all but the window, then reading on, is reading on. */
  lemma BodyResumes(env: Env, p: Parser, d: string, b: string)
    requires AcceptsContent(env) && d != "" && BodyStep(env, p, d).Halt?
    ensures BodyStep(env, Plus(p, b), d) == BodyStep(env, Plus(BodyStep(env, p, d).p, b), d)
  {
    var v := p.view;
    if |d| < |v| {
      var len := |v| - |d|;
      var q := BodyStep(env, p, d).p;
      BodyCases(env, p, d, |v|);
      assert q == p.(view := v[len..], parts := Deliver(p.parts, v[..len]));
      if b == "" {
        assert v + b == v && v[len..] + b == v[len..];
        BodyCases(env, Plus(q, b), d, Find(v[len..], d));
        FindPastWindow(v, b, d);
      } else if Find(q.view + b, d) < |q.view + b| {
        BodyEndsLater(env, p, q, d, b, len);
      } else {
        BodyStaysOpen(env, p, q, d, b, len);
      }
    }
  }

  lemma BodyEndsLater(env: Env, p: Parser, q: Parser, d: string, b: string, len: nat)
    requires AcceptsContent(env) && d != "" && len == |p.view| - |d| && Find(p.view, d) == |p.view|
    requires q == p.(view := p.view[len..], parts := Deliver(p.parts, p.view[..len]))
    requires Find(q.view + b, d) < |q.view + b|
    ensures BodyStep(env, Plus(p, b), d) == BodyStep(env, Plus(q, b), d)
  {
    hide BodyStep, Find, Deliver;
    var k := Find(q.view + b, d);
    FindPastWindow(p.view, b, d);
    BodyCases(env, Plus(p, b), d, len + k);
    BodyCases(env, Plus(q, b), d, k);
    BodyPieces(p.parts, p.view, b, len, k);
    BodyPieces(p.parts, p.view, b, len, k + |d|);
  }

  lemma BodyStaysOpen(env: Env, p: Parser, q: Parser, d: string, b: string, len: nat)
    requires AcceptsContent(env) && d != "" && b != "" && len == |p.view| - |d| && Find(p.view, d) == |p.view|
    requires q == p.(view := p.view[len..], parts := Deliver(p.parts, p.view[..len]))
    requires Find(q.view + b, d) == |q.view + b|
    ensures BodyStep(env, Plus(p, b), d) == BodyStep(env, Plus(q, b), d)
  {
    hide BodyStep, Find, Deliver;
    FindPastWindow(p.view, b, d);
    BodyCases(env, Plus(p, b), d, |p.view + b|);
    BodyCases(env, Plus(q, b), d, |q.view + b|);
    BodyPieces(p.parts, p.view, b, len, |b|);
  }

  lemma {:induction false} ValidStays(env: Env, p: Parser)
    requires p.valid && Run(env, p).0
    ensures Run(env, p).1.valid
    decreases |p.view|, Rank(p.stage)
  {
    if p.view != "" && Step(env, p).Next? {
      ValidStays(env, Step(env, p).p);
    }
  }

  /** One step of `Run`, with the steps left folded. */
  lemma RunStep(env: Env, p: Parser)
    requires p.view != "" && Step(env, p).Next?
    ensures Run(env, p) == Run(env, Step(env, p).p)
    ensures |Step(env, p).p.view| < |p.view| ||
            (|Step(env, p).p.view| == |p.view| && Rank(Step(env, p).p.stage) < Rank(p.stage))
  {
  }

  /** A halted parser that is given more bytes carries on as if it had seen them at once. */
  lemma HaltResumes(env: Env, p: Parser, b: string)
    requires AcceptsContent(env) && p.view != "" && Step(env, p).Halt?
    requires Run(env, Plus(Step(env, p).p, b)).0
    ensures Run(env, Plus(p, b)) == Run(env, Plus(Step(env, p).p, b))
  {
    if p.stage == Body {
      BodyResumes(env, p, env.CrlfDashBoundary(), b);
    } else if p.stage == Headers(true) {
      RunStep(env, Plus(Step(env, p).p, b));
    }
  }

  lemma UnfinishedHalts(env: Env, p: Parser)
    requires p.view != "" && Unfinished(p) && Run(env, p).0
    ensures Run(env, p) == (true, p)
  {
    RunStep(env, p);
  }

  lemma RestPlus(env: Env, p: Parser, b: string)
    requires p.view == "" && Run(env, Plus(Rest(p), b)).0
    ensures Run(env, Plus(p, b)) == Run(env, Plus(Rest(p), b))
  {
    if p.stage == Headers(true) && b != "" {
      RunStep(env, Plus(Rest(p), b));
    }
  }

  /** Parsing `a` then `b` is parsing `a + b`, as long as nothing follows the closing delimiter. */
  lemma {:induction false} RunAppend(env: Env, p: Parser, b: string)
    requires AcceptsContent(env)
    requires Run(env, p).0 && (Run(env, p).1.valid ==> b == "")
    requires Run(env, Plus(Run(env, p).1, b)).0
    ensures Run(env, Plus(p, b)) == Run(env, Plus(Run(env, p).1, b))
    decreases |p.view|, Rank(p.stage)
  {
    if p.view == "" {
      RestPlus(env, p, b);
    } else if Unfinished(p) {
      UnfinishedHalts(env, p);
    } else if Step(env, p).Next? {
      RunStep(env, p);
      StepStable(env, p, b);
      if Closes(p) { ValidStays(env, Step(env, p).p); }
      RunStep(env, Plus(p, b));
      RunAppend(env, Step(env, p).p, b);
    } else {
      HaltResumes(env, p, b);
    }
  }

  /** Whatever follows the closing delimiter within one read is ignored. */
  lemma {:induction false} EpilogueIgnored(env: Env, p: Parser, t: string)
    requires AcceptsContent(env)
    requires !p.valid && Run(env, p).0 && Run(env, p).1.valid
    ensures Run(env, Plus(p, t)) == Run(env, p)
    decreases |p.view|, Rank(p.stage)
  {
    if Unfinished(p) {
      UnfinishedHalts(env, p);
    } else {
      RunStep(env, p);
      StepStable(env, p, t);
      RunStep(env, Plus(p, t));
      if !Closes(p) { EpilogueIgnored(env, Step(env, p).p, t); }
    }
  }

  /** `parse(a)` then `parse(b)` leaves what `parse(a + b)` leaves. */
  lemma ParseSplits(env: Env, p: Parser, a: string, b: string)
    requires AcceptsContent(env)
    requires Feed(env, p, a).0 && (Feed(env, p, a).1.valid ==> b == "")
    requires Feed(env, Feed(env, p, a).1, b).0
    ensures Feed(env, p, a + b) == Feed(env, Feed(env, p, a).1, b)
  {
    hide Run, Step;
    RunAppend(env, Plus(p, a), b);
    assert p.view + (a + b) == p.view + a + b;
  }

  /** Short header lines, whole or still growing: a finished line leaves room for its own CR. */
  predicate LineShort(view: string) {
    Find(view, CRLF) < HEADER_MAX_LENGTH || (|view| <= HEADER_MAX_LENGTH && Find(view, CRLF) == |view|)
  }

  /** The run from `p` never fails, meets only short header lines and closes on its last byte. */
  ghost predicate Smooth(env: Env, p: Parser)
    decreases |p.view|, Rank(p.stage)
  {
    p.view != "" ==>
      && (p.stage.Headers? ==> LineShort(p.view))
      && (Closes(p) ==> |p.view| == |DASH|)
      && !Step(env, p).Fail?
      && (Step(env, p).Next? ==> Smooth(env, Step(env, p).p))
  }

  lemma UnfinishedShort(v: string, b: string)
    requires LineShort(v + b) && Find(v, CRLF) == |v|
    ensures |v| <= HEADER_MAX_LENGTH
  {
    var pos := Find(v + b, CRLF);
    if pos < |v + b| && pos + |CRLF| <= |v| {
      FindFirst(v + b, CRLF);
      FindFirst(v, CRLF);
      OccursInPrefix(v, b, CRLF, pos);
    }
  }

  lemma SmoothSteps(env: Env, p: Parser)
    requires p.view != "" && Smooth(env, p) && Step(env, p).Next?
    ensures Smooth(env, Step(env, p).p) && Run(env, p) == Run(env, Step(env, p).p)
  {
  }

  /** A smooth run does not fail early when only a first stretch of its bytes is there. */
  lemma SmoothPrefixStep(env: Env, p: Parser, b: string)
    requires AcceptsContent(env) && Smooth(env, Plus(p, b)) && p.view != ""
    ensures !Step(env, p).Fail?
    ensures Unfinished(p) ==> Step(env, p).Next?
  {
    DropPlus(p.view, b, Find(p.view, CRLF));
    if p.stage.Headers? {
      if Find(p.view, CRLF) < |p.view| {
        FindStable(p.view, b, CRLF);
      } else {
        UnfinishedShort(p.view, b);
      }
    }
  }

  lemma SmoothHalt(env: Env, p: Parser, b: string)
    requires AcceptsContent(env) && p.view != "" && Step(env, p).Halt?
    requires Smooth(env, Plus(p, b))
    ensures Smooth(env, Plus(Step(env, p).p, b))
  {
    if p.stage == Body {
      BodyResumes(env, p, env.CrlfDashBoundary(), b);
    }
  }

  /** The run from `p` reads on with `b` as if it had had `b` all along, and closes only at the very end. */
  ghost predicate Resumes(env: Env, p: Parser, b: string) {
    var (ok, q) := Run(env, p);
    && ok
    && Smooth(env, Plus(q, b))
    && Run(env, Plus(p, b)) == Run(env, Plus(q, b))
    && (b != "" && !p.valid ==> !q.valid)
  }

  lemma EmptyResumes(env: Env, p: Parser, b: string)
    requires p.view == "" && Smooth(env, Plus(p, b))
    ensures Resumes(env, p, b)
  {
    if p.stage == Headers(true) && b != "" {
      RunStep(env, Plus(Rest(p), b));
    }
  }

  lemma UnfinishedResumes(env: Env, p: Parser, b: string)
    requires p.view != "" && Unfinished(p) && Step(env, p).Next? && Smooth(env, Plus(p, b))
    ensures Resumes(env, p, b)
  {
    RunStep(env, p);
    assert Run(env, p) == (true, p);
  }

  lemma NextResumes(env: Env, p: Parser, b: string)
    requires p.view != "" && Step(env, p).Next? && !Unfinished(p) && Smooth(env, Plus(p, b))
    requires Resumes(env, Step(env, p).p, b)
    ensures Resumes(env, p, b)
  {
    RunStep(env, p);
    StepStable(env, p, b);
    SmoothSteps(env, Plus(p, b));
    if Closes(p) {
      assert Plus(Step(env, p).p, b) == Step(env, p).p;
    }
  }

  lemma HaltedResumes(env: Env, p: Parser, b: string)
    requires AcceptsContent(env) && p.view != "" && Step(env, p).Halt? && Smooth(env, Plus(p, b))
    ensures Resumes(env, p, b)
  {
    SmoothHalt(env, p, b);
    SmoothRuns(env, Plus(Step(env, p).p, b));
    HaltResumes(env, p, b);
    assert Run(env, p) == (true, Step(env, p).p);
  }

  /** A smooth run may be cut anywhere. */
  lemma {:induction false} SmoothSplit(env: Env, p: Parser, b: string)
    requires AcceptsContent(env) && Smooth(env, Plus(p, b))
    ensures Resumes(env, p, b)
    decreases |p.view|, Rank(p.stage)
  {
    if p.view == "" {
      EmptyResumes(env, p, b);
    } else {
      SmoothPrefixStep(env, p, b);
      if Unfinished(p) {
        UnfinishedResumes(env, p, b);
      } else if Step(env, p).Next? {
        RunStep(env, p);
        SmoothNext(env, p, b);
        SmoothSplit(env, Step(env, p).p, b);
        NextResumes(env, p, b);
      } else {
        HaltedResumes(env, p, b);
      }
    }
  }

  lemma SmoothNext(env: Env, p: Parser, b: string)
    requires p.view != "" && Step(env, p).Next? && !Unfinished(p) && Smooth(env, Plus(p, b))
    ensures Smooth(env, Plus(Step(env, p).p, b))
  {
    StepStable(env, p, b);
    SmoothSteps(env, Plus(p, b));
    if Closes(p) {
      assert Plus(Step(env, p).p, b) == Step(env, p).p;
    }
  }

  lemma {:induction false} SmoothRuns(env: Env, p: Parser)
    requires Smooth(env, p)
    ensures Run(env, p).0
    decreases |p.view|, Rank(p.stage)
  {
    if p.view != "" && Step(env, p).Next? {
      SmoothRuns(env, Step(env, p).p);
    }
  }

  /** Any way of cutting a smooth input into calls parses the same. */
  lemma {:induction false} AnySplit(env: Env, p: Parser, chunks: seq<string>)
    requires AcceptsContent(env) && chunks != [] && Smooth(env, Plus(p, Concat(chunks)))
    ensures FeedAll(env, p, chunks) == Run(env, Plus(p, Concat(chunks)))
    decreases |chunks|
  {
    var b := Concat(chunks[1..]);
    var s := Plus(p, chunks[0]);
    assert p.view + (chunks[0] + b) == p.view + chunks[0] + b;
    SmoothSplit(env, s, b);
    if |chunks| > 1 {
      AnySplit(env, Run(env, s).1, chunks[1..]);
    } else {
      assert Plus(s, "") == s;
      SmoothRuns(env, s);
    }
  }
}
