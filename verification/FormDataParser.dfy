/**
 FormDataParser itself (httplib.h:5539-5793): the buffer it compacts in place, its two cursors
 and its `parse` loop, proved to do what MultipartSpec says.
 */
module FormDataParserClass {
  import opened Text
  import opened Disposition
  import opened MultipartSpec
  import opened MultipartConfluence

  /** The header and content callbacks, and what they have been given. */
  class Receiver {
    const acceptHeader: FormInfo -> bool
    const acceptContent: string -> bool
    var parts: seq<Part>

    constructor (acceptHeader: FormInfo -> bool, acceptContent: string -> bool)
      ensures this.acceptHeader == acceptHeader && this.acceptContent == acceptContent && parts == []
    {
      this.acceptHeader, this.acceptContent := acceptHeader, acceptContent;
      parts := [];
    }

    method OnHeader(file: FormInfo) returns (ok: bool)
      modifies this
      ensures ok == acceptHeader(file)
      ensures parts == if ok then old(parts) + [Part(file, "")] else old(parts)
    {
      ok := acceptHeader(file);
      if ok {
        parts := parts + [Part(file, "")];
      }
    }

    method OnContent(data: string) returns (ok: bool)
      modifies this
      ensures ok == acceptContent(data)
      ensures parts == if ok then Deliver(old(parts), data) else old(parts)
    {
      ok := acceptContent(data);
      if ok {
        parts := Deliver(parts, data);
      }
    }
  }

  /** How a state of the switch ends: `break`, `return true` or `return false`. */
  datatype Control = Break | ReturnTrue | ReturnFalse

  ghost function Outcome(env: Env, control: Control, p: Parser): (bool, Parser) {
    match control
    case Break => Run(env, p)
    case ReturnTrue => (true, p)
    case ReturnFalse => (false, p)
  }

  function Taken(control: Control, p: Parser): StepResult {
    match control
    case Break => Next(p)
    case ReturnTrue => Halt(p)
    case ReturnFalse => Fail(p)
  }

  lemma TakenOutcome(env: Env, p: Parser, c: Control, q: Parser)
    requires p.view != "" && Step(env, p) == Taken(c, q)
    ensures Run(env, p) == Outcome(env, c, q)
    ensures c == Break ==> |q.view| < |p.view| || (|q.view| == |p.view| && Rank(q.stage) < Rank(p.stage))
  {
  }

  class FormDataParser {
    /** What a header line does to the section's fields. */
    const headerLine: (FormInfo, string) -> HeaderOutcome
    var boundary: string
    var dashBoundaryCrlf: string
    var crlfDashBoundary: string
    var state: nat
    var isValid: bool
    var file: FormInfo
    var buf: array<char>
    var bufSpos: nat
    var bufEpos: nat

    ghost predicate Valid()
      reads this
    {
      && state <= 4
      && bufSpos <= bufEpos <= buf.Length
      && dashBoundaryCrlf == DASH + boundary + CRLF
      && crlfDashBoundary == CRLF + DASH + boundary
    }

    /** The bytes between the two cursors. */
    ghost function View(): string
      requires Valid()
      reads this, buf
    {
      buf[bufSpos..bufEpos]
    }

    ghost function StageOf(): Stage
      reads this
    {
      match state case 0 => Preamble case 1 => NewEntry case 2 => Headers(false) case 3 => Body case _ => Delimiter
    }

    ghost function Abs(rcv: Receiver): Parser
      requires Valid()
      reads this, buf, rcv
    {
      Parser(StageOf(), View(), file, isValid, rcv.parts)
    }

    ghost function EnvOf(rcv: Receiver): Env
      reads this`boundary
    {
      Env(boundary, rcv.acceptHeader, rcv.acceptContent, headerLine)
    }

    constructor (decodePath: string -> string)
      ensures Valid() && state == 0 && !isValid && file == EMPTY_INFO && View() == "" && boundary == ""
      ensures fresh(buf)
      ensures forall i, l :: headerLine(i, l) == HandleHeader(decodePath, i, l)
    {
      headerLine := (i, l) => HandleHeader(decodePath, i, l);
      boundary := "";
      dashBoundaryCrlf := DASH + "" + CRLF;
      crlfDashBoundary := CRLF + DASH + "";
      state, isValid, file := 0, false, EMPTY_INFO;
      buf := new char[0];
      bufSpos, bufEpos := 0, 0;
    }

    method SetBoundary(b: string)
      requires Valid()
      modifies this`boundary, this`dashBoundaryCrlf, this`crlfDashBoundary
      ensures Valid() && boundary == b
    {
      boundary := b;
      dashBoundaryCrlf := DASH + boundary + CRLF;
      crlfDashBoundary := CRLF + DASH + boundary;
    }

    method StartWithAt(s: string, pos: nat) returns (r: bool)
      requires Valid() && bufSpos <= pos <= bufEpos
      ensures r == OccursAt(View(), s, pos - bufSpos)
    {
      if bufEpos - pos < |s| {
        return false;
      }
      ghost var v := View();
      ghost var k := pos - bufSpos;
      var i := 0;
      while i < |s|
        invariant 0 <= i <= |s| && v[k..k + i] == s[..i]
      {
        assert buf[pos + i] == v[k + i];
        if buf[pos + i] != s[i] {
          Mismatch(v, s, k, i);
          return false;
        }
        assert v[k..k + i + 1] == v[k..k + i] + [v[k + i]];
        i := i + 1;
      }
      return true;
    }

    /** `buf_find`: jump from one first character to the next. */
    method BufFind(s: string) returns (r: nat)
      requires Valid() && s != ""
      ensures r == Find(View(), s)
    {
      var off := bufSpos;
      ghost var v := View();
      while off < bufEpos
        invariant bufSpos <= off <= bufEpos
        invariant forall j: nat :: j < off - bufSpos ==> !OccursAt(v, s, j)
      {
        var pos := off;
        while pos < bufEpos && buf[pos] != s[0]
          invariant off <= pos <= bufEpos
          invariant forall j: nat :: j < pos - bufSpos ==> !OccursAt(v, s, j)
        {
          Mismatch(v, s, pos - bufSpos, 0);
          pos := pos + 1;
        }
        if pos == bufEpos || |s| > bufEpos - pos {
          FindFirst(v, s);
          return bufEpos - bufSpos;
        }
        var here := StartWithAt(s, pos);
        if here {
          FindIs(v, s, pos - bufSpos);
          return pos - bufSpos;
        }
        off := pos + 1;
      }
      FindFirst(v, s);
      return bufEpos - bufSpos;
    }

    /** The compaction of `buf_append`: unread bytes move to the front of the buffer, in place. */
    method Compact()
      requires Valid()
      modifies this`bufSpos, this`bufEpos, buf
      ensures Valid() && bufSpos == 0 && View() == old(View())
    {
      var remaining := bufEpos - bufSpos;
      if remaining > 0 && bufSpos > 0 {
        var i := 0;
        while i < remaining
          invariant 0 <= i <= remaining
          invariant forall k :: 0 <= k < i ==> buf[k] == old(buf[bufSpos + k])
          invariant forall k :: bufSpos + i <= k < bufEpos ==> buf[k] == old(buf[k])
          modifies buf
        {
          buf[i] := buf[bufSpos + i];
          i := i + 1;
        }
      }
      bufSpos, bufEpos := 0, remaining;
    }

    /** `buf_.resize`, when more room is needed. */
    method Reserve(n: nat)
      requires Valid() && bufSpos == 0
      modifies this`buf
      ensures Valid() && View() == old(View()) && bufEpos + n <= buf.Length
      ensures buf == old(buf) || fresh(buf)
    {
      if bufEpos + n > buf.Length {
        var b := new char[bufEpos + n];
        forall k | 0 <= k < bufEpos {
          b[k] := buf[k];
        }
        buf := b;
      }
    }

    /** The copy of `buf_append`: new bytes behind the unread ones. */
    method CopyIn(data: string)
      requires Valid() && bufSpos == 0 && bufEpos + |data| <= buf.Length
      modifies this`bufEpos, buf
      ensures Valid() && View() == old(View()) + data
    {
      var i := 0;
      while i < |data|
        invariant 0 <= i <= |data|
        invariant forall k :: 0 <= k < bufEpos ==> buf[k] == old(buf[k])
        invariant forall k :: 0 <= k < i ==> buf[bufEpos + k] == data[k]
        modifies buf
      {
        buf[bufEpos + i] := data[i];
        i := i + 1;
      }
      bufEpos := bufEpos + |data|;
    }

    /** `buf_append`. */
    method BufAppend(data: string)
      requires Valid()
      modifies this`bufSpos, this`bufEpos, this`buf, buf
      ensures Valid() && View() == old(View()) + data
      ensures buf == old(buf) || fresh(buf)
    {
      Compact();
      Reserve(|data|);
      CopyIn(data);
    }

    method BufStartWith(s: string) returns (r: bool)
      requires Valid()
      ensures r == StartsWith(View(), s)
    {
      r := StartWithAt(s, bufSpos);
      StartsWithOccurs(View(), s);
    }

    method BufErase(size: nat)
      requires Valid() && size <= bufEpos - bufSpos
      modifies this`bufSpos
      ensures Valid() && View() == old(View())[size..]
    {
      bufSpos := bufSpos + size;
    }

    method PreambleState(rcv: Receiver) returns (c: Control)
      requires Valid() && state == 0 && bufSpos < bufEpos
      modifies this`bufSpos, this`state
      ensures Valid() && EnvOf(rcv) == old(EnvOf(rcv))
      ensures Taken(c, Abs(rcv)) == PreambleStep(EnvOf(rcv), old(Abs(rcv)))
    {
      var pos := BufFind(dashBoundaryCrlf);
      if pos == bufEpos - bufSpos {
        return ReturnTrue;
      }
      BufErase(pos + |dashBoundaryCrlf|);
      state := 1;
      return Break;
    }

    method ClearFileInfo()
      modifies this`file
      ensures file == EMPTY_INFO
    {
      file := EMPTY_INFO;
    }

    /** The view of the parser inside the inner header loop. */
    ghost function AbsInside(rcv: Receiver): Parser
      requires Valid()
      reads this, buf, rcv
    {
      var p := Abs(rcv);
      if state == 2 then p.(stage := Headers(true)) else p
    }

    /** One turn of the inner header loop, on the line that ends at `pos`. */
    method HeaderLine(pos: nat, rcv: Receiver) returns (c: Control)
      requires Valid() && state == 2 && pos == Find(View(), CRLF) < |View()|
      modifies this`bufSpos, this`state, this`file, this`isValid, rcv
      ensures Valid() && EnvOf(rcv) == old(EnvOf(rcv)) && c != ReturnTrue && (state == 2 || state == 3)
      ensures HeaderLineStep(EnvOf(rcv), old(AbsInside(rcv))) ==
              if c == Break then Next(AbsInside(rcv)) else Fail(Abs(rcv))
    {
      hide Find;
      if pos == 0 {
        var ok := rcv.OnHeader(file);
        if !ok {
          isValid := false;
          return ReturnFalse;
        }
        BufErase(|CRLF|);
        state := 3;
        return Break;
      }
      var h := headerLine(file, buf[bufSpos..bufSpos + pos]);
      assert buf[bufSpos..bufSpos + pos] == View()[..pos];
      file := h.info;
      if !h.ok {
        isValid := false;
        return ReturnFalse;
      }
      BufErase(pos + |CRLF|);
      return Break;
    }

    /** The header lines of a section, as far as they are buffered. */
    method HeaderState(rcv: Receiver) returns (c: Control)
      requires Valid() && state == 2 && bufSpos < bufEpos
      modifies this`bufSpos, this`state, this`file, this`isValid, rcv
      ensures Valid() && EnvOf(rcv) == old(EnvOf(rcv))
      ensures Outcome(EnvOf(rcv), c, Abs(rcv)) == Run(EnvOf(rcv), old(Abs(rcv)))
      ensures c == Break ==> |View()| < |old(View())|
    {
      ghost var env := EnvOf(rcv);
      ghost var start := Abs(rcv);
      var pos: nat := BufFind(CRLF);
      if pos > HEADER_MAX_LENGTH {
        return ReturnFalse;
      }
      RunStep(env, start);
      while pos < bufEpos - bufSpos
        invariant Valid() && state == 2 && pos == Find(View(), CRLF) && EnvOf(rcv) == env
        invariant Run(env, start) == Run(env, AbsInside(rcv))
        invariant |View()| <= |start.view|
        decreases bufEpos - bufSpos
      {
        ghost var here := AbsInside(rcv);
        c := HeaderLine(pos, rcv);
        TakenOutcome(env, here, c, if c == Break then AbsInside(rcv) else Abs(rcv));
        if c == ReturnFalse {
          return;
        }
        if state == 3 {
          break;
        }
        pos := BufFind(CRLF);
      }
      if state != 3 {
        return ReturnTrue;
      }
      return Break;
    }

    /** Hand `len` bytes to the content callback. */
    method SendContent(len: nat, rcv: Receiver) returns (ok: bool)
      requires Valid() && len <= bufEpos - bufSpos
      modifies this`isValid, rcv
      ensures ok == rcv.acceptContent(View()[..len])
      ensures rcv.parts == if ok then Deliver(old(rcv.parts), View()[..len]) else old(rcv.parts)
      ensures isValid == (ok && old(isValid))
    {
      assert buf[bufSpos..bufSpos + len] == View()[..len];
      ok := rcv.OnContent(buf[bufSpos..bufSpos + len]);
      if !ok {
        isValid := false;
      }
    }

    /** The body: up to the delimiter, or all but a window that may hold the start of one. */
    method BodyState(rcv: Receiver) returns (c: Control)
      requires Valid() && state == 3 && bufSpos < bufEpos
      modifies this`bufSpos, this`state, this`isValid, rcv
      ensures Valid() && EnvOf(rcv) == old(EnvOf(rcv))
      ensures Taken(c, Abs(rcv)) == BodyStep(EnvOf(rcv), old(Abs(rcv)), crlfDashBoundary)
    {
      if |crlfDashBoundary| > bufEpos - bufSpos {
        return ReturnTrue;
      }
      var pos := BufFind(crlfDashBoundary);
      if pos < bufEpos - bufSpos {
        c := BodyEnds(pos, rcv);
      } else {
        c := BodyGoesOn(rcv);
      }
    }

    method BodyEnds(pos: nat, rcv: Receiver) returns (c: Control)
      requires Valid() && state == 3 && pos == Find(View(), crlfDashBoundary) < |View()|
      modifies this`bufSpos, this`state, this`isValid, rcv
      ensures Valid() && EnvOf(rcv) == old(EnvOf(rcv))
      ensures Taken(c, Abs(rcv)) == BodyStep(EnvOf(rcv), old(Abs(rcv)), crlfDashBoundary)
    {
      hide Deliver, Find;
      var ok := SendContent(pos, rcv);
      if !ok {
        return ReturnFalse;
      }
      BufErase(pos + |crlfDashBoundary|);
      state := 4;
      return Break;
    }

    method BodyGoesOn(rcv: Receiver) returns (c: Control)
      requires Valid() && state == 3 && Find(View(), crlfDashBoundary) == |View()| >= |crlfDashBoundary|
      modifies this`bufSpos, this`isValid, rcv
      ensures Valid() && EnvOf(rcv) == old(EnvOf(rcv))
      ensures Taken(c, Abs(rcv)) == BodyStep(EnvOf(rcv), old(Abs(rcv)), crlfDashBoundary)
    {
      hide Deliver, Find;
      var len := bufEpos - bufSpos - |crlfDashBoundary|;
      if len > 0 {
        var ok := SendContent(len, rcv);
        if !ok {
          return ReturnFalse;
        }
        BufErase(len);
      }
      return ReturnTrue;
    }

    method DelimiterState(rcv: Receiver) returns (c: Control)
      requires Valid() && state == 4 && bufSpos < bufEpos
      modifies this`bufSpos, this`state, this`isValid
      ensures Valid() && EnvOf(rcv) == old(EnvOf(rcv))
      ensures Taken(c, Abs(rcv)) == DelimiterStep(old(Abs(rcv)))
    {
      if |CRLF| > bufEpos - bufSpos {
        return ReturnTrue;
      }
      var next := BufStartWith(CRLF);
      if next {
        BufErase(|CRLF|);
        state := 1;
        return Break;
      }
      var last := BufStartWith(DASH);
      if last {
        BufErase(|DASH|);
        isValid := true;
        BufErase(bufEpos - bufSpos);
        return Break;
      }
      return ReturnTrue;
    }

    /** The switch of the main loop. */
    method Turn(rcv: Receiver) returns (c: Control)
      requires Valid() && bufSpos < bufEpos
      modifies this`bufSpos, this`state, this`file, this`isValid, rcv
      ensures Valid() && EnvOf(rcv) == old(EnvOf(rcv))
      ensures Outcome(EnvOf(rcv), c, Abs(rcv)) == Run(EnvOf(rcv), old(Abs(rcv)))
      ensures c == Break ==> |View()| < |old(View())| || (|View()| == |old(View())| && Rank(StageOf()) < old(Rank(StageOf())))
    {
      hide Run, Outcome, Find, Deliver, PreambleStep, HeaderLineStep, BodyStep, DelimiterStep;
      ghost var start := Abs(rcv);
      match state {
        case 0 => c := PreambleState(rcv);
        case 1 =>
          ClearFileInfo();
          state := 2;
          c := Break;
        case 2 =>
          c := HeaderState(rcv);
          return;
        case 3 => c := BodyState(rcv);
        case _ => c := DelimiterState(rcv);
      }
      TakenOutcome(EnvOf(rcv), start, c, Abs(rcv));
    }

    /** One call with `data`: true or false, and exactly the state and deliveries of `Feed`. */
    method Parse(data: string, rcv: Receiver) returns (ok: bool)
      requires Valid()
      modifies this`bufSpos, this`bufEpos, this`buf, this`state, this`file, this`isValid, buf, rcv
      ensures Valid() && (buf == old(buf) || fresh(buf))
      ensures EnvOf(rcv) == old(EnvOf(rcv))
      ensures (ok, Abs(rcv)) == Feed(EnvOf(rcv), old(Abs(rcv)), data)
    {
      BufAppend(data);
      ghost var env := EnvOf(rcv);
      ghost var start := Abs(rcv);
      while bufEpos - bufSpos > 0
        invariant Valid() && (buf == old(buf) || fresh(buf)) && EnvOf(rcv) == env
        invariant Run(env, start) == Run(env, Abs(rcv))
        decreases bufEpos - bufSpos, Rank(StageOf())
      {
        var c := Turn(rcv);
        if c == ReturnTrue {
          return true;
        } else if c == ReturnFalse {
          return false;
        }
      }
      return true;
    }
  }
}
