/**
 The socket protocol of ClientImpl (httplib.h:8627-8644, 8682-8799, 8841-8861, 10238-10259): `send`
 holds the recursive request_mutex_, the fields below change only under socket_mutex_, in the five
 critical sections modelled here, and `stop` takes socket_mutex_ alone.
 */
module ClientSocketSpec {
  import opened Common

  type Thread = nat

  /** socket_.is_open(), socket_requests_in_flight_, socket_requests_are_from_thread_ and
      socket_should_be_closed_when_request_is_done_. */
  datatype Socket = Socket(open: bool, inFlight: int, from: Option<Thread>, closeWhenDone: bool)

  /** The assertion of close_socket and shutdown_ssl. */
  predicate MayClose(s: Socket, me: Thread) {
    s.inFlight == 0 || s.from == Some(me)
  }

  /** The first critical section of send_: `alive` is what is_socket_alive finds, `connects` whether a
      new connection succeeds. */
  function Begin(s: Socket, me: Thread, alive: bool, connects: bool): (Socket, bool) {
    var t := s.(closeWhenDone := false);
    if t.open && alive then (t.(inFlight := t.inFlight + 1, from := Some(me)), true)
    else if connects then (t.(open := true, inFlight := t.inFlight + 1, from := Some(me)), true)
    else (t.(open := false), false)
  }

  /** The scope exit of send_. */
  function End(s: Socket, closeConnection: bool, ret: bool): Socket {
    var n := s.inFlight - 1;
    var t := s.(inFlight := n, from := if n <= 0 then None else s.from);
    if t.closeWhenDone || closeConnection || !ret then t.(open := false) else t
  }

  /** What handle_request does when the response ends the connection: it says so, or is HTTP/1.0. */
  function CloseNow(s: Socket): Socket {
    s.(open := false)
  }

  function Stop(s: Socket): Socket {
    if s.inFlight > 0 then s.(closeWhenDone := true) else s.(open := false)
  }

  class ClientImpl {
    var open: bool
    var inFlight: int
    var from: Option<Thread>
    var closeWhenDone: bool

    constructor ()
      ensures Abs() == Socket(false, 0, None, false)
    {
      open, inFlight, from, closeWhenDone := false, 0, None, false;
    }

    ghost function Abs(): Socket
      reads this
    {
      Socket(open, inFlight, from, closeWhenDone)
    }

    /** close_socket; its assertion is the precondition. */
    method CloseSocket(me: Thread)
      requires MayClose(Abs(), me)
      modifies this`open
      ensures !open
    {
      if open {
        open := false;
      }
    }

    method BeginSend(me: Thread, alive: bool, connects: bool) returns (ok: bool)
      requires MayClose(Abs(), me)
      modifies this
      ensures (Abs(), ok) == Begin(old(Abs()), me, alive, connects)
      ensures ok == ((old(open) && alive) || connects) && open == ok && !closeWhenDone
      ensures inFlight == old(inFlight) + (if ok then 1 else 0) && from == if ok then Some(me) else old(from)
    {
      closeWhenDone := false;
      var isAlive := false;
      if open {
        isAlive := alive;
        if !isAlive {
          CloseSocket(me);
        }
      }
      if !isAlive {
        if !connects {
          return false;
        }
        open := true;
      }
      if inFlight > 1 {
        assert from == Some(me);
      }
      inFlight := inFlight + 1;
      from := Some(me);
      return true;
    }

    method EndSend(me: Thread, closeConnection: bool, ret: bool)
      requires inFlight > 0 && from == Some(me)
      modifies this
      ensures Abs() == End(old(Abs()), closeConnection, ret)
      ensures inFlight == old(inFlight) - 1 && from == (if inFlight == 0 then None else Some(me))
      ensures open == (old(open) && !old(closeWhenDone) && !closeConnection && ret) && closeWhenDone == old(closeWhenDone)
    {
      inFlight := inFlight - 1;
      if inFlight <= 0 {
        assert inFlight == 0;
        from := None;
      }
      if closeWhenDone || closeConnection || !ret {
        CloseSocket(me);
      }
    }

    /** The close inside handle_request, with its own request still in flight. */
    method CloseInRequest(me: Thread)
      requires inFlight > 0 && from == Some(me)
      modifies this
      ensures Abs() == CloseNow(old(Abs())) && !open && inFlight == old(inFlight) && from == old(from)
    {
      CloseSocket(me);
    }

    method StopAll(me: Thread)
      modifies this
      ensures Abs() == Stop(old(Abs()))
      ensures open == (old(open) && old(inFlight) > 0) && closeWhenDone == (old(closeWhenDone) || old(inFlight) > 0)
      ensures inFlight == old(inFlight) && from == old(from)
    {
      if inFlight > 0 {
        closeWhenDone := true;
        return;
      }
      assert inFlight <= 0;
      open := false;
    }
  }

  /** One call of send on the stack of the thread that owns request_mutex_. */
  datatype Frame = Locked | InFlight

  datatype State = State(socket: Socket, owner: Option<Thread>, frames: seq<Frame>)

  datatype Event =
    | Lock(me: Thread)
    | BeginSend(me: Thread, alive: bool, connects: bool)
    | CloseInRequest(me: Thread)
    | EndSend(me: Thread, closeConnection: bool, ret: bool)
    | Unlock(me: Thread)
    | StopSocket(me: Thread)

  predicate TopIs(s: State, f: Frame) {
    s.frames != [] && s.frames[|s.frames| - 1] == f
  }

  /** A thread enters `send` when nobody holds request_mutex_, or from inside its own request
      (a redirect); `stop` is possible at any time, from any thread. */
  predicate Enabled(s: State, e: Event) {
    match e
    case Lock(me) => s.owner == None || (s.owner == Some(me) && TopIs(s, InFlight))
    case BeginSend(me, _, _) => s.owner == Some(me) && TopIs(s, Locked)
    case CloseInRequest(me) => s.owner == Some(me) && TopIs(s, InFlight)
    case EndSend(me, _, _) => s.owner == Some(me) && TopIs(s, InFlight)
    case Unlock(me) => s.owner == Some(me) && TopIs(s, Locked)
    case StopSocket(_) => true
  }

  function Next(s: State, e: Event): State
    requires Enabled(s, e)
  {
    match e
    case Lock(me) => s.(owner := Some(me), frames := s.frames + [Locked])
    case BeginSend(me, alive, connects) =>
      var (t, ok) := Begin(s.socket, me, alive, connects);
      s.(socket := t, frames := s.frames[..|s.frames| - 1] + [if ok then InFlight else Locked])
    case CloseInRequest(_) => s.(socket := CloseNow(s.socket))
    case EndSend(me, c, ret) => s.(socket := End(s.socket, c, ret), frames := s.frames[..|s.frames| - 1] + [Locked])
    case Unlock(_) =>
      var rest := s.frames[..|s.frames| - 1];
      s.(frames := rest, owner := if rest == [] then None else s.owner)
    case StopSocket(_) => s.(socket := Stop(s.socket))
  }

  const START := State(Socket(false, 0, None, false), None, [])

  ghost predicate Reaches(s: State, events: seq<Event>, t: State)
    decreases |events|
  {
    if events == [] then s == t else Enabled(s, events[0]) && Reaches(Next(s, events[0]), events[1..], t)
  }
}

module ClientSocketProperties {
  import opened Common
  import opened ClientSocketSpec

  /** How many of the nested calls have a request in flight. */
  function Depth(frames: seq<Frame>): nat {
    if frames == [] then 0
    else Depth(frames[..|frames| - 1]) + if frames[|frames| - 1] == InFlight then 1 else 0
  }

  predicate Inv(s: State) {
    && s.socket.inFlight == Depth(s.frames)
    && (s.owner == None <==> s.frames == [])
    && (s.socket.inFlight > 0 ==> s.socket.from == s.owner)
    && (s.socket.closeWhenDone && s.socket.inFlight == 0 ==> !s.socket.open)
  }

  /** Whether the step closes the socket while the thread that does so might not be allowed to. */
  predicate CloseAsserted(s: State, e: Event)
    requires Enabled(s, e)
  {
    match e
    case BeginSend(me, _, _) => MayClose(s.socket, me) && (s.socket.inFlight > 1 ==> s.socket.from == Some(me))
    case CloseInRequest(me) => MayClose(s.socket, me) && s.socket.inFlight > 0
    case EndSend(me, _, _) =>
      MayClose(s.socket.(inFlight := s.socket.inFlight - 1, from := if s.socket.inFlight <= 1 then None else s.socket.from), me)
      && s.socket.inFlight > 0
    case StopSocket(me) => s.socket.inFlight > 0 || MayClose(s.socket, me)
    case _ => true
  }

  lemma StepInv(s: State, e: Event)
    requires Inv(s) && Enabled(s, e)
    ensures Inv(Next(s, e)) && CloseAsserted(s, e)
  {
    var t := Next(s, e);
    if s.frames != [] && t.frames != [] {
      if e.Lock? {
        assert t.frames[..|t.frames| - 1] == s.frames;
      } else if e.BeginSend? || e.EndSend? {
        assert t.frames[..|t.frames| - 1] == s.frames[..|s.frames| - 1];
      }
    }
  }

  lemma {:induction false} ReachedInv(s: State, events: seq<Event>, t: State)
    requires Inv(s) && Reaches(s, events, t)
    ensures Inv(t)
    decreases |events|
  {
    if events != [] {
      StepInv(s, events[0]);
      ReachedInv(Next(s, events[0]), events[1..], t);
    }
  }

  /** In every interleaving the in-flight count is the depth of the owner's nested requests, and no step
      that is possible next can break an assertion. */
  lemma SocketSafety(events: seq<Event>, t: State)
    requires Reaches(START, events, t)
    ensures t.socket.inFlight == Depth(t.frames) && (t.owner == None ==> t.socket.inFlight == 0)
    ensures t.socket.inFlight > 0 ==> t.socket.from == t.owner
    ensures forall e :: Enabled(t, e) ==> CloseAsserted(t, e)
  {
    ReachedInv(START, events, t);
    forall e | Enabled(t, e)
      ensures CloseAsserted(t, e)
    {
      StepInv(t, e);
    }
  }

  // ---- when a stop takes effect ----

  /** A step that neither closes the socket nor takes it over. */
  predicate Leaves(e: Event) {
    !e.BeginSend? && !e.StopSocket? && !e.CloseInRequest? && (e.EndSend? ==> !e.closeConnection && e.ret)
  }

  predicate Undisturbed(events: seq<Event>) {
    forall i :: 0 <= i < |events| ==> Leaves(events[i])
  }

  /** Some start of send_ leaves the socket open, and nothing behind it closes it. */
  ghost predicate Reopened(s: State, events: seq<Event>)
    decreases |events|
  {
    events != [] && Enabled(s, events[0]) &&
    (|| (events[0].BeginSend? && Next(s, events[0]).socket.open && Undisturbed(events[1..]))
     || Reopened(Next(s, events[0]), events[1..]))
  }

  /** Closed, or about to be by the request in flight. */
  predicate Closing(s: Socket) {
    !s.open || (s.closeWhenDone && s.inFlight > 0)
  }

  lemma UndisturbedStep(events: seq<Event>)
    requires events != []
    ensures Undisturbed(events) <==> Leaves(events[0]) && Undisturbed(events[1..])
  {
    if Leaves(events[0]) && Undisturbed(events[1..]) {
      forall i | 0 <= i < |events|
        ensures Leaves(events[i])
      {
        if i > 0 { assert events[i] == events[1..][i - 1]; }
      }
    }
  }

  lemma SocketStep(s: State, e: Event)
    requires Inv(s) && Enabled(s, e)
    requires Closing(s.socket) || !s.socket.closeWhenDone
    ensures Closing(Next(s, e).socket) || !Next(s, e).socket.closeWhenDone
    ensures e.BeginSend? ==> Closing(Next(s, e).socket) == !Next(s, e).socket.open
    ensures !e.BeginSend? ==> (!Closing(Next(s, e).socket) <==> !Closing(s.socket) && Leaves(e))
  {
  }

  lemma {:induction false} OpenExactly(s: State, events: seq<Event>, t: State)
    requires Inv(s) && Reaches(s, events, t) && t.socket.inFlight == 0
    requires Closing(s.socket) || !s.socket.closeWhenDone
    ensures t.socket.open <==> Reopened(s, events) || (!Closing(s.socket) && Undisturbed(events))
    decreases |events|
  {
    if events == [] {
      ReachedInv(s, events, t);
    } else {
      hide Inv, Enabled, Closing, Next;
      var (e, n) := (events[0], Next(s, events[0]));
      NextInv(s, e);
      SocketStep(s, e);
      UndisturbedStep(events);
      OpenExactly(n, events[1..], t);
    }
  }

  lemma NextInv(s: State, e: Event)
    requires Inv(s) && Enabled(s, e)
    ensures Inv(Next(s, e))
  {
    StepInv(s, e);
  }

  /** A stop during a request leaves the socket closed, once nothing is in flight any more,
      if and only if no later start of send_ reopens it for good. */
  lemma StopExact(before: seq<Event>, s: State, me: Thread, after: seq<Event>, t: State)
    requires Reaches(START, before, s) && s.socket.inFlight > 0
    requires Reaches(Next(s, StopSocket(me)), after, t) && t.socket.inFlight == 0
    ensures !t.socket.open <==> !Reopened(Next(s, StopSocket(me)), after)
  {
    ReachedInv(START, before, s);
    StepInv(s, StopSocket(me));
    OpenExactly(Next(s, StopSocket(me)), after, t);
  }

  predicate NoBegin(events: seq<Event>) {
    forall i :: 0 <= i < |events| ==> !events[i].BeginSend?
  }

  lemma {:induction false} NoBeginNoReopen(s: State, events: seq<Event>)
    requires NoBegin(events)
    ensures !Reopened(s, events)
    decreases |events|
  {
    if events != [] && Enabled(s, events[0]) {
      NoBeginNoReopen(Next(s, events[0]), events[1..]);
    }
  }

  /** So a stop with no later start of send_ always takes effect. */
  lemma StopTakesEffect(before: seq<Event>, s: State, me: Thread, after: seq<Event>, t: State)
    requires Reaches(START, before, s) && s.socket.inFlight > 0
    requires Reaches(Next(s, StopSocket(me)), after, t) && NoBegin(after) && t.socket.inFlight == 0
    ensures !t.socket.open
  {
    StopExact(before, s, me, after, t);
    NoBeginNoReopen(Next(s, StopSocket(me)), after);
  }

  /** What follows a stop when the response is a redirect: perhaps the close that the response asks for, the
      nested send, which gets a socket, perhaps the close that its own response asks for, and the ends of both
      requests, which succeed. */
  function Redirect(me: Thread, alive: bool, outerCloses: bool, innerCloses: bool): seq<Event> {
    (if outerCloses then [CloseInRequest(me)] else []) + Nested(me, alive, innerCloses)
  }

  function Nested(me: Thread, alive: bool, closes: bool): seq<Event> {
    [Lock(me), BeginSend(me, alive, true)] + Ends(me, closes)
  }

  function Ends(me: Thread, closes: bool): seq<Event> {
    (if closes then [CloseInRequest(me)] else []) + [EndSend(me, false, true), Unlock(me), EndSend(me, false, true)]
  }

  /** A redirect behind the stop forgets it: whatever happened before, the socket is left open exactly
      when the last response does not ask for the close. */
  lemma RedirectForgetsStop(s: State, other: Thread, me: Thread, alive: bool, outerCloses: bool, innerCloses: bool,
                            t: State)
    requires s.socket.inFlight == 1
    requires Reaches(Next(s, StopSocket(other)), Redirect(me, alive, outerCloses, innerCloses), t)
    ensures t.socket.inFlight == 0 && (t.socket.open <==> !innerCloses)
  {
    var s0 := Next(s, StopSocket(other));
    var es := Redirect(me, alive, outerCloses, innerCloses);
    if outerCloses {
      ReachesStep(s0, es, t);
      assert es[1..] == Nested(me, alive, innerCloses);
      NestedRun(Next(s0, es[0]), me, alive, innerCloses, t);
    } else {
      assert es == Nested(me, alive, innerCloses);
      NestedRun(s0, me, alive, innerCloses, t);
    }
  }

  lemma NestedRun(s0: State, me: Thread, alive: bool, closes: bool, t: State)
    requires s0.socket.inFlight == 1 && Reaches(s0, Nested(me, alive, closes), t)
    ensures t.socket.inFlight == 0 && (t.socket.open <==> !closes)
  {
    var es := Nested(me, alive, closes);
    var s1 := Next(s0, es[0]);
    ReachesStep(s0, es, t);
    ReachesStep(s1, es[1..], t);
    assert es[1..][1..] == Ends(me, closes);
    EndsRun(Next(s1, es[1]), me, closes, t);
  }

  lemma EndsRun(s2: State, me: Thread, closes: bool, t: State)
    requires s2.socket.inFlight == 2 && s2.socket.open && !s2.socket.closeWhenDone
    requires Reaches(s2, Ends(me, closes), t)
    ensures t.socket.inFlight == 0 && (t.socket.open <==> !closes)
  {
    var es := Ends(me, closes);
    if closes {
      ReachesStep(s2, es, t);
      assert es[1..] == Ends(me, false);
      TwoEnds(Next(s2, es[0]), me, t);
    } else {
      assert es == Ends(me, false);
      TwoEnds(s2, me, t);
    }
  }

  lemma TwoEnds(s: State, me: Thread, t: State)
    requires s.socket.inFlight == 2 && !s.socket.closeWhenDone && Reaches(s, Ends(me, false), t)
    ensures t.socket.inFlight == 0 && t.socket.open == s.socket.open
  {
    var es := Ends(me, false);
    ReachesStep(s, es, t);
    var s1 := Next(s, es[0]);
    ReachesStep(s1, es[1..], t);
    ReachesStep(Next(s1, es[1]), es[2..], t);
  }

  lemma ReachesStep(s: State, events: seq<Event>, t: State)
    requires events != [] && Enabled(s, events[0])
    ensures Reaches(s, events, t) <==> Reaches(Next(s, events[0]), events[1..], t)
  {
  }

  /** And every lone request can be redirected that way. */
  lemma RedirectPossible(s: State, other: Thread, me: Thread, alive: bool, outerCloses: bool, innerCloses: bool)
    returns (t: State)
    requires s.owner == Some(me) && s.frames == [InFlight] && s.socket.inFlight == 1
    ensures Reaches(Next(s, StopSocket(other)), Redirect(me, alive, outerCloses, innerCloses), t)
  {
    var s0 := Next(s, StopSocket(other));
    var es := Redirect(me, alive, outerCloses, innerCloses);
    if outerCloses {
      assert es[1..] == Nested(me, alive, innerCloses);
      t := NestedPossible(Next(s0, es[0]), me, alive, innerCloses);
      ReachesStep(s0, es, t);
    } else {
      assert es == Nested(me, alive, innerCloses);
      t := NestedPossible(s0, me, alive, innerCloses);
    }
  }

  lemma NestedPossible(s0: State, me: Thread, alive: bool, closes: bool) returns (t: State)
    requires s0.owner == Some(me) && s0.frames == [InFlight]
    ensures Reaches(s0, Nested(me, alive, closes), t)
  {
    var es := Nested(me, alive, closes);
    var s1 := Next(s0, es[0]);
    var s2 := Next(s1, es[1]);
    assert s1.frames == [InFlight, Locked] && s2.frames == [InFlight, InFlight];
    assert es[1..][1..] == Ends(me, closes);
    if closes {
      t := EndsPossible(Next(s2, CloseInRequest(me)), me);
      assert Ends(me, closes)[1..] == Ends(me, false);
      ReachesStep(s2, Ends(me, closes), t);
    } else {
      t := EndsPossible(s2, me);
    }
    ReachesStep(s1, es[1..], t);
    ReachesStep(s0, es, t);
  }

  lemma EndsPossible(s: State, me: Thread) returns (t: State)
    requires s.owner == Some(me) && s.frames == [InFlight, InFlight]
    ensures Reaches(s, Ends(me, false), t)
  {
    var es := Ends(me, false);
    var s1 := Next(s, es[0]);
    var s2 := Next(s1, es[1]);
    assert s1.frames == [InFlight, Locked] && s2.frames == [InFlight];
    t := Next(s2, es[2]);
    ReachesStep(s2, es[2..], t);
    ReachesStep(s1, es[1..], t);
    ReachesStep(s, es, t);
  }
}
