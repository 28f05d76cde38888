/**
 Login, RevokeTokens and DeleteUser interleaved at their database calls, for one user
 (auth_service/src/service/AuthServiceImpl.cpp:180-202, 411-415, 461), and exactly which of them may
 run together without leaving two valid sessions. RefreshToken hands out a jti that was issued before
 and writes nothing, and ValidateToken only reads, so neither is a handler here.
 */
module SessionInterleaving {
  type Steps = seq<(nat, string)>

  /** How far a handler has come; `previous` is what its getUserTokenJti returned. A login starts here
      once it has found the account; deleteUserById is a single call. */
  datatype Handler =
    | LoginStart
    | LoginRead(previous: string)
    | LoginRevoked
    | LoginDone
    | RevokeStart
    | RevokeRead(previous: string)
    | RevokeRevoked
    | RevokeDone
    | DeleteStart
    | DeleteDone

  /** Whether the user's row is there, its token_jti ("" for NULL and for no row), the revoked table, the jtis
      issued, the handlers. */
  datatype World = World(
    row: bool,
    current: string,
    revoked: set<string>,
    issued: set<string>,
    handlers: seq<Handler>)

  function Revoked(w: World, jti: string): set<string> {
    if jti == "" then w.revoked else w.revoked + {jti}
  }

  /** The next database call of handler `i`; `jti` is the fresh one a login writes. Without a row the
      update matches nothing, and the login goes on. */
  function Advance(w: World, i: nat, jti: string): World
    requires i < |w.handlers|
  {
    match w.handlers[i]
    case LoginStart => w.(handlers := w.handlers[i := LoginRead(w.current)])
    case RevokeStart => w.(handlers := w.handlers[i := RevokeRead(w.current)])
    case LoginRead(p) => w.(revoked := Revoked(w, p), handlers := w.handlers[i := LoginRevoked])
    case RevokeRead(p) => w.(revoked := Revoked(w, p), handlers := w.handlers[i := RevokeRevoked])
    case LoginRevoked =>
      w.(current := if w.row then jti else w.current, issued := w.issued + {jti}, handlers := w.handlers[i := LoginDone])
    case RevokeRevoked =>
      w.(current := if w.row then "" else w.current, handlers := w.handlers[i := RevokeDone])
    case DeleteStart =>
      w.(row := false, current := "", revoked := Revoked(w, w.current), handlers := w.handlers[i := DeleteDone])
    case _ => w
  }

  /** A schedule: which handler moves, and the jti it would write. */
  predicate Schedulable(w: World, steps: Steps)
    decreases |steps|
  {
    steps != [] ==>
      && steps[0].0 < |w.handlers|
      && steps[0].1 != "" && steps[0].1 !in w.issued && steps[0].1 !in w.revoked
      && Schedulable(Advance(w, steps[0].0, steps[0].1), steps[1..])
  }

  function Play(w: World, steps: Steps): World
    requires Schedulable(w, steps)
    decreases |steps|
  {
    if steps == [] then w else Play(Advance(w, steps[0].0, steps[0].1), steps[1..])
  }

  /** Both checks of ValidateToken, on an issued jti of this user. */
  predicate Passes(w: World, jti: string) {
    jti in w.issued && jti !in w.revoked && (w.current == "" || w.current == jti)
  }

  ghost predicate AtMostOne(w: World) {
    forall a, b :: Passes(w, a) && Passes(w, b) ==> a == b
  }

  /** Where no handler is running, in the sense of the session invariant. */
  predicate Quiet(w: World) {
    && (w.row || w.current == "")
    && forall j :: j in w.issued ==> j != "" && (j == w.current || j in w.revoked)
  }

  predicate OnlyLogins(w: World) {
    forall i :: 0 <= i < |w.handlers| ==> w.handlers[i].LoginStart? || w.handlers[i].LoginRead?
                                          || w.handlers[i].LoginRevoked? || w.handlers[i].LoginDone?
  }

  /** While no login has written its jti, nothing that was issued passes without being current. */
  predicate LoginInv(w: World) {
    OnlyLogins(w) && w.row && (w.current == "" ==> w.issued <= w.revoked)
  }

  lemma {:induction false} LoginsKeep(w: World, steps: Steps)
    requires LoginInv(w) && Schedulable(w, steps)
    ensures LoginInv(Play(w, steps))
    decreases |steps|
  {
    if steps != [] {
      LoginsKeep(Advance(w, steps[0].0, steps[0].1), steps[1..]);
    }
  }

  /** However the database calls of any number of logins interleave, at most one jti passes. */
  lemma InterleavedLogins(w: World, steps: Steps)
    requires Quiet(w) && w.row && OnlyLogins(w) && Schedulable(w, steps)
    ensures AtMostOne(Play(w, steps))
  {
    LoginsKeep(w, steps);
  }

  // ---- one login among revokes and deletes ----

  predicate Retires(h: Handler) {
    h.RevokeStart? || h.RevokeRead? || h.RevokeRevoked? || h.RevokeDone? || h.DeleteStart? || h.DeleteDone?
  }

  /** Handlers read what was current at first, unless that is revoked already. */
  predicate ReadsFirst(h: Handler, first: string, gone: bool) {
    match h
    case LoginRead(p) => p == first || gone
    case RevokeRead(p) => p == first || gone
    case LoginRevoked => gone
    case RevokeRevoked => gone
    case LoginDone => gone
    case _ => true
  }

  /** `w` is reached from `w0`, whose only login, if any, is handler `l`: the first jti is revoked before
      `current` leaves it, and only the login issues a jti. */
  ghost predicate OneLogin(w0: World, w: World, l: nat) {
    var gone := w0.current == "" || w0.current in w.revoked;
    && (forall i :: 0 <= i < |w.handlers| && i != l ==> Retires(w.handlers[i]))
    && (forall i :: 0 <= i < |w.handlers| ==> ReadsFirst(w.handlers[i], w0.current, gone))
    && (w.current == w0.current || gone)
    && w0.revoked <= w.revoked && w0.issued <= w.issued
    && (w.issued == w0.issued || (l < |w.handlers| && w.handlers[l].LoginDone?))
    && (exists j :: w.issued <= w0.issued + {j})
  }

  lemma OneLoginStep(w0: World, w: World, l: nat, i: nat, jti: string)
    requires OneLogin(w0, w, l) && i < |w.handlers|
    ensures OneLogin(w0, Advance(w, i, jti), l)
  {
    var n := Advance(w, i, jti);
    if w.handlers[i].LoginRevoked? {
      assert n.issued <= w0.issued + {jti};
    } else {
      var j :| w.issued <= w0.issued + {j};
      assert n.issued <= w0.issued + {j};
    }
  }

  lemma {:induction false} OneLoginKeeps(w0: World, w: World, l: nat, steps: Steps)
    requires OneLogin(w0, w, l) && Schedulable(w, steps)
    ensures OneLogin(w0, Play(w, steps), l)
    decreases |steps|
  {
    if steps != [] {
      OneLoginStep(w0, w, l, steps[0].0, steps[0].1);
      OneLoginKeeps(w0, Advance(w, steps[0].0, steps[0].1), l, steps[1..]);
    }
  }

  lemma OneLoginPasses(w0: World, w: World, l: nat)
    requires Quiet(w0) && OneLogin(w0, w, l)
    ensures AtMostOne(w)
  {
    var j :| w.issued <= w0.issued + {j};
  }

  // ---- two logins and a revoke ----

  /** The handlers that race: two logins and a revoke. */
  predicate Racers(w: World, a: nat, b: nat, r: nat) {
    a < |w.handlers| && b < |w.handlers| && r < |w.handlers| && a != b && a != r && b != r
  }

  predicate Fresh(w: World, jti: string) {
    jti != "" && jti !in w.issued && jti !in w.revoked
  }

  lemma FirstStep(w: World, s: (nat, string), rest: Steps)
    requires s.0 < |w.handlers| && Fresh(w, s.1) && Schedulable(Advance(w, s.0, s.1), rest)
    ensures Schedulable(w, [s] + rest) && Play(w, [s] + rest) == Play(Advance(w, s.0, s.1), rest)
  {
    assert ([s] + rest)[1..] == rest;
  }

  /** A run of three steps, one for each racer. */
  lemma ThreeSteps(w: World, s: (nat, string), t: (nat, string), u: (nat, string), rest: Steps)
    returns (n: World, steps: Steps)
    requires Racers(w, s.0, t.0, u.0)
    requires Fresh(w, s.1)
    requires Fresh(Advance(w, s.0, s.1), t.1)
    requires Fresh(Advance(Advance(w, s.0, s.1), t.0, t.1), u.1)
    requires Schedulable(Advance(Advance(Advance(w, s.0, s.1), t.0, t.1), u.0, u.1), rest)
    ensures n == Advance(Advance(Advance(w, s.0, s.1), t.0, t.1), u.0, u.1)
    ensures Schedulable(w, steps) && Play(w, steps) == Play(n, rest)
  {
    var w1 := Advance(w, s.0, s.1);
    var w2 := Advance(w1, t.0, t.1);
    n := Advance(w2, u.0, u.1);
    FirstStep(w2, u, rest);
    FirstStep(w1, t, [u] + rest);
    FirstStep(w, s, [t] + ([u] + rest));
    steps := [s] + ([t] + ([u] + rest));
  }

  /** The revoke clears after both logins have written. */
  lemma RaceEnds(w: World, a: nat, b: nat, r: nat, x: string, y: string, z: string) returns (steps: Steps)
    requires Racers(w, a, b, r) && Fresh(w, x) && Fresh(w, y) && Fresh(w, z) && x != y && x != z && y != z
    requires w.handlers[a].LoginRevoked? && w.handlers[b].LoginRevoked? && w.handlers[r].RevokeRevoked?
    requires w.row || w.current == ""
    ensures Schedulable(w, steps) && Passes(Play(w, steps), x) && Passes(Play(w, steps), y)
  {
    var n;
    n, steps := ThreeSteps(w, (a, x), (b, y), (r, z), []);
  }

  /** All three revoke what they have read. */
  lemma RaceRevokes(w: World, a: nat, b: nat, r: nat, x: string, y: string, z: string) returns (steps: Steps)
    requires Racers(w, a, b, r) && Fresh(w, x) && Fresh(w, y) && Fresh(w, z) && x != y && x != z && y != z
    requires w.handlers[a] == LoginRead(w.current) && w.handlers[b] == LoginRead(w.current)
    requires w.handlers[r] == RevokeRead(w.current) && w.current !in {x, y, z} && (w.row || w.current == "")
    ensures Schedulable(w, steps) && Passes(Play(w, steps), x) && Passes(Play(w, steps), y)
  {
    var n := Advance(Advance(Advance(w, a, x), b, x), r, x);
    var ends := RaceEnds(n, a, b, r, x, y, z);
    n, steps := ThreeSteps(w, (a, x), (b, x), (r, x), ends);
  }

  /** A revoke among two logins reads before either writes and clears after both: it reports success, and
      both sessions stay valid. */
  lemma RevokeRaces(w: World, a: nat, b: nat, r: nat, x: string, y: string, z: string) returns (steps: Steps)
    requires Racers(w, a, b, r) && Fresh(w, x) && Fresh(w, y) && Fresh(w, z) && x != y && x != z && y != z
    requires w.handlers[a].LoginStart? && w.handlers[b].LoginStart? && w.handlers[r].RevokeStart?
    requires w.current !in {x, y, z} && (w.row || w.current == "")
    ensures Schedulable(w, steps) && Passes(Play(w, steps), x) && Passes(Play(w, steps), y)
  {
    var n := Advance(Advance(Advance(w, a, x), b, x), r, x);
    var revokes := RaceRevokes(n, a, b, r, x, y, z);
    n, steps := ThreeSteps(w, (a, x), (b, x), (r, x), revokes);
  }

  // ---- two logins without a row ----

  /** A run of two steps of two handlers. */
  lemma TwoSteps(w: World, s: (nat, string), t: (nat, string), rest: Steps) returns (n: World, steps: Steps)
    requires s.0 < |w.handlers| && t.0 < |w.handlers|
    requires Fresh(w, s.1) && Fresh(Advance(w, s.0, s.1), t.1)
    requires Schedulable(Advance(Advance(w, s.0, s.1), t.0, t.1), rest)
    ensures n == Advance(Advance(w, s.0, s.1), t.0, t.1)
    ensures Schedulable(w, steps) && Play(w, steps) == Play(n, rest)
  {
    var w1 := Advance(w, s.0, s.1);
    n := Advance(w1, t.0, t.1);
    FirstStep(w1, t, rest);
    FirstStep(w, s, [t] + rest);
    steps := [s] + ([t] + rest);
  }

  /** Neither update matches a row, and both jtis pass for want of a current one. */
  lemma NoRowEnds(w: World, a: nat, b: nat, x: string, y: string) returns (steps: Steps)
    requires a < |w.handlers| && b < |w.handlers| && a != b && Fresh(w, x) && Fresh(w, y) && x != y
    requires !w.row && w.current == "" && w.handlers[a].LoginRead? && w.handlers[b].LoginRead?
    requires w.handlers[a].previous !in {x, y} && w.handlers[b].previous !in {x, y}
    ensures Schedulable(w, steps) && Passes(Play(w, steps), x) && Passes(Play(w, steps), y)
  {
    var n := Advance(Advance(w, a, x), b, x);
    var m, ends := TwoSteps(n, (a, x), (b, y), []);
    m, steps := TwoSteps(w, (a, x), (b, x), ends);
  }

  lemma NoRowRaces(w: World, a: nat, b: nat, x: string, y: string) returns (steps: Steps)
    requires a < |w.handlers| && b < |w.handlers| && a != b && Fresh(w, x) && Fresh(w, y) && x != y
    requires !w.row && w.current == "" && w.handlers[a].LoginStart? && w.handlers[b].LoginStart?
    ensures Schedulable(w, steps) && Passes(Play(w, steps), x) && Passes(Play(w, steps), y)
  {
    var n := Advance(Advance(w, a, x), b, x);
    var ends := NoRowEnds(n, a, b, x, y);
    n, steps := TwoSteps(w, (a, x), (b, x), ends);
  }

  /** A delete behind the reads of two logins leaves both tokens valid, for an account that is gone. */
  lemma DeleteRaces(w: World, a: nat, b: nat, r: nat, x: string, y: string) returns (steps: Steps)
    requires Racers(w, a, b, r) && Fresh(w, x) && Fresh(w, y) && x != y && w.current !in {x, y}
    requires w.handlers[a].LoginStart? && w.handlers[b].LoginStart? && w.handlers[r].DeleteStart?
    ensures Schedulable(w, steps) && Passes(Play(w, steps), x) && Passes(Play(w, steps), y)
    ensures !Play(w, steps).row
  {
    var n := Advance(Advance(Advance(w, a, x), b, x), r, x);
    var ends := NoRowEnds(n, a, b, x, y);
    n, steps := ThreeSteps(w, (a, x), (b, x), (r, x), ends);
    RowStays(n, ends);
  }

  /** A deleted row does not come back. */
  lemma {:induction false} RowStays(w: World, steps: Steps)
    requires !w.row && Schedulable(w, steps)
    ensures !Play(w, steps).row
    decreases |steps|
  {
    if steps != [] {
      RowStays(Advance(w, steps[0].0, steps[0].1), steps[1..]);
    }
  }

  // ---- the exact condition ----

  /** There is always another random jti. */
  lemma {:induction false} LengthBound(s: set<string>) returns (n: nat)
    ensures forall x :: x in s ==> |x| < n
    decreases s
  {
    if s == {} {
      n := 0;
    } else {
      var x :| x in s;
      n := LengthBound(s - {x});
      if n <= |x| { n := |x| + 1; }
      assert forall y :: y in s ==> y == x || y in s - {x};
    }
  }

  function Zeros(n: nat): string {
    seq(n, _ => '0')
  }

  predicate NoRevoke(w: World) {
    forall i :: 0 <= i < |w.handlers| ==> !w.handlers[i].RevokeStart?
  }

  predicate NoDelete(w: World) {
    forall i :: 0 <= i < |w.handlers| ==> !w.handlers[i].DeleteStart?
  }

  predicate SingleLogin(w: World) {
    forall i, j :: 0 <= i < j < |w.handlers| ==> !w.handlers[i].LoginStart? || !w.handlers[j].LoginStart?
  }

  predicate NotStarted(w: World) {
    forall i :: 0 <= i < |w.handlers| ==>
      w.handlers[i].LoginStart? || w.handlers[i].RevokeStart? || w.handlers[i].DeleteStart?
  }

  /** In every schedule, at most one jti passes. */
  ghost predicate AlwaysOne(w: World) {
    forall steps | Schedulable(w, steps) :: AtMostOne(Play(w, steps))
  }

  lemma SingleLoginSafe(w: World)
    requires Quiet(w) && NotStarted(w) && SingleLogin(w)
    ensures AlwaysOne(w)
  {
    var l: nat := if exists i :: 0 <= i < |w.handlers| && w.handlers[i].LoginStart?
                  then var i :| 0 <= i < |w.handlers| && w.handlers[i].LoginStart?; i else |w.handlers|;
    assert w.issued <= w.issued + {""};
    forall steps | Schedulable(w, steps)
      ensures AtMostOne(Play(w, steps))
    {
      OneLoginKeeps(w, w, l, steps);
      OneLoginPasses(w, Play(w, steps), l);
    }
  }

  /** Three different jtis that nobody has. */
  lemma FreshJtis(w: World) returns (x: string, y: string, z: string)
    ensures Fresh(w, x) && Fresh(w, y) && Fresh(w, z) && x != y && x != z && y != z && w.current !in {x, y, z}
  {
    var all := w.issued + w.revoked + {w.current};
    var n := LengthBound(all);
    x, y, z := Zeros(n + 1), Zeros(n + 2), Zeros(n + 3);
    assert |x| == n + 1 && |y| == n + 2 && |z| == n + 3;
    assert forall s :: s in w.issued || s in w.revoked || s == w.current ==> s in all;
  }

  lemma RaceUnsafe(w: World)
    requires Quiet(w) && NotStarted(w) && !SingleLogin(w)
    requires !(w.row && NoRevoke(w) && NoDelete(w))
    ensures !AlwaysOne(w)
  {
    var a: nat, b: nat :| a < b < |w.handlers| && w.handlers[a].LoginStart? && w.handlers[b].LoginStart?;
    var x, y, z := FreshJtis(w);
    var steps: Steps;
    if !w.row {
      steps := NoRowRaces(w, a, b, x, y);
    } else if !NoRevoke(w) {
      var r: nat :| r < |w.handlers| && w.handlers[r].RevokeStart?;
      steps := RevokeRaces(w, a, b, r, x, y, z);
    } else {
      var r: nat :| r < |w.handlers| && w.handlers[r].DeleteStart?;
      steps := DeleteRaces(w, a, b, r, x, y);
    }
    assert !AtMostOne(Play(w, steps));
  }

  /** Handlers that start together leave at most one valid session in every schedule if and only if at most
      one of them is a login, or the account is there and none of them revokes or deletes. */
  lemma InterleavingExact(w: World)
    requires Quiet(w) && NotStarted(w)
    ensures AlwaysOne(w) <==> (w.row && NoRevoke(w) && NoDelete(w)) || SingleLogin(w)
  {
    if SingleLogin(w) {
      SingleLoginSafe(w);
    } else if w.row && NoRevoke(w) && NoDelete(w) {
      forall steps | Schedulable(w, steps)
        ensures AtMostOne(Play(w, steps))
      {
        InterleavedLogins(w, steps);
      }
    } else {
      RaceUnsafe(w);
    }
  }
}
