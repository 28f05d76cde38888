/**
 The session state of the authentication service: the token_jti column of `users`, the
 tokens_revoked table, and the handlers of AuthServiceImpl.cpp that read and change them.
 */
module SessionSpec {
  import opened Decimal

  /** What AuthManager::decodeToken finds in a token. */
  datatype Token = Token(valid: bool, userId: string, role: string, tokenType: string, jti: string)

  function Uid(t: Token): Parsed {
    Parse(t.userId, INT_MIN, INT_MAX)
  }

  /** `users`: the token_jti of each row, "" for NULL. `issued` is every token handed out,
      `ids` every user id ever given. */
  datatype State = State(users: map<int, string>, revoked: set<string>, issued: set<Token>, ids: set<int>)

  const INITIAL := State(map[], {}, {}, {})

  // ---- the database calls ----

  /** getUserTokenJti: "" for no row and for NULL, which every caller treats alike. */
  function CurrentJti(s: State, uid: int): string {
    if uid in s.users then s.users[uid] else ""
  }

  function SetJti(s: State, uid: int, jti: string): State {
    if uid in s.users then s.(users := s.users[uid := jti]) else s
  }

  function RevokeJti(s: State, jti: string): State {
    if jti == "" then s else s.(revoked := s.revoked + {jti})
  }

  function DeleteRow(s: State, uid: int): State {
    var r := RevokeJti(s, CurrentJti(s, uid));
    r.(users := r.users - {uid})
  }

  // ---- the handlers ----

  /** ValidateToken's rule: a user without a current jti is no reason to refuse. */
  predicate Validates(s: State, t: Token) {
    && t.valid
    && (t.jti != "" ==>
          && t.jti !in s.revoked
          && (Uid(t).Number? ==> CurrentJti(s, Uid(t).value) in {"", t.jti}))
  }

  /** RefreshToken's rule on the same fields. */
  predicate Refreshable(s: State, t: Token) {
    && t.valid && Uid(t).Number? && t.jti != ""
    && t.jti !in s.revoked
    && CurrentJti(s, Uid(t).value) == t.jti
  }

  /** RevokeTokens and DeleteUser ask only what the token itself says. */
  predicate MayRevoke(t: Token, target: string) {
    t.valid && t.tokenType in {"access", ""} && target != "" && (t.role == "admin" || t.userId == target)
  }

  predicate MayDelete(t: Token, target: string) {
    t.valid && t.role == "admin" && target != "" && t.userId != target
  }

  /** A refresh token carries no role. */
  function Issue(s: State, uid: int, role: string, tokenType: string, jti: string): State {
    s.(issued := s.issued + {Token(true, ToText(uid), role, tokenType, jti)})
  }

  datatype Op =
    | Register(uid: int)
    | Login(uid: int, role: string, jti: string)
    | Refresh(token: Token, role: string)
    | Revoke(uid: int)
    | Delete(uid: int)

  /** A handler that runs to completion, from the point where its checks have passed. */
  function Apply(s: State, op: Op): State {
    match op
    case Register(uid) => s.(users := s.users[uid := ""], ids := s.ids + {uid})
    case Login(uid, role, jti) =>
      var t := SetJti(RevokeJti(s, CurrentJti(s, uid)), uid, jti);
      Issue(Issue(t, uid, role, "access", jti), uid, "", "refresh", jti)
    case Refresh(token, role) => if Refreshable(s, token) && token.tokenType == "refresh"
                                 then Issue(s, Uid(token).value, role, "access", token.jti) else s
    case Revoke(uid) => SetJti(RevokeJti(s, CurrentJti(s, uid)), uid, "")
    case Delete(uid) => DeleteRow(s, uid)
  }

  ghost predicate FreshJti(s: State, jti: string) {
    jti != "" && jti !in s.revoked && forall t :: t in s.issued ==> t.jti != jti
  }

  /** Ids are 32-bit serials that are not reused, jtis are fresh, and a login needs a row. */
  ghost predicate Allowed(s: State, op: Op) {
    match op
    case Register(uid) => uid !in s.ids && INT_MIN <= uid <= INT_MAX
    case Login(uid, _, jti) => uid in s.users && FreshJti(s, jti)
    case _ => true
  }

  ghost predicate Possible(s: State, ops: seq<Op>)
    decreases |ops|
  {
    ops != [] ==> Allowed(s, ops[0]) && Possible(Apply(s, ops[0]), ops[1..])
  }

  function Run(s: State, ops: seq<Op>): State
    decreases |ops|
  {
    if ops == [] then s else Run(Apply(s, ops[0]), ops[1..])
  }
}

module SessionProperties {
  import opened Decimal
  import opened SessionSpec

  /** A token this service issued to `uid`. */
  predicate IssuedTo(s: State, t: Token, uid: int) {
    t in s.issued && Uid(t) == Number(uid)
  }

  ghost predicate TokenOk(s: State, t: Token) {
    && t.valid && t.jti != "" && Uid(t).Number? && Uid(t).value in s.ids
    && (t.tokenType == "access" || (t.tokenType == "refresh" && t.role == ""))
    && (CurrentJti(s, Uid(t).value) == t.jti || t.jti in s.revoked)
  }

  ghost predicate Inv(s: State) {
    && s.users.Keys <= s.ids
    && (forall uid :: uid in s.ids ==> INT_MIN <= uid <= INT_MAX)
    && (forall t :: t in s.issued ==> TokenOk(s, t))
    && (forall t, u :: t in s.issued && u in s.issued && t.jti == u.jti ==> Uid(t) == Uid(u))
    && (forall uid :: uid in s.users && s.users[uid] != "" ==>
          s.users[uid] !in s.revoked && exists t :: IssuedTo(s, t, uid) && t.jti == s.users[uid])
  }

  lemma InitialInv()
    ensures Inv(INITIAL)
  {
  }

  /** Retiring a user's current jti, and perhaps the row, keeps every issued token accounted for. */
  lemma RetireInv(s: State, uid: int, r: State)
    requires Inv(s)
    requires r == SetJti(RevokeJti(s, CurrentJti(s, uid)), uid, "") || r == DeleteRow(s, uid)
    ensures Inv(r)
  {
    forall t | t in r.issued
      ensures TokenOk(r, t)
    {
      assert TokenOk(s, t);
    }
    forall u | u in r.users && r.users[u] != ""
      ensures r.users[u] !in r.revoked && exists t :: IssuedTo(r, t, u) && t.jti == r.users[u]
    {
      var t :| IssuedTo(s, t, u) && t.jti == s.users[u];
      assert IssuedTo(r, t, u);
      if CurrentJti(s, uid) != "" {
        var v :| IssuedTo(s, v, uid) && v.jti == CurrentJti(s, uid);
      }
    }
  }

  lemma RegisterInv(s: State, uid: int)
    requires Inv(s) && Allowed(s, Register(uid))
    ensures Inv(Apply(s, Register(uid)))
  {
    var r := Apply(s, Register(uid));
    forall t | t in r.issued
      ensures TokenOk(r, t)
    {
      assert TokenOk(s, t);
    }
    forall u | u in r.users && r.users[u] != ""
      ensures exists t :: IssuedTo(r, t, u) && t.jti == r.users[u]
    {
      var t :| IssuedTo(s, t, u) && t.jti == s.users[u];
      assert IssuedTo(r, t, u);
    }
  }

  lemma LoginTokens(s: State, uid: int, role: string, jti: string, r: State)
    requires Inv(s) && Allowed(s, Login(uid, role, jti)) && r == Apply(s, Login(uid, role, jti))
    ensures forall t :: t in r.issued ==> TokenOk(r, t)
    ensures forall t, u :: t in r.issued && u in r.issued && t.jti == u.jti ==> Uid(t) == Uid(u)
  {
    hide Parse;
    ParseToText(uid, INT_MIN, INT_MAX);
    forall t | t in r.issued
      ensures TokenOk(r, t)
    {
      if t in s.issued { assert TokenOk(s, t); }
    }
  }

  lemma LoginCurrent(s: State, uid: int, role: string, jti: string, r: State, u: int)
    requires Inv(s) && Allowed(s, Login(uid, role, jti)) && r == Apply(s, Login(uid, role, jti))
    requires u in r.users && r.users[u] != ""
    ensures r.users[u] !in r.revoked && exists t :: IssuedTo(r, t, u) && t.jti == r.users[u]
  {
    hide Parse;
    if u == uid {
      ParseToText(uid, INT_MIN, INT_MAX);
      var access := Token(true, ToText(uid), role, "access", jti);
      assert IssuedTo(r, access, uid);
    } else {
      var t :| IssuedTo(s, t, u) && t.jti == s.users[u];
      assert IssuedTo(r, t, u);
      if CurrentJti(s, uid) != "" {
        var v :| IssuedTo(s, v, uid) && v.jti == CurrentJti(s, uid);
      }
    }
  }

  lemma LoginInv(s: State, uid: int, role: string, jti: string)
    requires Inv(s) && Allowed(s, Login(uid, role, jti))
    ensures Inv(Apply(s, Login(uid, role, jti)))
  {
    hide Parse, TokenOk, IssuedTo;
    var r := Apply(s, Login(uid, role, jti));
    LoginTokens(s, uid, role, jti, r);
    forall u | u in r.users && r.users[u] != ""
      ensures r.users[u] !in r.revoked && exists t :: IssuedTo(r, t, u) && t.jti == r.users[u]
    {
      LoginCurrent(s, uid, role, jti, r, u);
    }
  }

  lemma RefreshTokens(s: State, token: Token, role: string, r: State)
    requires Inv(s) && r == Apply(s, Refresh(token, role))
    ensures forall t :: t in r.issued ==> TokenOk(r, t)
    ensures forall t, u :: t in r.issued && u in r.issued && t.jti == u.jti ==> Uid(t) == Uid(u)
  {
    hide Parse;
    if r != s {
      var uid := Uid(token).value;
      ParseToText(uid, INT_MIN, INT_MAX);
      var w :| IssuedTo(s, w, uid) && w.jti == s.users[uid];
      forall t | t in r.issued
        ensures TokenOk(r, t)
      {
        if t in s.issued { assert TokenOk(s, t); }
      }
    }
  }

  lemma RefreshInv(s: State, token: Token, role: string)
    requires Inv(s)
    ensures Inv(Apply(s, Refresh(token, role)))
  {
    hide Parse, TokenOk;
    var r := Apply(s, Refresh(token, role));
    RefreshTokens(s, token, role, r);
    forall u | u in r.users && r.users[u] != ""
      ensures exists t :: IssuedTo(r, t, u) && t.jti == r.users[u]
    {
      var t :| IssuedTo(s, t, u) && t.jti == s.users[u];
      assert IssuedTo(r, t, u);
    }
  }

  lemma StepInv(s: State, op: Op)
    requires Inv(s) && Allowed(s, op)
    ensures Inv(Apply(s, op))
  {
    match op
    case Register(uid) => RegisterInv(s, uid);
    case Login(uid, role, jti) => LoginInv(s, uid, role, jti);
    case Refresh(token, role) => RefreshInv(s, token, role);
    case Revoke(uid) => RetireInv(s, uid, Apply(s, op));
    case Delete(uid) => RetireInv(s, uid, Apply(s, op));
  }

  lemma {:induction false} RunInv(s: State, ops: seq<Op>)
    requires Inv(s) && Possible(s, ops)
    ensures Inv(Run(s, ops))
    decreases |ops|
  {
    if ops != [] {
      StepInv(s, ops[0]);
      RunInv(Apply(s, ops[0]), ops[1..]);
    }
  }

  /** In every reachable state the lenient and the strict rule agree on issued tokens, and all tokens
      they accept for one user carry the same jti. */
  lemma RulesAgree(ops: seq<Op>)
    requires Possible(INITIAL, ops)
    ensures var s := Run(INITIAL, ops);
            && (forall t :: t in s.issued ==> (Validates(s, t) <==> Refreshable(s, t)))
            && (forall t, u :: t in s.issued && u in s.issued && Uid(t) == Uid(u) && Validates(s, t) && Validates(s, u)
                  ==> t.jti == u.jti)
  {
    InitialInv();
    RunInv(INITIAL, ops);
    var s := Run(INITIAL, ops);
    forall t | t in s.issued
      ensures Validates(s, t) <==> Refreshable(s, t)
    {
      assert TokenOk(s, t);
    }
  }

  /** Which issued tokens validate after a handler, from which did before. */
  predicate ValidatesAfter(s: State, op: Op, t: Token) {
    match op
    case Login(uid, _, jti) => t.jti == jti || (Validates(s, t) && Uid(t) != Number(uid))
    case Revoke(uid) => Validates(s, t) && Uid(t) != Number(uid)
    case Delete(uid) => Validates(s, t) && Uid(t) != Number(uid)
    case Refresh(token, _) => Validates(s, t) || (t !in s.issued && t.jti == token.jti)
    case Register(_) => Validates(s, t)
  }

  lemma RetireEffect(s: State, uid: int, r: State, t: Token)
    requires Inv(s) && t in s.issued
    requires r == SetJti(RevokeJti(s, CurrentJti(s, uid)), uid, "") || r == DeleteRow(s, uid)
    ensures Validates(r, t) <==> Validates(s, t) && Uid(t) != Number(uid)
  {
    assert TokenOk(s, t);
    if Uid(t) != Number(uid) {
      RetiredIsOthers(s, uid, t);
    }
  }

  lemma LoginEffect(s: State, uid: int, role: string, jti: string, t: Token)
    requires Inv(s) && Allowed(s, Login(uid, role, jti)) && t in s.issued
    ensures Validates(Apply(s, Login(uid, role, jti)), t) <==> Validates(s, t) && Uid(t) != Number(uid)
  {
    assert TokenOk(s, t);
    if Uid(t) != Number(uid) {
      RetiredIsOthers(s, uid, t);
    }
  }

  lemma NewTokenEffect(s: State, op: Op, t: Token)
    requires Inv(s) && Allowed(s, op) && t in Apply(s, op).issued && t !in s.issued
    ensures Validates(Apply(s, op), t) && (op.Login? || op.Refresh?)
    ensures op.Login? ==> t.jti == op.jti
    ensures op.Refresh? ==> t.jti == op.token.jti
  {
    match op
    case Login(uid, _, _) => ParseToText(uid, INT_MIN, INT_MAX);
    case Refresh(token, _) => ParseToText(Uid(token).value, INT_MIN, INT_MAX);
    case _ =>
  }

  /** A login leaves its user exactly its own tokens, revoke and delete leave none, refresh adds to the
      current session, and no handler touches another user's tokens. */
  lemma HandlerEffect(s: State, op: Op, t: Token)
    requires Inv(s) && Allowed(s, op) && t in Apply(s, op).issued
    ensures Validates(Apply(s, op), t) <==> ValidatesAfter(s, op, t)
  {
    if t !in s.issued {
      NewTokenEffect(s, op, t);
    } else {
      match op
      case Login(uid, role, jti) => LoginEffect(s, uid, role, jti, t);
      case Revoke(uid) => RetireEffect(s, uid, Apply(s, op), t);
      case Delete(uid) => RetireEffect(s, uid, Apply(s, op), t);
      case Register(uid) => assert TokenOk(s, t);
      case Refresh(_, _) =>
    }
  }

  /** The jti a handler retires belongs to its own user only. */
  lemma RetiredIsOthers(s: State, uid: int, t: Token)
    requires Inv(s) && t in s.issued && Uid(t) != Number(uid)
    ensures CurrentJti(s, uid) == "" || CurrentJti(s, uid) != t.jti
  {
    if CurrentJti(s, uid) != "" {
      var v :| IssuedTo(s, v, uid) && v.jti == CurrentJti(s, uid);
    }
  }

  /** Once ValidateToken refuses an issued token, it refuses it forever. */
  lemma {:induction false} NeverAgain(s: State, ops: seq<Op>, t: Token)
    requires Inv(s) && Possible(s, ops) && t in s.issued && !Validates(s, t)
    ensures !Validates(Run(s, ops), t)
    decreases |ops|
  {
    if ops != [] {
      var r := Apply(s, ops[0]);
      StepInv(s, ops[0]);
      HandlerEffect(s, ops[0], t);
      NeverAgain(r, ops[1..], t);
    }
  }

  /** RevokeTokens and DeleteUser do not ask ValidateToken. Of the tokens that are refused there, exactly
      these keep their power: an administrator's access tokens over everyone (deleting: everyone else), and
      other access tokens over the sessions of their own user. Refresh tokens have none. */
  lemma RetiredPower(ops: seq<Op>, t: Token, target: string)
    requires Possible(INITIAL, ops) && t in Run(INITIAL, ops).issued && !Validates(Run(INITIAL, ops), t)
    ensures MayDelete(t, target) <==> t.tokenType == "access" && t.role == "admin" && target !in {"", t.userId}
    ensures MayRevoke(t, target) <==>
              t.tokenType == "access" && target != "" && (t.role == "admin" || target == t.userId)
  {
    InitialInv();
    RunInv(INITIAL, ops);
    assert TokenOk(Run(INITIAL, ops), t);
  }
}
