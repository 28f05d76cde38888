/**
 AuthServiceImpl's session handlers over the database calls they make, each running to completion
 (auth_service/src/service/AuthServiceImpl.cpp, auth_service/src/db/Database.cpp).
 */
module AuthServiceClass {
  import opened Common
  import opened Decimal
  import opened SessionSpec

  datatype Status = OK | NOT_FOUND | UNAUTHENTICATED | INVALID_ARGUMENT | PERMISSION_DENIED

  /** The two tables the handlers use; every call succeeds. */
  class Database {
    var tokenJti: map<int, string>
    var revoked: set<string>

    constructor ()
      ensures tokenJti == map[] && revoked == {}
    {
      tokenJti, revoked := map[], {};
    }

    method GetUserTokenJti(uid: int) returns (r: Option<string>)
      ensures r == if uid in tokenJti && tokenJti[uid] != "" then Some(tokenJti[uid]) else None
    {
      if uid !in tokenJti || tokenJti[uid] == "" {
        return None;
      }
      return Some(tokenJti[uid]);
    }

    method SetUserTokenJti(uid: int, jti: string)
      modifies this`tokenJti
      ensures tokenJti == if uid in old(tokenJti) then old(tokenJti)[uid := jti] else old(tokenJti)
    {
      if uid in tokenJti {
        tokenJti := tokenJti[uid := jti];
      }
    }

    method IsTokenRevoked(jti: string) returns (r: bool)
      ensures r == (jti != "" && jti in revoked)
    {
      r := jti != "" && jti in revoked;
    }

    method RevokeTokenJti(jti: string)
      modifies this`revoked
      ensures revoked == if jti == "" then old(revoked) else old(revoked) + {jti}
    {
      if jti != "" {
        revoked := revoked + {jti};
      }
    }

    method DeleteUserById(uid: int) returns (found: bool)
      modifies this
      ensures found == (uid in old(tokenJti))
      ensures tokenJti == old(tokenJti) - {uid}
      ensures revoked == if uid in old(tokenJti) && old(tokenJti)[uid] != "" then old(revoked) + {old(tokenJti)[uid]}
                         else old(revoked)
    {
      var jti := GetUserTokenJti(uid);
      if jti.Some? {
        revoked := revoked + {jti.value};
      }
      found := uid in tokenJti;
      tokenJti := tokenJti - {uid};
    }
  }

  class AuthService {
    const db: Database
    ghost var issued: set<Token>
    ghost var ids: set<int>

    constructor (db: Database)
      ensures this.db == db && issued == {} && ids == {}
    {
      this.db := db;
      issued, ids := {}, {};
    }

    ghost function Abs(): State
      reads this, db
    {
      State(db.tokenJti, db.revoked, issued, ids)
    }

    /** `user` and `passwordOk` are the account lookup and the password check; `jti` is random_hex(16). */
    method Login(user: Option<int>, passwordOk: bool, role: string, jti: string)
      returns (status: Status, access: Token, refresh: Token)
      requires user.Some? ==> user.value in db.tokenJti
      requires jti != ""
      modifies this, db
      ensures status == if user.None? then NOT_FOUND else if !passwordOk then UNAUTHENTICATED else OK
      ensures status != OK ==> Abs() == old(Abs())
      ensures status == OK ==> Abs() == Apply(old(Abs()), SessionSpec.Login(user.value, role, jti))
      ensures status == OK ==> {access, refresh} <= Abs().issued && Validates(Abs(), access) == (jti !in db.revoked)
      ensures status == OK ==> access == Token(true, ToText(user.value), role, "access", jti)
      ensures status == OK ==> refresh == Token(true, ToText(user.value), "", "refresh", jti)
    {
      access := Token(false, "", "", "", "");
      refresh := access;
      if user.None? {
        return NOT_FOUND, access, refresh;
      }
      if !passwordOk {
        return UNAUTHENTICATED, access, refresh;
      }
      var uid := user.value;
      var previous := db.GetUserTokenJti(uid);
      if previous.Some? {
        db.RevokeTokenJti(previous.value);
      }
      db.SetUserTokenJti(uid, jti);
      access := Token(true, ToText(uid), role, "access", jti);
      refresh := Token(true, ToText(uid), "", "refresh", jti);
      issued := issued + {access} + {refresh};
      ParseToText(uid, INT_MIN, INT_MAX);
      return OK, access, refresh;
    }

    method ValidateToken(info: Token) returns (valid: bool)
      ensures valid == Validates(Abs(), info)
      ensures valid <==>
                && info.valid
                && (info.jti == "" ||
                    (&& info.jti !in db.revoked
                     && forall uid :: uid in db.tokenJti && Uid(info) == Number(uid) ==> db.tokenJti[uid] in {"", info.jti}))
    {
      valid := info.valid;
      if valid && info.jti != "" {
        var revoked := db.IsTokenRevoked(info.jti);
        if revoked {
          valid := false;
        } else {
          var uid := Parse(info.userId, INT_MIN, INT_MAX);
          if uid.Number? {
            var current := db.GetUserTokenJti(uid.value);
            if current.Some? && current.value != info.jti {
              valid := false;
            }
          }
        }
      }
    }

    /** `role` is the role stored for the user. */
    method RefreshToken(token: Option<Token>, role: string) returns (status: Status, access: Token)
      modifies this
      ensures status == OK <==> token.Some? && Refreshable(old(Abs()), token.value) && token.value.tokenType == "refresh"
      ensures status != OK ==> status == if token.None? then INVALID_ARGUMENT else UNAUTHENTICATED
      ensures status == OK ==>
                && access in Abs().issued && access.tokenType == "access" && access.role == role
                && access.jti == token.value.jti && Uid(access) == Uid(token.value) && Validates(Abs(), access)
      ensures Abs() == if status == OK then Apply(old(Abs()), Refresh(token.value, role)) else old(Abs())
    {
      access := Token(false, "", "", "", "");
      if token.None? {
        return INVALID_ARGUMENT, access;
      }
      var info := token.value;
      if !info.valid || info.tokenType != "refresh" {
        return UNAUTHENTICATED, access;
      }
      var uid := Parse(info.userId, INT_MIN, INT_MAX);
      if uid.Invalid? || info.jti == "" {
        return UNAUTHENTICATED, access;
      }
      var revoked := db.IsTokenRevoked(info.jti);
      if revoked {
        return UNAUTHENTICATED, access;
      }
      var current := db.GetUserTokenJti(uid.value);
      if current.None? || current.value != info.jti {
        return UNAUTHENTICATED, access;
      }
      ParseToText(uid.value, INT_MIN, INT_MAX);
      access := Token(true, ToText(uid.value), role, "access", info.jti);
      issued := issued + {access};
      return OK, access;
    }

    /** A caller may revoke its own tokens, an admin anyone's. */
    method RevokeTokens(bearer: Option<Token>, target: string) returns (status: Status)
      modifies db
      ensures status == OK <==>
                bearer.Some? && MayRevoke(bearer.value, target) && Parse(target, INT_MIN, INT_MAX).Number?
      ensures status ==
                if bearer.None? || !bearer.value.valid || bearer.value.tokenType !in {"access", ""} then PERMISSION_DENIED
                else if target == "" then INVALID_ARGUMENT
                else if bearer.value.role != "admin" && bearer.value.userId != target then PERMISSION_DENIED
                else if Parse(target, INT_MIN, INT_MAX).Invalid? then INVALID_ARGUMENT
                else OK
      ensures Abs() == if status == OK then Apply(old(Abs()), Revoke(Parse(target, INT_MIN, INT_MAX).value)) else old(Abs())
    {
      if bearer.None? || !bearer.value.valid {
        return PERMISSION_DENIED;
      }
      var caller := bearer.value;
      if caller.tokenType != "access" && caller.tokenType != "" {
        return PERMISSION_DENIED;
      }
      if target == "" {
        return INVALID_ARGUMENT;
      }
      if caller.role != "admin" && caller.userId != target {
        return PERMISSION_DENIED;
      }
      var uid := Parse(target, INT_MIN, INT_MAX);
      if uid.Invalid? {
        return INVALID_ARGUMENT;
      }
      var current := db.GetUserTokenJti(uid.value);
      if current.Some? {
        db.RevokeTokenJti(current.value);
      }
      db.SetUserTokenJti(uid.value, "");
      return OK;
    }

    method DeleteUser(admin: Option<Token>, target: string) returns (status: Status)
      modifies db
      ensures status == OK <==>
                && admin.Some? && MayDelete(admin.value, target)
                && Parse(target, INT_MIN, INT_MAX).Number? && Parse(target, INT_MIN, INT_MAX).value in old(db.tokenJti)
      ensures status ==
                if admin.None? || !admin.value.valid || admin.value.role != "admin" then PERMISSION_DENIED
                else if target == "" || admin.value.userId == target then INVALID_ARGUMENT
                else if Parse(target, INT_MIN, INT_MAX).Invalid? then INVALID_ARGUMENT
                else if Parse(target, INT_MIN, INT_MAX).value !in old(db.tokenJti) then NOT_FOUND
                else OK
      ensures Abs() == if status == OK then Apply(old(Abs()), Delete(Parse(target, INT_MIN, INT_MAX).value)) else old(Abs())
    {
      if admin.None? || !admin.value.valid || admin.value.role != "admin" {
        return PERMISSION_DENIED;
      }
      if target == "" || admin.value.userId == target {
        return INVALID_ARGUMENT;
      }
      var uid := Parse(target, INT_MIN, INT_MAX);
      if uid.Invalid? {
        return INVALID_ARGUMENT;
      }
      var found := db.DeleteUserById(uid.value);
      return if found then OK else NOT_FOUND;
    }
  }
}
