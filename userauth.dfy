/** UserLogin, UserRegistration and UserLogout. */
module UserAuth {
  import opened Php
  import opened Crypto
  import opened Http
  import opened Schema
  import opened Store
  import JwtGate

  /** Tokens expire one hour after login. */
  const TokenLifetime := 3600

  /** The claims UserLogin signs: the user's row as it was before this login
      (so `last_login` is the previous login), expiring an hour from now. */
  function LoginClaims(id: int, u: User, now: Clock): Claims {
    Claims(now.epoch + TokenLifetime, id, u.username, u.email, u.isAdmin, u.lastLogin)
  }

  /** The user `username` exists and `password` verifies against its digest. */
  predicate CredentialsMatch(users: map<int, User>, username: string, password: string) {
    exists id :: id in users && users[id].username == username && PasswordVerify(password, users[id].password)
  }

  /** The outcome of a successful login as user `id`. */
  predicate LoggedIn(before: Tables, after: Tables, id: int, username: string, resp: Response,
                     codec: JwtCodec, key: string, now: Clock)
  {
    && id in before.users && before.users[id].username == username
    && var claims := LoginClaims(id, before.users[id], now);
    && resp == Response(200, LoginResult(claims, codec.encode(claims, key)))
    && after == before.(users := before.users[id := before.users[id].(lastLogin := Some(now.timestamp))])
  }

  /** UserLogin: succeeds exactly when the credentials match; it then stamps
      `last_login` on that user alone and answers the claims plus their
      signed token. Any other outcome changes nothing. */
  method UserLogin(lib: Library, username: string, password: string, codec: JwtCodec, key: string, now: Clock)
    returns (resp: Response)
    requires lib.Valid()
    modifies lib
    ensures lib.Valid()
    ensures resp.status == 200 <==> CredentialsMatch(old(lib.users), username, password)
    ensures resp.status != 200 ==>
      resp == Response(401, Error("Invalid username or password")) && lib.Snapshot() == old(lib.Snapshot())
    ensures resp.status == 200 ==>
      exists id :: LoggedIn(old(lib.Snapshot()), lib.Snapshot(), id, username, resp, codec, key, now)
  {
    if UsernameTaken(lib.users, username) {
      var id :| id in lib.users && lib.users[id].username == username;
      var u := lib.users[id];
      if PasswordVerify(password, u.password) {
        var claims := LoginClaims(id, u, now);
        lib.users := lib.users[id := u.(lastLogin := Some(now.timestamp))];
        assert lib.users.Keys == old(lib.users).Keys;
        resp := Response(200, LoginResult(claims, codec.encode(claims, key)));
        assert LoggedIn(old(lib.Snapshot()), lib.Snapshot(), id, username, resp, codec, key, now);
        return;
      }
    }
    return Response(401, Error("Invalid username or password"));
  }

  /** The token a login hands out opens the gate for the next hour, unless it
      is revoked, and the handlers then see a signed-in user. */
  lemma LoginTokenAuthorizes(t: Tables, id: int, now: Clock, later: int, codec: JwtCodec, key: string)
    requires ValidTables(t) && id in t.users && Hs256(codec)
    requires now.epoch <= later < now.epoch + TokenLifetime
    requires !JwtGate.Revoked(t.blacklist, codec.encode(LoginClaims(id, t.users[id], now), key))
    ensures var claims := LoginClaims(id, t.users[id], now);
      && JwtGate.Gate(JwtGate.Bearer + codec.encode(claims, key), t.blacklist, codec, key, later) == JwtGate.Admit(claims)
      && !Anonymous(Some(claims))
  {
    JwtGate.IssuedTokenAdmitted(codec, LoginClaims(id, t.users[id], now), key, later, t.blacklist);
  }

  /** The row both registration handlers insert: a hashed password, not an
      admin, never logged in. */
  function NewUser(username: string, email: string, password: string, salt: nat): (u: User)
    ensures PasswordVerify(password, u.password) && u.isAdmin == 0 && u.lastLogin == None
  {
    User(username, email, PasswordHash(password, salt), 0, None)
  }

  /** Inserting a user under the next AUTO_INCREMENT id with a fresh username
      keeps the invariant, and keeps emails unique when the email is fresh. */
  lemma InsertUserKeepsValid(t: Tables, u: User)
    requires ValidTables(t) && !UsernameTaken(t.users, u.username)
    ensures ValidTables(t.(users := t.users[t.nextUserId := u], nextUserId := t.nextUserId + 1))
    ensures UniqueEmails(t.users) && !EmailTaken(t.users, u.email) ==>
      UniqueEmails(t.users[t.nextUserId := u])
  {
    assert t.nextUserId !in t.users;
  }

  /** UserRegistration: the email is checked before the username, each
      duplicate is answered with 500 and nothing is inserted; otherwise one
      row is inserted and its id answered with 201. Empty fields are not
      refused. */
  method UserRegistration(lib: Library, email: string, username: string, password: string, salt: nat)
    returns (resp: Response)
    requires lib.Valid()
    modifies lib
    ensures lib.Valid()
    ensures resp.status != 201 ==> lib.Snapshot() == old(lib.Snapshot())
    ensures EmailTaken(old(lib.users), email) ==> resp == Response(500, Message("Email already exists"))
    ensures !EmailTaken(old(lib.users), email) && UsernameTaken(old(lib.users), username) ==>
      resp == Response(500, Message("Username already exists"))
    ensures !EmailTaken(old(lib.users), email) && !UsernameTaken(old(lib.users), username) ==>
      var t := old(lib.Snapshot());
      && resp == Response(201, InsertId(Show(t.nextUserId)))
      && lib.Snapshot() == t.(users := t.users[t.nextUserId := NewUser(username, email, password, salt)],
                              nextUserId := t.nextUserId + 1)
    ensures UniqueEmails(old(lib.users)) ==> UniqueEmails(lib.users)
  {
    var digest := PasswordHash(password, salt);
    if EmailTaken(lib.users, email) {
      return Response(500, Message("Email already exists"));
    }
    if UsernameTaken(lib.users, username) {
      return Response(500, Message("Username already exists"));
    }
    var id := lib.nextUserId;
    InsertUserKeepsValid(lib.Snapshot(), User(username, email, digest, 0, None));
    lib.users := lib.users[id := User(username, email, digest, 0, None)];
    lib.nextUserId := id + 1;
    resp := Response(201, InsertId(Show(id)));
  }

  /** UserLogout: a signed-in caller's token (the header without "Bearer ")
      is appended to the revocation list with its `exp`, duplicates allowed.
      The insert runs outside a transaction and commits on its own; the
      `commit()` that follows throws, and the token middleware answers that
      exception with 401. A token wider than its column, or an `exp` outside
      the signed 32-bit `expired_at` column, is refused by the insert (strict
      mode, the token checked first), so nothing is revoked. */
  method UserLogout(lib: Library, header: string, jwt: Option<Claims>, now: Clock)
    returns (resp: Response)
    requires lib.Valid()
    modifies lib
    ensures lib.Valid()
    ensures Anonymous(jwt) ==> resp == Unauthorized && lib.Snapshot() == old(lib.Snapshot())
    ensures !Anonymous(jwt) && |JwtGate.BearerToken(header)| > TokenWidth ==>
      resp == Caught(DataTooLong) && lib.Snapshot() == old(lib.Snapshot())
    ensures !Anonymous(jwt) && |JwtGate.BearerToken(header)| <= TokenWidth && !FitsInt32(jwt.value.exp) ==>
      resp == Caught(OutOfRange) && lib.Snapshot() == old(lib.Snapshot())
    ensures !Anonymous(jwt) && |JwtGate.BearerToken(header)| <= TokenWidth && FitsInt32(jwt.value.exp) ==>
      && resp == Caught(NoActiveTransaction)
      && lib.Snapshot() == old(lib.Snapshot()).(blacklist := old(lib.blacklist)
           + [RevokedToken(JwtGate.BearerToken(header), jwt.value.exp, now.timestamp)])
  {
    var token := JwtGate.BearerToken(header);
    if Anonymous(jwt) {
      return Unauthorized;
    }
    if |token| > TokenWidth {
      return Caught(DataTooLong);
    }
    if !FitsInt32(jwt.value.exp) {
      return Caught(OutOfRange);
    }
    lib.blacklist := lib.blacklist + [RevokedToken(token, jwt.value.exp, now.timestamp)];
    resp := Caught(NoActiveTransaction);
  }

  /** UserLogout as its success branch intends it: the same revocation,
      answered with 200 "Logged out successfully" (the insert runs outside a
      transaction, so there is nothing to commit). The insert refuses the
      same values as in UserLogout. */
  method UserLogoutIntended(lib: Library, header: string, jwt: Option<Claims>, now: Clock)
    returns (resp: Response)
    requires lib.Valid()
    modifies lib
    ensures lib.Valid()
    ensures Anonymous(jwt) ==> resp == Unauthorized && lib.Snapshot() == old(lib.Snapshot())
    ensures !Anonymous(jwt) && |JwtGate.BearerToken(header)| > TokenWidth ==>
      resp == Caught(DataTooLong) && lib.Snapshot() == old(lib.Snapshot())
    ensures !Anonymous(jwt) && |JwtGate.BearerToken(header)| <= TokenWidth && !FitsInt32(jwt.value.exp) ==>
      resp == Caught(OutOfRange) && lib.Snapshot() == old(lib.Snapshot())
    ensures !Anonymous(jwt) && |JwtGate.BearerToken(header)| <= TokenWidth && FitsInt32(jwt.value.exp) ==>
      && resp == Response(200, SuccessMessage("Logged out successfully"))
      && lib.Snapshot() == old(lib.Snapshot()).(blacklist := old(lib.blacklist)
           + [RevokedToken(JwtGate.BearerToken(header), jwt.value.exp, now.timestamp)])
  {
    var token := JwtGate.BearerToken(header);
    if Anonymous(jwt) {
      return Unauthorized;
    }
    if |token| > TokenWidth {
      return Caught(DataTooLong);
    }
    if !FitsInt32(jwt.value.exp) {
      return Caught(OutOfRange);
    }
    lib.blacklist := lib.blacklist + [RevokedToken(token, jwt.value.exp, now.timestamp)];
    resp := Response(200, SuccessMessage("Logged out successfully"));
  }

  /** After a logout that stored the token, the gate refuses the very header
      that was used, however valid its signature still is. */
  lemma LogoutRevokesHeader(header: string, blacklist: seq<RevokedToken>, exp: int, at: string,
                            codec: JwtCodec, key: string, now: int)
    requires !Empty(header)
    ensures var revoked := blacklist + [RevokedToken(JwtGate.BearerToken(header), exp, at)];
      JwtGate.Gate(header, revoked, codec, key, now) == JwtGate.Reject(Response(401, Error("Token is expired")))
  {
    var revoked := blacklist + [RevokedToken(JwtGate.BearerToken(header), exp, at)];
    assert revoked[|blacklist|].token == JwtGate.BearerToken(header);
  }

  /** A token wider than the revocation column is never revoked: the gate
      decides on it as if the revocation list were empty, so after any
      logout it stays usable until it expires. */
  lemma WideTokenNeverRevoked(t: Tables, header: string, codec: JwtCodec, key: string, now: int)
    requires ValidTables(t) && |JwtGate.BearerToken(header)| > TokenWidth
    ensures !JwtGate.Revoked(t.blacklist, JwtGate.BearerToken(header))
    ensures JwtGate.Gate(header, t.blacklist, codec, key, now) == JwtGate.Gate(header, [], codec, key, now)
  {
    var token := JwtGate.BearerToken(header);
    forall i | 0 <= i < |t.blacklist| ensures t.blacklist[i].token != token {
      assert |t.blacklist[i].token| <= TokenWidth;
    }
  }
}
