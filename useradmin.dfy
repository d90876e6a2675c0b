/** The account-administration handlers: AddUser, UpdateUser and DeleteUser. */
module UserAdmin {
  import opened Php
  import opened Crypto
  import opened Http
  import opened Schema
  import opened Store
  import UserAuth

  /** AddUser: username, email and password are all required; the username is
      checked for duplicates before the email, each duplicate answered with
      409; otherwise one row is inserted and 200 answered with its id. */
  method AddUser(lib: Library, username: string, email: string, password: string, salt: nat)
    returns (resp: Response)
    requires lib.Valid()
    modifies lib
    ensures lib.Valid()
    ensures resp.status != 200 ==> lib.Snapshot() == old(lib.Snapshot())
    ensures Empty(username) || Empty(email) || Empty(password) ==>
      resp == Response(400, Message("Username, email, and password are required"))
    ensures !(Empty(username) || Empty(email) || Empty(password)) ==>
      var t := old(lib.Snapshot());
      if UsernameTaken(t.users, username) then
        resp == Response(409, Message("Username already exists"))
      else if EmailTaken(t.users, email) then
        resp == Response(409, Message("Email already exists"))
      else
        && resp == Response(200, SuccessId("user_id", Show(t.nextUserId)))
        && lib.Snapshot() == t.(users := t.users[t.nextUserId := UserAuth.NewUser(username, email, password, salt)],
                                nextUserId := t.nextUserId + 1)
    ensures UniqueEmails(old(lib.users)) ==> UniqueEmails(lib.users)
  {
    var digest := PasswordHash(password, salt);
    if Empty(username) || Empty(email) || Empty(password) {
      return Response(400, Message("Username, email, and password are required"));
    }
    if UsernameTaken(lib.users, username) {
      return Response(409, Message("Username already exists"));
    }
    if EmailTaken(lib.users, email) {
      return Response(409, Message("Email already exists"));
    }
    var id := lib.nextUserId;
    UserAuth.InsertUserKeepsValid(lib.Snapshot(), User(username, email, digest, 0, None));
    lib.users := lib.users[id := User(username, email, digest, 0, None)];
    lib.nextUserId := id + 1;
    resp := Response(200, SuccessId("user_id", Show(id)));
  }

  /** One `column = :value` entry of UpdateUser's `$fields` list. */
  datatype UserField = SetPassword(digest: Digest) | SetEmail(email: string)

  function ApplyUserField(u: User, f: UserField): User {
    match f
    case SetPassword(d) => u.(password := d)
    case SetEmail(e) => u.(email := e)
  }

  /** `UPDATE users SET <fields> WHERE user_id = :user_id`, the fields in list
      order. Only password and email can appear, so the username, the admin
      flag and the last login survive any list. */
  function ApplyUserFields(u: User, fields: seq<UserField>): (r: User)
    ensures r.username == u.username && r.isAdmin == u.isAdmin && r.lastLogin == u.lastLogin
  {
    if fields == [] then u
    else ApplyUserField(ApplyUserFields(u, fields[..|fields| - 1]), fields[|fields| - 1])
  }

  /** What UpdateUser does to the row: a non-empty `new_password` replaces the
      digest, a non-empty `email` replaces the email, nothing else changes. */
  function PatchUser(u: User, newPassword: string, email: string, salt: nat): User {
    u.(password := if Empty(newPassword) then u.password else PasswordHash(newPassword, salt),
       email := if Empty(email) then u.email else email)
  }

  /** The patch never touches a username, so the usernames stay unique and the
      invariant holds after any patch of an existing row. */
  lemma PatchUserKeepsValid(t: Tables, id: int, newPassword: string, email: string, salt: nat)
    requires ValidTables(t) && id in t.users
    ensures ValidTables(t.(users := t.users[id := PatchUser(t.users[id], newPassword, email, salt)]))
  {
    var users := t.users[id := PatchUser(t.users[id], newPassword, email, salt)];
    assert users.Keys == t.users.Keys;
    assert forall k :: k in users ==> users[k].username == t.users[k].username;
  }

  /** UpdateUser's two `if (!empty(...)) $fields[] = ...` steps: the list
      sets exactly the non-empty ones of the new password (hashed) and the
      email, so applying it is the patch, and it is empty exactly when both
      are. */
  method CollectUserFields(row: User, newPassword: string, email: string, salt: nat)
    returns (fields: seq<UserField>)
    ensures ApplyUserFields(row, fields) == PatchUser(row, newPassword, email, salt)
    ensures fields == [] <==> Empty(newPassword) && Empty(email)
  {
    fields := [];
    if !Empty(newPassword) {
      fields := fields + [SetPassword(PasswordHash(newPassword, salt))];
    }
    assert ApplyUserFields(row, fields) == row.(password := if Empty(newPassword) then row.password else PasswordHash(newPassword, salt));
    if !Empty(email) {
      assert (fields + [SetEmail(email)])[..|fields|] == fields;
      fields := fields + [SetEmail(email)];
    }
  }

  /** UpdateUser: the current password must verify; a new password equal to
      it is refused; then the non-empty ones of `new_password` and `email` are
      written, and with neither there is nothing to update. Every refusal
      leaves the tables as they were. */
  method UpdateUser(lib: Library, userId: int, password: string, newPassword: string, email: string, salt: nat)
    returns (resp: Response)
    requires lib.Valid()
    modifies lib
    ensures lib.Valid()
    ensures resp.status != 200 ==> lib.Snapshot() == old(lib.Snapshot())
    ensures userId == 0 || Empty(password) ==> resp == Response(400, Error("Missing User ID or password"))
    ensures userId != 0 && !Empty(password) ==>
      var t := old(lib.Snapshot());
      if userId !in t.users then
        resp == Response(404, Error("User not found"))
      else if !PasswordVerify(password, t.users[userId].password) then
        resp == Response(401, Error("Password is incorrect"))
      else if !Empty(newPassword) && newPassword == password then
        resp == Response(400, Error("New password cannot be the same as the old password"))
      else if Empty(newPassword) && Empty(email) then
        resp == Response(400, Message("No data to update"))
      else
        && resp == Response(200, Success)
        && lib.Snapshot() == t.(users := t.users[userId := PatchUser(t.users[userId], newPassword, email, salt)])
  {
    if userId == 0 || Empty(password) {
      return Response(400, Error("Missing User ID or password"));
    }
    if userId !in lib.users {
      return Response(404, Error("User not found"));
    }
    var row := lib.users[userId];
    if !PasswordVerify(password, row.password) {
      return Response(401, Error("Password is incorrect"));
    }
    if !Empty(newPassword) && newPassword == password {
      return Response(400, Error("New password cannot be the same as the old password"));
    }
    var fields := CollectUserFields(row, newPassword, email, salt);
    if fields == [] {
      return Response(400, Message("No data to update"));
    }
    var t := lib.Snapshot();
    PatchUserKeepsValid(t, userId, newPassword, email, salt);
    var after := t.(users := t.users[userId := ApplyUserFields(row, fields)]);
    lib.users := after.users;
    assert lib.Snapshot() == after;
    resp := Response(200, Success);
  }

  /** How DeleteUser names the account to delete. */
  datatype Selector = ById(id: int) | ByEmail(email: string) | ByUsername(username: string) | NoSelector

  /** PHP's `??`: the left operand unless it is null. */
  function Coalesce(left: Option<int>, right: Option<int>): Option<int> {
    if left.Some? then left else right
  }

  /** `$args['user_id_delete'] ?? $data['user_id_delete'] ?? null`, then the
      first non-empty of that id, `email` and `username`. A path argument that
      is present but empty hides the body's id. */
  function SelectTarget(pathTarget: Option<int>, bodyTarget: Option<int>, email: string, username: string): (s: Selector)
    ensures pathTarget.Some? && pathTarget.value != 0 ==> s == ById(pathTarget.value)
    ensures pathTarget.None? && bodyTarget.Some? && bodyTarget.value != 0 ==> s == ById(bodyTarget.value)
    ensures pathTarget.Some? && pathTarget.value == 0 ==> !s.ById?
    ensures s.ByEmail? ==> s.email == email && !Empty(email)
    ensures s.ByUsername? ==> s.username == username && !Empty(username) && Empty(email)
    ensures s == NoSelector <==> !s.ById? && Empty(email) && Empty(username)
  {
    var chosen := Coalesce(pathTarget, bodyTarget);
    if chosen.Some? && chosen.value != 0 then ById(chosen.value)
    else if !Empty(email) then ByEmail(email)
    else if !Empty(username) then ByUsername(username)
    else NoSelector
  }

  /** `target` is an id the selector can stand for: the id itself, or the id
      of a row that has the email or username. */
  predicate Resolves(users: map<int, User>, s: Selector, target: int) {
    match s
    case ById(id) => target == id
    case ByEmail(e) => target in users && users[target].email == e
    case ByUsername(n) => target in users && users[target].username == n
    case NoSelector => false
  }

  /** Removing a user that no history row names, together with its likes and
      favorites, keeps the invariant. */
  lemma DeleteUserKeepsValid(t: Tables, target: int)
    requires ValidTables(t) && !UserReferenced(t.history, target)
    ensures ValidTables(t.(users := t.users - {target},
                           likes := DeleteWhere(t.likes, UserIdColumn, target),
                           favorites := DeleteWhere(t.favorites, UserIdColumn, target)))
  {
    forall i | 0 <= i < |t.history| ensures t.history[i].userId in t.users - {target} {
      assert t.history[i].userId != target;
    }
  }

  /** DeleteUser: the acting account comes from the body `user_id` and must
      exist, have the given password and be an admin (404, 401, 403 in that
      order); then the target is chosen and deleted with its likes and
      favorites, `success` saying whether a users row went away; `target`
      is the id the DELETE statements were bound to. A lookup by
      email or username that finds nobody leaves an empty WHERE clause, and a
      target named by a history row trips its foreign key: both fail in
      storage, roll back, and are answered 401 by the token middleware. */
  method DeleteUser(lib: Library, actorId: int, password: string, pathTarget: Option<int>,
                    bodyTarget: Option<int>, email: string, username: string)
    returns (resp: Response, target: int)
    requires lib.Valid()
    modifies lib
    ensures lib.Valid()
    ensures resp.status != 200 ==> lib.Snapshot() == old(lib.Snapshot())
    ensures Empty(password) || actorId == 0 ==> resp == Response(400, Error("Password and User ID required"))
    ensures !(Empty(password) || actorId == 0) ==>
      var t, s := old(lib.Snapshot()), SelectTarget(pathTarget, bodyTarget, email, username);
      if actorId !in t.users then
        resp == Response(404, Error("User not found"))
      else if !PasswordVerify(password, t.users[actorId].password) then
        resp == Response(401, Error("Password is incorrect"))
      else if t.users[actorId].isAdmin != 1 then
        resp == Response(403, Error("❌No permission!"))
      else if s == NoSelector then
        resp == Response(400, Error("Invalid request"))
      else if !s.ById? && !(exists id :: Resolves(t.users, s, id)) then
        resp == Caught(EmptyWhereClause)
      else
        && Resolves(t.users, s, target)
        && (UserReferenced(t.history, target) ==> resp == Caught(ForeignKeyViolation))
        && (!UserReferenced(t.history, target) ==>
             && resp == Response(200, SuccessFlag(if target in t.users then 1 else 0))
             && lib.Snapshot() == t.(users := t.users - {target},
                                     likes := DeleteWhere(t.likes, UserIdColumn, target),
                                     favorites := DeleteWhere(t.favorites, UserIdColumn, target)))
  {
    target := 0;
    if Empty(password) || actorId == 0 {
      return Response(400, Error("Password and User ID required")), target;
    }
    if actorId !in lib.users {
      return Response(404, Error("User not found")), target;
    }
    var actor := lib.users[actorId];
    if !PasswordVerify(password, actor.password) {
      return Response(401, Error("Password is incorrect")), target;
    }
    if actor.isAdmin != 1 {
      return Response(403, Error("❌No permission!")), target;
    }
    var selector := SelectTarget(pathTarget, bodyTarget, email, username);
    match selector {
      case NoSelector =>
        return Response(400, Error("Invalid request")), target;
      case ById(id) =>
        target := id;
      case ByEmail(e) =>
        if !(exists id :: id in lib.users && lib.users[id].email == e) {
          assert forall id :: !Resolves(lib.users, selector, id);
          return Caught(EmptyWhereClause), target;
        }
        target :| target in lib.users && lib.users[target].email == e;
      case ByUsername(n) =>
        if !UsernameTaken(lib.users, n) {
          assert forall id :: !Resolves(lib.users, selector, id);
          return Caught(EmptyWhereClause), target;
        }
        target :| target in lib.users && lib.users[target].username == n;
    }
    assert Resolves(lib.users, selector, target);
    if UserReferenced(lib.history, target) {
      return Caught(ForeignKeyViolation), target;
    }
    var existed := target in lib.users;
    var t := lib.Snapshot();
    DeleteUserKeepsValid(t, target);
    var after := t.(users := t.users - {target},
                    likes := DeleteWhere(t.likes, UserIdColumn, target),
                    favorites := DeleteWhere(t.favorites, UserIdColumn, target));
    lib.likes, lib.favorites, lib.users := after.likes, after.favorites, after.users;
    assert lib.Snapshot() == after;
    resp := Response(200, SuccessFlag(if existed then 1 else 0));
  }
}
