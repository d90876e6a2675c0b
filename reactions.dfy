/** The like and favorite handlers: AddLike, DeleteLike and AddFavorite. The
    acting user always comes from the token, never from the body. */
module Reactions {
  import opened Php
  import opened Crypto
  import opened Http
  import opened Schema
  import opened Store

  /** AddLike: `INSERT IGNORE` of (token user, book), so liking twice is
      liking once; every other pair and table stays. */
  method AddLike(lib: Library, bookId: int, jwt: Option<Claims>) returns (resp: Response)
    requires lib.Valid()
    modifies lib
    ensures lib.Valid()
    ensures resp.status != 200 ==> lib.Snapshot() == old(lib.Snapshot())
    ensures Anonymous(jwt) ==> resp == Unauthorized
    ensures !Anonymous(jwt) && bookId == 0 ==> resp == Response(400, Error("Missing required parameters"))
    ensures !Anonymous(jwt) && bookId != 0 ==>
      && resp == Response(200, Success)
      && lib.Snapshot() == old(lib.Snapshot()).(likes := InsertIgnore(old(lib.likes), Pair(jwt.value.userId, bookId)))
      && Pair(jwt.value.userId, bookId) in lib.likes
  {
    if Anonymous(jwt) {
      return Unauthorized;
    }
    var user := jwt.value.userId;
    if bookId == 0 {
      return Response(400, Error("Missing required parameters"));
    }
    lib.likes := InsertIgnore(lib.likes, Pair(user, bookId));
    resp := Response(200, Success);
  }

  /** DeleteLike: removes the (token user, book) pair if it is there and
      answers 200 either way; favorites and other likes stay. */
  method DeleteLike(lib: Library, bookId: int, jwt: Option<Claims>) returns (resp: Response)
    requires lib.Valid()
    modifies lib
    ensures lib.Valid()
    ensures resp.status != 200 ==> lib.Snapshot() == old(lib.Snapshot())
    ensures Anonymous(jwt) ==> resp == Unauthorized
    ensures !Anonymous(jwt) && bookId == 0 ==> resp == Response(400, Error("Missing Book ID"))
    ensures !Anonymous(jwt) && bookId != 0 ==>
      && resp == Response(200, Success)
      && lib.Snapshot() == old(lib.Snapshot()).(likes := DeletePair(old(lib.likes), Pair(jwt.value.userId, bookId)))
      && Pair(jwt.value.userId, bookId) !in lib.likes
  {
    if Anonymous(jwt) {
      return Unauthorized;
    }
    var user := jwt.value.userId;
    if bookId == 0 {
      return Response(400, Error("Missing Book ID"));
    }
    lib.likes := DeletePair(lib.likes, Pair(user, bookId));
    resp := Response(200, Success);
  }

  /** AddFavorite: `INSERT IGNORE` of (token user, book) into the favorites. */
  method AddFavorite(lib: Library, bookId: int, jwt: Option<Claims>) returns (resp: Response)
    requires lib.Valid()
    modifies lib
    ensures lib.Valid()
    ensures resp.status != 200 ==> lib.Snapshot() == old(lib.Snapshot())
    ensures Anonymous(jwt) ==> resp == Unauthorized
    ensures !Anonymous(jwt) && bookId == 0 ==> resp == Response(400, Error("Missing required parameters"))
    ensures !Anonymous(jwt) && bookId != 0 ==>
      && resp == Response(200, Success)
      && lib.Snapshot() == old(lib.Snapshot()).(favorites := InsertIgnore(old(lib.favorites), Pair(jwt.value.userId, bookId)))
      && Pair(jwt.value.userId, bookId) in lib.favorites
  {
    if Anonymous(jwt) {
      return Unauthorized;
    }
    var user := jwt.value.userId;
    if user == 0 || bookId == 0 {
      return Response(400, Error("Missing required parameters"));
    }
    lib.favorites := InsertIgnore(lib.favorites, Pair(user, bookId));
    resp := Response(200, Success);
  }

  /** Unliking a book the user had not liked before undoes the like exactly:
      the table is back to its rows in their order. */
  lemma {:induction false} UnlikeUndoesLike(s: seq<Pair>, p: Pair)
    requires p !in s
    ensures DeletePair(InsertIgnore(s, p), p) == s
  {
    if s == [] {
      assert InsertIgnore(s, p) == [p];
      assert DeletePair([p], p) == DeletePair([p][1..], p);
    } else {
      UnlikeUndoesLike(s[1..], p);
      assert (s + [p])[1..] == s[1..] + [p];
      assert s == [s[0]] + s[1..];
    }
  }
}
