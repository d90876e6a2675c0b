/** The older GetUserFavorites: the same guards and the same join, but the
    rows are sent as fetched, without the integer casts. */
module LegacyFavorites {
  import opened Php
  import opened Crypto
  import opened Http
  import opened Schema
  import Favorites

  /** The handler reads the `books` and `user_favorites` tables and changes
      nothing. */
  function GetUserFavorites(books: map<int, Book>, favorites: seq<Pair>, pathUserId: int, jwt: Option<Claims>)
    : (resp: Response)
    ensures Anonymous(jwt) ==> resp == Unauthorized
    ensures !Anonymous(jwt) && pathUserId == 0 ==> resp == Response(400, Error("User ID is required"))
    ensures !Anonymous(jwt) && pathUserId != 0 ==>
      var ids := Favorites.FavoriteBookIds(books, favorites, pathUserId);
      && resp.status == 200 && resp.body.Rows?
      && |resp.body.rows| == |ids|
      && forall i :: 0 <= i < |ids| ==> resp.body.rows[i] == BookRow(ids[i], books[ids[i]])
  {
    if Anonymous(jwt) then Unauthorized
    else if pathUserId == 0 then Response(400, Error("User ID is required"))
    else Response(200, Rows(Favorites.FetchedFavorites(books, favorites, pathUserId)))
  }

  /** The two variants answer the same requests with the same rows, up to the
      casts: casting `book_id` and `status` in an older row gives the newer
      row. */
  lemma CastsBridgeVariants(books: map<int, Book>, favorites: seq<Pair>, pathUserId: int, jwt: Option<Claims>)
    requires !Anonymous(jwt) && pathUserId != 0
    ensures var ids := Favorites.FavoriteBookIds(books, favorites, pathUserId);
      var rows := GetUserFavorites(books, favorites, pathUserId, jwt).body.rows;
      forall i :: 0 <= i < |ids| ==>
        CastRow(rows[i], "book_id", "status") == Favorites.FavoriteRow(ids[i], books[ids[i]])
  {
    var ids := Favorites.FavoriteBookIds(books, favorites, pathUserId);
    forall i | 0 <= i < |ids| {
      Favorites.FavoriteRowCast(ids[i], books[ids[i]]);
    }
  }
}
