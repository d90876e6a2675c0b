/** GetUserFavorites: the books a user has favorited, with `book_id` and
    `status` cast to integers. The queried user is the path argument, so any
    signed-in caller may read any user's favorites. */
module Favorites {
  import opened Php
  import opened Crypto
  import opened Http
  import opened Schema
  import opened Store

  /** `books b JOIN user_favorites uf ON b.book_id = uf.book_id WHERE
      uf.user_id = :user_id`: the user's favorited book ids whose book still
      exists, in the order of the favorites table. */
  function FavoriteBookIds(books: map<int, Book>, favorites: seq<Pair>, user: int): (ids: seq<int>)
    ensures forall id :: id in ids <==> id in books && Pair(user, id) in favorites
    ensures |ids| <= |favorites|
    ensures NoDuplicates(favorites) ==> forall i, j :: 0 <= i < j < |ids| ==> ids[i] != ids[j]
  {
    if favorites == [] then []
    else
      var rest := FavoriteBookIds(books, favorites[1..], user);
      var p := favorites[0];
      NoDuplicatesTail(favorites);
      if p.userId == user && p.bookId in books then [p.bookId] + rest else rest
  }

  /** A joined row as the handler sends it: `book_id` and `status` as JSON
      integers, every other `books` column as fetched. */
  function FavoriteRow(id: int, b: Book): Row {
    BookRow(id, b)["book_id" := JInt(id)]["status" := JInt(b.status)]
  }

  /** The two `intval` casts give back the stored book id and status and
      leave the other columns as fetched. */
  lemma FavoriteRowCast(id: int, b: Book)
    ensures CastRow(BookRow(id, b), "book_id", "status") == FavoriteRow(id, b)
  {
    var row := BookRow(id, b);
    CastFetchedInts(row, "book_id", id, "status", b.status);
  }

  /** The rows of the join, as PDO fetches them. */
  function FetchedFavorites(books: map<int, Book>, favorites: seq<Pair>, user: int): (rows: seq<Row>)
    ensures var ids := FavoriteBookIds(books, favorites, user);
      |rows| == |ids| && forall i :: 0 <= i < |ids| ==> rows[i] == BookRow(ids[i], books[ids[i]])
  {
    var ids := FavoriteBookIds(books, favorites, user);
    seq(|ids|, i requires 0 <= i < |ids| => BookRow(ids[i], books[ids[i]]))
  }

  /** GetUserFavorites: 401 without a signed-in caller, 400 without a path
      user id, otherwise one cast row per favorited existing book of the path
      user. No table changes. */
  method GetUserFavorites(lib: Library, pathUserId: int, jwt: Option<Claims>) returns (resp: Response)
    ensures Anonymous(jwt) ==> resp == Unauthorized
    ensures !Anonymous(jwt) && pathUserId == 0 ==> resp == Response(400, Error("User ID is required"))
    ensures !Anonymous(jwt) && pathUserId != 0 ==>
      var ids := FavoriteBookIds(lib.books, lib.favorites, pathUserId);
      && resp.status == 200 && resp.body.Rows?
      && |resp.body.rows| == |ids|
      && forall i :: 0 <= i < |ids| ==> resp.body.rows[i] == FavoriteRow(ids[i], lib.books[ids[i]])
  {
    if Anonymous(jwt) {
      return Unauthorized;
    }
    if pathUserId == 0 {
      return Response(400, Error("User ID is required"));
    }
    var ids := FavoriteBookIds(lib.books, lib.favorites, pathUserId);
    var fetched := FetchedFavorites(lib.books, lib.favorites, pathUserId);
    var rows := CastColumns(fetched, "book_id", "status");
    forall i | 0 <= i < |ids| ensures rows[i] == FavoriteRow(ids[i], lib.books[ids[i]]) {
      FavoriteRowCast(ids[i], lib.books[ids[i]]);
    }
    resp := Response(200, Rows(rows));
  }
}
