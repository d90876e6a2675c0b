/** The database the handlers share: one field per table, updated in place
    by the handlers, and the invariant every handler keeps. */
module Store {
  import opened Php
  import opened Crypto
  import opened Schema
  import opened Lending

  /** The contents of every table plus the three AUTO_INCREMENT counters. */
  datatype Tables = Tables(
    users: map<int, User>,
    books: map<int, Book>,
    history: seq<BorrowRecord>,
    likes: seq<Pair>,
    favorites: seq<Pair>,
    blacklist: seq<RevokedToken>,
    nextUserId: int,
    nextBookId: int,
    nextRecordId: int)

  /** No two users share a username (the registration handlers check it and
      no handler changes a username). */
  predicate UniqueUsernames(users: map<int, User>) {
    forall a, b :: a in users && b in users && users[a].username == users[b].username ==> a == b
  }

  /** No two users share an email (the registration handlers check it, but
      UpdateUser does not, so this is not part of the invariant). */
  predicate UniqueEmails(users: map<int, User>) {
    forall a, b :: a in users && b in users && users[a].email == users[b].email ==> a == b
  }

  predicate UsernameTaken(users: map<int, User>, name: string) {
    exists id :: id in users && users[id].username == name
  }

  predicate EmailTaken(users: map<int, User>, email: string) {
    exists id :: id in users && users[id].email == email
  }

  /** Some `borrowing_history` row names the user; its foreign key then
      refuses `DELETE FROM users`. */
  predicate UserReferenced(h: seq<BorrowRecord>, id: int) {
    exists i :: 0 <= i < |h| && h[i].userId == id
  }

  /** Some `borrowing_history` row names the book; its foreign key then
      refuses `DELETE FROM books`. */
  predicate BookReferenced(h: seq<BorrowRecord>, id: int) {
    exists i :: 0 <= i < |h| && h[i].bookId == id
  }

  /** The invariant: keys below their AUTO_INCREMENT counters, the history's
      foreign keys resolve, usernames are unique, the relation tables are
      sets, every book's status agrees with its open records, and every revoked
      token and its expiry fit their columns. */
  predicate ValidTables(t: Tables) {
    && 0 < t.nextUserId && 0 < t.nextBookId && 0 < t.nextRecordId
    && (forall id :: id in t.users ==> 0 < id < t.nextUserId)
    && (forall id :: id in t.books ==> 0 < id < t.nextBookId)
    && (forall i :: 0 <= i < |t.history| ==>
          0 < t.history[i].id < t.nextRecordId
          && t.history[i].userId in t.users
          && t.history[i].bookId in t.books)
    && UniqueUsernames(t.users)
    && NoDuplicates(t.likes)
    && NoDuplicates(t.favorites)
    && Consistent(t.books, t.history)
    && (forall i :: 0 <= i < |t.blacklist| ==>
          |t.blacklist[i].token| <= TokenWidth && FitsInt32(t.blacklist[i].expiredAt))
  }

  class Library {
    var users: map<int, User>
    var books: map<int, Book>
    var history: seq<BorrowRecord>
    var likes: seq<Pair>
    var favorites: seq<Pair>
    var blacklist: seq<RevokedToken>
    var nextUserId: int
    var nextBookId: int
    var nextRecordId: int

    function Snapshot(): Tables
      reads this
    {
      Tables(users, books, history, likes, favorites, blacklist, nextUserId, nextBookId, nextRecordId)
    }

    ghost predicate Valid()
      reads this
    {
      ValidTables(Snapshot())
    }

    /** A freshly created schema: every table empty, every counter at 1. */
    constructor ()
      ensures Valid()
      ensures Snapshot() == Tables(map[], map[], [], [], [], [], 1, 1, 1)
    {
      users, books, history := map[], map[], [];
      likes, favorites, blacklist := [], [], [];
      nextUserId, nextBookId, nextRecordId := 1, 1, 1;
    }
  }
}
