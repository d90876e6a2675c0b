/** The lending handlers: BorrowBook, ReturnBook and GetUserBorrowingHistory. */
module Borrowing {
  import opened Php
  import opened Crypto
  import opened Http
  import opened Schema
  import opened Lending
  import opened Store

  /** The row BorrowBook inserts: `borrowed_date` is `NOW()` in a DATE column,
      `returned_date` NULL and `status` the column default 'borrowed'. */
  function NewRecord(id: int, user: int, bookId: int, dueDate: string, now: Clock): (r: BorrowRecord)
    ensures IsOpen(r, bookId) && r.userId == user && r.returnedDate == None
  {
    BorrowRecord(id, user, bookId, now.today, dueDate, None, Borrowed, now.timestamp)
  }

  /** A successful borrow keeps the invariant: the new record's keys resolve,
      its id is the counter's value, and the book stays consistent. */
  lemma BorrowKeepsValid(t: Tables, bookId: int, user: int, r: BorrowRecord)
    requires ValidTables(t)
    requires bookId in t.books && t.books[bookId].status == Available && user in t.users
    requires IsOpen(r, bookId) && r.userId == user && r.id == t.nextRecordId
    ensures ValidTables(t.(history := t.history + [r], books := Lend(t.books, bookId, user),
                           nextRecordId := t.nextRecordId + 1))
  {
    BorrowKeepsConsistent(t.books, t.history, bookId, user, r);
    var u := t.(history := t.history + [r], books := Lend(t.books, bookId, user),
                nextRecordId := t.nextRecordId + 1);
    assert u.books.Keys == t.books.Keys;
    forall i | 0 <= i < |u.history|
      ensures 0 < u.history[i].id < u.nextRecordId
      ensures u.history[i].userId in u.users && u.history[i].bookId in u.books
    {
      if i < |t.history| {
        assert u.history[i] == t.history[i];
      }
    }
  }

  /** Closing records changes no id and no foreign key. */
  lemma CloseKeepsKeys(t: Tables, bookId: int, user: int, today: string)
    requires ValidTables(t)
    ensures var c := CloseRecords(t.history, bookId, user, today);
      forall j :: 0 <= j < |c| ==>
        0 < c[j].id < t.nextRecordId && c[j].userId in t.users && c[j].bookId in t.books
  {
    var c := CloseRecords(t.history, bookId, user, today);
    forall j | 0 <= j < |c|
      ensures 0 < c[j].id < t.nextRecordId && c[j].userId in t.users && c[j].bookId in t.books
    {
      assert c[j].id == t.history[j].id && c[j].userId == t.history[j].userId && c[j].bookId == t.history[j].bookId;
    }
  }

  /** A history with no open record of the book has none for any user. */
  lemma NoOpenRecordLeft(c: seq<BorrowRecord>, bookId: int, user: int)
    requires OpenRecords(c, bookId) == []
    ensures !HasOpenRecord(c, bookId, user)
  {
    assert forall j :: 0 <= j < |c| && IsOpen(c[j], bookId) ==> c[j] in OpenRecords(c, bookId);
  }

  /** A successful return keeps the invariant: closing records changes no key,
      and the book stays consistent. */
  lemma ReturnKeepsValid(t: Tables, bookId: int, user: int, today: string)
    requires ValidTables(t) && HasOpenRecord(t.history, bookId, user)
    ensures ValidTables(t.(history := CloseRecords(t.history, bookId, user, today),
                           books := Reclaim(t.books, bookId)))
    ensures !HasOpenRecord(CloseRecords(t.history, bookId, user, today), bookId, user)
  {
    var i :| 0 <= i < |t.history| && IsOpen(t.history[i], bookId) && t.history[i].userId == user;
    assert bookId in t.books;
    ReturnKeepsConsistent(t.books, t.history, bookId, user, today);
    CloseKeepsKeys(t, bookId, user, today);
    assert Reclaim(t.books, bookId).Keys == t.books.Keys;
    NoOpenRecordLeft(CloseRecords(t.history, bookId, user, today), bookId, user);
  }

  /** BorrowBook: a missing `book_id` or `due_date` is refused before the token
      is looked at; the book must exist with status 0; then one open record is
      appended and the book is lent to the token's user. A user id that
      `users` lacks fails the history insert's foreign key, and the token
      middleware answers that failure with 401. */
  method BorrowBook(lib: Library, bookId: int, dueDate: string, jwt: Option<Claims>, now: Clock)
    returns (resp: Response)
    requires lib.Valid()
    modifies lib
    ensures lib.Valid()
    ensures resp.status != 200 ==> lib.Snapshot() == old(lib.Snapshot())
    ensures bookId == 0 || Empty(dueDate) ==> resp == Response(400, Message("Missing parameters"))
    ensures bookId != 0 && !Empty(dueDate) && Anonymous(jwt) ==> resp == Unauthorized
    ensures bookId != 0 && !Empty(dueDate) && !Anonymous(jwt) ==>
      var t, user := old(lib.Snapshot()), jwt.value.userId;
      if bookId !in t.books || t.books[bookId].status != Available then
        resp == Response(400, Error("Book not available"))
      else if user !in t.users then
        resp == Caught(ForeignKeyViolation)
      else
        && resp == Response(200, BorrowReceipt(bookId, user, now.phpDate, dueDate))
        && lib.Snapshot() == t.(
             history := t.history + [NewRecord(t.nextRecordId, user, bookId, dueDate, now)],
             books := Lend(t.books, bookId, user),
             nextRecordId := t.nextRecordId + 1)
  {
    if bookId == 0 || Empty(dueDate) {
      return Response(400, Message("Missing parameters"));
    }
    if Anonymous(jwt) {
      return Unauthorized;
    }
    var user := jwt.value.userId;
    if bookId !in lib.books || lib.books[bookId].status != Available {
      return Response(400, Error("Book not available"));
    }
    if user !in lib.users {
      return Caught(ForeignKeyViolation);
    }
    var t := lib.Snapshot();
    var record := NewRecord(t.nextRecordId, user, bookId, dueDate, now);
    BorrowKeepsValid(t, bookId, user, record);
    var after := t.(history := t.history + [record], books := Lend(t.books, bookId, user),
                    nextRecordId := t.nextRecordId + 1);
    lib.history, lib.books, lib.nextRecordId := after.history, after.books, after.nextRecordId;
    assert lib.Snapshot() == after;
    resp := Response(200, BorrowReceipt(bookId, user, now.phpDate, dueDate));
  }

  /** ReturnBook: the token's user must hold an open record of the book; then
      every record of that (book, user) pair is closed and the book is reset
      to available, lent to nobody. */
  method ReturnBook(lib: Library, bookId: int, jwt: Option<Claims>, now: Clock)
    returns (resp: Response)
    requires lib.Valid()
    modifies lib
    ensures lib.Valid()
    ensures resp.status != 200 ==> lib.Snapshot() == old(lib.Snapshot())
    ensures bookId == 0 ==> resp == Response(400, Message("Missing parameters"))
    ensures bookId != 0 && Anonymous(jwt) ==> resp == Unauthorized
    ensures bookId != 0 && !Anonymous(jwt) ==>
      var t, user := old(lib.Snapshot()), jwt.value.userId;
      if !HasOpenRecord(t.history, bookId, user) then
        resp == Response(404, Message("No borrowing record found"))
      else
        && resp == Response(200, SuccessMessage("Book returned successfully"))
        && lib.Snapshot() == t.(
             history := CloseRecords(t.history, bookId, user, now.today),
             books := Reclaim(t.books, bookId))
        && !HasOpenRecord(lib.history, bookId, user)
  {
    if bookId == 0 {
      return Response(400, Message("Missing parameters"));
    }
    if Anonymous(jwt) {
      return Unauthorized;
    }
    var user := jwt.value.userId;
    if !HasOpenRecord(lib.history, bookId, user) {
      return Response(404, Message("No borrowing record found"));
    }
    var t := lib.Snapshot();
    ReturnKeepsValid(t, bookId, user, now.today);
    var after := t.(history := CloseRecords(t.history, bookId, user, now.today), books := Reclaim(t.books, bookId));
    lib.history, lib.books := after.history, after.books;
    assert lib.Snapshot() == after;
    resp := Response(200, SuccessMessage("Book returned successfully"));
  }

  /** A history row as the handler sends it: `book_id` and `id` as JSON
      integers, every other column as fetched. */
  function HistoryRow(r: BorrowRecord): Row {
    RecordRow(r)["book_id" := JInt(r.bookId)]["id" := JInt(r.id)]
  }

  /** The handler's two `intval` casts turn the fetched decimal strings back
      into the stored integers and touch no other column. */
  lemma HistoryRowCast(r: BorrowRecord)
    ensures CastRow(RecordRow(r), "book_id", "id") == HistoryRow(r)
  {
    var row := RecordRow(r);
    CastFetchedInts(row, "book_id", r.bookId, "id", r.id);
  }

  /** GetUserBorrowingHistory: the token user's history rows in storage order,
      with `book_id` and `id` cast to integers. No table changes. */
  method GetUserBorrowingHistory(lib: Library, jwt: Option<Claims>) returns (resp: Response)
    ensures Anonymous(jwt) ==> resp == Unauthorized
    ensures !Anonymous(jwt) ==>
      var mine := RecordsOf(lib.history, jwt.value.userId);
      && resp.status == 200 && resp.body.Rows?
      && |resp.body.rows| == |mine|
      && forall i :: 0 <= i < |mine| ==> resp.body.rows[i] == HistoryRow(mine[i])
  {
    if Anonymous(jwt) {
      return Unauthorized;
    }
    var mine := RecordsOf(lib.history, jwt.value.userId);
    var fetched := seq(|mine|, i requires 0 <= i < |mine| => RecordRow(mine[i]));
    var rows := CastColumns(fetched, "book_id", "id");
    forall i | 0 <= i < |mine| ensures rows[i] == HistoryRow(mine[i]) {
      HistoryRowCast(mine[i]);
    }
    resp := Response(200, Rows(rows));
  }
}
