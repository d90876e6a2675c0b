/** The borrowing state machine on table values: a book's `status`/`borrowed_by`
    and the `borrowing_history` rows that must stay in step with them. */
module Lending {
  import opened Php
  import opened Schema

  predicate IsOpen(r: BorrowRecord, book: int) {
    r.bookId == book && r.status == Borrowed
  }

  /** The open (`status = 'borrowed'`) records of one book, in storage order. */
  function OpenRecords(h: seq<BorrowRecord>, book: int): (o: seq<BorrowRecord>)
    ensures forall r :: r in o <==> r in h && IsOpen(r, book)
  {
    if h == [] then []
    else (if IsOpen(h[0], book) then [h[0]] else []) + OpenRecords(h[1..], book)
  }

  /** ReturnBook's lookup `SELECT id FROM borrowing_history WHERE book_id = :b
      AND user_id = :u AND status = "borrowed"` finds a row. */
  predicate HasOpenRecord(h: seq<BorrowRecord>, book: int, user: int) {
    exists i :: 0 <= i < |h| && IsOpen(h[i], book) && h[i].userId == user
  }

  /** The history rows of one user in storage order
      (`SELECT * FROM borrowing_history WHERE user_id = :u`). */
  function RecordsOf(h: seq<BorrowRecord>, user: int): (s: seq<BorrowRecord>)
    ensures forall r :: r in s <==> r in h && r.userId == user
    ensures |s| <= |h|
  {
    if h == [] then []
    else (if h[0].userId == user then [h[0]] else []) + RecordsOf(h[1..], user)
  }

  /** The filter keeps storage order: it distributes over concatenation, so
      older rows come before newer ones in the result too. */
  lemma {:induction false} RecordsOfConcat(h1: seq<BorrowRecord>, h2: seq<BorrowRecord>, user: int)
    ensures RecordsOf(h1 + h2, user) == RecordsOf(h1, user) + RecordsOf(h2, user)
  {
    if h1 == [] {
      assert h1 + h2 == h2;
    } else {
      assert (h1 + h2)[0] == h1[0];
      assert (h1 + h2)[1..] == h1[1..] + h2;
      RecordsOfConcat(h1[1..], h2, user);
    }
  }

  /** A record as ReturnBook leaves it. */
  function Closed(r: BorrowRecord, today: string): BorrowRecord {
    r.(returnedDate := Some(today), status := Returned)
  }

  /** ReturnBook's `UPDATE borrowing_history SET returned_date = NOW(),
      status = 'returned' WHERE book_id = :b AND user_id = :u`: every record of
      the (book, user) pair is closed, earlier returned ones included. */
  function CloseRecords(h: seq<BorrowRecord>, book: int, user: int, today: string): (c: seq<BorrowRecord>)
    ensures |c| == |h|
    ensures forall i :: 0 <= i < |h| ==>
      c[i] == if h[i].bookId == book && h[i].userId == user then Closed(h[i], today) else h[i]
  {
    if h == [] then []
    else
      var first := if h[0].bookId == book && h[0].userId == user then Closed(h[0], today) else h[0];
      [first] + CloseRecords(h[1..], book, user, today)
  }

  /** BorrowBook's `UPDATE books SET status = 1, borrowed_by = :user WHERE book_id = :b`. */
  function Lend(books: map<int, Book>, id: int, user: int): (r: map<int, Book>)
    ensures r.Keys == books.Keys
    ensures forall k :: k in books && k != id ==> r[k] == books[k]
    ensures id in books ==> r[id] == books[id].(status := OnLoan, borrowedBy := user)
  {
    if id in books then books[id := books[id].(status := OnLoan, borrowedBy := user)] else books
  }

  /** ReturnBook's `UPDATE books SET status = 0, borrowed_by = -1 WHERE book_id = :b`. */
  function Reclaim(books: map<int, Book>, id: int): (r: map<int, Book>)
    ensures r.Keys == books.Keys
    ensures forall k :: k in books && k != id ==> r[k] == books[k]
    ensures id in books ==> r[id] == books[id].(status := Available, borrowedBy := Nobody)
  {
    if id in books then books[id := books[id].(status := Available, borrowedBy := Nobody)] else books
  }

  /** A book is on loan exactly when it has one open record, owned by
      `borrowed_by`; otherwise it is available, lent to nobody, with no open record. */
  predicate BookConsistent(b: Book, h: seq<BorrowRecord>, id: int) {
    if b.status == OnLoan then
      |OpenRecords(h, id)| == 1 && OpenRecords(h, id)[0].userId == b.borrowedBy
    else
      b.status == Available && b.borrowedBy == Nobody && OpenRecords(h, id) == []
  }

  predicate Consistent(books: map<int, Book>, h: seq<BorrowRecord>) {
    forall id :: id in books ==> BookConsistent(books[id], h, id)
  }

  lemma {:induction false} OpenRecordsAppend(h: seq<BorrowRecord>, r: BorrowRecord, book: int)
    ensures OpenRecords(h + [r], book) == OpenRecords(h, book) + (if IsOpen(r, book) then [r] else [])
  {
    if h == [] {
      assert OpenRecords([r], book) == (if IsOpen(r, book) then [r] else []) + OpenRecords([], book);
    } else {
      var first := if IsOpen(h[0], book) then [h[0]] else [];
      assert (h + [r])[0] == h[0];
      assert (h + [r])[1..] == h[1..] + [r];
      assert OpenRecords(h + [r], book) == first + OpenRecords(h[1..] + [r], book);
      OpenRecordsAppend(h[1..], r, book);
      assert OpenRecords(h, book) == first + OpenRecords(h[1..], book);
    }
  }

  /** A book that no record names has no open record. */
  lemma {:induction false} UnnamedBookHasNoOpen(h: seq<BorrowRecord>, book: int)
    requires forall i :: 0 <= i < |h| ==> h[i].bookId != book
    ensures OpenRecords(h, book) == []
  {
    if h != [] {
      assert forall i :: 0 <= i < |h[1..]| ==> h[1..][i] == h[i + 1];
      UnnamedBookHasNoOpen(h[1..], book);
    }
  }

  /** Closing the records of (book, user) leaves the open records of every
      other book as they were. */
  lemma {:induction false} CloseKeepsOtherBooks(h: seq<BorrowRecord>, book: int, user: int, today: string, other: int)
    requires other != book
    ensures OpenRecords(CloseRecords(h, book, user, today), other) == OpenRecords(h, other)
  {
    if h != [] {
      var c := CloseRecords(h, book, user, today);
      assert c[1..] == CloseRecords(h[1..], book, user, today);
      assert IsOpen(c[0], other) == IsOpen(h[0], other);
      CloseKeepsOtherBooks(h[1..], book, user, today, other);
    }
  }

  /** When every open record of the book belongs to `user`, closing that
      user's records leaves the book with none open. */
  lemma {:induction false} CloseAllOpen(h: seq<BorrowRecord>, book: int, user: int, today: string)
    requires forall r :: r in OpenRecords(h, book) ==> r.userId == user
    ensures OpenRecords(CloseRecords(h, book, user, today), book) == []
  {
    if h != [] {
      var c := CloseRecords(h, book, user, today);
      assert c[1..] == CloseRecords(h[1..], book, user, today);
      assert IsOpen(h[0], book) ==> h[0] in OpenRecords(h, book);
      assert !IsOpen(c[0], book);
      CloseAllOpen(h[1..], book, user, today);
    }
  }

  /** An open record of a consistent book belongs to its borrower. */
  lemma OpenRecordIsBorrowers(b: Book, h: seq<BorrowRecord>, id: int, i: int)
    requires BookConsistent(b, h, id)
    requires 0 <= i < |h| && IsOpen(h[i], id)
    ensures b.status == OnLoan && h[i].userId == b.borrowedBy
  {
    var open := OpenRecords(h, id);
    assert h[i] in open;
  }

  /** A consistent book on loan has an open record of its borrower. */
  lemma BorrowerHoldsOpenRecord(b: Book, h: seq<BorrowRecord>, id: int)
    requires BookConsistent(b, h, id) && b.status == OnLoan
    ensures HasOpenRecord(h, id, b.borrowedBy)
  {
    var open := OpenRecords(h, id);
    assert open[0] in open;
    var i :| 0 <= i < |h| && h[i] == open[0];
  }

  /** Under the invariant, ReturnBook's lookup succeeds exactly for the user the
      book is lent to: nobody else can return it. */
  lemma OnlyBorrowerCanReturn(books: map<int, Book>, h: seq<BorrowRecord>, id: int, user: int)
    requires Consistent(books, h) && id in books
    ensures HasOpenRecord(h, id, user) <==> books[id].status == OnLoan && books[id].borrowedBy == user
  {
    var b := books[id];
    assert BookConsistent(b, h, id);
    if HasOpenRecord(h, id, user) {
      var i :| 0 <= i < |h| && IsOpen(h[i], id) && h[i].userId == user;
      OpenRecordIsBorrowers(b, h, id, i);
    }
    if b.status == OnLoan {
      BorrowerHoldsOpenRecord(b, h, id);
    }
  }

  /** A successful borrow starts from status 0, so it opens the one and only
      open record of the book and keeps every book consistent. */
  lemma BorrowKeepsConsistent(books: map<int, Book>, h: seq<BorrowRecord>, id: int, user: int, r: BorrowRecord)
    requires Consistent(books, h)
    requires id in books && books[id].status == Available
    requires IsOpen(r, id) && r.userId == user
    ensures OpenRecords(h + [r], id) == [r]
    ensures Consistent(Lend(books, id, user), h + [r])
  {
    var after := Lend(books, id, user);
    assert BookConsistent(books[id], h, id);
    OpenRecordsAppend(h, r, id);
    forall k | k in after ensures BookConsistent(after[k], h + [r], k) {
      if k != id {
        OpenRecordsAppend(h, r, k);
        assert after[k] == books[k] && BookConsistent(books[k], h, k);
        assert OpenRecords(h + [r], k) == OpenRecords(h, k);
      }
    }
  }

  /** Every open record of a book on loan is its borrower's. */
  lemma OpenRecordsAreBorrowers(b: Book, h: seq<BorrowRecord>, id: int)
    requires BookConsistent(b, h, id) && b.status == OnLoan
    ensures forall r :: r in OpenRecords(h, id) ==> r.userId == b.borrowedBy
  {
    var open := OpenRecords(h, id);
    assert forall r :: r in open ==> r == open[0];
  }

  /** Closing the records of one book keeps every other book consistent. */
  lemma OtherBooksStayConsistent(books: map<int, Book>, h: seq<BorrowRecord>, id: int, user: int, today: string)
    requires Consistent(books, h)
    ensures forall k :: k in books && k != id ==> BookConsistent(books[k], CloseRecords(h, id, user, today), k)
  {
    forall k | k in books && k != id ensures BookConsistent(books[k], CloseRecords(h, id, user, today), k) {
      assert BookConsistent(books[k], h, k);
      CloseKeepsOtherBooks(h, id, user, today, k);
    }
  }

  /** A successful return closes the book's only open record and keeps every
      book consistent. */
  lemma ReturnKeepsConsistent(books: map<int, Book>, h: seq<BorrowRecord>, id: int, user: int, today: string)
    requires Consistent(books, h)
    requires id in books && HasOpenRecord(h, id, user)
    ensures OpenRecords(CloseRecords(h, id, user, today), id) == []
    ensures Consistent(Reclaim(books, id), CloseRecords(h, id, user, today))
  {
    OnlyBorrowerCanReturn(books, h, id, user);
    OpenRecordsAreBorrowers(books[id], h, id);
    CloseAllOpen(h, id, user, today);
    OtherBooksStayConsistent(books, h, id, user, today);
  }

  /** Borrow followed by return by the same user: the book row is exactly as
      before the borrow (available, `borrowed_by` = -1), the new record is
      closed with the return date, and the history is consistent again. */
  lemma BorrowThenReturn(books: map<int, Book>, h: seq<BorrowRecord>, id: int, user: int, r: BorrowRecord, today: string)
    requires Consistent(books, h)
    requires id in books && books[id].status == Available
    requires IsOpen(r, id) && r.userId == user
    ensures HasOpenRecord(h + [r], id, user)
    ensures Reclaim(Lend(books, id, user), id) == books
    ensures CloseRecords(h + [r], id, user, today)[|h|] == Closed(r, today)
    ensures Consistent(Reclaim(Lend(books, id, user), id), CloseRecords(h + [r], id, user, today))
  {
    BorrowKeepsConsistent(books, h, id, user, r);
    assert (h + [r])[|h|] == r;
    assert BookConsistent(books[id], h, id);
    ReturnKeepsConsistent(Lend(books, id, user), h + [r], id, user, today);
  }
}
