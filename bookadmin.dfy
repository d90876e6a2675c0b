/** The catalogue handlers: AddBook, UpdateBook and DeleteBook. */
module BookAdmin {
  import opened Php
  import opened Http
  import opened Schema
  import opened Lending
  import opened Store

  /** The row AddBook inserts: the five bibliographic columns as given (absent
      ones as empty strings); `status` and `borrowed_by` take the column
      defaults, available and lent to nobody. */
  function NewBook(title: string, authors: string, publishers: string, date: string, isbn: string): (b: Book)
    ensures b.status == Available && b.borrowedBy == Nobody
  {
    Book(title, authors, publishers, date, isbn, Available, Nobody)
  }

  /** A new available book under the next AUTO_INCREMENT id keeps the
      invariant: no history row can name an id that was never used. */
  lemma AddBookKeepsValid(t: Tables, b: Book)
    requires ValidTables(t) && b.status == Available && b.borrowedBy == Nobody
    ensures ValidTables(t.(books := t.books[t.nextBookId := b], nextBookId := t.nextBookId + 1))
  {
    assert t.nextBookId !in t.books;
    UnnamedBookHasNoOpen(t.history, t.nextBookId);
  }

  /** AddBook: title and authors are required; then one row is inserted and
      200 answered with its id. */
  method AddBook(lib: Library, title: string, authors: string, publishers: string, date: string, isbn: string)
    returns (resp: Response)
    requires lib.Valid()
    modifies lib
    ensures lib.Valid()
    ensures Empty(title) || Empty(authors) ==>
      resp == Response(400, Message("Title and authors are required")) && lib.Snapshot() == old(lib.Snapshot())
    ensures !Empty(title) && !Empty(authors) ==>
      var t := old(lib.Snapshot());
      && resp == Response(200, SuccessId("book_id", Show(t.nextBookId)))
      && lib.Snapshot() == t.(books := t.books[t.nextBookId := NewBook(title, authors, publishers, date, isbn)],
                              nextBookId := t.nextBookId + 1)
  {
    if Empty(title) || Empty(authors) {
      return Response(400, Message("Title and authors are required"));
    }
    var id := lib.nextBookId;
    var book := NewBook(title, authors, publishers, date, isbn);
    AddBookKeepsValid(lib.Snapshot(), book);
    lib.books := lib.books[id := book];
    lib.nextBookId := id + 1;
    resp := Response(200, SuccessId("book_id", Show(id)));
  }

  /** One `column = :value` entry of UpdateBook's `$fields` list. */
  datatype BookField =
    | SetTitle(title: string)
    | SetAuthors(authors: string)
    | SetPublishers(publishers: string)
    | SetDate(date: string)
    | SetIsbn(isbn: string)

  function ApplyBookField(b: Book, f: BookField): Book {
    match f
    case SetTitle(v) => b.(title := v)
    case SetAuthors(v) => b.(authors := v)
    case SetPublishers(v) => b.(publishers := v)
    case SetDate(v) => b.(date := v)
    case SetIsbn(v) => b.(isbn := v)
  }

  /** `UPDATE books SET <fields> WHERE book_id = :book_id`, the fields in list
      order. Only bibliographic columns can appear, so the loan state survives
      any list. */
  function ApplyBookFields(b: Book, fields: seq<BookField>): (r: Book)
    ensures r.status == b.status && r.borrowedBy == b.borrowedBy
  {
    if fields == [] then b
    else ApplyBookField(ApplyBookFields(b, fields[..|fields| - 1]), fields[|fields| - 1])
  }

  /** `!empty($value) ? $value : <current>` */
  function Keep(current: string, value: string): string {
    if Empty(value) then current else value
  }

  /** What UpdateBook does to the row: each non-empty field replaces its
      column, the others and the loan state stay. */
  function PatchBook(b: Book, title: string, authors: string, publishers: string, date: string, isbn: string): Book {
    b.(title := Keep(b.title, title), authors := Keep(b.authors, authors),
       publishers := Keep(b.publishers, publishers), date := Keep(b.date, date), isbn := Keep(b.isbn, isbn))
  }

  lemma ApplyBookFieldsSnoc(b: Book, fields: seq<BookField>, f: BookField)
    ensures ApplyBookFields(b, fields + [f]) == ApplyBookField(ApplyBookFields(b, fields), f)
  {
    assert (fields + [f])[..|fields|] == fields;
  }

  /** UpdateBook's five `if (!empty(...)) $fields[] = ...` steps: the list
      sets exactly the non-empty fields, so applying it is the patch, and it
      is empty exactly when all five are. */
  method CollectBookFields(row: Book, title: string, authors: string, publishers: string, date: string, isbn: string)
    returns (fields: seq<BookField>)
    ensures ApplyBookFields(row, fields) == PatchBook(row, title, authors, publishers, date, isbn)
    ensures fields == [] <==> Empty(title) && Empty(authors) && Empty(publishers) && Empty(date) && Empty(isbn)
  {
    fields := [];
    ghost var b := row;
    if !Empty(title) {
      ApplyBookFieldsSnoc(row, fields, SetTitle(title));
      fields := fields + [SetTitle(title)];
    }
    b := b.(title := Keep(b.title, title));
    assert ApplyBookFields(row, fields) == b;
    if !Empty(authors) {
      ApplyBookFieldsSnoc(row, fields, SetAuthors(authors));
      fields := fields + [SetAuthors(authors)];
    }
    b := b.(authors := Keep(b.authors, authors));
    assert ApplyBookFields(row, fields) == b;
    if !Empty(publishers) {
      ApplyBookFieldsSnoc(row, fields, SetPublishers(publishers));
      fields := fields + [SetPublishers(publishers)];
    }
    b := b.(publishers := Keep(b.publishers, publishers));
    assert ApplyBookFields(row, fields) == b;
    if !Empty(date) {
      ApplyBookFieldsSnoc(row, fields, SetDate(date));
      fields := fields + [SetDate(date)];
    }
    b := b.(date := Keep(b.date, date));
    assert ApplyBookFields(row, fields) == b;
    if !Empty(isbn) {
      ApplyBookFieldsSnoc(row, fields, SetIsbn(isbn));
      fields := fields + [SetIsbn(isbn)];
    }
    b := b.(isbn := Keep(b.isbn, isbn));
    assert ApplyBookFields(row, fields) == b;
  }

  /** Rewriting the bibliographic columns of an existing book keeps the invariant. */
  lemma PatchBookKeepsValid(t: Tables, id: int, b: Book)
    requires ValidTables(t) && id in t.books
    requires b.status == t.books[id].status && b.borrowedBy == t.books[id].borrowedBy
    ensures ValidTables(t.(books := t.books[id := b]))
  {
    assert BookConsistent(t.books[id], t.history, id);
  }

  /** UpdateBook: the book must exist; the non-empty ones of the five fields
      are written and, when all are empty, nothing is. A 200 answer says
      whether the row actually changed. */
  method UpdateBook(lib: Library, bookId: int, title: string, authors: string, publishers: string,
                    date: string, isbn: string)
    returns (resp: Response)
    requires lib.Valid()
    modifies lib
    ensures lib.Valid()
    ensures resp.status != 200 ==> lib.Snapshot() == old(lib.Snapshot())
    ensures bookId == 0 ==> resp == Response(400, Message("Missing Book ID"))
    ensures bookId != 0 ==>
      var t := old(lib.Snapshot());
      if bookId !in t.books then
        resp == Response(404, Error("Book not found"))
      else if Empty(title) && Empty(authors) && Empty(publishers) && Empty(date) && Empty(isbn) then
        resp == Response(400, Message("Nothing changed"))
      else
        var patched := PatchBook(t.books[bookId], title, authors, publishers, date, isbn);
        && lib.Snapshot() == t.(books := t.books[bookId := patched])
        && resp == Response(200, if patched != t.books[bookId] then SuccessNote("Book updated successfully")
                                 else Message("Nothing changed"))
  {
    if bookId == 0 {
      return Response(400, Message("Missing Book ID"));
    }
    if bookId !in lib.books {
      return Response(404, Error("Book not found"));
    }
    var row := lib.books[bookId];
    var fields := CollectBookFields(row, title, authors, publishers, date, isbn);
    if fields == [] {
      return Response(400, Message("Nothing changed"));
    }
    var updated := ApplyBookFields(row, fields);
    PatchBookKeepsValid(lib.Snapshot(), bookId, updated);
    lib.books := lib.books[bookId := updated];
    if updated != row {
      resp := Response(200, SuccessNote("Book updated successfully"));
    } else {
      resp := Response(200, Message("Nothing changed"));
    }
  }

  /** Under the invariant a book on loan is named by a history row, so the
      foreign key makes DeleteBook fail in storage for it. */
  lemma LentBookIsReferenced(t: Tables, id: int)
    requires ValidTables(t) && id in t.books && t.books[id].status == OnLoan
    ensures BookReferenced(t.history, id)
  {
    assert BookConsistent(t.books[id], t.history, id);
    var open := OpenRecords(t.history, id);
    assert open[0] in open;
    var i :| 0 <= i < |t.history| && t.history[i] == open[0];
  }

  /** Removing a book that no history row names, with its likes and
      favorites, keeps the invariant. */
  lemma DeleteBookKeepsValid(t: Tables, id: int)
    requires ValidTables(t) && !BookReferenced(t.history, id)
    ensures ValidTables(t.(books := t.books - {id},
                           likes := DeleteWhere(t.likes, BookIdColumn, id),
                           favorites := DeleteWhere(t.favorites, BookIdColumn, id)))
  {
    forall i | 0 <= i < |t.history| ensures t.history[i].bookId in t.books - {id} {
      assert t.history[i].bookId != id;
    }
  }

  /** DeleteBook: the book must exist; its favorites and likes go first, then
      the row. A book named by a history row trips the foreign key, and the
      transaction rolls back. */
  method DeleteBook(lib: Library, bookId: int) returns (resp: Response)
    requires lib.Valid()
    modifies lib
    ensures lib.Valid()
    ensures resp.status != 200 ==> lib.Snapshot() == old(lib.Snapshot())
    ensures bookId == 0 ==> resp == Response(400, Message("Missing Book ID"))
    ensures bookId != 0 ==>
      var t := old(lib.Snapshot());
      if bookId !in t.books then
        resp == Response(404, Error("Book not found"))
      else if BookReferenced(t.history, bookId) then
        resp == StorageFailure
      else
        && resp == Response(200, Success)
        && lib.Snapshot() == t.(books := t.books - {bookId},
                                likes := DeleteWhere(t.likes, BookIdColumn, bookId),
                                favorites := DeleteWhere(t.favorites, BookIdColumn, bookId))
  {
    if bookId == 0 {
      return Response(400, Message("Missing Book ID"));
    }
    if bookId !in lib.books {
      return Response(404, Error("Book not found"));
    }
    if BookReferenced(lib.history, bookId) {
      return StorageFailure;
    }
    var t := lib.Snapshot();
    DeleteBookKeepsValid(t, bookId);
    var after := t.(books := t.books - {bookId},
                    likes := DeleteWhere(t.likes, BookIdColumn, bookId),
                    favorites := DeleteWhere(t.favorites, BookIdColumn, bookId));
    lib.favorites, lib.likes, lib.books := after.favorites, after.likes, after.books;
    assert lib.Snapshot() == after;
    resp := Response(200, Success);
  }
}
