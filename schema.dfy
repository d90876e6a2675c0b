/** The rows of the six tables (`users`, `books`, `borrowing_history`,
    `user_likes`, `user_favorites`, `jwt_blacklist`), the clock the handlers
    read, and the shape of a row as PDO fetches it. */
module Schema {
  import opened Php
  import opened Crypto

  /** The clock: PHP's `time()` in epoch seconds, the SQL `NOW()` value as a
      DATE column (`today`) and as a DATETIME/TIMESTAMP column stores it, and
      PHP's `date('Y-m-d')` (`phpDate`), which follows the web server's time
      zone and so may differ from the database's `today`. */
  datatype Clock = Clock(epoch: int, today: string, timestamp: string, phpDate: string)

  /** A `users` row; `user_id` is the key of the table map. */
  datatype User = User(
    username: string,
    email: string,
    password: Digest,
    isAdmin: int,
    lastLogin: Option<string>)

  /** A `books` row; `book_id` is the key of the table map. */
  datatype Book = Book(
    title: string,
    authors: string,
    publishers: string,
    date: string,
    isbn: string,
    status: int,
    borrowedBy: int)

  /** `books.status` values and the `borrowed_by` sentinel. */
  const Available := 0
  const OnLoan := 1
  const Nobody := -1

  /** `ENUM('borrowed', 'returned', 'overdue')`; no handler produces `Overdue`. */
  datatype RecordStatus = Borrowed | Returned | Overdue

  /** A `borrowing_history` row. */
  datatype BorrowRecord = BorrowRecord(
    id: int,
    userId: int,
    bookId: int,
    borrowedDate: string,
    dueDate: string,
    returnedDate: Option<string>,
    status: RecordStatus,
    createdAt: string)

  /** The width of `jwt_blacklist.token`, a VARCHAR(512). */
  const TokenWidth := 512

  /** The range of `jwt_blacklist.expired_at`, a signed INT(11). */
  const MinInt32 := -0x8000_0000
  const MaxInt32 := 0x7fff_ffff

  predicate FitsInt32(n: int) {
    MinInt32 <= n <= MaxInt32
  }

  /** A `jwt_blacklist` row. */
  datatype RevokedToken = RevokedToken(token: string, expiredAt: int, createdAt: string)

  /** A `user_likes` or `user_favorites` row. */
  datatype Pair = Pair(userId: int, bookId: int)

  predicate NoDuplicates(s: seq<Pair>) {
    forall i, j :: 0 <= i < j < |s| ==> s[i] != s[j]
  }

  lemma NoDuplicatesTail(s: seq<Pair>)
    requires s != []
    ensures NoDuplicates(s) ==> s[0] !in s[1..] && NoDuplicates(s[1..])
  {
    if NoDuplicates(s) {
      forall i | 0 <= i < |s| - 1 ensures s[1..][i] != s[0] {
        assert s[1..][i] == s[i + 1];
      }
    }
  }

  /** `INSERT IGNORE INTO … (user_id, book_id)`: the unique key turns a
      repeated pair into a no-op. */
  function InsertIgnore(s: seq<Pair>, p: Pair): (r: seq<Pair>)
    ensures forall q :: q in r <==> q in s || q == p
    ensures NoDuplicates(s) ==> NoDuplicates(r)
  {
    if p in s then s else s + [p]
  }

  /** `DELETE FROM … WHERE user_id = :u AND book_id = :b` */
  function DeletePair(s: seq<Pair>, p: Pair): (r: seq<Pair>)
    ensures forall q :: q in r <==> q in s && q != p
    ensures NoDuplicates(s) ==> NoDuplicates(r)
  {
    if s == [] then []
    else if s[0] == p then DeletePair(s[1..], p)
    else NoDuplicatesTail(s); [s[0]] + DeletePair(s[1..], p)
  }

  /** The two columns of a `user_likes` or `user_favorites` row. */
  datatype PairColumn = UserIdColumn | BookIdColumn

  function Key(p: Pair, c: PairColumn): int {
    match c
    case UserIdColumn => p.userId
    case BookIdColumn => p.bookId
  }

  /** `DELETE FROM … WHERE user_id = :id` or `… WHERE book_id = :id` */
  function DeleteWhere(s: seq<Pair>, c: PairColumn, id: int): (r: seq<Pair>)
    ensures forall q :: q in r <==> q in s && Key(q, c) != id
    ensures NoDuplicates(s) ==> NoDuplicates(r)
  {
    if s == [] then []
    else if Key(s[0], c) == id then DeleteWhere(s[1..], c, id)
    else NoDuplicatesTail(s); [s[0]] + DeleteWhere(s[1..], c, id)
  }

  /** Inserting a pair twice leaves the table as inserting it once. */
  lemma InsertIgnoreIdempotent(s: seq<Pair>, p: Pair)
    ensures InsertIgnore(InsertIgnore(s, p), p) == InsertIgnore(s, p)
  {
  }

  /** Deleting a pair twice leaves the table as deleting it once. */
  lemma {:induction false} DeletePairIdempotent(s: seq<Pair>, p: Pair)
    ensures DeletePair(DeletePair(s, p), p) == DeletePair(s, p)
  {
    if s != [] {
      DeletePairIdempotent(s[1..], p);
    }
  }

  /** The enum value as MySQL returns it. */
  function StatusName(s: RecordStatus): string {
    match s
    case Borrowed => "borrowed"
    case Returned => "returned"
    case Overdue => "overdue"
  }

  function NullableText(v: Option<string>): Json {
    match v
    case None => JNull
    case Some(s) => JStr(s)
  }

  /** A `books` row as `SELECT b.*` fetches it: integer columns arrive as
      decimal strings. */
  function BookRow(id: int, b: Book): Row {
    map[
      "book_id" := JStr(Show(id)),
      "title" := JStr(b.title),
      "authors" := JStr(b.authors),
      "publishers" := JStr(b.publishers),
      "date" := JStr(b.date),
      "isbn" := JStr(b.isbn),
      "status" := JStr(Show(b.status)),
      "borrowed_by" := JStr(Show(b.borrowedBy))]
  }

  /** A `borrowing_history` row as `SELECT *` fetches it. */
  function RecordRow(r: BorrowRecord): Row {
    map[
      "id" := JStr(Show(r.id)),
      "user_id" := JStr(Show(r.userId)),
      "book_id" := JStr(Show(r.bookId)),
      "borrowed_date" := JStr(r.borrowedDate),
      "due_date" := JStr(r.dueDate),
      "returned_date" := NullableText(r.returnedDate),
      "status" := JStr(StatusName(r.status)),
      "created_at" := JStr(r.createdAt)]
  }
}
