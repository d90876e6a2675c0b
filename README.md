# eee4482 library backend — a verified model

The eee4482 library backend is a PHP/Slim service over six MySQL tables:
`users`, `books`, `borrowing_history`, `user_likes`, `user_favorites` and
`jwt_blacklist`. Each route is one handler. A handler is a short chain of
guards, a few SQL statements inside a transaction, and a JSON answer. This
project models those handlers in Dafny and proves what they promise.

How the model is built:

- **The database** is one object, `Store.Library`, with one field per
  table and the three AUTO_INCREMENT counters. `Store.ValidTables` is the
  invariant every handler keeps:
  - the keys stay below their counters;
  - the history's foreign keys resolve;
  - usernames are unique;
  - the like and favorite tables are sets;
  - every book's `status`/`borrowed_by` agrees with its open (`'borrowed'`)
    history records.
- **The handlers** are methods over a `Library`. Each names its whole new
  state against `old(...)` and its answer as a `Http.Response` (status plus
  a tag for the JSON body). They state their guards in the order the source
  checks them.
- **Proofs** of the invariant are pure lemmas over the table values
  (`Store.Tables`), which the methods call.
- **The JWT middleware** is the pure `JwtGate.Gate`. The handlers receive
  its result as `jwt: Option<Claims>`.
- **PHP and PDO value semantics** are written out in module `Php`:
  - `empty()` on strings;
  - integer columns fetched as decimal strings;
  - `intval`;
  - single-pass `str_replace`.
- **Foreign cryptography** is reduced to the properties the handlers rely on:
  - bcrypt becomes `PasswordHash`/`PasswordVerify`;
  - HS256 JWT becomes a codec constrained by `Crypto.Hs256`.

Modules, one per file:

| module | role |
|---|---|
| `Php` | PHP and PDO values |
| `Crypto` | password digests, token claims, the HS256 codec |
| `Http` | responses |
| `Schema` | rows |
| `Lending` | the borrowing state machine over books and history |
| `Store` | tables, invariant, `Library` |
| `JwtGate` | `validateJWT` |
| `UserAuth` | login, registration, logout |
| `Borrowing` | borrow, return, history |
| `UserAdmin` | add, update and delete user |
| `BookAdmin` | add, update and delete book |
| `Reactions` | likes and adding a favorite |
| `Favorites` | the favorites listing |
| `LegacyFavorites` | the older, uncast listing |
| `PasswordReset` | forgot-password |

Conventions:

- An id of 0 stands for a request value that PHP's `empty()` or `!` rejects:
  missing, `""`, `"0"` or `0`.
- `Anonymous(jwt)` stands for `!$jwt || empty($jwt->user_id)`.
- The namespaced handlers `catch (PDOException …)` or `catch (Exception …)`
  without importing the class, so an error raised by storage escapes them.
  Where it lands depends on the route:
  - Behind the token middleware (api/public/index.php:46-61), `validateJWT`
    wraps the call of the handler in a `catch (Exception $e)` written outside
    any namespace, which does match. The caller gets 401
    `{"error": "Invalid token: <message>"}`, the same shape as a token that
    does not decode. The model writes this answer `Http.Caught(fault)`.
  - On the other routes the framework's error middleware answers 500. The
    model writes this answer `Http.StorageFailure`.

  Either way the handler's connection goes away with the exception, which
  rolls back its open transaction, so the tables stay as they were.
- Integer columns are fetched as decimal strings. This is what PDO's MySQL
  driver does with emulated prepares (its default) and before PHP 8.1; with
  native prepares on PHP 8.1 or later they arrive as integers, and the casts
  are then no-ops.

## Model

| member | source | states |
|---|---|---|
| Php.IntVal | api/src/services/GetUserBorrowingHistory.php:53-56 | `intval`: a string with no sign or digit after its leading white space is 0, and a negative result needs a leading '-' |
| Php.RemoveAll | api/src/Jwt.php:18 | `str_replace` never lengthens the subject |
| Php.IntValShow | api/src/services/GetUserBorrowingHistory.php:53-56 | `intval` of the decimal string PDO fetches for an integer column gives back that integer, negative ones included |
| Php.RemoveAllPrefix | api/src/Jwt.php:18 | `str_replace` of the prefix on "prefix + token", where the token lacks a character of the prefix, gives back the token |
| Php.RemoveAllSinglePass | api/src/Jwt.php:18 | `str_replace` makes one pass: removing an inner "Bearer " can form a new one, and it stays |
| Php.CastColumn | api/src/services/GetUserBorrowingHistory.php:54 | one `$row[k] = intval($row[k])` sets column k to the integer value and keeps every other column |
| Php.CastColumns | api/src/services/GetUserBorrowingHistory.php:53-56 | the `foreach (… as &$row)` loop casts every row in place and keeps the list's length and order |
| Php.CastFetchedInts | api/src/services/GetUserBorrowingHistory.php:53-56 | casting two distinct columns fetched for integers gives back those integers and keeps every other column |
| Crypto.PasswordHash | api/src/services/UserAuth.php:69 | the digest verifies exactly the passwords whose first 72 UTF-8 bytes are those of the hashed one, the hashed one included |
| Crypto.Utf8RoundTrip | api/src/services/UserAuth.php:26 | decoding a character's UTF-8 bytes gives back its code point |
| Crypto.BytesInjective | api/src/services/UserAuth.php:26 | different strings have different bytes |
| Crypto.BytesAppend | api/src/services/UserAuth.php:26 | the bytes of a concatenation are the concatenated bytes |
| Crypto.ShortPasswordsExact | api/src/services/UserAuth.php:26 | between passwords of at most 72 bytes, a digest verifies its own password and no other |
| Crypto.LongPasswordTailIgnored | api/src/services/UserAuth.php:26 | anything appended to a password of 72 bytes or more still verifies against its digest |
| Schema.InsertIgnore | services/AddLike.php:47-52 | `INSERT IGNORE` adds exactly the pair, and a table without duplicates stays without duplicates |
| Schema.DeletePair | api/src/services/DeleteLike.php:47-50 | the pair is gone, every other pair stays, and there are still no duplicates |
| Schema.DeleteWhere | services/DeleteUser.php:91-96 | exactly the pairs whose user (or, for DeleteBook, book) column holds the id are removed, and the table stays without duplicates |
| Schema.InsertIgnoreIdempotent | services/AddLike.php:47 | liking twice leaves the table as liking once |
| Schema.DeletePairIdempotent | api/src/services/DeleteLike.php:47 | deleting twice leaves the table as deleting once |
| Lending.OpenRecords | api/src/services/ReturnBook.php:47 | the book's `'borrowed'` records, exactly |
| Lending.BookConsistent | api/src/services/BorrowBook.php:59-70 | a lent book has exactly one open record, its borrower's; any other book is available, lent to nobody (-1) and has none (definition) |
| Lending.Consistent | api/src/services/ReturnBook.php:47-65 | every book is consistent with the history (definition) |
| Lending.RecordsOf | api/src/services/GetUserBorrowingHistory.php:49-51 | exactly the user's history rows |
| Lending.RecordsOfConcat | api/src/services/GetUserBorrowingHistory.php:49 | the filter distributes over concatenation, so the result is in storage order |
| Lending.CloseRecords | api/src/services/ReturnBook.php:58-61 | every record of the (book, user) pair is closed with the date, returned ones included; all others are untouched |
| Lending.Lend | api/src/services/BorrowBook.php:69-70 | only that book changes, to status 1 and `borrowed_by` = user |
| Lending.Reclaim | api/src/services/ReturnBook.php:63-65 | only that book changes, to status 0 and `borrowed_by` = -1 |
| Lending.CloseAllOpen | api/src/services/ReturnBook.php:58-61 | when all of a book's open records are the user's, closing leaves the book no open record |
| Lending.OpenRecordIsBorrowers | api/src/services/ReturnBook.php:47-55 | under consistency, an open record of a book means the book is on loan to that record's user |
| Lending.BorrowerHoldsOpenRecord | api/src/services/ReturnBook.php:47-55 | under consistency, a book on loan has an open record of its borrower |
| Lending.OpenRecordsAreBorrowers | api/src/services/ReturnBook.php:58-61 | every open record of a book on loan is its borrower's |
| Lending.OtherBooksStayConsistent | api/src/services/ReturnBook.php:58-61 | closing one book's records keeps every other book consistent |
| Lending.CloseKeepsOtherBooks | api/src/services/ReturnBook.php:58-61 | closing leaves the open records of every other book as they were |
| Lending.OpenRecordsAppend | api/src/services/BorrowBook.php:65-66 | appending a record adds it to its own book's open records only |
| Lending.UnnamedBookHasNoOpen | services/AddBook.php:31-41 | a book id no history row names has no open record |
| Lending.OnlyBorrowerCanReturn | api/src/services/ReturnBook.php:47-55 | under the invariant, the lookup finds a record exactly when the book is on loan to that user; others get 404 |
| Lending.BorrowKeepsConsistent | api/src/services/BorrowBook.php:59-70 | a borrow from status 0 opens the book's only open record and keeps every book consistent |
| Lending.ReturnKeepsConsistent | api/src/services/ReturnBook.php:47-65 | a return leaves the book no open record and keeps every book consistent |
| Lending.BorrowThenReturn | api/src/services/BorrowBook.php:65-70 | borrow then return by the same user restores the book row exactly, closes the new record and keeps consistency |
| Store.ValidTables | api/CreatTableBorrowHistory.php:10-21 | keys below their counters, history foreign keys resolve, unique usernames, duplicate-free likes and favorites, consistent books, revoked tokens and their expiries within their columns (definition) |
| Store.Library.constructor | api/CreatTableBorrowHistory.php:10-21 | empty tables with counters at 1 satisfy the invariant |
| JwtGate.BearerToken | api/src/Jwt.php:18 | the token is never longer than the header |
| JwtGate.Revoked | api/src/Jwt.php:24-27 | the token is in some revocation row (definition) |
| JwtGate.Gate | api/src/Jwt.php:12-43 | the handler runs iff the header is non-empty, the token is not revoked and decodes, and it receives the decoded claims; otherwise 401 with "No token provided", "Token is expired" or "Invalid token: " + the decoder's message, in that order of checks |
| JwtGate.FaultLooksLikeBadToken | api/src/Jwt.php:34-42 | a storage error escaping a handler gets exactly the answer of a token that failed to decode with that message |
| JwtGate.RevokedBeforeDecode | api/src/Jwt.php:24-30 | a revoked token gets "Token is expired" whatever decoding would say |
| JwtGate.BearerTokenOfIssued | api/src/Jwt.php:13-18 | "Bearer " + an issued token gives back that token and is non-empty |
| JwtGate.IssuedTokenAdmitted | api/src/Jwt.php:34-38 | an unrevoked signed token passes before `exp`, with exactly its claims |
| JwtGate.ExpiredTokenRefused | api/src/Jwt.php:34-42 | from `exp` on, the same token is refused |
| JwtGate.AdmittedClaimsUnexpired | api/src/Jwt.php:34-38 | a handler only ever receives claims that have not expired |
| JwtGate.RevocationMatchesOneSpelling | api/src/Jwt.php:24-38 | after one spelling of a token is revoked, another spelling that decodes to the same claims is still admitted with them |
| UserAuth.LoginClaims | api/src/services/UserAuth.php:27-34 | the signed claims: the user's row as fetched before the update, expiring 3600 seconds from now (definition) |
| UserAuth.CredentialsMatch | api/src/services/UserAuth.php:20-26 | some user has the username and the password verifies against its digest (definition) |
| UserAuth.UserLogin | api/src/services/UserAuth.php:10-62 | 200 iff the username exists and the password verifies; then only that user's `last_login` changes, and the answer carries the claims (exp = now + 3600, the previous `last_login`) and their token; otherwise 401 and no change |
| UserAuth.LoginTokenAuthorizes | api/src/services/UserAuth.php:27-44 | the login token opens the gate for the next hour unless revoked, with a signed-in user |
| UserAuth.NewUser | api/src/services/UserAuth.php:100-110 | the inserted row verifies the password, is not admin and has never logged in |
| UserAuth.InsertUserKeepsValid | api/src/services/UserAuth.php:88-111 | inserting a fresh username under the next id keeps the invariant, and unique emails when the email is fresh |
| UserAuth.UserRegistration | api/src/services/UserAuth.php:64-125 | email duplicate → 500, then username duplicate → 500, no insert; otherwise one row under the next id and 201 with the id; empty fields are accepted; unique emails stay unique |
| UserAuth.UserLogout | api/src/services/UserAuth.php:128-158 | anonymous → 401, no change; a token wider than 512 characters → 401 "Invalid token: SQLSTATE[22001]…", then an `exp` outside the signed 32-bit `expired_at` → 401 "Invalid token: SQLSTATE[22003]…", both with no change; otherwise the token and `exp` are appended to the blacklist and the caller gets 401 "Invalid token: There is no active transaction" (see Findings) |
| UserAuth.UserLogoutIntended | api/src/services/UserAuth.php:136-151 | the same revocation, answered 200 "Logged out successfully"; a token or `exp` that does not fit its column is still refused |
| UserAuth.LogoutRevokesHeader | api/src/services/UserAuth.php:130-144 | after a logout that stored the token, the gate refuses the same header with "Token is expired" |
| UserAuth.WideTokenNeverRevoked | api/CreatTable_JWT_Blacklist.php:12 | a token wider than the VARCHAR(512) column is in no revocation row, so the gate judges it as if nothing were revoked |
| Borrowing.NewRecord | api/src/services/BorrowBook.php:65-66 | the inserted record is open for that book and user, with no return date |
| Borrowing.CloseKeepsKeys | api/src/services/ReturnBook.php:58-61 | closing records changes no id and no foreign key |
| Borrowing.NoOpenRecordLeft | api/src/services/ReturnBook.php:58-61 | with no open record of the book left, no user has one |
| Borrowing.BorrowKeepsValid | api/src/services/BorrowBook.php:59-70 | a successful borrow keeps the invariant |
| Borrowing.ReturnKeepsValid | api/src/services/ReturnBook.php:47-65 | a successful return keeps the invariant and leaves the pair no open record |
| Borrowing.BorrowBook | api/src/services/BorrowBook.php:30-82 | guards in order (400 params, 401, 400 "Book not available", 401 "Invalid token: SQLSTATE[23000]…" with rollback for a token user `users` lacks); success appends one open record, lends the book and echoes book, user, date and due date |
| Borrowing.ReturnBook | api/src/services/ReturnBook.php:19-71 | guards in order (400, 401, 404 without an open record of the pair); success closes every record of the pair, resets the book, and leaves no open record of the pair |
| Borrowing.HistoryRowCast | api/src/services/GetUserBorrowingHistory.php:53-56 | the casts give `book_id` and `id` as the stored integers and touch no other column |
| Borrowing.GetUserBorrowingHistory | api/src/services/GetUserBorrowingHistory.php:32-60 | 401 when anonymous; otherwise exactly the token user's rows in storage order, `id`/`book_id` as integers; no state changes |
| UserAdmin.AddUser | services/AddUser.php:14-61 | 400 when a field is empty; username duplicate → 409 before email duplicate → 409; otherwise one row and 200 with the id; unique emails stay unique |
| UserAdmin.ApplyUserFields | services/UpdateUser.php:75-80 | no field list changes username, admin flag or last login |
| UserAdmin.PatchUser | services/UpdateUser.php:54-80 | the new password (hashed) and email replace the old ones where non-empty (definition) |
| UserAdmin.PatchUserKeepsValid | services/UpdateUser.php:54-80 | rewriting password and email of an existing row keeps the invariant |
| UserAdmin.CollectUserFields | services/UpdateUser.php:43-65 | the list sets exactly the non-empty ones of new password (hashed) and email, and is empty iff both are |
| UserAdmin.UpdateUser | services/UpdateUser.php:12-86 | guards in order (400, 404, 401, 400 same password, 400 nothing to update); success replaces the non-empty ones of new password (hashed) and email in that row only |
| UserAdmin.SelectTarget | services/DeleteUser.php:50-85 | path id before body id (a present but empty path id hides the body's), then email, then username; none gives no selector |
| UserAdmin.DeleteUserKeepsValid | services/DeleteUser.php:91-102 | removing an unreferenced user with its likes and favorites keeps the invariant |
| UserAdmin.DeleteUser | services/DeleteUser.php:13-114 | guards in order (400, 404, 401, 403, 400 "Invalid request"); a failed lookup (401 "Invalid token: SQLSTATE[42000]…") or a history reference (401 "Invalid token: SQLSTATE[23000]…") rolls back; otherwise the target's row, likes and favorites go, and `success` is 1 iff a row went |
| BookAdmin.NewBook | services/AddBook.php:31 | the new book is available and lent to nobody |
| BookAdmin.AddBookKeepsValid | services/AddBook.php:31-41 | inserting an available book under the next id keeps the invariant |
| BookAdmin.AddBook | services/AddBook.php:8-49 | 400 without title or authors; otherwise one row with the five fields under the next id and 200 with the id |
| BookAdmin.ApplyBookFields | api/src/services/UpdateBook.php:41-70 | no field list changes `status` or `borrowed_by` |
| BookAdmin.ApplyBookFieldsSnoc | api/src/services/UpdateBook.php:70 | the fields apply left to right |
| BookAdmin.CollectBookFields | api/src/services/UpdateBook.php:35-60 | the list sets exactly the non-empty fields and is empty iff all five are |
| BookAdmin.PatchBook | api/src/services/UpdateBook.php:70-76 | each non-empty field replaces its column (definition) |
| BookAdmin.PatchBookKeepsValid | api/src/services/UpdateBook.php:70-76 | rewriting bibliographic columns keeps the invariant |
| BookAdmin.UpdateBook | api/src/services/UpdateBook.php:10-85 | 400, 404, 400 "Nothing changed" when all fields are empty; otherwise exactly the non-empty fields are overwritten, and the 200 answer says whether the row changed |
| BookAdmin.LentBookIsReferenced | services/DeleteBook.php:40-42 | a book on loan is named by a history row, so deleting it fails |
| BookAdmin.DeleteBookKeepsValid | services/DeleteBook.php:30-42 | removing an unreferenced book with its likes and favorites keeps the invariant |
| BookAdmin.DeleteBook | services/DeleteBook.php:9-50 | 400, 404, storage failure when history names the book; otherwise the book, its likes and favorites go; the rest stays |
| Reactions.AddLike | services/AddLike.php:15-59 | 401, 400 without a book; otherwise (token user, book) is in the likes, only that pair added, 200 |
| Reactions.DeleteLike | api/src/services/DeleteLike.php:12-57 | 401, 400 "Missing Book ID"; otherwise only that pair is removed, favorites untouched, 200 whether or not it was there |
| Reactions.AddFavorite | services/AddFavorite.php:13-55 | 401, 400; otherwise (token user, book) is in the favorites, only that pair added, 200 |
| Reactions.UnlikeUndoesLike | api/src/services/DeleteLike.php:47 | unliking a book not liked before restores the table exactly |
| Favorites.FavoriteBookIds | api/src/services/GetUserFavorites.php:40-43 | exactly the existing books the path user favorited, each once |
| Favorites.FavoriteRowCast | api/src/services/GetUserFavorites.php:47-50 | the casts give `book_id` and `status` as the stored integers and touch no other column |
| Favorites.FetchedFavorites | api/src/services/GetUserFavorites.php:40-43 | one fetched book row per favorited existing book |
| Favorites.GetUserFavorites | api/src/services/GetUserFavorites.php:22-56 | 401, 400 without a path user; otherwise one cast row per favorite of the path user (not the token's); no state changes |
| LegacyFavorites.GetUserFavorites | services/GetUserFavorites.php:9-36 | the same guards and join, rows as fetched |
| LegacyFavorites.CastsBridgeVariants | services/GetUserFavorites.php:27-36 | casting an older row's two columns gives the newer variant's row |
| PasswordReset.LocalSpan | api/src/services/ForgotPassword.php:18 | the longest prefix of local-part characters |
| PasswordReset.LastDot | api/src/services/ForgotPassword.php:18 | the last '.', or none |
| PasswordReset.LocalSpanStops | api/src/services/ForgotPassword.php:18 | the local span ends at the first character the local part may not hold |
| PasswordReset.LastDotIs | api/src/services/ForgotPassword.php:18 | a '.' followed by no other '.' is the last |
| PasswordReset.Match | api/src/services/ForgotPassword.php:18 | the anchored pattern, decided by scanning (definition) |
| PasswordReset.MatchIsShape | api/src/services/ForgotPassword.php:18 | the matcher accepts exactly the strings the pattern describes |
| PasswordReset.ShapeFacts | api/src/services/ForgotPassword.php:18 | a match has exactly one '@' and ends with '.' and two or more letters |
| PasswordReset.PregMatch | api/src/services/ForgotPassword.php:18-25 | `preg_match` with `$`: the pattern, optionally followed by one line feed (definition) |
| PasswordReset.TrailingLineFeed | api/src/services/ForgotPassword.php:18-25 | `$` lets `preg_match` accept one trailing line feed the pattern does not describe |
| PasswordReset.NoAtNoMatch | api/src/services/ForgotPassword.php:18-25 | text without '@' never matches |
| PasswordReset.Classify | api/src/services/ForgotPassword.php:14-36 | non-empty non-matching input is a username; matching or empty input is an email; null stays null |
| PasswordReset.Found | api/src/services/ForgotPassword.php:25-43 | `fetchColumn` yields an email PHP counts as true: by username, that user's email is non-empty; by email, some user has it and it is non-empty (definition) |
| PasswordReset.ForgotPassword | api/src/services/ForgotPassword.php:20-73 | 200 iff an email PHP counts as true is found, with one of the two mailer messages; otherwise 404 "User not found"; no state changes |
| PasswordReset.UsernameLookup | api/src/services/ForgotPassword.php:25-43 | text without '@' is looked up by username and is found iff that user has a non-empty email |
| PasswordReset.EmailLookup | api/src/services/ForgotPassword.php:31-43 | a matching address is looked up by email and found iff some user has it |

## Left out

- Routing, CORS, environment loading and the secret key: configuration. The key is a parameter. Only the routes at api/public/index.php:46-61 see a token; the book and user CRUD routes take none.
- Concurrency and isolation between requests: each handler is one atomic step.
- Real JWT and bcrypt: they are foreign code. HS256 is reduced to `Crypto.Hs256`. bcrypt is reduced to the part of the password it reads, its first 72 UTF-8 bytes (`Crypto.BcryptKey`); its hash is treated as free of collisions, and its cost factor is not modelled.
- The clock and `rand(0,1)` are parameters (`Clock`, `coin`). The commented-out mailer is not modelled.
- Date validation and formats: dates are opaque strings.
- Borrowing.BorrowBook: a `due_date` MySQL cannot read as a DATE makes the history insert fail in strict mode, which the token middleware answers 401 "Invalid token: SQLSTATE[22007]…" with rollback; the model accepts every non-empty due date and answers 200.
- JwtGate.Revoked: revocation matches the exact string only. The JWT library's lenient base64 reading accepts other spellings of a signed token (characters outside the alphabet are skipped, the unused low bits of the signature's last character are ignored), so a revoked token can be replayed respelled. `Crypto.Hs256` therefore does not assume that a token which decodes is the one `encode` produced, and `JwtGate.RevocationMatchesOneSpelling` states the consequence.
- MySQL's case-insensitive collation: string comparison is exact.
- `intval` on exponent, hexadecimal or overflowing input: only the decimal strings PDO produces are cast.
- Non-numeric ids in a request: ids are ints, 0 standing for every `empty()` value.
- Tokens whose `user_id` claim is a string: claims carry ints. With emulated prepares, UserLogin signs the fetched `user_id` as a decimal string; PHP's `empty()` treats it like the int it denotes, so the guards decide the same.
- Dead code: the `empty($user_id)` guards after the token check (BorrowBook, ReturnBook, GetUserBorrowingHistory, AddFavorite) can never fire.
- The `'overdue'` status: no handler writes it.
- AUTO_INCREMENT gaps left by failed inserts: counters advance only on success.
- `withJson` in BorrowBook and ReturnBook: each 400 answer is modelled as its intended `{"message": …}` body. The framework's plain response object may not offer that decorator.
- `GetAllBooks` and `GetAllUsers`: plain `SELECT *` listings with no decisions. `GetAllUsers` also returns password digests.
- `DeleteFavorite` is not part of this model: its route exists but its source is not available.
- Column defaults of `users` and `books` (`is_admin` 0, `last_login` NULL, `status` 0, `borrowed_by` -1): assumed, because their DDL is not available.
- Foreign keys of `user_likes` and `user_favorites`: unknown, so a like or favorite of an unknown book is stored.
- `jwt_blacklist.id` and `created_at` defaults: the model keeps the token, `exp` and the timestamp.
- Users whose emails repeat: UpdateUser does not check email uniqueness, so `UniqueEmails` is not part of the invariant. It is proved preserved by the two insert handlers only.
- Favorites.FavoriteBookIds, Lending.RecordsOf: the SQL result order is unspecified; the model fixes storage order.
- UserAdmin.DeleteUser: an email lookup that matches several users binds the first row's id; the model picks any matching row.
- PasswordReset.ForgotPassword: with duplicate usernames the first row would decide; the invariant excludes duplicates, and the model asks for any matching row with a non-empty email.
- Borrowing.GetUserBorrowingHistory, Favorites.GetUserFavorites: a storage error while reading (answered 401 by the token middleware) is not modelled.
- Http.FaultMessage: the message of an SQL error is modelled by its SQLSTATE class; the driver's error number and text that follow it are not.
- Non-strict SQL mode: a token wider than `jwt_blacklist.token` would be stored truncated instead of refused. The model follows strict mode, where the insert fails; in both modes the gate's lookup never finds the full token.
- The clock's `today` (SQL `NOW()` stored in a DATE column) and `phpDate` (PHP's `date('Y-m-d')`, echoed by BorrowBook) are independent values: the two time zones are not modelled.

## Findings

| source | as written | input that shows it | evidently intended | confidence | as-written member | corrected member |
|---|---|---|---|---|---|---|
| api/src/services/UserAuth.php:138-146 | the blacklist insert runs outside a transaction, then `$conn->commit()` is called | any signed-in logout with a token of at most 512 characters: `commit()` with no active transaction throws; the `catch (Exception …)` inside the namespace does not match, and the token middleware's catch answers 401 "Invalid token: There is no active transaction", yet the token is already revoked | answer 200 "Logged out successfully" after revoking the token | high (read from the code; not executed) | UserAuth.UserLogout | UserAuth.UserLogoutIntended |
