/** What a handler answers: an HTTP status and the JSON body it writes,
    one constructor per body shape the handlers produce. */
module Http {
  import opened Php
  import opened Crypto

  datatype Body =
    | Error(error: string)                      // {"error": …}
    | Message(message: string)                  // {"message": …}
    | Success                                   // {"success": true}
    | SuccessMessage(message: string)           // {"success": true, "message": …}
    | SuccessFlag(flag: int)                    // {"success": 0 | 1}
    | SuccessNote(note: string)                 // {"success": "<text>"}
    | SuccessId(key: string, id: string)        // {"success": true, <key>: lastInsertId()}
    | InsertId(newUserId: string)               // {"user_id": lastInsertId()}
    | BorrowReceipt(bookId: int, userId: int, borrowedDate: string, dueDate: string)
                                                // {"success": true, "message": "Book borrowed successfully", "borrow_record": …}
    | LoginResult(claims: Claims, token: string) // the signed claims plus "token"
    | Rows(rows: seq<Row>)                      // a JSON array of fetched rows
    | Uncaught                                  // an exception escaped the handler; the framework's error middleware answers

  datatype Response = Response(status: int, body: Body)

  /** The answer of every token-reading handler when `Anonymous(jwt)` holds. */
  const Unauthorized := Response(401, Error("Unauthorized"))

  /** An exception that no `catch` in the handler matches: the namespaced
      handlers name `PDOException` without importing it, so storage errors
      escape them. On a route without the token middleware the framework's
      error middleware answers 500, and the open transaction is rolled back
      when the handler's connection goes away. */
  const StorageFailure := Response(500, Uncaught)

  /** The storage errors a handler lets escape, by cause. */
  datatype Fault =
    | NoActiveTransaction   // `commit()` with no transaction open
    | DataTooLong           // a value longer than its VARCHAR column (strict mode)
    | OutOfRange            // a number outside its INT column (strict mode)
    | ForeignKeyViolation   // a foreign key refuses an insert or a delete
    | EmptyWhereClause      // `DELETE FROM users WHERE ` with nothing after WHERE

  /** The exception's message. For the SQL errors this is the SQLSTATE class as
      PDO words it; the driver's error number and text that follow are not
      modelled. */
  function FaultMessage(f: Fault): string {
    match f
    case NoActiveTransaction => "There is no active transaction"
    case DataTooLong => "SQLSTATE[22001]: String data, right truncated"
    case OutOfRange => "SQLSTATE[22003]: Numeric value out of range"
    case ForeignKeyViolation => "SQLSTATE[23000]: Integrity constraint violation"
    case EmptyWhereClause => "SQLSTATE[42000]: Syntax error or access violation"
  }

  /** The prefix of every 401 the token middleware's `catch` writes. */
  const InvalidToken := "Invalid token: "

  /** An exception escaping a handler behind the token middleware: its
      `catch (Exception $e)`, written outside any namespace, wraps the call
      of the handler and so catches storage errors too, answering them like
      a token that does not decode. The handler's connection goes away with
      the exception, which rolls back its open transaction. */
  function Caught(f: Fault): (r: Response)
    ensures r.status == 401 && r.body.Error?
    ensures |InvalidToken| < |r.body.error| && r.body.error[..|InvalidToken|] == InvalidToken
  {
    Response(401, Error(InvalidToken + FaultMessage(f)))
  }
}
