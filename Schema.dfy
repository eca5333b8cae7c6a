/**
 * Rows of the three tables of the library database (books, members,
 * loans) and the outcomes the console reports for each operation.
 */
module Schema {

  /**
   * A generated key. The tables number their rows from a serial counter
   * that starts at 1, so no row id is ever the not-found sentinel.
   */
  type RowId = i: int | 1 <= i witness 1

  /** What a lookup returns when no row matches. */
  const NOT_FOUND: int := -1

  /** Days between a loan's loan_date and its return_date. */
  const LOAN_PERIOD_DAYS: int := 14

  /** A row of `books(book_id, title, author, is_available)`. */
  datatype Book = Book(id: RowId, title: string, author: string, available: bool)

  /** A row of `members(member_id, name, email)`. */
  datatype Member = Member(id: RowId, name: string, email: string)

  /**
   * A row of `loans(loan_id, book_id, member_id, loan_date, return_date)`;
   * dates are day numbers.
   */
  datatype Loan = Loan(id: RowId, bookId: RowId, memberId: RowId, loanDate: int, returnDate: int)

  /** The success or failure message printed after a write. */
  datatype Status = Succeeded | Failed

  /** The message a write reports: success exactly when it touched a row. */
  function DisplayStatus(rowsAffected: int): (s: Status)
    ensures s == Succeeded <==> rowsAffected > 0
  {
    if rowsAffected > 0 then Succeeded else Failed
  }

  /** How a borrow request ends: one of three early exits, or the two writes. */
  datatype BorrowOutcome =
    | NotAMember
    | UnknownBook
    | AlreadyBorrowed
    | Borrowed(loanStatus: Status, bookStatus: Status)

  /** How a return request ends: the early exit, or the delete and the update. */
  datatype ReturnOutcome =
    | NoLoanableBook
    | Returned(loanStatus: Status, bookStatus: Status)

  /** How a book deletion ends: the existence check fails, or the delete runs. */
  datatype DeleteOutcome =
    | BookMissing
    | BooksDeleted(status: Status)
}
