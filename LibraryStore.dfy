/**
 * The library database as the console program uses it: one object whose
 * fields are the three tables and their key counters. Each write statement
 * the program sends is a method that reassigns the tables it writes, and
 * each console command is a method that runs its steps in order, stopping
 * at the first failed check; the read-only lookups are the functions of
 * Queries. Each method is proved equal to the function of the same
 * operation: a Workflow function for the writes and the borrow and return
 * commands, `Queries.BorrowedBooks` for the borrowed-books listing.
 */
module LibraryStore {
  import opened Schema
  import opened Queries
  import opened Tables
  import Workflow

  class Library {
    var books: seq<Book>
    var members: seq<Member>
    var loans: seq<Loan>
    var nextBookId: RowId
    var nextMemberId: RowId
    var nextLoanId: RowId

    /** The tables and counters as a value. */
    function State(): Workflow.Db
      reads this
    {
      Workflow.Db(books, members, loans, nextBookId, nextMemberId, nextLoanId)
    }

    /** Keys are ordered, fresh and referenced only once generated. */
    ghost predicate Valid()
      reads this
    {
      Workflow.WellFormed(State())
    }

    /** Three empty tables. */
    constructor ()
      ensures Valid()
      ensures State() == Workflow.EmptyDb()
    {
      books, members, loans := [], [], [];
      nextBookId, nextMemberId, nextLoanId := 1, 1, 1;
    }

    /** `handleAddNewBook`: insert one book with the entered availability. */
    method AddNewBook(title: string, author: string, isAvailable: bool) returns (status: Status)
      requires Valid()
      modifies this
      ensures Valid()
      ensures Workflow.Step(State(), status) == Workflow.AddBook(old(State()), title, author, isAvailable)
    {
      books := books + [Book(nextBookId, title, author, isAvailable)];
      nextBookId := nextBookId + 1;
      status := DisplayStatus(1);
      assert State() == Workflow.AddBook(old(State()), title, author, isAvailable).db;
    }

    /** `handleRegisterNewMember`: insert one member. */
    method RegisterNewMember(name: string, email: string) returns (status: Status)
      requires Valid()
      modifies this
      ensures Valid()
      ensures Workflow.Step(State(), status) == Workflow.RegisterMember(old(State()), name, email)
    {
      members := members + [Member(nextMemberId, name, email)];
      nextMemberId := nextMemberId + 1;
      status := DisplayStatus(1);
      assert State() == Workflow.RegisterMember(old(State()), name, email).db;
    }

    /** `handleDeleteBook`: check that the book exists, then delete every match. */
    method DeleteBook(title: string, author: string) returns (outcome: DeleteOutcome)
      requires Valid()
      modifies this
      ensures Valid()
      ensures Workflow.Step(State(), outcome) == Workflow.DeleteBook(old(State()), title, author)
    {
      if !BookExists(books, title, author) {
        return BookMissing;
      }
      var before := |books|;
      books := WithoutBooks(books, title, author);
      outcome := BooksDeleted(DisplayStatus(before - |books|));
      assert State() == Workflow.DeleteBook(old(State()), title, author).db;
    }

    /**
     * `insertLoanIntoTheDatabase`: insert one loan due 14 days after
     * `today`. The foreign keys require the member and the book to exist.
     */
    method InsertLoan(memberId: RowId, bookId: RowId, today: int) returns (insertedRows: nat)
      requires Valid()
      requires exists i :: 0 <= i < |members| && members[i].id == memberId
      requires exists i :: 0 <= i < |books| && books[i].id == bookId
      modifies this
      ensures Valid()
      ensures Workflow.Step(State(), insertedRows) == Workflow.InsertLoan(old(State()), memberId, bookId, today)
    {
      loans := loans + [Loan(nextLoanId, bookId, memberId, today, today + LOAN_PERIOD_DAYS)];
      nextLoanId := nextLoanId + 1;
      insertedRows := 1;
    }

    /** `updateBookAvailability`: set the flag of the row with this id. */
    method UpdateBookAvailability(bookId: int, isAvailable: bool) returns (updatedBooksCount: nat)
      requires Valid()
      modifies this
      ensures Valid()
      ensures Workflow.Step(State(), updatedBooksCount) == Workflow.UpdateAvailability(old(State()), bookId, isAvailable)
    {
      updatedBooksCount := CountWithId(books, bookId);
      books := SetAvailability(books, bookId, isAvailable);
    }

    /** `handleDeleteLoan`: delete the loans of this book to this member. */
    method DeleteLoan(memberId: int, bookId: int) returns (deletedLoans: nat)
      requires Valid()
      modifies this
      ensures Valid()
      ensures Workflow.Step(State(), deletedLoans) == Workflow.DeleteLoan(old(State()), memberId, bookId)
    {
      var before := |loans|;
      loans := WithoutLoans(loans, bookId, memberId);
      deletedLoans := before - |loans|;
      assert State() == Workflow.DeleteLoan(old(State()), memberId, bookId).db;
    }

    /**
     * `handleBorrowBook`: resolve the member, resolve the book, check it is
     * not borrowed; only then insert the loan and mark the book unavailable.
     */
    method BorrowBook(email: string, title: string, author: string, today: int) returns (outcome: BorrowOutcome)
      requires Valid()
      modifies this
      ensures Valid()
      ensures Workflow.Step(State(), outcome) == Workflow.Borrow(old(State()), email, title, author, today)
    {
      var memberId := MemberId(members, email);
      if memberId == NOT_FOUND {
        return NotAMember;
      }
      var bookId := BookId(books, title, author);
      if bookId == NOT_FOUND {
        return UnknownBook;
      }
      if BookIsBorrowed(books, bookId) {
        return AlreadyBorrowed;
      }
      var insertedRows := InsertLoan(memberId, bookId, today);
      var updatedBooksCount := UpdateBookAvailability(bookId, false);
      outcome := Borrowed(DisplayStatus(insertedRows), DisplayStatus(updatedBooksCount));
    }

    /**
     * `handleReturnBook`: resolve the member (a miss is not checked) and the
     * book; delete the pair's loans and mark the book available regardless.
     */
    method ReturnBook(email: string, title: string, author: string) returns (outcome: ReturnOutcome)
      requires Valid()
      modifies this
      ensures Valid()
      ensures Workflow.Step(State(), outcome) == Workflow.Return(old(State()), email, title, author)
    {
      var memberId := MemberId(members, email);
      var bookId := BookId(books, title, author);
      if bookId == NOT_FOUND {
        return NoLoanableBook;
      }
      var deletedLoans := DeleteLoan(memberId, bookId);
      var updatedBooksCount := UpdateBookAvailability(bookId, true);
      outcome := Returned(DisplayStatus(deletedLoans), DisplayStatus(updatedBooksCount));
    }

    /**
     * `handleViewBorrowedBooks`: walk the books table, list every row that is
     * not available, and remember whether any was found; when none was,
     * the console says that all books are available.
     */
    method ViewBorrowedBooks() returns (listed: seq<Book>, allAvailable: bool)
      ensures listed == BorrowedBooks(books)
      ensures forall b :: b in listed <==> b in books && !b.available
      ensures allAvailable <==> forall i :: 0 <= i < |books| ==> books[i].available
    {
      var rows := books;
      listed := [];
      var hasResults := false;
      var i := 0;
      while i < |rows|
        invariant 0 <= i <= |rows|
        invariant listed == BorrowedBooks(rows[..i])
        invariant hasResults <==> listed != []
      {
        BorrowedBooksExtend(rows, i);
        if !rows[i].available {
          listed := listed + [rows[i]];
          hasResults := true;
        }
        i := i + 1;
      }
      assert rows[..i] == rows;
      NoBorrowedBooks(rows);
      allAvailable := !hasResults;
    }
  }
}
