/**
 * The library database as a value, and each operation of the console
 * program as a function from the database before to the database after
 * (with what the operation reports). The borrow and the return are fixed
 * sequences of lookups and writes with early exits; nothing is rolled back.
 */
module Workflow {
  import opened Schema
  import opened Queries
  import opened Tables

  /** The three tables and the next key each table will generate. */
  datatype Db = Db(
    books: seq<Book>,
    members: seq<Member>,
    loans: seq<Loan>,
    nextBookId: RowId,
    nextMemberId: RowId,
    nextLoanId: RowId)

  /**
   * Keys are generated in increasing order and never reused, and a loan
   * only names book and member ids that were once generated.
   */
  ghost predicate WellFormed(db: Db) {
    BookIdsBelow(db.books, db.nextBookId) &&
    MemberIdsBelow(db.members, db.nextMemberId) &&
    LoanIdsBelow(db.loans, db.nextLoanId) &&
    forall i :: 0 <= i < |db.loans| ==>
      db.loans[i].bookId < db.nextBookId && db.loans[i].memberId < db.nextMemberId
  }

  /**
   * The database after an operation, with what the operation reports: a
   * status, a row count or an outcome.
   */
  datatype Step<T> = Step(db: Db, report: T)

  /** Three empty tables whose keys start at 1. */
  function EmptyDb(): (db: Db)
    ensures WellFormed(db)
    ensures db.books == [] && db.members == [] && db.loans == []
  {
    Db([], [], [], 1, 1, 1)
  }

  /**
   * `handleAddNewBook`: one row with a fresh id is appended, with whatever
   * availability was entered. The title and author then resolve to a book.
   */
  function AddBook(db: Db, title: string, author: string, isAvailable: bool): (r: Step<Status>)
    ensures r.db.members == db.members && r.db.loans == db.loans
    ensures r.db.books == db.books + [Book(db.nextBookId, title, author, isAvailable)]
    ensures r.db.nextBookId == db.nextBookId + 1
    ensures r.db.nextMemberId == db.nextMemberId && r.db.nextLoanId == db.nextLoanId
    ensures r.report == Succeeded
    ensures BookId(r.db.books, title, author) ==
      if BookExists(db.books, title, author) then BookId(db.books, title, author) else db.nextBookId
    ensures WellFormed(db) ==>
      WellFormed(r.db) && BookIsBorrowed(r.db.books, db.nextBookId) == !isAvailable
  {
    var book := Book(db.nextBookId, title, author, isAvailable);
    var books := db.books + [book];
    BookIdAppend(db.books, book, title, author);
    AppendBookKeepsIds(db.books, book, db.nextBookId);
    Step(db.(books := books, nextBookId := db.nextBookId + 1), DisplayStatus(1))
  }

  /**
   * `handleRegisterNewMember`: one row with a fresh id is appended. The
   * email then resolves to a member.
   */
  function RegisterMember(db: Db, name: string, email: string): (r: Step<Status>)
    ensures r.db.books == db.books && r.db.loans == db.loans
    ensures r.db.members == db.members + [Member(db.nextMemberId, name, email)]
    ensures r.db.nextMemberId == db.nextMemberId + 1
    ensures r.db.nextBookId == db.nextBookId && r.db.nextLoanId == db.nextLoanId
    ensures r.report == Succeeded
    ensures MemberId(r.db.members, email) ==
      if MemberId(db.members, email) != NOT_FOUND then MemberId(db.members, email) else db.nextMemberId
    ensures WellFormed(db) ==> WellFormed(r.db)
  {
    var member := Member(db.nextMemberId, name, email);
    var members := db.members + [member];
    MemberIdAppend(db.members, member, email);
    AppendMemberKeepsIds(db.members, member, db.nextMemberId);
    Step(db.(members := members, nextMemberId := db.nextMemberId + 1), DisplayStatus(1))
  }

  /**
   * `insertLoanIntoTheDatabase`: one loan row with a fresh id, the given
   * member and book, loaned today and due 14 days later.
   */
  function InsertLoan(db: Db, memberId: RowId, bookId: RowId, today: int): (r: Step<nat>)
    ensures r.db.books == db.books && r.db.members == db.members
    ensures |r.db.loans| == |db.loans| + 1 && r.db.loans[..|db.loans|] == db.loans
    ensures var loan := r.db.loans[|db.loans|];
      LoanFor(loan, bookId, memberId) && loan.loanDate == today &&
      loan.returnDate == loan.loanDate + LOAN_PERIOD_DAYS
    ensures r.db.loans[|db.loans|].id == db.nextLoanId && r.db.nextLoanId == db.nextLoanId + 1
    ensures r.db.nextBookId == db.nextBookId && r.db.nextMemberId == db.nextMemberId
    ensures r.report == 1
    ensures WellFormed(db) ==>
      forall i :: 0 <= i < |db.loans| ==> db.loans[i].id != r.db.loans[|db.loans|].id
    ensures WellFormed(db) && bookId < db.nextBookId && memberId < db.nextMemberId ==> WellFormed(r.db)
  {
    var loan := Loan(db.nextLoanId, bookId, memberId, today, today + LOAN_PERIOD_DAYS);
    var loans := db.loans + [loan];
    AppendLoanKeepsIds(db.loans, loan, db.nextLoanId);
    assert loans[..|db.loans|] == db.loans;
    Step(db.(loans := loans, nextLoanId := db.nextLoanId + 1), 1)
  }

  /**
   * `updateBookAvailability`: the flag of every row with this id is set;
   * the count of such rows is returned, 0 when the id is unknown.
   */
  function UpdateAvailability(db: Db, bookId: int, isAvailable: bool): (r: Step<nat>)
    ensures r.db.members == db.members && r.db.loans == db.loans
    ensures r.db.nextBookId == db.nextBookId && r.db.nextMemberId == db.nextMemberId && r.db.nextLoanId == db.nextLoanId
    ensures |r.db.books| == |db.books|
    ensures forall i :: 0 <= i < |db.books| ==>
      (r.db.books[i].id == db.books[i].id &&
       r.db.books[i].title == db.books[i].title && r.db.books[i].author == db.books[i].author)
    ensures forall i :: 0 <= i < |db.books| ==>
      r.db.books[i].available == if db.books[i].id == bookId then isAvailable else db.books[i].available
    ensures r.report == 0 <==> forall i :: 0 <= i < |db.books| ==> db.books[i].id != bookId
    ensures WellFormed(db) ==> WellFormed(r.db) && r.report <= 1
  {
    CountWithIdAtMostOne(db.books, bookId, db.nextBookId);
    SetAvailabilityKeepsIds(db.books, bookId, isAvailable, db.nextBookId);
    Step(db.(books := SetAvailability(db.books, bookId, isAvailable)), CountWithId(db.books, bookId))
  }

  /**
   * `handleDeleteLoan`: every loan of this book to this member goes; the
   * count is 0 exactly when there was none.
   */
  function DeleteLoan(db: Db, memberId: int, bookId: int): (r: Step<nat>)
    ensures r.db.books == db.books && r.db.members == db.members
    ensures r.db.nextBookId == db.nextBookId && r.db.nextMemberId == db.nextMemberId && r.db.nextLoanId == db.nextLoanId
    ensures forall l :: l in r.db.loans <==> l in db.loans && !LoanFor(l, bookId, memberId)
    ensures r.report == 0 <==> forall i :: 0 <= i < |db.loans| ==> !LoanFor(db.loans[i], bookId, memberId)
    ensures WellFormed(db) ==> WellFormed(r.db)
  {
    var kept := WithoutLoans(db.loans, bookId, memberId);
    WithoutLoansKeepsIds(db.loans, bookId, memberId, db.nextLoanId);
    var after := db.(loans := kept);
    assert WellFormed(db) ==> forall i :: 0 <= i < |kept| ==>
      kept[i].bookId < db.nextBookId && kept[i].memberId < db.nextMemberId by {
      if WellFormed(db) {
        forall i | 0 <= i < |kept|
          ensures kept[i].bookId < db.nextBookId && kept[i].memberId < db.nextMemberId
        {
          assert kept[i] in db.loans;
        }
      }
    }
    Step(after, |db.loans| - |kept|)
  }

  /**
   * `handleDeleteBook`: nothing happens unless some book has this title
   * and author; then every such book goes. The statement never touches
   * loans; the foreign-key check the database may apply to it is not part
   * of this model, so here a loan may outlive its book.
   */
  function DeleteBook(db: Db, title: string, author: string): (r: Step<DeleteOutcome>)
    ensures r.report == BookMissing <==> !BookExists(db.books, title, author)
    ensures r.report == BookMissing ==> r.db == db
    ensures r.db.members == db.members && r.db.loans == db.loans
    ensures r.db.nextBookId == db.nextBookId && r.db.nextMemberId == db.nextMemberId && r.db.nextLoanId == db.nextLoanId
    ensures r.report.BooksDeleted? ==> r.report.status == Succeeded
    ensures forall b :: b in r.db.books <==> b in db.books && !Titled(b, title, author)
    ensures BookId(r.db.books, title, author) == NOT_FOUND
    ensures WellFormed(db) ==> WellFormed(r.db)
  {
    if !BookExists(db.books, title, author) then Step(db, BookMissing)
    else
      var kept := WithoutBooks(db.books, title, author);
      WithoutBooksKeepsIds(db.books, title, author, db.nextBookId);
      assert forall i :: 0 <= i < |kept| ==> kept[i] in kept;
      Step(db.(books := kept), BooksDeleted(DisplayStatus(|db.books| - |kept|)))
  }

  /**
   * `handleBorrowBook`: three guards, all reads, in this order (the
   * member, the book, its availability); the first that fails ends the
   * request with the database untouched. Then a loan is inserted and the
   * book is marked unavailable.
   */
  function Borrow(db: Db, email: string, title: string, author: string, today: int): (r: Step<BorrowOutcome>)
    ensures r.report == NotAMember <==> MemberId(db.members, email) == NOT_FOUND
    ensures r.report == UnknownBook <==>
      MemberId(db.members, email) != NOT_FOUND && BookId(db.books, title, author) == NOT_FOUND
    ensures r.report == AlreadyBorrowed <==>
      MemberId(db.members, email) != NOT_FOUND && BookId(db.books, title, author) != NOT_FOUND &&
      BookIsBorrowed(db.books, BookId(db.books, title, author))
    ensures !r.report.Borrowed? ==> r.db == db
    ensures WellFormed(db) ==> WellFormed(r.db)
  {
    var memberId := MemberId(db.members, email);
    if memberId == NOT_FOUND then Step(db, NotAMember)
    else
      var bookId := BookId(db.books, title, author);
      if bookId == NOT_FOUND then Step(db, UnknownBook)
      else if BookIsBorrowed(db.books, bookId) then Step(db, AlreadyBorrowed)
      else
        var inserted := InsertLoan(db, memberId, bookId, today);
        var updated := UpdateAvailability(inserted.db, bookId, false);
        Step(updated.db, Borrowed(DisplayStatus(inserted.report), DisplayStatus(updated.report)))
  }

  /**
   * `handleReturnBook`: only an unknown title and author end the request
   * early. Otherwise the loans of the resolved pair are deleted (none when
   * the email is unknown) and the book is marked available in any case.
   */
  function Return(db: Db, email: string, title: string, author: string): (r: Step<ReturnOutcome>)
    ensures r.report == NoLoanableBook <==> BookId(db.books, title, author) == NOT_FOUND
    ensures r.report == NoLoanableBook ==> r.db == db
    ensures r.db.members == db.members
    ensures WellFormed(db) ==> WellFormed(r.db)
  {
    var memberId := MemberId(db.members, email);
    var bookId := BookId(db.books, title, author);
    if bookId == NOT_FOUND then Step(db, NoLoanableBook)
    else
      var deleted := DeleteLoan(db, memberId, bookId);
      var updated := UpdateAvailability(deleted.db, bookId, true);
      Step(updated.db, Returned(DisplayStatus(deleted.report), DisplayStatus(updated.report)))
  }

  /**
   * A successful borrow has exactly two effects: one loan is appended for
   * the resolved member and book, dated today and due 14 days later, and
   * the book is marked unavailable. Both writes report success.
   */
  lemma BorrowSucceeds(db: Db, email: string, title: string, author: string, today: int)
    requires Borrow(db, email, title, author, today).report.Borrowed?
    ensures BookId(db.books, title, author) != NOT_FOUND && MemberId(db.members, email) != NOT_FOUND
    ensures var Step(lent, outcome) := Borrow(db, email, title, author, today);
      var bookId := BookId(db.books, title, author);
      var memberId := MemberId(db.members, email);
      && lent.books == SetAvailability(db.books, bookId, false)
      && lent.members == db.members
      && lent.loans == db.loans + [Loan(db.nextLoanId, bookId, memberId, today, today + LOAN_PERIOD_DAYS)]
      && lent.nextBookId == db.nextBookId && lent.nextMemberId == db.nextMemberId
      && lent.nextLoanId == db.nextLoanId + 1
      && outcome == Borrowed(Succeeded, Succeeded)
  {
    var memberId := MemberId(db.members, email);
    var bookId := BookId(db.books, title, author);
    var inserted := InsertLoan(db, memberId, bookId, today);
    var updated := UpdateAvailability(inserted.db, bookId, false);
    assert updated.report != 0;
    assert Borrow(db, email, title, author, today) == Step(updated.db, Borrowed(Succeeded, Succeeded));
  }

  /**
   * A successful borrow adds exactly one loan, for the resolved member and
   * book, dated today and due 14 days later, under a loan id no other loan
   * has; the members table stays as it was.
   */
  lemma BorrowAddsLoan(db: Db, email: string, title: string, author: string, today: int)
    requires WellFormed(db)
    requires Borrow(db, email, title, author, today).report.Borrowed?
    ensures var lent := Borrow(db, email, title, author, today).db;
      var bookId := BookId(db.books, title, author);
      var memberId := MemberId(db.members, email);
      && lent.members == db.members
      && |lent.loans| == |db.loans| + 1 && lent.loans[..|db.loans|] == db.loans
      && LoanFor(lent.loans[|db.loans|], bookId, memberId)
      && lent.loans[|db.loans|].loanDate == today
      && lent.loans[|db.loans|].returnDate == today + 14
      && (forall i :: 0 <= i < |db.loans| ==> db.loans[i].id != lent.loans[|db.loans|].id)
  {
    BorrowSucceeds(db, email, title, author, today);
    var lent := Borrow(db, email, title, author, today).db;
    assert lent.loans[..|db.loans|] == db.loans;
  }

  /**
   * A successful borrow marks the resolved book unavailable and changes no
   * other row and no other column of the books table.
   */
  lemma BorrowMarksBook(db: Db, email: string, title: string, author: string, today: int)
    requires Borrow(db, email, title, author, today).report.Borrowed?
    ensures var lent := Borrow(db, email, title, author, today).db;
      var bookId := BookId(db.books, title, author);
      && |lent.books| == |db.books|
      && (forall i :: 0 <= i < |db.books| ==>
            lent.books[i] == if db.books[i].id == bookId then db.books[i].(available := false) else db.books[i])
      && BookIsBorrowed(lent.books, bookId)
  {
    BorrowSucceeds(db, email, title, author, today);
    BookIsBorrowedAfterSetAvailability(db.books, BookId(db.books, title, author), false);
  }

  /**
   * Once a borrow succeeds, asking for the same title and author again
   * (by anyone, on any day) is refused and changes nothing: the book is
   * never lent twice.
   */
  lemma BorrowAgainRejected(db: Db, email: string, title: string, author: string, today: int,
                            otherEmail: string, otherDay: int)
    requires Borrow(db, email, title, author, today).report.Borrowed?
    ensures var lent := Borrow(db, email, title, author, today).db;
      var again := Borrow(lent, otherEmail, title, author, otherDay);
      && again.db == lent
      && again.report == (if MemberId(db.members, otherEmail) == NOT_FOUND then NotAMember else AlreadyBorrowed)
  {
    var bookId := BookId(db.books, title, author);
    BorrowSucceeds(db, email, title, author, today);
    BookIdAfterSetAvailability(db.books, bookId, false, title, author);
    BookIsBorrowedAfterSetAvailability(db.books, bookId, false);
  }

  /**
   * Once a borrow succeeds, no later borrow (by anyone, for any title and
   * author, on any day) adds a second loan of the lent book id: whichever
   * row a lookup resolves to, a request that reaches the lent id is refused.
   */
  lemma LentBookNotLentAgain(db: Db, email: string, title: string, author: string, today: int,
                             otherEmail: string, otherTitle: string, otherAuthor: string, otherDay: int)
    requires Borrow(db, email, title, author, today).report.Borrowed?
    ensures var lent := Borrow(db, email, title, author, today).db;
      var again := Borrow(lent, otherEmail, otherTitle, otherAuthor, otherDay);
      again.report.Borrowed? ==>
        |again.db.loans| == |lent.loans| + 1 &&
        again.db.loans[|lent.loans|].bookId != BookId(db.books, title, author)
  {
    var lent := Borrow(db, email, title, author, today).db;
    BorrowMarksBook(db, email, title, author, today);
    if Borrow(lent, otherEmail, otherTitle, otherAuthor, otherDay).report.Borrowed? {
      BorrowSucceeds(lent, otherEmail, otherTitle, otherAuthor, otherDay);
    }
  }

  /**
   * A return of a known title and author has exactly two effects: the
   * loans of the resolved pair are deleted, and the book is marked
   * available. The update always reports success.
   */
  lemma ReturnRuns(db: Db, email: string, title: string, author: string)
    requires BookId(db.books, title, author) != NOT_FOUND
    ensures var Step(after, outcome) := Return(db, email, title, author);
      var bookId := BookId(db.books, title, author);
      var memberId := MemberId(db.members, email);
      && after.books == SetAvailability(db.books, bookId, true)
      && after.members == db.members
      && after.loans == WithoutLoans(db.loans, bookId, memberId)
      && after.nextBookId == db.nextBookId && after.nextMemberId == db.nextMemberId
      && after.nextLoanId == db.nextLoanId
      && outcome == Returned(DisplayStatus(|db.loans| - |after.loans|), Succeeded)
  {
  }

  /**
   * A return of a known title and author deletes exactly the loans of the
   * resolved pair and then marks the book available, whether or not a loan
   * was deleted; the delete reports success exactly when such a loan existed.
   */
  lemma ReturnEffects(db: Db, email: string, title: string, author: string)
    requires BookId(db.books, title, author) != NOT_FOUND
    ensures var Step(after, outcome) := Return(db, email, title, author);
      var bookId := BookId(db.books, title, author);
      var memberId := MemberId(db.members, email);
      && after.loans == WithoutLoans(db.loans, bookId, memberId)
      && |after.books| == |db.books|
      && (forall i :: 0 <= i < |db.books| ==>
            after.books[i] == if db.books[i].id == bookId then db.books[i].(available := true) else db.books[i])
      && !BookIsBorrowed(after.books, bookId)
      && outcome == Returned(
           if exists i :: 0 <= i < |db.loans| && LoanFor(db.loans[i], bookId, memberId) then Succeeded else Failed,
           Succeeded)
  {
    ReturnRuns(db, email, title, author);
    BookIsBorrowedAfterSetAvailability(db.books, BookId(db.books, title, author), true);
  }

  /**
   * A return that deletes no loan (the email is unknown, or this member
   * holds no loan of this book) still marks the book available, and
   * reports the delete as failed.
   */
  lemma ReturnWithoutLoanFreesBook(db: Db, email: string, title: string, author: string)
    requires BookId(db.books, title, author) != NOT_FOUND
    requires var bookId := BookId(db.books, title, author);
      var memberId := MemberId(db.members, email);
      memberId == NOT_FOUND || forall i :: 0 <= i < |db.loans| ==> !LoanFor(db.loans[i], bookId, memberId)
    ensures var Step(after, outcome) := Return(db, email, title, author);
      && after.loans == db.loans
      && !BookIsBorrowed(after.books, BookId(db.books, title, author))
      && outcome == Returned(Failed, Succeeded)
  {
    var bookId := BookId(db.books, title, author);
    var memberId := MemberId(db.members, email);
    WithoutLoansUnchanged(db.loans, bookId, memberId);
    ReturnEffects(db, email, title, author);
  }

  /**
   * Borrowing and then returning with the same email, title and author
   * gives back the books table and the members table exactly, removes the
   * loans of that pair (so the loans table is as before when the member
   * held no such loan), and both writes of the return succeed.
   */
  lemma BorrowThenReturn(db: Db, email: string, title: string, author: string, today: int)
    requires WellFormed(db)
    requires Borrow(db, email, title, author, today).report.Borrowed?
    ensures var lent := Borrow(db, email, title, author, today).db;
      var Step(back, outcome) := Return(lent, email, title, author);
      var bookId := BookId(db.books, title, author);
      var memberId := MemberId(db.members, email);
      && back.books == db.books
      && back.members == db.members
      && back.loans == WithoutLoans(db.loans, bookId, memberId)
      && ((forall i :: 0 <= i < |db.loans| ==> !LoanFor(db.loans[i], bookId, memberId)) ==> back.loans == db.loans)
      && outcome == Returned(Succeeded, Succeeded)
  {
    var lent := Borrow(db, email, title, author, today).db;
    var bookId := BookId(db.books, title, author);
    var memberId := MemberId(db.members, email);
    BorrowAddsLoan(db, email, title, author, today);
    BorrowMarksBook(db, email, title, author, today);
    BookIdAfterSetAvailability(db.books, bookId, false, title, author);
    assert BookId(lent.books, title, author) == bookId;
    ReturnEffects(lent, email, title, author);
    var loan := lent.loans[|db.loans|];
    assert lent.loans == db.loans + [loan];
    WithoutLoansAppend(db.loans, loan, bookId, memberId);
    SetAvailabilityRoundTrip(db.books, bookId, db.nextBookId);
    assert lent.books == SetAvailability(db.books, bookId, false);
    if forall i :: 0 <= i < |db.loans| ==> !LoanFor(db.loans[i], bookId, memberId) {
      WithoutLoansUnchanged(db.loans, bookId, memberId);
    }
  }

  /**
   * A return by a different registered member right after a borrow marks
   * the book available while the borrower's loan is still in the table:
   * availability and open loans disagree afterwards.
   */
  lemma ReturnByOtherMemberFreesLentBook(db: Db, email: string, otherEmail: string,
                                         title: string, author: string, today: int)
    requires WellFormed(db)
    requires Borrow(db, email, title, author, today).report.Borrowed?
    requires MemberId(db.members, otherEmail) != MemberId(db.members, email)
    ensures var lent := Borrow(db, email, title, author, today).db;
      var back := Return(lent, otherEmail, title, author).db;
      && !BookIsBorrowed(back.books, BookId(db.books, title, author))
      && lent.loans[|db.loans|] in back.loans
  {
    var lent := Borrow(db, email, title, author, today).db;
    var bookId := BookId(db.books, title, author);
    BorrowAddsLoan(db, email, title, author, today);
    BorrowMarksBook(db, email, title, author, today);
    BookIdAfterSetAvailability(db.books, bookId, false, title, author);
    ReturnEffects(lent, otherEmail, title, author);
    assert lent.loans[|db.loans|] in lent.loans;
  }

  /**
   * Adding a book as not available yields a book the availability check
   * calls borrowed although no loan names it.
   */
  lemma AddedUnavailableBookHasNoLoan(db: Db, title: string, author: string)
    requires WellFormed(db)
    ensures var added := AddBook(db, title, author, false).db;
      && BookIsBorrowed(added.books, db.nextBookId)
      && forall i :: 0 <= i < |added.loans| ==> added.loans[i].bookId != db.nextBookId
  {
  }

  /**
   * One member and the book "Dune" by "Herbert", available: the member
   * borrows it on day `today` (one loan, due 14 days later, the book now
   * unavailable); a second request is refused; an unregistered email is
   * refused; the return restores the book and empties the loans table.
   */
  lemma DuneScenario(today: int)
    ensures var db := Db([Book(1, "Dune", "Herbert", true)], [Member(1, "A", "a@x.com")], [], 2, 2, 1);
      var Step(lent, outcome) := Borrow(db, "a@x.com", "Dune", "Herbert", today);
      && outcome == Borrowed(Succeeded, Succeeded)
      && lent.books == [Book(1, "Dune", "Herbert", false)]
      && lent.loans == [Loan(1, 1, 1, today, today + 14)]
      && Borrow(lent, "a@x.com", "Dune", "Herbert", today) == Step(lent, AlreadyBorrowed)
      && Borrow(db, "ghost@x.com", "Dune", "Herbert", today) == Step(db, NotAMember)
      && Return(lent, "a@x.com", "Dune", "Herbert") ==
           Step(db.(nextLoanId := 2), Returned(Succeeded, Succeeded))
  {
    var db := Db([Book(1, "Dune", "Herbert", true)], [Member(1, "A", "a@x.com")], [], 2, 2, 1);
    assert MemberId(db.members, "a@x.com") == 1;
    assert MemberId(db.members, "ghost@x.com") == NOT_FOUND;
    assert BookId(db.books, "Dune", "Herbert") == 1;
    BorrowSucceeds(db, "a@x.com", "Dune", "Herbert", today);
    var lent := Borrow(db, "a@x.com", "Dune", "Herbert", today).db;
    assert lent.books == [Book(1, "Dune", "Herbert", false)];
    assert lent.loans == [Loan(1, 1, 1, today, today + 14)];
    BorrowAgainRejected(db, "a@x.com", "Dune", "Herbert", today, "a@x.com", today);
    BorrowThenReturn(db, "a@x.com", "Dune", "Herbert", today);
    assert lent.nextLoanId == 2;
  }
}
