/**
 * The writes of the database as functions from a table to the new table:
 * the availability update, the loan delete and the book delete. Also the
 * order of generated keys (each table's ids increase in row order and
 * stay below the table's counter), and what each write does to it and to
 * the lookups.
 */
module Tables {
  import opened Schema
  import opened Queries

  /** Book ids increase in row order and are all below `next`. */
  ghost predicate BookIdsBelow(books: seq<Book>, next: int) {
    (forall i, j :: 0 <= i < j < |books| ==> books[i].id < books[j].id) &&
    (forall i :: 0 <= i < |books| ==> books[i].id < next)
  }

  /** Member ids increase in row order and are all below `next`. */
  ghost predicate MemberIdsBelow(members: seq<Member>, next: int) {
    (forall i, j :: 0 <= i < j < |members| ==> members[i].id < members[j].id) &&
    (forall i :: 0 <= i < |members| ==> members[i].id < next)
  }

  /** Loan ids increase in row order and are all below `next`. */
  ghost predicate LoanIdsBelow(loans: seq<Loan>, next: int) {
    (forall i, j :: 0 <= i < j < |loans| ==> loans[i].id < loans[j].id) &&
    (forall i :: 0 <= i < |loans| ==> loans[i].id < next)
  }

  /**
   * `UPDATE books SET is_available = ? WHERE book_id = ?`: every row with
   * this id gets the new flag; every other row, and every other column,
   * stays as it was.
   */
  function SetAvailability(books: seq<Book>, bookId: int, available: bool): (updated: seq<Book>)
    ensures |updated| == |books|
    ensures forall i :: 0 <= i < |books| ==>
      updated[i] == if books[i].id == bookId then books[i].(available := available) else books[i]
  {
    if |books| == 0 then []
    else
      var head := if books[0].id == bookId then books[0].(available := available) else books[0];
      [head] + SetAvailability(books[1..], bookId, available)
  }

  /** The number of rows the availability update touches. */
  function CountWithId(books: seq<Book>, bookId: int): (n: nat)
    ensures n <= |books|
    ensures n == 0 <==> forall i :: 0 <= i < |books| ==> books[i].id != bookId
  {
    if |books| == 0 then 0
    else
      assert forall i :: 1 <= i < |books| ==> books[i] == books[1..][i - 1];
      (if books[0].id == bookId then 1 else 0) + CountWithId(books[1..], bookId)
  }

  /** A loan of this book to this member. */
  predicate LoanFor(l: Loan, bookId: int, memberId: int) {
    l.bookId == bookId && l.memberId == memberId
  }

  /**
   * `DELETE FROM loans WHERE book_id = ? AND member_id = ?`: the loans
   * that remain, in table order.
   */
  function WithoutLoans(loans: seq<Loan>, bookId: int, memberId: int): (kept: seq<Loan>)
    ensures |kept| <= |loans|
    ensures forall l :: l in kept <==> l in loans && !LoanFor(l, bookId, memberId)
    ensures |kept| == |loans| <==> forall i :: 0 <= i < |loans| ==> !LoanFor(loans[i], bookId, memberId)
  {
    if |loans| == 0 then []
    else
      assert loans == [loans[0]] + loans[1..];
      assert forall i :: 1 <= i < |loans| ==> loans[i] == loans[1..][i - 1];
      var rest := WithoutLoans(loans[1..], bookId, memberId);
      if LoanFor(loans[0], bookId, memberId) then rest else [loans[0]] + rest
  }

  /**
   * `DELETE FROM books WHERE title = ? AND author = ?`: the books that
   * remain, in table order; as many rows go as the existence count saw.
   */
  function WithoutBooks(books: seq<Book>, title: string, author: string): (kept: seq<Book>)
    ensures forall b :: b in kept <==> b in books && !Titled(b, title, author)
    ensures |kept| + CountBooks(books, title, author) == |books|
  {
    if |books| == 0 then []
    else
      assert books == [books[0]] + books[1..];
      var rest := WithoutBooks(books[1..], title, author);
      if Titled(books[0], title, author) then rest else [books[0]] + rest
  }

  /** With increasing ids, at most one row has a given id. */
  lemma {:induction false} CountWithIdAtMostOne(books: seq<Book>, bookId: int, next: int)
    ensures BookIdsBelow(books, next) ==> CountWithId(books, bookId) <= 1
  {
    if |books| > 0 && BookIdsBelow(books, next) {
      CountWithIdAtMostOne(books[1..], bookId, next);
      if books[0].id == bookId {
        assert forall i :: 0 <= i < |books| - 1 ==> books[1..][i].id != bookId;
      }
    }
  }

  /** The availability update keeps the order of book ids. */
  lemma SetAvailabilityKeepsIds(books: seq<Book>, bookId: int, available: bool, next: int)
    ensures BookIdsBelow(books, next) ==> BookIdsBelow(SetAvailability(books, bookId, available), next)
  {
    var updated := SetAvailability(books, bookId, available);
    assert forall i :: 0 <= i < |books| ==> updated[i].id == books[i].id;
  }

  /** A book whose key is below every later key may stand first. */
  lemma PrependBookKeepsIds(book: Book, rest: seq<Book>, next: int)
    requires BookIdsBelow(rest, next) && book.id < next
    requires forall k :: 0 <= k < |rest| ==> book.id < rest[k].id
    ensures BookIdsBelow([book] + rest, next)
  {
  }

  /** A loan whose key is below every later key may stand first. */
  lemma PrependLoanKeepsIds(loan: Loan, rest: seq<Loan>, next: int)
    requires LoanIdsBelow(rest, next) && loan.id < next
    requires forall k :: 0 <= k < |rest| ==> loan.id < rest[k].id
    ensures LoanIdsBelow([loan] + rest, next)
  {
  }

  /** Deleting books keeps the order of the remaining ids. */
  lemma {:induction false} WithoutBooksKeepsIds(books: seq<Book>, title: string, author: string, next: int)
    ensures BookIdsBelow(books, next) ==> BookIdsBelow(WithoutBooks(books, title, author), next)
  {
    if |books| > 0 && BookIdsBelow(books, next) {
      var rest := WithoutBooks(books[1..], title, author);
      assert BookIdsBelow(books[1..], next);
      WithoutBooksKeepsIds(books[1..], title, author, next);
      forall k | 0 <= k < |rest| ensures books[0].id < rest[k].id {
        assert rest[k] in rest;
        var m :| 0 <= m < |books| - 1 && books[1..][m] == rest[k];
        assert books[m + 1] == rest[k];
      }
      if !Titled(books[0], title, author) {
        PrependBookKeepsIds(books[0], rest, next);
      }
    }
  }

  /** Deleting loans keeps the order of the remaining ids. */
  lemma {:induction false} WithoutLoansKeepsIds(loans: seq<Loan>, bookId: int, memberId: int, next: int)
    ensures LoanIdsBelow(loans, next) ==> LoanIdsBelow(WithoutLoans(loans, bookId, memberId), next)
  {
    if |loans| > 0 && LoanIdsBelow(loans, next) {
      var rest := WithoutLoans(loans[1..], bookId, memberId);
      assert LoanIdsBelow(loans[1..], next);
      WithoutLoansKeepsIds(loans[1..], bookId, memberId, next);
      forall k | 0 <= k < |rest| ensures loans[0].id < rest[k].id {
        assert rest[k] in rest;
        var m :| 0 <= m < |loans| - 1 && loans[1..][m] == rest[k];
        assert loans[m + 1] == rest[k];
      }
      if !LoanFor(loans[0], bookId, memberId) {
        PrependLoanKeepsIds(loans[0], rest, next);
      }
    }
  }

  /** A loan of the deleted pair appended last goes with the others. */
  lemma {:induction false} WithoutLoansAppend(loans: seq<Loan>, l: Loan, bookId: int, memberId: int)
    requires LoanFor(l, bookId, memberId)
    ensures WithoutLoans(loans + [l], bookId, memberId) == WithoutLoans(loans, bookId, memberId)
  {
    if |loans| == 0 {
      assert loans + [l] == [l];
      assert [l][1..] == [];
    } else {
      assert (loans + [l])[0] == loans[0];
      assert (loans + [l])[1..] == loans[1..] + [l];
      WithoutLoansAppend(loans[1..], l, bookId, memberId);
    }
  }

  /** The availability update does not change which book a title and author resolve to. */
  lemma {:induction false} BookIdAfterSetAvailability(books: seq<Book>, bookId: int, available: bool, title: string, author: string)
    ensures BookId(SetAvailability(books, bookId, available), title, author) == BookId(books, title, author)
  {
    if |books| > 0 {
      var updated := SetAvailability(books, bookId, available);
      assert updated[1..] == SetAvailability(books[1..], bookId, available);
      BookIdAfterSetAvailability(books[1..], bookId, available, title, author);
    }
  }

  /** After the update, the availability check on that id reads the flag just written. */
  lemma {:induction false} BookIsBorrowedAfterSetAvailability(books: seq<Book>, bookId: int, available: bool)
    requires exists i :: 0 <= i < |books| && books[i].id == bookId
    ensures BookIsBorrowed(SetAvailability(books, bookId, available), bookId) == !available
  {
    var updated := SetAvailability(books, bookId, available);
    assert updated[1..] == SetAvailability(books[1..], bookId, available);
    if books[0].id != bookId {
      var i :| 0 <= i < |books| && books[i].id == bookId;
      assert books[1..][i - 1].id == bookId;
      BookIsBorrowedAfterSetAvailability(books[1..], bookId, available);
    }
  }

  /**
   * Marking an available book unavailable and then available again gives
   * back the table it started from, when ids are unique.
   */
  lemma SetAvailabilityRoundTrip(books: seq<Book>, bookId: int, next: int)
    requires BookIdsBelow(books, next)
    requires !BookIsBorrowed(books, bookId)
    ensures SetAvailability(SetAvailability(books, bookId, false), bookId, true) == books
  {
  }

  /** Deleting a pair that no loan has leaves the loans table as it was. */
  lemma {:induction false} WithoutLoansUnchanged(loans: seq<Loan>, bookId: int, memberId: int)
    requires forall i :: 0 <= i < |loans| ==> !LoanFor(loans[i], bookId, memberId)
    ensures WithoutLoans(loans, bookId, memberId) == loans
  {
    if |loans| > 0 {
      assert forall i :: 0 <= i < |loans| - 1 ==> loans[1..][i] == loans[i + 1];
      WithoutLoansUnchanged(loans[1..], bookId, memberId);
      assert [loans[0]] + loans[1..] == loans;
    }
  }

  /**
   * After a book is appended, a title and author resolve as before when
   * they already matched a row, and to the new row otherwise.
   */
  lemma {:induction false} BookIdAppend(books: seq<Book>, book: Book, title: string, author: string)
    ensures BookId(books + [book], title, author) ==
      if BookId(books, title, author) != NOT_FOUND then BookId(books, title, author)
      else if Titled(book, title, author) then book.id
      else NOT_FOUND
  {
    if |books| > 0 {
      assert (books + [book])[0] == books[0];
      assert (books + [book])[1..] == books[1..] + [book];
      BookIdAppend(books[1..], book, title, author);
    } else {
      assert books + [book] == [book];
      assert [book][1..] == [];
    }
  }

  /**
   * After a member is appended, an email resolves as before when it
   * already matched a row, and to the new row otherwise.
   */
  lemma {:induction false} MemberIdAppend(members: seq<Member>, member: Member, email: string)
    ensures MemberId(members + [member], email) ==
      if MemberId(members, email) != NOT_FOUND then MemberId(members, email)
      else if member.email == email then member.id
      else NOT_FOUND
  {
    if |members| > 0 {
      assert (members + [member])[0] == members[0];
      assert (members + [member])[1..] == members[1..] + [member];
      MemberIdAppend(members[1..], member, email);
    } else {
      assert members + [member] == [member];
      assert [member][1..] == [];
    }
  }

  /** A book appended with the next key keeps the order of book ids and is the row its id finds. */
  lemma AppendBookKeepsIds(books: seq<Book>, book: Book, next: int)
    ensures BookIdsBelow(books, next) && book.id == next ==>
      BookIdsBelow(books + [book], next + 1) && BookIsBorrowed(books + [book], next) == !book.available
  {
    if BookIdsBelow(books, next) && book.id == next {
      var books' := books + [book];
      assert forall i :: 0 <= i < |books| ==> books'[i] == books[i];
      assert books'[|books|] == book;
    }
  }

  /** A member appended with the next key keeps the order of member ids. */
  lemma AppendMemberKeepsIds(members: seq<Member>, member: Member, next: int)
    ensures MemberIdsBelow(members, next) && member.id == next ==>
      MemberIdsBelow(members + [member], next + 1)
  {
  }

  /** A loan appended with the next key keeps the order of loan ids. */
  lemma AppendLoanKeepsIds(loans: seq<Loan>, loan: Loan, next: int)
    ensures LoanIdsBelow(loans, next) && loan.id == next ==>
      LoanIdsBelow(loans + [loan], next + 1)
  {
  }
}
