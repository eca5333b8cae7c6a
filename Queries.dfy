/**
 * Read-only queries over the tables: the lookups that turn the email or
 * the title and author typed at the console into a row id, the count
 * behind the existence check, the availability check that guards a
 * borrow, and the selection of borrowed books. None of them changes a
 * table. Where several rows match, the first one in table order answers.
 */
module Queries {
  import opened Schema

  /** A book row with exactly this title and this author. */
  predicate Titled(b: Book, title: string, author: string) {
    b.title == title && b.author == author
  }

  /**
   * `getMemberId`: the id of the first member whose email is `email`,
   * or NOT_FOUND when there is none.
   */
  function MemberId(members: seq<Member>, email: string): (id: int)
    ensures id == NOT_FOUND || id >= 1
    ensures id == NOT_FOUND <==> forall i :: 0 <= i < |members| ==> members[i].email != email
    ensures id != NOT_FOUND ==>
      exists i :: 0 <= i < |members| && members[i].email == email && members[i].id == id &&
        forall j :: 0 <= j < i ==> members[j].email != email
  {
    if |members| == 0 then NOT_FOUND
    else if members[0].email == email then members[0].id
    else
      var id := MemberId(members[1..], email);
      assert forall i :: 1 <= i < |members| ==> members[i] == members[1..][i - 1];
      id
  }

  /**
   * `getBookId`: the id of the first book with this title and author,
   * or NOT_FOUND when there is none.
   */
  function BookId(books: seq<Book>, title: string, author: string): (id: int)
    ensures id == NOT_FOUND || id >= 1
    ensures id == NOT_FOUND <==> forall i :: 0 <= i < |books| ==> !Titled(books[i], title, author)
    ensures id != NOT_FOUND ==>
      exists i :: 0 <= i < |books| && Titled(books[i], title, author) && books[i].id == id &&
        forall j :: 0 <= j < i ==> !Titled(books[j], title, author)
  {
    if |books| == 0 then NOT_FOUND
    else if Titled(books[0], title, author) then books[0].id
    else
      var id := BookId(books[1..], title, author);
      assert forall i :: 1 <= i < |books| ==> books[i] == books[1..][i - 1];
      id
  }

  /** `SELECT COUNT(*) FROM books WHERE title = ? AND author = ?`. */
  function CountBooks(books: seq<Book>, title: string, author: string): (n: nat)
    ensures n <= |books|
    ensures n == 0 <==> forall i :: 0 <= i < |books| ==> !Titled(books[i], title, author)
  {
    if |books| == 0 then 0
    else
      assert forall i :: 1 <= i < |books| ==> books[i] == books[1..][i - 1];
      (if Titled(books[0], title, author) then 1 else 0) + CountBooks(books[1..], title, author)
  }

  /** `doesBookExist`: some book has this title and author. */
  function BookExists(books: seq<Book>, title: string, author: string): (found: bool)
    ensures found <==> exists i :: 0 <= i < |books| && Titled(books[i], title, author)
    ensures found <==> BookId(books, title, author) != NOT_FOUND
  {
    CountBooks(books, title, author) > 0
  }

  /**
   * `bookIsBorrowed`: the negated availability flag of the first row with
   * this id; a missing row counts as borrowed, so an unknown id is never lent.
   */
  function BookIsBorrowed(books: seq<Book>, bookId: int): (borrowed: bool)
    ensures (forall i :: 0 <= i < |books| ==> books[i].id != bookId) ==> borrowed
    ensures forall i ::
      (0 <= i < |books| && books[i].id == bookId && forall j :: 0 <= j < i ==> books[j].id != bookId) ==>
        (borrowed <==> !books[i].available)
  {
    if |books| == 0 then true
    else if books[0].id == bookId then !books[0].available
    else
      assert forall i :: 1 <= i < |books| ==> books[i] == books[1..][i - 1];
      BookIsBorrowed(books[1..], bookId)
  }

  /**
   * `SELECT * FROM books WHERE is_available = false`: the unavailable rows,
   * in table order.
   */
  function BorrowedBooks(books: seq<Book>): (listed: seq<Book>)
    ensures |listed| <= |books|
    ensures forall b :: b in listed <==> b in books && !b.available
  {
    if |books| == 0 then []
    else
      var last := books[|books| - 1];
      assert books == books[..|books| - 1] + [last];
      BorrowedBooks(books[..|books| - 1]) + (if last.available then [] else [last])
  }

  /** Reading one more row lists it exactly when it is not available. */
  lemma BorrowedBooksExtend(books: seq<Book>, i: int)
    requires 0 <= i < |books|
    ensures BorrowedBooks(books[..i + 1]) ==
      BorrowedBooks(books[..i]) + (if books[i].available then [] else [books[i]])
  {
    assert books[..i + 1][..i] == books[..i];
  }

  /** Nothing is listed exactly when every row is available. */
  lemma NoBorrowedBooks(books: seq<Book>)
    ensures BorrowedBooks(books) == [] <==> forall i :: 0 <= i < |books| ==> books[i].available
  {
    if BorrowedBooks(books) != [] {
      assert BorrowedBooks(books)[0] in BorrowedBooks(books);
    }
  }

  /**
   * Each unavailable row is listed as many times as the table holds it, and
   * no available row is listed: the listing is the unavailable part of the
   * table, without losses or repeats.
   */
  lemma {:induction false} BorrowedBooksCounts(books: seq<Book>)
    ensures forall b :: multiset(BorrowedBooks(books))[b] == if b.available then 0 else multiset(books)[b]
  {
    if |books| > 0 {
      var prefix := books[..|books| - 1];
      var last := books[|books| - 1];
      BorrowedBooksCounts(prefix);
      assert books == prefix + [last];
      assert multiset(books) == multiset(prefix) + multiset{last};
      assert BorrowedBooks(books) == BorrowedBooks(prefix) + (if last.available then [] else [last]);
    }
  }
}
