# Library loan workflow — a Dafny model

This project models the core of a console library-management program
that keeps its data in three PostgreSQL tables:

- `books(book_id, title, author, is_available)`
- `members(member_id, name, email)`
- `loans(loan_id, book_id, member_id, loan_date, return_date)`

It covers the lending workflow of `src/main/java/JDBC_Challenge.java`. A
borrow runs three read-only guards in a fixed order: the member must exist,
the book must exist, and the book must not be borrowed. Only then does it
insert a loan due 14 days later and mark the book unavailable. A return
looks the book up and deletes the loans of the resolved (book, member)
pair. It then marks the book available in every case, even when no loan
was deleted. Around these sit the lookups with their `-1` not-found
sentinel, the availability check that treats a missing row as borrowed,
the availability update (which prints only success or failure; the model
also returns the count of rows it touched), the book
and member inserts, the book delete with its existence check, and the
borrowed-books listing.

Layout:

- `Schema.dfy`: the table rows, the `RowId` key type, the constants
  (`NOT_FOUND = -1`, `LOAN_PERIOD_DAYS = 14`), the success or failure
  status that a write prints, and the outcome of each command.
- `Queries.dfy`: the read-only queries, as functions over the tables.
- `Tables.dfy`: each write as a function from the old table to the new
  one; the ordering of generated keys; lemmas on how the writes affect the
  lookups.
- `Workflow.dfy`: the database as a value (`Db`), one function per
  operation returning a `Step` (the database after it and what it
  reports), and the lemmas about borrowing and returning.
- `LibraryStore.dfy`: the class `Library`. Its fields are the three tables
  and their key counters. Each write statement and each console command is
  a method; the read-only lookups stay the functions of `Queries`. Each
  method is proved equal to the function of the same operation: its
  `Workflow` function, or `Queries.BorrowedBooks` for the borrowed-books
  listing, which reassigns nothing.

Modelling choices:

- Keys are generated from a per-table counter that starts at 1 and is never
  reused, as serial columns are. So the `-1` sentinel never collides with a
  real id. `Workflow.WellFormed` (the class's `Valid()`) states this: ids
  increase in row order, stay below the counter, and loans name only ids
  that were once generated.
- When several rows match a query, the first row in table order answers.
- `LocalDate.now()` becomes a day-number parameter `today`, and
  `plusDays(14)` becomes `today + 14`.
- The console inputs (email, name, title, author, yes/no availability) are
  method parameters.
- The printed messages become `Status` values: `Succeeded` exactly when the
  write touched at least one row. Each command returns an outcome value
  naming the early exit it took.

One might expect a book to be unavailable exactly when one open loan
references it. The code does not maintain this, and the model follows the
code rather than that expectation. `Workflow.AddedUnavailableBookHasNoLoan`
proves one way it is broken: a book added as not available has no loan.
`Workflow.ReturnWithoutLoanFreesBook` shows that a return frees the book
even when it deletes no loan; on its own that breaks nothing, but it is what
lets `Workflow.ReturnByOtherMemberFreesLentBook` free a book whose loan is
still open, a second way. The delete statement for books does not mention
loans, so `Workflow.DeleteBook` leaves the loans table unchanged; whether a
loan can then outlive its book depends on the foreign keys, which this
model does not check (see "## Left out").
Likewise, a borrow followed by a return removes only the loans of that
(book, member) pair, not every loan of the book
(`Workflow.BorrowThenReturn`).

## Model

| member | source | states |
|---|---|---|
| `Schema.DisplayStatus` | src/main/java/JDBC_Challenge.java:200-203 | a write reports success exactly when it affected more than zero rows |
| `Queries.MemberId` | src/main/java/JDBC_Challenge.java:286-302 | returns -1 exactly when no member has the email; otherwise returns the id of the first member with that email, never -1 |
| `Queries.BookId` | src/main/java/JDBC_Challenge.java:267-284 | returns -1 exactly when no book has both the title and the author; otherwise returns the id of the first such book |
| `Queries.CountBooks` | src/main/java/JDBC_Challenge.java:188-194 | the count of title+author matches is at most the table size, and is zero exactly when no book matches |
| `Queries.BookExists` | src/main/java/JDBC_Challenge.java:187-198 | true exactly when some book has the title and author, which is exactly when the book lookup does not return -1 |
| `Queries.BookIsBorrowed` | src/main/java/JDBC_Challenge.java:334-350 | true for an id with no row (fail-safe); otherwise the negation of the first matching row's availability |
| `Queries.BorrowedBooks` | src/main/java/JDBC_Challenge.java:398-401 | lists exactly the books whose availability is false, never more rows than the table |
| `Queries.BorrowedBooksCounts` | src/main/java/JDBC_Challenge.java:398-401 | each unavailable row is listed exactly as many times as the table holds it and no available row is listed: no row is lost or repeated |
| `Queries.NoBorrowedBooks` | src/main/java/JDBC_Challenge.java:412-414 | the listing is empty exactly when every book is available, the case in which "all books are currently available" is printed |
| `Tables.SetAvailability` | src/main/java/JDBC_Challenge.java:322-328 | same length; every row with the id gets the new flag, and every other row and every other column is unchanged |
| `Tables.CountWithId` | src/main/java/JDBC_Challenge.java:328 | the affected-row count of the update is zero exactly when no row has the id |
| `Tables.WithoutLoans` | src/main/java/JDBC_Challenge.java:368-374 | keeps exactly the loans not of the (book, member) pair; the table keeps its size exactly when no loan matched |
| `Tables.WithoutBooks` | src/main/java/JDBC_Challenge.java:177-182 | keeps exactly the books without that title and author; removes as many rows as the existence count saw |
| `Tables.CountWithIdAtMostOne` | src/main/java/JDBC_Challenge.java:322-328 | with generated keys, the availability update touches at most one row |
| `Tables.SetAvailabilityKeepsIds` | src/main/java/JDBC_Challenge.java:322-328 | the availability update keeps the book keys ordered and below the counter |
| `Tables.WithoutBooksKeepsIds` | src/main/java/JDBC_Challenge.java:177-182 | deleting books keeps the remaining keys ordered and below the counter |
| `Tables.WithoutLoansKeepsIds` | src/main/java/JDBC_Challenge.java:368-374 | deleting loans keeps the remaining keys ordered and below the counter |
| `Tables.AppendBookKeepsIds` | src/main/java/JDBC_Challenge.java:140-146 | a book inserted under the next key keeps the keys ordered, and the availability check on that key reads its flag |
| `Tables.AppendMemberKeepsIds` | src/main/java/JDBC_Challenge.java:209-214 | a member inserted under the next key keeps the keys ordered |
| `Tables.AppendLoanKeepsIds` | src/main/java/JDBC_Challenge.java:310-317 | a loan inserted under the next key keeps the keys ordered |
| `Tables.WithoutLoansAppend` | src/main/java/JDBC_Challenge.java:368-374 | a loan of the deleted pair added last is removed along with the earlier ones |
| `Tables.WithoutLoansUnchanged` | src/main/java/JDBC_Challenge.java:368-374 | deleting a pair that no loan has leaves the loans table exactly as it was |
| `Tables.BookIdAfterSetAvailability` | src/main/java/JDBC_Challenge.java:267-284 | the availability update never changes which book a title and author resolve to |
| `Tables.BookIsBorrowedAfterSetAvailability` | src/main/java/JDBC_Challenge.java:334-350 | after the update, the availability check on an existing id reads the negation of the flag just written |
| `Tables.SetAvailabilityRoundTrip` | src/main/java/JDBC_Challenge.java:322-328 | marking an available book unavailable and then available again gives back the original table |
| `Tables.BookIdAppend` | src/main/java/JDBC_Challenge.java:267-284 | after an insert, a title and author resolve as before if they already matched, otherwise to the new row if it matches |
| `Tables.MemberIdAppend` | src/main/java/JDBC_Challenge.java:286-302 | after an insert, an email resolves as before if it already matched, otherwise to the new row if it matches |
| `Workflow.AddBook` | src/main/java/JDBC_Challenge.java:135-150 | the books table gains exactly the row (next key, title, author, entered availability) at its end and the book counter advances by one; the title and author then resolve (to the earlier match if one existed, else to the new key); members, loans and the other counters unchanged; keys stay well formed and the availability check on the new key reads the entered flag |
| `Workflow.RegisterMember` | src/main/java/JDBC_Challenge.java:205-218 | the members table gains exactly the row (next key, name, email) at its end and the member counter advances by one; the email then resolves (to the earlier match if one existed, else to the new key); books, loans and the other counters unchanged; keys stay well formed |
| `Workflow.InsertLoan` | src/main/java/JDBC_Challenge.java:304-320 | appends one loan for the member and book, dated today and due 14 days later, under the next loan key, which no earlier loan has; the loan counter advances by one and the book and member counters stay |
| `Workflow.UpdateAvailability` | src/main/java/JDBC_Challenge.java:322-332 | changes only the availability of rows with the id; the count is 0 exactly when no row has it, and at most 1 with generated keys |
| `Workflow.DeleteLoan` | src/main/java/JDBC_Challenge.java:368-378 | removes exactly the loans of the pair and touches no other table; the count is 0 exactly when there were none |
| `Workflow.DeleteBook` | src/main/java/JDBC_Challenge.java:168-185 | changes nothing unless a book matches; otherwise removes every match and no other book; loans, members and all three key counters are never touched, so deleted keys are not reissued |
| `Workflow.Borrow` | src/main/java/JDBC_Challenge.java:220-245 | guards in order (member, book, availability); each failing guard gives its own outcome and leaves the database unchanged |
| `Workflow.Return` | src/main/java/JDBC_Challenge.java:352-366 | an unknown title and author change nothing; otherwise the request runs through; members are never touched |
| `Workflow.BorrowSucceeds` | src/main/java/JDBC_Challenge.java:243-244 | a successful borrow changes exactly two things: it appends the loan (resolved member and book, today, today + 14) and marks that book unavailable; members and the other counters stay; both writes succeed |
| `Workflow.BorrowAddsLoan` | src/main/java/JDBC_Challenge.java:243 | a successful borrow adds exactly one loan (resolved member and book, loan date today, return date today + 14) under a loan id no earlier loan has, and keeps members |
| `Workflow.BorrowMarksBook` | src/main/java/JDBC_Challenge.java:244 | a successful borrow marks the resolved book unavailable and changes no other row or column of books |
| `Workflow.BorrowAgainRejected` | src/main/java/JDBC_Challenge.java:238-241 | after a successful borrow, any further borrow of that title and author is refused (not a member, or already borrowed) with the database unchanged |
| `Workflow.LentBookNotLentAgain` | src/main/java/JDBC_Challenge.java:238-244 | after a successful borrow, no later borrow (any member, title, author or day) that succeeds adds a loan of the lent book id, whichever row its lookup resolves to |
| `Workflow.ReturnRuns` | src/main/java/JDBC_Challenge.java:364-365 | a return of a known book changes exactly two things: it deletes the pair's loans and marks the book available; the update always succeeds |
| `Workflow.ReturnEffects` | src/main/java/JDBC_Challenge.java:364-365 | a return deletes exactly the pair's loans, then marks the book available even if nothing was deleted; the delete reports success exactly when a loan existed |
| `Workflow.ReturnWithoutLoanFreesBook` | src/main/java/JDBC_Challenge.java:364-365 | with an unknown email, or no loan for the pair, the loans stay as they were but the book is marked available |
| `Workflow.BorrowThenReturn` | src/main/java/JDBC_Challenge.java:352-366 | borrow then return with the same inputs restores books and members exactly and removes the pair's loans (loans as before if the member held none) |
| `Workflow.ReturnByOtherMemberFreesLentBook` | src/main/java/JDBC_Challenge.java:364-365 | a return by another member frees a just-lent book while the borrower's loan stays in the table |
| `Workflow.AddedUnavailableBookHasNoLoan` | src/main/java/JDBC_Challenge.java:138-146 | a book added as not available counts as borrowed although no loan names it |
| `Workflow.DuneScenario` | src/main/java/JDBC_Challenge.java:220-245 | the concrete borrow, second borrow, unknown-email borrow and return of one book by one member give the expected tables and outcomes |
| `LibraryStore.Library.AddNewBook` | src/main/java/JDBC_Challenge.java:135-150 | new tables and status are those of `Workflow.AddBook` on the old tables; the object invariant is kept |
| `LibraryStore.Library.RegisterNewMember` | src/main/java/JDBC_Challenge.java:205-218 | new tables and status are those of `Workflow.RegisterMember`; invariant kept |
| `LibraryStore.Library.DeleteBook` | src/main/java/JDBC_Challenge.java:168-185 | new tables and outcome are those of `Workflow.DeleteBook`; invariant kept |
| `LibraryStore.Library.InsertLoan` | src/main/java/JDBC_Challenge.java:304-320 | new tables and row count are those of `Workflow.InsertLoan`; invariant kept |
| `LibraryStore.Library.UpdateBookAvailability` | src/main/java/JDBC_Challenge.java:322-332 | new tables and affected-row count are those of `Workflow.UpdateAvailability`; invariant kept |
| `LibraryStore.Library.DeleteLoan` | src/main/java/JDBC_Challenge.java:368-378 | new tables and deleted-row count are those of `Workflow.DeleteLoan`; invariant kept |
| `LibraryStore.Library.BorrowBook` | src/main/java/JDBC_Challenge.java:220-245 | the step-by-step borrow ends in the tables and outcome of `Workflow.Borrow`; invariant kept |
| `LibraryStore.Library.ReturnBook` | src/main/java/JDBC_Challenge.java:352-378 | the step-by-step return ends in the tables and outcome of `Workflow.Return`; invariant kept |
| `LibraryStore.Library.ViewBorrowedBooks` | src/main/java/JDBC_Challenge.java:398-419 | lists exactly the unavailable books in table order, and reports "all available" exactly when every book is available |

## Left out

- `src/main/java/DemoJDBC_1.java` and `src/main/java/DemoJDBC_2.java` are not part of this model. They are tutorial programs against a separate `students` table and hold no lending rule.
- Driver registration, opening and closing the connection, the input reader, and the exception formatting in `main` are not modelled. They are I/O set-up with no rule to state.
- The console menu is not modelled: the option loop, `printOptions`, `getUserOption`, the prompt readers, `getAvailabilityStatus` and `handleExit`. They are console I/O. Their results enter the model as parameters.
- `handleViewAllBooks` is not modelled. It prints every row and changes nothing.
- Failures of the database (`SQLException`: lost connection, constraint violation) are not modelled. Every statement is assumed to succeed, so each insert reports one row.
- Table constraints are not modelled. `src/main/java/JDBC_Challenge.java:17` declares `book_id` and `member_id` of `loans` as foreign keys, but the table definitions (their `ON DELETE` rule, a unique email) are not part of this model.
- Workflow.DeleteBook: the foreign-key check on the delete is not modelled. The model removes the matching books and keeps every loan, as the statement at lines 177-182 is written. With the default rule the database would refuse to delete a book that a loan names (an `SQLException` that ends the session); with a cascading rule it would delete those loans as well. So a loan outliving its book is a possibility of the model only when no such key is enforced.
- `LibraryStore.Library.InsertLoan`: requires the member and the book to exist, standing for the foreign keys on `loans`. The rejection the database would raise otherwise is not modelled. The one caller, the borrow, passes only resolved ids.
- The row order of query results is left to the database in the source. The model fixes it to table order, so "the" matching row is the first one.
- Tables.BookIdAfterSetAvailability: relies on rows keeping their table position across an update. With several copies of one title and author, the database may resolve the lookup to another copy after the update, which the model does not capture.
- Workflow.BorrowAgainRejected: relies on the same fixed row order. With several copies of one title and author, a second request may resolve to another, available copy and be lent; `Workflow.LentBookNotLentAgain` states the order-independent part (the lent id is never lent again).
- Workflow.BorrowThenReturn: relies on the return resolving to the copy the borrow resolved to, which holds only under the fixed row order when copies of one title and author exist.
- Workflow.ReturnByOtherMemberFreesLentBook: relies on the return resolving to the copy just lent, which holds only under the fixed row order when copies of one title and author exist.
- Integer columns are unbounded here. 32-bit wrap-around of `int` ids and calendar arithmetic of `LocalDate` (month lengths, year limits) are not modelled: a date is a day number.
- The printed message texts are not modelled. Only the success or failure choice is kept.
