# Library lending ledger

A model of the library manager `ru.hh.school.unittesting.homework.LibraryManager`. The manager keeps, per book identifier, a count of available copies. `addBook` adds copies and `getAvailableCopies` reads the count; a book never added has 0 copies.

`borrowBook` first asks the user service whether the user is active:
- An inactive user gets the notification "Your account is not active." and the call returns false.
- An active user is refused silently when no copy is available.
- Otherwise one copy is lent to the user, who is notified "You have borrowed the book: " followed by the book identifier.

`returnBook` succeeds only for a user who holds a copy of the book. That copy goes back on the shelf and the user is notified "You have returned the book: " followed by the book identifier. Any other return fails with no notification.

`calculateDynamicLateFee` charges 0.5 per overdue day. It multiplies by 1.5 for a bestseller and then by 0.8 for a premium member. Negative overdue days are rejected with "Overdue days cannot be negative."

This model rebuilds the behaviour of `LibraryManager` from its unit test `LibraryManagerTest.java`, which fixes each method closely. A looser reading of `returnBook`, in which any user's return succeeds once the book has been added, is contradicted by the test: at line 87 a return by "user02", who never borrowed the book, fails. This model follows the test and keeps an explicit record of which users hold which books.

Layout:
- `ledger.dfy`, module `Ledger`: the ledger as a value. It holds the state (inventory and loans), one function per operation giving its answer, new state and notifications, runs of successive calls, and the properties proved about them.
- `library_manager.dfy`, module `LibraryManagement`: the manager as a class. Its map fields are updated in place and its methods are proved against the `Ledger` functions. The user service is a function given to the constructor. The notifier is a ghost log of (user, message) pairs. A ghost per-book count of copies ever added backs the invariant "copies on the shelf plus copies lent out equal copies added". The test scenarios are replayed as methods against the class contracts.
- `late_fee.dfy`, module `LateFee`: the fee over exact rationals, with a `Result` for the invalid-argument error.

## Model

| member | source | states |
|---|---|---|
| Ledger.AddBook | src/test/java/ru/hh/school/unittesting/example/homework/LibraryManagerTest.java:39-48 | the book's available count grows by exactly the quantity added; an unseen book starts from 0; no other book and no loan changes |
| Ledger.BorrowBook | src/test/java/ru/hh/school/unittesting/example/homework/LibraryManagerTest.java:50-74 | succeeds iff the user is active and a copy is available; an inactive user gets exactly the "Your account is not active." notification; an active user refused for lack of copies gets none; on success the count drops by one, the user is added to the book's holders, and exactly one "You have borrowed the book: " + id notification is sent; a refusal changes nothing |
| Ledger.ReturnBook | src/test/java/ru/hh/school/unittesting/example/homework/LibraryManagerTest.java:76-90 | succeeds iff the user holds a copy of the book; on success the count grows by one, one holding of that user is removed, and exactly one "You have returned the book: " + id notification is sent; otherwise nothing changes and nothing is sent |
| Ledger.Step | src/test/java/ru/hh/school/unittesting/example/homework/LibraryManagerTest.java:50-90 | each call sends at most one notification, always to the calling user, and addBook sends none; no call makes a count negative |
| Ledger.Run | src/test/java/ru/hh/school/unittesting/example/homework/LibraryManagerTest.java:93-102 | a run of calls on one manager gives as many answers as calls; it sends no more notifications than it has borrow and return calls, and every notification goes to a user who made one of those calls |
| Ledger.AddAccumulates | src/test/java/ru/hh/school/unittesting/example/homework/LibraryManagerTest.java:39-48 | adding q1 then q2 copies raises the count by q1 + q2; adding 0 leaves every count and loan as it was |
| Ledger.NeverAddedHasNoCopies | src/test/java/ru/hh/school/unittesting/example/homework/LibraryManagerTest.java:94 | a book never added reports 0 copies, on a fresh manager and after any calls that add none of it |
| Ledger.BorrowConserves | src/test/java/ru/hh/school/unittesting/example/homework/LibraryManagerTest.java:93-102 | a borrow, successful or not, leaves available plus lent-out copies of every book unchanged |
| Ledger.ReturnConserves | src/test/java/ru/hh/school/unittesting/example/homework/LibraryManagerTest.java:93-102 | a return, successful or not, leaves available plus lent-out copies of every book unchanged |
| Ledger.AddKeepsBalanced | src/test/java/ru/hh/school/unittesting/example/homework/LibraryManagerTest.java:39-48 | adding copies keeps every count non-negative and keeps shelf plus lent-out copies equal to copies added, once the added copies are recorded |
| Ledger.BorrowKeepsBalanced | src/test/java/ru/hh/school/unittesting/example/homework/LibraryManagerTest.java:64-74 | a borrow keeps every count non-negative and shelf plus lent-out copies equal to copies added |
| Ledger.ReturnKeepsBalanced | src/test/java/ru/hh/school/unittesting/example/homework/LibraryManagerTest.java:82-102 | a return keeps every count non-negative and shelf plus lent-out copies equal to copies added |
| Ledger.StepConserves | src/test/java/ru/hh/school/unittesting/example/homework/LibraryManagerTest.java:93-102 | one call changes available plus lent-out copies of a book by exactly the copies it adds |
| Ledger.RunConserves | src/test/java/ru/hh/school/unittesting/example/homework/LibraryManagerTest.java:93-102 | over any run of calls, available plus lent-out copies of each book change by exactly the copies added |
| Ledger.RunKeepsNonNegative | src/test/java/ru/hh/school/unittesting/example/homework/LibraryManagerTest.java:64-74 | no run of calls makes an available count negative |
| Ledger.RunFromEmpty | src/test/java/ru/hh/school/unittesting/example/homework/LibraryManagerTest.java:93-102 | from a fresh manager every count stays non-negative and available plus lent-out copies equal the copies added |
| Ledger.BorrowingDrainsCopies | src/test/java/ru/hh/school/unittesting/example/homework/LibraryManagerTest.java:64-74 | an active user borrowing a book with n copies succeeds n times, each with one borrowed notification; the next borrow fails silently and the count stays 0 |
| Ledger.OnlyBorrowerReturns | src/test/java/ru/hh/school/unittesting/example/homework/LibraryManagerTest.java:82-90 | after a borrow of a book nobody else holds, another user's return fails and changes nothing; the borrower's return succeeds with one returned notification and restores the count |
| Ledger.BorrowReturnRoundTrip | src/test/java/ru/hh/school/unittesting/example/homework/LibraryManagerTest.java:93-102 | for a book nobody holds, a successful borrow followed by the same user's return leaves every count and every loan as before |
| LibraryManagement.LibraryManager.constructor | src/test/java/ru/hh/school/unittesting/example/homework/LibraryManagerTest.java:21-28 | a new manager has no copies, no loans and no notifications, and uses the injected user service |
| LibraryManagement.LibraryManager.AddBook | src/test/java/ru/hh/school/unittesting/example/homework/LibraryManagerTest.java:40-47 | updates the fields as Ledger.AddBook does, sends nothing, and keeps the conservation invariant |
| LibraryManagement.LibraryManager.GetAvailableCopies | src/test/java/ru/hh/school/unittesting/example/homework/LibraryManagerTest.java:94-101 | returns the book's available count, 0 for a book never added; never negative |
| LibraryManagement.LibraryManager.BorrowBook | src/test/java/ru/hh/school/unittesting/example/homework/LibraryManagerTest.java:51-73 | answer, new fields and notifications appended are those of Ledger.BorrowBook with the user service's answer; keeps the conservation invariant |
| LibraryManagement.LibraryManager.ReturnBook | src/test/java/ru/hh/school/unittesting/example/homework/LibraryManagerTest.java:77-90 | answer, new fields and notifications appended are those of Ledger.ReturnBook; keeps the conservation invariant |
| LibraryManagement.AddBookScenario | src/test/java/ru/hh/school/unittesting/example/homework/LibraryManagerTest.java:38-48 | adding 1, 0, 2 copies reads back 1, 1, 3 |
| LibraryManagement.BorrowWhenUserInactiveScenario | src/test/java/ru/hh/school/unittesting/example/homework/LibraryManagerTest.java:50-55 | an inactive user's borrow fails and sends exactly one "Your account is not active." notification to that user |
| LibraryManagement.BorrowWhenNoCopiesScenario | src/test/java/ru/hh/school/unittesting/example/homework/LibraryManagerTest.java:57-62 | an active user's borrow of an unknown book fails and sends nothing |
| LibraryManagement.BorrowUntilExhaustedScenario | src/test/java/ru/hh/school/unittesting/example/homework/LibraryManagerTest.java:64-74 | with 2 copies, borrows answer true, true, false, two borrowed notifications are sent and the count ends at 0 |
| LibraryManagement.ReturnWithoutLoanScenario | src/test/java/ru/hh/school/unittesting/example/homework/LibraryManagerTest.java:76-80 | returning a book with no loan fails and sends nothing |
| LibraryManagement.ReturnByBorrowerScenario | src/test/java/ru/hh/school/unittesting/example/homework/LibraryManagerTest.java:82-102 | after adding 1 copy and borrowing it, "user02"'s return fails, the borrower's succeeds, the count is back to 1, and exactly the borrowed and returned notifications were sent |
| LateFee.CalculateDynamicLateFee | src/test/java/ru/hh/school/unittesting/example/homework/LibraryManagerTest.java:104-132 | fails iff overdue days are negative, with "Overdue days cannot be negative."; otherwise the fee is the days times the one-day fee of the flag combination (0.5, 0.75, 0.4, 0.6) and never negative |
| LateFee.FeeTable | src/test/java/ru/hh/school/unittesting/example/homework/LibraryManagerTest.java:104-132 | the nine rows of the parameterised table: 0, 0.5, 0.75, 0.4, 0.6, 1, 1.5, 0.8, 1.2; and -1 days fails with "Overdue days cannot be negative." |
| LateFee.FeeAdditive | src/test/java/ru/hh/school/unittesting/example/homework/LibraryManagerTest.java:116-123 | the fee of d1 + d2 days is the sum of the fees of d1 and d2 days |
| LateFee.FeeOrdering | src/test/java/ru/hh/school/unittesting/example/homework/LibraryManagerTest.java:116-123 | more days never cost less; the bestseller surcharge never lowers the fee; the premium discount never raises it |

## Left out

- The source of `LibraryManager`, `UserService` and `NotificationService` is not part of this model; the manager is rebuilt from what its test asserts.
- Ledger.AddBook: requires a non-negative quantity; what a negative quantity does is covered by no test and is not modelled.
- LibraryManagement.LibraryManager.AddBook: requires a non-negative quantity, for the same reason.
- The loan record keeps one holding per copy lent, so several users, or one user several times, may hold copies of the same book. How the original stores loans when several copies of one book are out is not shown. These members rest on that one-holding-per-copy choice: the holder clause of Ledger.BorrowingDrainsCopies (one user holding n copies); Ledger.Balanced and the lemmas Ledger.BorrowConserves, Ledger.ReturnConserves, Ledger.StepConserves, Ledger.RunConserves, Ledger.RunFromEmpty, Ledger.AddKeepsBalanced, Ledger.BorrowKeepsBalanced, Ledger.ReturnKeepsBalanced (shelf plus lent out equals added); and the class invariant LibraryManagement.LibraryManager.Valid. Ledger.BorrowReturnRoundTrip and Ledger.OnlyBorrowerReturns are stated only for a book nobody else holds.
- The user service is a pure function fixed at construction. A service whose answers change over time is not modelled.
- The notifier is only a ghost log of (user, message) pairs. Delivery and failures of the notifier or the user service are not modelled.
- Ledger.AddBook, LibraryManagement.LibraryManager.AddBook, LibraryManagement.LibraryManager.GetAvailableCopies, Ledger.RunKeepsNonNegative: counts are unbounded integers. Java's 32-bit `int` would wrap past 2^31-1 copies and make a count negative; that wrap-around is not modelled, so "no count is negative" holds here without an upper bound on copies.
- LateFee.CalculateDynamicLateFee: overdue days are an unbounded integer, not Java's 32-bit `int`; no test reaches its limits.
- The fee is exact rational arithmetic. The Java `double` rounding of the result is not modelled.
- addBook returns nothing; in a run of calls (Ledger.Run) it is reported as a successful call.
- Concurrency: the model is single-threaded.
