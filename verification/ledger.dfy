/**
 * The lending ledger as values: the inventory of available copies, the record
 * of outstanding loans, and the effect of each operation of the library
 * manager (add, borrow, return) as a function from the old state to an outcome.
 * The class in library_manager.dfy is specified by these functions.
 */
module Ledger {

  type BookId = string
  type UserId = string

  /** One call of the notifier: the user addressed and the message text. */
  datatype Notification = Notification(user: UserId, message: string)

  const InactiveMessage: string := "Your account is not active."

  function BorrowedMessage(book: BookId): string { "You have borrowed the book: " + book }

  function ReturnedMessage(book: BookId): string { "You have returned the book: " + book }

  /**
   * `inventory` maps a book to its available copies (an absent book has none);
   * `loans` maps a book to the users holding a copy of it, one occurrence per
   * copy held (an absent book has no loans).
   */
  datatype State = State(inventory: map<BookId, int>, loans: map<BookId, multiset<UserId>>)

  /** The ledger of a freshly constructed manager. */
  const Empty: State := State(map[], map[])

  /** What getAvailableCopies reports: the stored count, or 0 for a book never added. */
  function Available(s: State, book: BookId): int {
    if book in s.inventory then s.inventory[book] else 0
  }

  function Holders(s: State, book: BookId): multiset<UserId> {
    if book in s.loans then s.loans[book] else multiset{}
  }

  /** Number of copies of `book` currently lent out. */
  function Outstanding(s: State, book: BookId): nat {
    |Holders(s, book)|
  }

  /** Every stored count of available copies is non-negative. */
  predicate NonNegative(s: State) {
    forall b | b in s.inventory :: s.inventory[b] >= 0
  }

  /** `s` and `t` agree on every book's available copies and holders. */
  ghost predicate SameCopiesAndLoans(s: State, t: State) {
    forall b :: Available(s, b) == Available(t, b) && Holders(s, b) == Holders(t, b)
  }

  /** The result of a borrow or return: its boolean answer, the new ledger, the notifications sent. */
  datatype Outcome = Outcome(ok: bool, next: State, sent: seq<Notification>)

  /** addBook: the quantity is added to the book's count, which starts at 0 for an unseen book. */
  function AddBook(s: State, book: BookId, quantity: int): (r: State)
    requires quantity >= 0
    ensures Available(r, book) == Available(s, book) + quantity
    ensures forall b :: b != book ==> Available(r, b) == Available(s, b)
    ensures r.loans == s.loans
    ensures NonNegative(s) ==> NonNegative(r)
  {
    s.(inventory := s.inventory[book := Available(s, book) + quantity])
  }

  /**
   * borrowBook, with `active` the answer of the user-activity check for `user`:
   * an inactive user is told so and refused; an active user is refused silently
   * when no copy is available; otherwise one copy goes to the user, who is told so.
   */
  function BorrowBook(s: State, book: BookId, user: UserId, active: bool): (o: Outcome)
    ensures o.ok <==> active && Available(s, book) > 0
    ensures !o.ok ==> o.next == s
    ensures !active ==> o.sent == [Notification(user, InactiveMessage)]
    ensures active && !o.ok ==> o.sent == []
    ensures o.ok ==> o.sent == [Notification(user, BorrowedMessage(book))]
    ensures o.ok ==> Available(o.next, book) == Available(s, book) - 1
    ensures o.ok ==> Holders(o.next, book) == Holders(s, book) + multiset{user}
    ensures forall b :: b != book ==> Available(o.next, b) == Available(s, b) && Holders(o.next, b) == Holders(s, b)
    ensures NonNegative(s) ==> NonNegative(o.next)
  {
    if !active then
      Outcome(false, s, [Notification(user, InactiveMessage)])
    else
      var copies := Available(s, book);
      if copies <= 0 then
        Outcome(false, s, [])
      else
        var next := State(s.inventory[book := copies - 1], s.loans[book := Holders(s, book) + multiset{user}]);
        Outcome(true, next, [Notification(user, BorrowedMessage(book))])
  }

  /**
   * returnBook: only a user holding a copy of the book can return it; the copy
   * goes back to the inventory and the user is told so. Any other return is
   * refused with no notification.
   */
  function ReturnBook(s: State, book: BookId, user: UserId): (o: Outcome)
    ensures o.ok <==> user in Holders(s, book)
    ensures !o.ok ==> o.next == s && o.sent == []
    ensures o.ok ==> o.sent == [Notification(user, ReturnedMessage(book))]
    ensures o.ok ==> Available(o.next, book) == Available(s, book) + 1
    ensures o.ok ==> Holders(o.next, book) == Holders(s, book) - multiset{user}
    ensures o.ok ==> Outstanding(o.next, book) == Outstanding(s, book) - 1
    ensures forall b :: b != book ==> Available(o.next, b) == Available(s, b) && Holders(o.next, b) == Holders(s, b)
    ensures NonNegative(s) ==> NonNegative(o.next)
  {
    var holders := Holders(s, book);
    if user !in holders then
      Outcome(false, s, [])
    else
      var next := State(s.inventory[book := Available(s, book) + 1], s.loans[book := holders - multiset{user}]);
      Outcome(true, next, [Notification(user, ReturnedMessage(book))])
  }

  // ---------------------------------------------------------------------------
  // Sequences of calls on one manager

  /** One call on the manager; `quantity` of addBook is non-negative in this model. */
  datatype Op = Add(book: BookId, quantity: nat) | Borrow(book: BookId, user: UserId) | Return(book: BookId, user: UserId)

  /** The effect of one call; addBook returns nothing and is reported as succeeding. */
  function Step(s: State, op: Op, isUserActive: UserId -> bool): (o: Outcome)
    ensures op.Add? ==> o.ok && o.sent == []
    ensures |o.sent| <= 1
    ensures forall n | n in o.sent :: !op.Add? && n.user == op.user
    ensures NonNegative(s) ==> NonNegative(o.next)
  {
    match op
    case Add(book, quantity) => Outcome(true, AddBook(s, book, quantity), [])
    case Borrow(book, user) => BorrowBook(s, book, user, isUserActive(user))
    case Return(book, user) => ReturnBook(s, book, user)
  }

  /** The answers of a run of calls, the final ledger and every notification in order. */
  datatype Trace = Trace(results: seq<bool>, final: State, log: seq<Notification>)

  /**
   * A run gives one answer per call; it sends no more notifications than it
   * has borrow and return calls, and each goes to a user who made one of them.
   */
  function Run(s: State, ops: seq<Op>, isUserActive: UserId -> bool): (t: Trace)
    ensures |t.results| == |ops|
    ensures |t.log| <= NotifyingCalls(ops) <= |ops|
    ensures forall n | n in t.log :: n.user in Callers(ops)
    decreases |ops|
  {
    if ops == [] then
      Trace([], s, [])
    else
      var o := Step(s, ops[0], isUserActive);
      var t := Run(o.next, ops[1..], isUserActive);
      Trace([o.ok] + t.results, t.final, o.sent + t.log)
  }

  /** Number of borrow and return calls in `ops`: the calls that may notify. */
  function NotifyingCalls(ops: seq<Op>): (k: nat)
    ensures k <= |ops|
    decreases |ops|
  {
    if ops == [] then 0 else (if ops[0].Add? then 0 else 1) + NotifyingCalls(ops[1..])
  }

  /** The users who make a borrow or return call in `ops`. */
  function Callers(ops: seq<Op>): set<UserId>
    decreases |ops|
  {
    if ops == [] then {} else (if ops[0].Add? then {} else {ops[0].user}) + Callers(ops[1..])
  }

  /** Total number of copies of `book` that the calls in `ops` add. */
  function AddedIn(ops: seq<Op>, book: BookId): nat
    decreases |ops|
  {
    if ops == [] then 0
    else (if ops[0].Add? && ops[0].book == book then ops[0].quantity else 0) + AddedIn(ops[1..], book)
  }

  /** `n` repetitions of the same call. */
  function Repeat(op: Op, n: nat): (ops: seq<Op>)
    ensures |ops| == n
    ensures forall i | 0 <= i < n :: ops[i] == op
  {
    seq(n, _ => op)
  }

  // ---------------------------------------------------------------------------
  // Properties

  /** Adding `q1` and then `q2` copies leaves `q1 + q2` more available; adding 0 changes no count. */
  lemma AddAccumulates(s: State, book: BookId, q1: nat, q2: nat)
    ensures Available(AddBook(AddBook(s, book, q1), book, q2), book) == Available(s, book) + q1 + q2
    ensures SameCopiesAndLoans(AddBook(s, book, 0), s)
  {
  }

  /** A book never added reports 0 available copies, and it stays so until copies of it are added. */
  lemma NeverAddedHasNoCopies(ops: seq<Op>, isUserActive: UserId -> bool, book: BookId)
    requires AddedIn(ops, book) == 0
    ensures Available(Empty, book) == 0
    ensures Available(Run(Empty, ops, isUserActive).final, book) == 0
  {
    RunFromEmpty(ops, isUserActive, book);
  }

  /** Copies ever added to `book`, per the ledger's history `added` (absent: none). */
  function AddedCopies(added: map<BookId, int>, book: BookId): int {
    if book in added then added[book] else 0
  }

  /**
   * No count is negative, and for every book the copies on the shelf plus the
   * copies lent out equal the copies ever added.
   */
  ghost predicate Balanced(s: State, added: map<BookId, int>) {
    NonNegative(s) && forall b :: Available(s, b) + Outstanding(s, b) == AddedCopies(added, b)
  }

  lemma AddKeepsBalanced(s: State, added: map<BookId, int>, book: BookId, quantity: nat)
    requires Balanced(s, added)
    ensures Balanced(AddBook(s, book, quantity), added[book := AddedCopies(added, book) + quantity])
  {
  }

  lemma BorrowKeepsBalanced(s: State, added: map<BookId, int>, book: BookId, user: UserId, active: bool)
    requires Balanced(s, added)
    ensures Balanced(BorrowBook(s, book, user, active).next, added)
  {
    forall b ensures Available(BorrowBook(s, book, user, active).next, b) + Outstanding(BorrowBook(s, book, user, active).next, b) == AddedCopies(added, b) {
      BorrowConserves(s, book, user, active, b);
    }
  }

  lemma ReturnKeepsBalanced(s: State, added: map<BookId, int>, book: BookId, user: UserId)
    requires Balanced(s, added)
    ensures Balanced(ReturnBook(s, book, user).next, added)
  {
    forall b ensures Available(ReturnBook(s, book, user).next, b) + Outstanding(ReturnBook(s, book, user).next, b) == AddedCopies(added, b) {
      ReturnConserves(s, book, user, b);
    }
  }

  /** A borrow moves at most one copy from the shelf to a borrower: available plus lent out is unchanged. */
  lemma BorrowConserves(s: State, book: BookId, user: UserId, active: bool, b: BookId)
    ensures var o := BorrowBook(s, book, user, active);
      Available(o.next, b) + Outstanding(o.next, b) == Available(s, b) + Outstanding(s, b)
  {
  }

  /** A return moves at most one copy from a borrower to the shelf: available plus lent out is unchanged. */
  lemma ReturnConserves(s: State, book: BookId, user: UserId, b: BookId)
    ensures var o := ReturnBook(s, book, user);
      Available(o.next, b) + Outstanding(o.next, b) == Available(s, b) + Outstanding(s, b)
  {
  }

  /** One call keeps copies balanced: available plus lent out grows exactly by what it adds. */
  lemma StepConserves(s: State, op: Op, isUserActive: UserId -> bool, book: BookId)
    ensures var o := Step(s, op, isUserActive);
      Available(o.next, book) + Outstanding(o.next, book)
      == Available(s, book) + Outstanding(s, book) + AddedIn([op], book)
  {
    assert [op][1..] == [];
    assert AddedIn([op], book) == (if op.Add? && op.book == book then op.quantity else 0);
    match op
    case Add(_, _) =>
    case Borrow(b, u) => BorrowConserves(s, b, u, isUserActive(u), book);
    case Return(b, u) => ReturnConserves(s, b, u, book);
  }

  /**
   * Over any run of calls, available copies plus copies lent out equals what
   * it was at the start plus every copy added: borrowing and returning move a
   * copy between the shelf and a borrower, never create or lose one.
   */
  lemma {:induction false} RunConserves(s: State, ops: seq<Op>, isUserActive: UserId -> bool, book: BookId)
    ensures var t := Run(s, ops, isUserActive);
      Available(t.final, book) + Outstanding(t.final, book)
      == Available(s, book) + Outstanding(s, book) + AddedIn(ops, book)
    decreases |ops|
  {
    if ops != [] {
      var o := Step(s, ops[0], isUserActive);
      StepConserves(s, ops[0], isUserActive, book);
      assert AddedIn([ops[0]], book) == (if ops[0].Add? && ops[0].book == book then ops[0].quantity else 0) by {
        assert [ops[0]][1..] == [];
      }
      RunConserves(o.next, ops[1..], isUserActive, book);
    }
  }

  /** From a fresh ledger, no count ever goes negative and copies are conserved. */
  lemma {:induction false} RunFromEmpty(ops: seq<Op>, isUserActive: UserId -> bool, book: BookId)
    ensures var t := Run(Empty, ops, isUserActive);
      NonNegative(t.final) && Available(t.final, book) + Outstanding(t.final, book) == AddedIn(ops, book)
  {
    RunKeepsNonNegative(Empty, ops, isUserActive);
    RunConserves(Empty, ops, isUserActive, book);
  }

  lemma {:induction false} RunKeepsNonNegative(s: State, ops: seq<Op>, isUserActive: UserId -> bool)
    requires NonNegative(s)
    ensures NonNegative(Run(s, ops, isUserActive).final)
    decreases |ops|
  {
    if ops != [] {
      RunKeepsNonNegative(Step(s, ops[0], isUserActive).next, ops[1..], isUserActive);
    }
  }

  /**
   * An active user borrowing a book with `n` copies available succeeds exactly
   * `n` times, each time being notified, and the next attempt fails silently
   * with the count left at 0.
   */
  lemma {:induction false} BorrowingDrainsCopies(s: State, book: BookId, user: UserId, isUserActive: UserId -> bool, n: nat)
    requires isUserActive(user)
    requires Available(s, book) == n
    ensures var t := Run(s, Repeat(Borrow(book, user), n + 1), isUserActive);
      (forall i | 0 <= i < n :: t.results[i])
      && !t.results[n]
      && Available(t.final, book) == 0
      && Holders(t.final, book)[user] == Holders(s, book)[user] + n
      && |t.log| == n
      && (forall i | 0 <= i < n :: t.log[i] == Notification(user, BorrowedMessage(book)))
  {
    DrainAnswers(s, book, user, isUserActive, n);
    DrainLog(s, book, user, isUserActive, n);
  }

  /** One borrow by an active user on a book with copies, followed by the rest of the run. */
  lemma BorrowFirst(s: State, book: BookId, user: UserId, isUserActive: UserId -> bool, n: nat)
    requires isUserActive(user)
    ensures var ops := Repeat(Borrow(book, user), n + 1);
      var o := BorrowBook(s, book, user, true);
      var t' := Run(o.next, Repeat(Borrow(book, user), n), isUserActive);
      Run(s, ops, isUserActive) == Trace([o.ok] + t'.results, t'.final, o.sent + t'.log)
  {
    var ops := Repeat(Borrow(book, user), n + 1);
    assert ops[1..] == Repeat(Borrow(book, user), n);
    assert Step(s, ops[0], isUserActive) == BorrowBook(s, book, user, true);
  }

  lemma {:induction false} DrainAnswers(s: State, book: BookId, user: UserId, isUserActive: UserId -> bool, n: nat)
    requires isUserActive(user)
    requires Available(s, book) == n
    ensures var t := Run(s, Repeat(Borrow(book, user), n + 1), isUserActive);
      (forall i | 0 <= i < n :: t.results[i])
      && !t.results[n]
      && Available(t.final, book) == 0
      && Holders(t.final, book)[user] == Holders(s, book)[user] + n
    decreases n
  {
    var o := BorrowBook(s, book, user, true);
    BorrowFirst(s, book, user, isUserActive, n);
    if n == 0 {
      assert Repeat(Borrow(book, user), 0) == [];
    } else {
      assert Holders(o.next, book)[user] == Holders(s, book)[user] + 1;
      DrainAnswers(o.next, book, user, isUserActive, n - 1);
      var t' := Run(o.next, Repeat(Borrow(book, user), n), isUserActive);
      var t := Run(s, Repeat(Borrow(book, user), n + 1), isUserActive);
      forall i | 0 <= i < n ensures t.results[i] {
        if i > 0 {
          assert t.results[i] == t'.results[i - 1];
        }
      }
    }
  }

  lemma {:induction false} DrainLog(s: State, book: BookId, user: UserId, isUserActive: UserId -> bool, n: nat)
    requires isUserActive(user)
    requires Available(s, book) == n
    ensures var t := Run(s, Repeat(Borrow(book, user), n + 1), isUserActive);
      |t.log| == n && forall i | 0 <= i < n :: t.log[i] == Notification(user, BorrowedMessage(book))
    decreases n
  {
    var o := BorrowBook(s, book, user, true);
    BorrowFirst(s, book, user, isUserActive, n);
    if n == 0 {
      assert Repeat(Borrow(book, user), 0) == [];
    } else {
      DrainLog(o.next, book, user, isUserActive, n - 1);
      var t' := Run(o.next, Repeat(Borrow(book, user), n), isUserActive);
      var t := Run(s, Repeat(Borrow(book, user), n + 1), isUserActive);
      assert |t.log| == n;
      forall i | 0 <= i < n ensures t.log[i] == Notification(user, BorrowedMessage(book)) {
        if i > 0 {
          assert t.log[i] == t'.log[i - 1];
        }
      }
    }
  }

  /**
   * When a user borrows a book nobody else holds, another user's return of it
   * is refused and leaves everything as it was, while the borrower's own return
   * succeeds, is notified once, and restores the count.
   */
  lemma OnlyBorrowerReturns(s: State, book: BookId, user: UserId, other: UserId)
    requires Holders(s, book) == multiset{}
    requires Available(s, book) > 0
    requires other != user
    ensures var b := BorrowBook(s, book, user, true);
      var foreign := ReturnBook(b.next, book, other);
      var own := ReturnBook(b.next, book, user);
      b.ok && !foreign.ok && foreign.next == b.next && foreign.sent == []
      && own.ok && own.sent == [Notification(user, ReturnedMessage(book))]
      && Available(own.next, book) == Available(s, book)
  {
  }

  /**
   * For a book nobody holds, a successful borrow followed by the same user's
   * return leaves every count and loan as before.
   */
  lemma BorrowReturnRoundTrip(s: State, book: BookId, user: UserId)
    requires Holders(s, book) == multiset{}
    requires Available(s, book) > 0
    ensures var b := BorrowBook(s, book, user, true);
      var r := ReturnBook(b.next, book, user);
      b.ok && r.ok && SameCopiesAndLoans(r.next, s)
  {
    var b := BorrowBook(s, book, user, true);
    var r := ReturnBook(b.next, book, user);
    assert Holders(r.next, book) == Holders(s, book) + multiset{user} - multiset{user};
    assert Holders(s, book) + multiset{user} - multiset{user} == Holders(s, book);
  }
}
