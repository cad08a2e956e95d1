/**
 * The library manager object: the inventory and the loan record are fields
 * that its methods update in place. The user-activity check is a function
 * supplied at construction, and the notifier is a ghost log of every
 * (user, message) pair sent. Each method is specified by the corresponding
 * function of module Ledger.
 */
module LibraryManagement {

  import opened Ledger

  class LibraryManager {
    var inventory: map<BookId, int>
    var loans: map<BookId, multiset<UserId>>

    /** The injected user service: whether a user's account is active. */
    const isUserActive: UserId -> bool

    /** Every notification sent so far, oldest first. */
    ghost var notifications: seq<Notification>

    /** Every copy ever added, per book (an absent book had none added). */
    ghost var added: map<BookId, int>

    /** The ledger value the fields hold. */
    function Value(): Ledger.State
      reads this
    {
      Ledger.State(inventory, loans)
    }

    /**
     * No count is negative, and for every book the copies on the shelf plus
     * the copies lent out equal the copies ever added.
     */
    ghost predicate Valid()
      reads this
    {
      Balanced(Value(), added)
    }

    constructor (isUserActive: UserId -> bool)
      ensures Valid()
      ensures Value() == Empty && notifications == []
      ensures this.isUserActive == isUserActive
    {
      this.isUserActive := isUserActive;
      inventory := map[];
      loans := map[];
      notifications := [];
      added := map[];
    }

    method AddBook(book: BookId, quantity: int)
      requires Valid()
      requires quantity >= 0
      modifies this
      ensures Valid()
      ensures Value() == Ledger.AddBook(old(Value()), book, quantity)
      ensures added == old(added)[book := AddedCopies(old(added), book) + quantity]
      ensures notifications == old(notifications)
    {
      ghost var next := Ledger.AddBook(Value(), book, quantity);
      AddKeepsBalanced(Value(), added, book, quantity);
      var copies := Available(Value(), book);
      inventory := inventory[book := copies + quantity];
      added := added[book := AddedCopies(added, book) + quantity];
      assert Value() == next;
    }

    method GetAvailableCopies(book: BookId) returns (copies: int)
      requires Valid()
      ensures copies == Available(Value(), book)
      ensures copies >= 0
    {
      copies := Available(Value(), book);
    }

    method BorrowBook(book: BookId, user: UserId) returns (ok: bool)
      requires Valid()
      modifies this
      ensures Valid()
      ensures var o := Ledger.BorrowBook(old(Value()), book, user, isUserActive(user));
        ok == o.ok && Value() == o.next && notifications == old(notifications) + o.sent
      ensures added == old(added)
    {
      ghost var o := Ledger.BorrowBook(Value(), book, user, isUserActive(user));
      BorrowKeepsBalanced(Value(), added, book, user, isUserActive(user));
      if !isUserActive(user) {
        notifications := notifications + [Notification(user, InactiveMessage)];
        return false;
      }
      var copies := Available(Value(), book);
      if copies <= 0 {
        return false;
      }
      inventory := inventory[book := copies - 1];
      var holders := Holders(Value(), book);
      loans := loans[book := holders + multiset{user}];
      notifications := notifications + [Notification(user, BorrowedMessage(book))];
      ok := true;
      assert Value() == o.next;
    }

    method ReturnBook(book: BookId, user: UserId) returns (ok: bool)
      requires Valid()
      modifies this
      ensures Valid()
      ensures var o := Ledger.ReturnBook(old(Value()), book, user);
        ok == o.ok && Value() == o.next && notifications == old(notifications) + o.sent
      ensures added == old(added)
    {
      ghost var o := Ledger.ReturnBook(Value(), book, user);
      ReturnKeepsBalanced(Value(), added, book, user);
      var holders := Holders(Value(), book);
      if user !in holders {
        return false;
      }
      var copies := Available(Value(), book);
      inventory := inventory[book := copies + 1];
      loans := loans[book := holders - multiset{user}];
      notifications := notifications + [Notification(user, ReturnedMessage(book))];
      ok := true;
      assert Value() == o.next;
    }
  }

  // ---------------------------------------------------------------------------
  // The test scenarios, replayed against the class's contracts. The mocked user
  // service answers true only for the user it was stubbed for.

  method AddBookScenario() returns (counts: seq<int>)
    ensures counts == [1, 1, 3]
  {
    var manager := new LibraryManager(_ => false);
    manager.AddBook("book01", 1);
    var c1 := manager.GetAvailableCopies("book01");
    manager.AddBook("book01", 0);
    var c2 := manager.GetAvailableCopies("book01");
    manager.AddBook("book01", 2);
    var c3 := manager.GetAvailableCopies("book01");
    counts := [c1, c2, c3];
  }

  method BorrowWhenUserInactiveScenario() returns (ok: bool, ghost log: seq<Notification>)
    ensures !ok
    ensures log == [Notification("user01", InactiveMessage)]
  {
    var manager := new LibraryManager(_ => false);
    ok := manager.BorrowBook("01", "user01");
    log := manager.notifications;
  }

  method BorrowWhenNoCopiesScenario() returns (ok: bool, ghost log: seq<Notification>)
    ensures !ok
    ensures log == []
  {
    var manager := new LibraryManager(u => u == "user01");
    ok := manager.BorrowBook("01", "user01");
    log := manager.notifications;
  }

  method BorrowUntilExhaustedScenario() returns (results: seq<bool>, copies: int, ghost log: seq<Notification>)
    ensures results == [true, true, false]
    ensures copies == 0
    ensures log == [Notification("user01", BorrowedMessage("book01")), Notification("user01", BorrowedMessage("book01"))]
  {
    var manager := new LibraryManager(u => u == "user01");
    manager.AddBook("book01", 2);
    var r1 := manager.BorrowBook("book01", "user01");
    var r2 := manager.BorrowBook("book01", "user01");
    var r3 := manager.BorrowBook("book01", "user01");
    results := [r1, r2, r3];
    copies := manager.GetAvailableCopies("book01");
    log := manager.notifications;
  }

  method ReturnWithoutLoanScenario() returns (ok: bool, ghost log: seq<Notification>)
    ensures !ok
    ensures log == []
  {
    var manager := new LibraryManager(_ => false);
    ok := manager.ReturnBook("book01", "user01");
    log := manager.notifications;
  }

  method ReturnByBorrowerScenario() returns (foreign: bool, own: bool, copies: int, ghost log: seq<Notification>)
    ensures !foreign && own
    ensures copies == 1
    ensures log == [Notification("user01", BorrowedMessage("book01")), Notification("user01", ReturnedMessage("book01"))]
  {
    var manager := new LibraryManager(u => u == "user01");
    var before := manager.GetAvailableCopies("book01");
    assert before == 0;
    manager.AddBook("book01", 1);
    var borrowed := manager.BorrowBook("book01", "user01");
    assert borrowed && manager.notifications == [Notification("user01", BorrowedMessage("book01"))];
    assert Holders(manager.Value(), "book01") == multiset{"user01"};
    var during := manager.GetAvailableCopies("book01");
    assert during == 0;
    foreign := manager.ReturnBook("book01", "user02");
    assert !foreign && manager.notifications == [Notification("user01", BorrowedMessage("book01"))];
    own := manager.ReturnBook("book01", "user01");
    assert own;
    copies := manager.GetAvailableCopies("book01");
    log := manager.notifications;
  }
}
