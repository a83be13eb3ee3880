/**
 What stays true of every catalog built from an empty one by the four
 operations: ids follow insertion order, every loan names a known book, and
 each book's copies off the shelf are exactly the copies its borrowers hold.
 */
module Invariants {
  import opened Records
  import opened Lists
  import opened Catalog

  /** Copies of book `id` held across all of `members`. */
  function OnLoan(members: seq<Member>, id: int): (n: nat)
  {
    if |members| == 0 then 0
    else multiset(members[0].borrowedBooks)[id] + OnLoan(members[1..], id)
  }

  /** Replacing one member changes the total by exactly the difference in that member's holdings. */
  lemma {:induction false} OnLoanUpdate(members: seq<Member>, mi: int, m: Member, id: int)
    requires 0 <= mi < |members|
    ensures OnLoan(members[mi := m], id) + multiset(members[mi].borrowedBooks)[id]
         == OnLoan(members, id) + multiset(m.borrowedBooks)[id]
  {
    if mi == 0 {
      assert members[mi := m][1..] == members[1..];
    } else {
      assert members[mi := m][1..] == members[1..][mi - 1 := m];
      OnLoanUpdate(members[1..], mi - 1, m, id);
    }
  }

  /** A member added at the end contributes exactly their own holdings. */
  lemma {:induction false} OnLoanAppend(members: seq<Member>, m: Member, id: int)
    ensures OnLoan(members + [m], id) == OnLoan(members, id) + multiset(m.borrowedBooks)[id]
  {
    if |members| == 0 {
      assert members + [m] == [m];
      assert [m][1..] == [];
    } else {
      assert (members + [m])[1..] == members[1..] + [m];
      OnLoanAppend(members[1..], m, id);
    }
  }

  /** Nobody holds a copy of `id` exactly when the total on loan is zero. */
  lemma {:induction false} OnLoanZero(members: seq<Member>, id: int)
    ensures OnLoan(members, id) == 0 <==> forall i | 0 <= i < |members| :: id !in members[i].borrowedBooks
  {
    if |members| > 0 {
      OnLoanZero(members[1..], id);
      assert forall i | 1 <= i < |members| :: members[i] == members[1..][i - 1];
    }
  }

  /** The total is at least what any single member holds. */
  lemma OnLoanAtLeast(members: seq<Member>, mi: int, id: int)
    requires 0 <= mi < |members|
    ensures OnLoan(members, id) >= multiset(members[mi].borrowedBooks)[id]
  {
    OnLoanUpdate(members, mi, members[mi].(borrowedBooks := []), id);
  }

  /** The i-th record of each collection has id i + 1. */
  predicate IdsSequential(lib: Library)
  {
    && (forall i | 0 <= i < |lib.books| :: lib.books[i].bookId == i + 1)
    && (forall i | 0 <= i < |lib.members| :: lib.members[i].memberId == i + 1)
    && (forall i | 0 <= i < |lib.transactions| :: lib.transactions[i].transactionId == i + 1)
  }

  /** Every id a member holds is the id of a book in the catalog. */
  predicate LoansKnown(lib: Library)
  {
    forall i, x | 0 <= i < |lib.members| && x in lib.members[i].borrowedBooks :: x in BookIds(lib.books)
  }

  /** Each book's copies off the shelf are exactly the copies its borrowers hold. */
  predicate Conserved(lib: Library)
  {
    forall i | 0 <= i < |lib.books| ::
      lib.books[i].quantity - lib.books[i].available == OnLoan(lib.members, lib.books[i].bookId)
  }

  predicate Valid(lib: Library)
  {
    IdsSequential(lib) && LoansKnown(lib) && Conserved(lib)
  }

  /** With sequential ids the first-match scan finds the record at position id - 1, the only one carrying that id. */
  lemma SequentialLookup(lib: Library, id: int)
    requires IdsSequential(lib)
    ensures Find(BookIds(lib.books), id) == (if 1 <= id <= |lib.books| then Some(id - 1) else None)
    ensures Find(MemberIds(lib.members), id) == (if 1 <= id <= |lib.members| then Some(id - 1) else None)
    ensures forall i | 0 <= i < |lib.books| && lib.books[i].bookId == id :: i == id - 1
    ensures forall i | 0 <= i < |lib.members| && lib.members[i].memberId == id :: i == id - 1
  {
    if 1 <= id <= |lib.books| {
      FindIsFirstMatch(BookIds(lib.books), id, id - 1);
    }
    if 1 <= id <= |lib.members| {
      FindIsFirstMatch(MemberIds(lib.members), id, id - 1);
    }
  }

  lemma EmptyIsValid()
    ensures Valid(Empty())
  {
  }

  lemma AddBookPreservesValid(lib: Library, title: string, author: string, isbn: string, quantity: int)
    requires Valid(lib)
    ensures Valid(AddBook(lib, title, author, isbn, quantity))
  {
    var r := AddBook(lib, title, author, isbn, quantity);
    var n := |lib.books|;
    assert r.books == lib.books + [r.books[n]] by {
      assert r.books[..n] == lib.books;
    }
    assert BookIds(r.books) == BookIds(lib.books) + [n + 1];
    assert n + 1 !in BookIds(lib.books);
    OnLoanZero(lib.members, n + 1);
  }

  lemma AddMemberPreservesValid(lib: Library, name: string, email: string, phone: string)
    requires Valid(lib)
    ensures Valid(AddMember(lib, name, email, phone))
  {
    var r := AddMember(lib, name, email, phone);
    var n := |lib.members|;
    assert r.members == lib.members + [r.members[n]] by {
      assert r.members[..n] == lib.members;
    }
    forall id {
      OnLoanAppend(lib.members, r.members[n], id);
    }
  }

  /**
   The common shape of a borrow and a return: book `bi` loses `delta` copies
   from the shelf exactly when member `mi` gains `delta` copies of it, and one
   transaction is appended under the next id.
   */
  lemma ShiftPreservesValid(lib: Library, after: Library, mi: int, bi: int, held: seq<int>, delta: int, tx: Transaction)
    requires Valid(lib)
    requires 0 <= mi < |lib.members| && 0 <= bi < |lib.books|
    requires after.books == lib.books[bi := lib.books[bi].(available := lib.books[bi].available - delta)]
    requires after.members == lib.members[mi := lib.members[mi].(borrowedBooks := held)]
    requires forall id ::
               multiset(held)[id] == multiset(lib.members[mi].borrowedBooks)[id] + (if id == lib.books[bi].bookId then delta else 0)
    requires forall x | x in held :: x in BookIds(lib.books)
    requires after.transactions == lib.transactions + [tx] && tx.transactionId == |lib.transactions| + 1
    ensures Valid(after)
  {
    var member := lib.members[mi];
    assert BookIds(after.books) == BookIds(lib.books);
    forall k | 0 <= k < |lib.books|
      ensures after.books[k].quantity - after.books[k].available == OnLoan(after.members, after.books[k].bookId)
    {
      var id := lib.books[k].bookId;
      OnLoanUpdate(lib.members, mi, member.(borrowedBooks := held), id);
      if k != bi {
        assert id != lib.books[bi].bookId;
      }
    }
  }

  lemma BorrowPreservesValid(lib: Library, memberId: int, bookId: int, date: string)
    requires Valid(lib)
    ensures Valid(BorrowBook(lib, memberId, bookId, date).state)
  {
    var r := BorrowBook(lib, memberId, bookId, date);
    if r.outcome == Success {
      var mi, bi := BorrowSucceeded(lib, memberId, bookId, date);
      var held := lib.members[mi].borrowedBooks + [bookId];
      assert multiset(held) == multiset(lib.members[mi].borrowedBooks) + multiset{bookId};
      ShiftPreservesValid(lib, r.state, mi, bi, held, 1, Transaction(|lib.transactions| + 1, memberId, bookId, Borrow, date));
    }
  }

  lemma ReturnPreservesValid(lib: Library, memberId: int, bookId: int, date: string)
    requires Valid(lib)
    ensures Valid(ReturnBook(lib, memberId, bookId, date).state)
  {
    var r := ReturnBook(lib, memberId, bookId, date);
    if r.outcome == Success {
      var mi, bi := ReturnSucceeded(lib, memberId, bookId, date);
      var member := lib.members[mi];
      var held := RemoveFirst(member.borrowedBooks, bookId);
      assert multiset(held) == multiset(member.borrowedBooks) - multiset{bookId};
      assert bookId in multiset(member.borrowedBooks);
      forall x | x in held
        ensures x in BookIds(lib.books)
      {
        assert x in multiset(held);
        assert x in member.borrowedBooks;
      }
      ShiftPreservesValid(lib, r.state, mi, bi, held, -1, Transaction(|lib.transactions| + 1, memberId, bookId, Return, date));
    }
  }

  /** One request to the catalog, as the menu issues it; the timestamp is supplied. */
  datatype Op =
    | AddBookOp(title: string, author: string, isbn: string, quantity: int)
    | AddMemberOp(name: string, email: string, phone: string)
    | BorrowOp(memberId: int, bookId: int, date: string)
    | ReturnOp(memberId: int, bookId: int, date: string)

  function Apply(lib: Library, op: Op): (r: Library)
  {
    match op
    case AddBookOp(title, author, isbn, quantity) => AddBook(lib, title, author, isbn, quantity)
    case AddMemberOp(name, email, phone) => AddMember(lib, name, email, phone)
    case BorrowOp(memberId, bookId, date) => BorrowBook(lib, memberId, bookId, date).state
    case ReturnOp(memberId, bookId, date) => ReturnBook(lib, memberId, bookId, date).state
  }

  /** The catalog after issuing `ops` in order, starting from an empty one. */
  function Replay(ops: seq<Op>): (r: Library)
  {
    if |ops| == 0 then Empty() else Apply(Replay(ops[..|ops| - 1]), ops[|ops| - 1])
  }

  lemma ApplyPreservesValid(lib: Library, op: Op)
    requires Valid(lib)
    ensures Valid(Apply(lib, op))
  {
    match op
    case AddBookOp(title, author, isbn, quantity) => AddBookPreservesValid(lib, title, author, isbn, quantity);
    case AddMemberOp(name, email, phone) => AddMemberPreservesValid(lib, name, email, phone);
    case BorrowOp(memberId, bookId, date) => BorrowPreservesValid(lib, memberId, bookId, date);
    case ReturnOp(memberId, bookId, date) => ReturnPreservesValid(lib, memberId, bookId, date);
  }

  lemma {:induction false} ReplayValid(ops: seq<Op>)
    ensures Valid(Replay(ops))
  {
    if |ops| == 0 {
      EmptyIsValid();
    } else {
      ReplayValid(ops[..|ops| - 1]);
      ApplyPreservesValid(Replay(ops[..|ops| - 1]), ops[|ops| - 1]);
    }
  }

  /** Every copy a member holds is a copy its book counts as off the shelf. */
  lemma HeldCopiesAreOffShelf(lib: Library, mi: int, x: int)
    requires Valid(lib)
    requires 0 <= mi < |lib.members| && x in lib.members[mi].borrowedBooks
    ensures 1 <= x <= |lib.books|
    ensures lib.books[x - 1].available < lib.books[x - 1].quantity
  {
    assert x in BookIds(lib.books);
    var k :| 0 <= k < |BookIds(lib.books)| && BookIds(lib.books)[k] == x;
    OnLoanAtLeast(lib.members, mi, x);
  }

  /** In every catalog built from an empty one, no book has more copies on the shelf than it owns. */
  lemma ReplayAvailableAtMostQuantity(ops: seq<Op>)
    ensures forall i | 0 <= i < |Replay(ops).books| :: Replay(ops).books[i].available <= Replay(ops).books[i].quantity
  {
    ReplayValid(ops);
  }

  /** No book has a negative number of copies on the shelf. */
  predicate Stocked(lib: Library)
  {
    forall i | 0 <= i < |lib.books| :: lib.books[i].available >= 0
  }

  /** Only a book registered with a negative quantity can bring the shelf count below zero. */
  predicate NonNegativeQuantity(op: Op)
  {
    op.AddBookOp? ==> op.quantity >= 0
  }

  lemma ApplyPreservesStocked(lib: Library, op: Op)
    requires Stocked(lib) && NonNegativeQuantity(op)
    ensures Stocked(Apply(lib, op))
  {
    match op
    case AddBookOp(title, author, isbn, quantity) =>
      var r := AddBook(lib, title, author, isbn, quantity);
      assert forall i | 0 <= i < |lib.books| :: r.books[i] == lib.books[i] by {
        assert r.books[..|lib.books|] == lib.books;
      }
    case AddMemberOp(_, _, _) =>
    case BorrowOp(memberId, bookId, date) =>
      if BorrowBook(lib, memberId, bookId, date).outcome == Success {
        var mi, bi := BorrowSucceeded(lib, memberId, bookId, date);
      }
    case ReturnOp(memberId, bookId, date) =>
      if ReturnBook(lib, memberId, bookId, date).outcome == Success {
        var mi, bi := ReturnSucceeded(lib, memberId, bookId, date);
      }
  }

  /**
   In every catalog reached from an empty one, each book has between zero and
   `quantity` copies on the shelf, provided no book was registered with a
   negative quantity (nothing checks that on entry).
   */
  lemma {:induction false} ReplayAvailableBounds(ops: seq<Op>)
    requires forall k | 0 <= k < |ops| :: NonNegativeQuantity(ops[k])
    ensures forall i | 0 <= i < |Replay(ops).books| ::
              0 <= Replay(ops).books[i].available <= Replay(ops).books[i].quantity
  {
    ReplayStocked(ops);
    ReplayValid(ops);
  }

  lemma {:induction false} ReplayStocked(ops: seq<Op>)
    requires forall k | 0 <= k < |ops| :: NonNegativeQuantity(ops[k])
    ensures Stocked(Replay(ops))
  {
    if |ops| > 0 {
      ReplayStocked(ops[..|ops| - 1]);
      ApplyPreservesStocked(Replay(ops[..|ops| - 1]), ops[|ops| - 1]);
    }
  }

  /** The history only grows: every operation keeps the earlier transactions as a prefix. */
  lemma ApplyExtendsHistory(lib: Library, op: Op)
    ensures lib.transactions <= Apply(lib, op).transactions
    ensures |Apply(lib, op).transactions| <= |lib.transactions| + 1
  {
    match op
    case AddBookOp(_, _, _, _) =>
    case AddMemberOp(_, _, _) =>
    case BorrowOp(memberId, bookId, date) =>
      if BorrowBook(lib, memberId, bookId, date).outcome == Success {
        var mi, bi := BorrowSucceeded(lib, memberId, bookId, date);
      }
    case ReturnOp(memberId, bookId, date) =>
      if ReturnBook(lib, memberId, bookId, date).outcome == Success {
        var mi, bi := ReturnSucceeded(lib, memberId, bookId, date);
      }
  }
}

