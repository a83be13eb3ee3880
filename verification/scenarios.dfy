/**
 How borrowing and returning compose: a return undoes a borrow up to the
 order of the member's list, and a worked session from an empty catalog.
 */
module Scenarios {
  import opened Records
  import opened Lists
  import opened Catalog
  import opened Invariants

  /**
   Returning the copy just lent undoes the loan: the books are as before, the
   member holds the same books up to order, and exactly the same list when,
   from their earliest copy of that book on, they held only copies of it.
   The history gains the return.
   */
  lemma ReturnUndoesLend(lib: Library, mid: Library, mi: int, bi: int, memberId: int, bookId: int, tx: Transaction, returnDate: string)
    requires IsFirst(MemberIds(lib.members), mi, memberId) && IsFirst(BookIds(lib.books), bi, bookId)
    requires Lent(lib, mid, mi, bi, tx)
    ensures var after := ReturnBook(mid, memberId, bookId, returnDate);
      && after.outcome == Success
      && after.state.books == lib.books
      && |after.state.members| == |lib.members|
      && (forall k | 0 <= k < |lib.members| && k != mi :: after.state.members[k] == lib.members[k])
      && after.state.members[mi].(borrowedBooks := lib.members[mi].borrowedBooks) == lib.members[mi]
      && multiset(after.state.members[mi].borrowedBooks) == multiset(lib.members[mi].borrowedBooks)
      && (after.state.members[mi] == lib.members[mi] <==> UniformFromFirst(lib.members[mi].borrowedBooks, bookId))
      && after.state.transactions == mid.transactions + [Transaction(|mid.transactions| + 1, memberId, bookId, Return, returnDate)]
  {
    var member := lib.members[mi];
    var book := lib.books[bi];
    var held := member.borrowedBooks + [bookId];
    assert MemberIds(mid.members) == MemberIds(lib.members);
    assert BookIds(mid.books) == BookIds(lib.books);
    assert IsFirst(MemberIds(mid.members), mi, memberId);
    assert IsFirst(BookIds(mid.books), bi, bookId);
    assert bookId in held by {
      assert held[|member.borrowedBooks|] == bookId;
    }
    var after := ReturnBook(mid, memberId, bookId, returnDate);
    assert Restored(mid, after.state, mi, bi, Transaction(|mid.transactions| + 1, memberId, bookId, Return, returnDate));
    var back := RemoveFirst(held, bookId);
    assert after.state.members == lib.members[mi := member.(borrowedBooks := back)];
    assert multiset(back) == multiset(member.borrowedBooks) by {
      assert multiset(held) == multiset(member.borrowedBooks) + multiset{bookId};
    }
    AppendThenRemoveFirst(member.borrowedBooks, bookId);
  }

  /**
   A successful borrow followed by a return of the same book by the same
   member puts every book back as it was and gives every member back the
   same books as a multiset. The member lists come back exactly as they were
   if and only if the borrower, from their earliest copy of that book on,
   held only copies of it. The history gains the borrow and then the return.
   */
  lemma BorrowThenReturn(lib: Library, memberId: int, bookId: int, borrowDate: string, returnDate: string)
    requires BorrowBook(lib, memberId, bookId, borrowDate).outcome == Success
    ensures var after := ReturnBook(BorrowBook(lib, memberId, bookId, borrowDate).state, memberId, bookId, returnDate);
      && after.outcome == Success
      && after.state.books == lib.books
      && |after.state.members| == |lib.members|
      && (forall k | 0 <= k < |lib.members| ::
            && after.state.members[k].(borrowedBooks := lib.members[k].borrowedBooks) == lib.members[k]
            && multiset(after.state.members[k].borrowedBooks) == multiset(lib.members[k].borrowedBooks))
      && (forall mi | IsFirst(MemberIds(lib.members), mi, memberId) ::
            after.state.members == lib.members <==> UniformFromFirst(lib.members[mi].borrowedBooks, bookId))
      && after.state.transactions == lib.transactions + [
           Transaction(|lib.transactions| + 1, memberId, bookId, Borrow, borrowDate),
           Transaction(|lib.transactions| + 2, memberId, bookId, Return, returnDate)]
  {
    var mid := BorrowBook(lib, memberId, bookId, borrowDate).state;
    var mi, bi := BorrowSucceeded(lib, memberId, bookId, borrowDate);
    ReturnUndoesLend(lib, mid, mi, bi, memberId, bookId,
                     Transaction(|lib.transactions| + 1, memberId, bookId, Borrow, borrowDate), returnDate);
    FirstIsOnlyFirst(MemberIds(lib.members), mi, memberId);
    var after := ReturnBook(mid, memberId, bookId, returnDate);
    if after.state.members[mi] == lib.members[mi] {
      assert after.state.members == lib.members;
    }
  }

  /** Looking up id 1 in a collection whose only record carries id 1 finds position 0. */
  lemma OnlyRecord(lib: Library)
    requires |lib.books| == 1 && lib.books[0].bookId == 1
    requires |lib.members| == 1 && lib.members[0].memberId == 1
    ensures IsFirst(MemberIds(lib.members), 0, 1) && IsFirst(BookIds(lib.books), 0, 1)
  {
  }

  /** The borrow of a concrete request, as an equation. */
  lemma LendAt(lib: Library, memberId: int, bookId: int, date: string, mi: int, bi: int, after: Library)
    requires IsFirst(MemberIds(lib.members), mi, memberId) && IsFirst(BookIds(lib.books), bi, bookId)
    requires lib.books[bi].available > 0
    requires after.books == lib.books[bi := lib.books[bi].(available := lib.books[bi].available - 1)]
    requires after.members == lib.members[mi := lib.members[mi].(borrowedBooks := lib.members[mi].borrowedBooks + [bookId])]
    requires after.transactions == lib.transactions + [Transaction(|lib.transactions| + 1, memberId, bookId, Borrow, date)]
    ensures BorrowBook(lib, memberId, bookId, date) == Step(after, Success)
  {
  }

  /**
   A member holding copies of books 1 and 2 who borrows another copy of book
   1 and returns one ends up holding 2 then 1: the return takes the earlier
   copy off the list, so the order is not restored.
   */
  lemma ReturnMayReorderHoldings(first: Book, second: Book, member: Member, borrowDate: string, returnDate: string)
    requires first.bookId == 1 && first.available > 0 && second.bookId == 2
    requires member.memberId == 1 && member.borrowedBooks == [1, 2]
    ensures var lib := Library([first, second], [member], []);
      var lent := BorrowBook(lib, 1, 1, borrowDate);
      var back := ReturnBook(lent.state, 1, 1, returnDate);
      && lent.outcome == Success
      && back.outcome == Success
      && back.state.members[0].borrowedBooks == [2, 1]
  {
    var lib := Library([first, second], [member], []);
    assert MemberIds(lib.members) == [1] && BookIds(lib.books) == [1, 2];
    assert IsFirst([1], 0, 1) && IsFirst([1, 2], 0, 1);
    var held := [1, 2, 1];
    assert member.borrowedBooks + [1] == held;
    var mid := Library([first.(available := first.available - 1), second], [member.(borrowedBooks := held)],
                       [Transaction(1, 1, 1, Borrow, borrowDate)]);
    LendAt(lib, 1, 1, borrowDate, 0, 0, mid);
    assert MemberIds(mid.members) == [1] && BookIds(mid.books) == [1, 2];
    assert 1 in held && IsFirst(held, 0, 1);
    assert RemoveFirst(held, 1) == [2, 1];
    var back := ReturnBook(mid, 1, 1, returnDate);
    assert Restored(mid, back.state, 0, 0, Transaction(2, 1, 1, Return, returnDate));
  }

  /**
   A session from an empty catalog: one book with two copies and one member.
   Two borrows empty the shelf and the third is turned away with nothing
   changed.
   */
  lemma TwoCopiesLent(title: string, author: string, isbn: string, name: string, email: string, phone: string,
                      t1: string, t2: string, t3: string)
    ensures var s0 := AddMember(AddBook(Empty(), title, author, isbn, 2), name, email, phone);
      var s1 := BorrowBook(s0, 1, 1, t1);
      var s2 := BorrowBook(s1.state, 1, 1, t2);
      && s0 == Library([Book(1, title, author, isbn, 2, 2)], [Member(1, name, email, phone, [])], [])
      && s1 == Step(Library([Book(1, title, author, isbn, 2, 1)], [Member(1, name, email, phone, [1])],
                            [Transaction(1, 1, 1, Borrow, t1)]), Success)
      && s2 == Step(Library([Book(1, title, author, isbn, 2, 0)], [Member(1, name, email, phone, [1, 1])],
                            [Transaction(1, 1, 1, Borrow, t1), Transaction(2, 1, 1, Borrow, t2)]), Success)
      && BorrowBook(s2.state, 1, 1, t3) == Step(s2.state, BookNotAvailable)
  {
    var book := Book(1, title, author, isbn, 2, 2);
    var member := Member(1, name, email, phone, []);
    var s0 := Library([book], [member], []);
    OnlyRecord(s0);
    var e1 := Library([book.(available := 1)], [member.(borrowedBooks := [1])], [Transaction(1, 1, 1, Borrow, t1)]);
    assert [] + [1] == [1];
    LendAt(s0, 1, 1, t1, 0, 0, e1);
    OnlyRecord(e1);
    var e2 := Library([book.(available := 0)], [member.(borrowedBooks := [1, 1])],
                      e1.transactions + [Transaction(2, 1, 1, Borrow, t2)]);
    assert [1] + [1] == [1, 1];
    LendAt(e1, 1, 1, t2, 0, 0, e2);
    OnlyRecord(e2);
  }

  /**
   Continuing the session: returning one of the two copies puts it back on
   the shelf and is recorded as transaction 3.
   */
  lemma OneCopyBack(title: string, author: string, isbn: string, name: string, email: string, phone: string,
                    t1: string, t2: string, t4: string)
    ensures var lent := Library([Book(1, title, author, isbn, 2, 0)], [Member(1, name, email, phone, [1, 1])],
                                [Transaction(1, 1, 1, Borrow, t1), Transaction(2, 1, 1, Borrow, t2)]);
      ReturnBook(lent, 1, 1, t4)
        == Step(Library([Book(1, title, author, isbn, 2, 1)], [Member(1, name, email, phone, [1])],
                        lent.transactions + [Transaction(3, 1, 1, Return, t4)]), Success)
  {
    var lent := Library([Book(1, title, author, isbn, 2, 0)], [Member(1, name, email, phone, [1, 1])],
                        [Transaction(1, 1, 1, Borrow, t1), Transaction(2, 1, 1, Borrow, t2)]);
    OnlyRecord(lent);
    assert IsFirst([1, 1], 0, 1);
    var r := ReturnBook(lent, 1, 1, t4);
    assert Restored(lent, r.state, 0, 0, Transaction(3, 1, 1, Return, t4));
    assert RemoveFirst([1, 1], 1) == [1];
    assert r.state.books == [Book(1, title, author, isbn, 2, 1)];
    assert r.state.members == [Member(1, name, email, phone, [1])];
  }
}
