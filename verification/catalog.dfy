/**
 The catalog: three insertion-ordered collections and the four operations
 that change them. Each operation is a pure transition from one catalog to
 the next; the borrow and return operations also report which check, if
 any, turned the request away. Persisting the catalog after a change has no
 effect on the in-memory state and is not modelled.
 */
module Catalog {
  import opened Records
  import opened Lists

  datatype Library = Library(books: seq<Book>, members: seq<Member>, transactions: seq<Transaction>)

  /** What a borrow or return request came to; every value but `Success` leaves the catalog as it was. */
  datatype Outcome = Success | MemberNotFound | BookNotFound | BookNotAvailable | NotBorrowedByMember

  datatype Step = Step(state: Library, outcome: Outcome)

  /** The catalog of a first run, before anything is added. */
  function Empty(): Library
  {
    Library([], [], [])
  }

  function BookIds(books: seq<Book>): (ids: seq<int>)
    ensures |ids| == |books|
    ensures forall i | 0 <= i < |books| :: ids[i] == books[i].bookId
  {
    seq(|books|, i requires 0 <= i < |books| => books[i].bookId)
  }

  function MemberIds(members: seq<Member>): (ids: seq<int>)
    ensures |ids| == |members|
    ensures forall i | 0 <= i < |members| :: ids[i] == members[i].memberId
  {
    seq(|members|, i requires 0 <= i < |members| => members[i].memberId)
  }

  /** Registers a book under the next id; all its copies start on the shelf. */
  function AddBook(lib: Library, title: string, author: string, isbn: string, quantity: int): (r: Library)
    ensures |r.books| == |lib.books| + 1
    ensures r.books[..|lib.books|] == lib.books
    ensures var b := r.books[|lib.books|];
      && b.bookId == |lib.books| + 1
      && b.title == title && b.author == author && b.isbn == isbn
      && b.quantity == quantity && b.available == quantity
    ensures r.members == lib.members && r.transactions == lib.transactions
  {
    lib.(books := lib.books + [NewBook(|lib.books| + 1, title, author, isbn, quantity)])
  }

  /** Registers a member under the next id, holding no books. */
  function AddMember(lib: Library, name: string, email: string, phone: string): (r: Library)
    ensures |r.members| == |lib.members| + 1
    ensures r.members[..|lib.members|] == lib.members
    ensures var m := r.members[|lib.members|];
      && m.memberId == |lib.members| + 1
      && m.name == name && m.email == email && m.phone == phone
      && m.borrowedBooks == []
    ensures r.books == lib.books && r.transactions == lib.transactions
  {
    lib.(members := lib.members + [NewMember(|lib.members| + 1, name, email, phone)])
  }

  /**
   `after` is `before` with one more copy of book `bi` on loan to member `mi`,
   recorded by `tx`: that book has one copy fewer on the shelf, that member's
   list gains the book's id at its end, and nothing else differs.
   */
  predicate Lent(before: Library, after: Library, mi: int, bi: int, tx: Transaction)
  {
    && 0 <= mi < |before.members|
    && 0 <= bi < |before.books|
    && var book := before.books[bi];
    && var member := before.members[mi];
    && after.books == before.books[bi := book.(available := book.available - 1)]
    && after.members == before.members[mi := member.(borrowedBooks := member.borrowedBooks + [book.bookId])]
    && after.transactions == before.transactions + [tx]
  }

  /**
   `after` is `before` with one copy of book `bi` given back by member `mi`,
   recorded by `tx`: that book has one more copy on the shelf, the first
   occurrence of its id leaves that member's list, and nothing else differs.
   */
  predicate Restored(before: Library, after: Library, mi: int, bi: int, tx: Transaction)
  {
    && 0 <= mi < |before.members|
    && 0 <= bi < |before.books|
    && var book := before.books[bi];
    && var member := before.members[mi];
    && book.bookId in member.borrowedBooks
    && after.books == before.books[bi := book.(available := book.available + 1)]
    && after.members == before.members[mi := member.(borrowedBooks := RemoveFirst(member.borrowedBooks, book.bookId))]
    && after.transactions == before.transactions + [tx]
  }

  /**
   Lends one copy of a book to a member. The member is looked up first, then
   the book, each by first match; a missing member, a missing book or an
   empty shelf turns the request away with nothing changed.
   */
  function BorrowBook(lib: Library, memberId: int, bookId: int, date: string): (r: Step)
    ensures r.outcome != Success ==> r.state == lib
    ensures memberId !in MemberIds(lib.members) ==> r == Step(lib, MemberNotFound)
    ensures memberId in MemberIds(lib.members) && bookId !in BookIds(lib.books) ==> r == Step(lib, BookNotFound)
    ensures forall mi, bi | IsFirst(MemberIds(lib.members), mi, memberId) && IsFirst(BookIds(lib.books), bi, bookId) ::
      if lib.books[bi].available <= 0 then r == Step(lib, BookNotAvailable)
      else r.outcome == Success && Lent(lib, r.state, mi, bi, Transaction(|lib.transactions| + 1, memberId, bookId, Borrow, date))
  {
    match (Find(MemberIds(lib.members), memberId), Find(BookIds(lib.books), bookId))
    case (None, _) => Step(lib, MemberNotFound)
    case (Some(_), None) => Step(lib, BookNotFound)
    case (Some(mi), Some(bi)) =>
      FindIsFirstMatch(MemberIds(lib.members), memberId, mi);
      FindIsFirstMatch(BookIds(lib.books), bookId, bi);
      FirstIsOnlyFirst(MemberIds(lib.members), mi, memberId);
      FirstIsOnlyFirst(BookIds(lib.books), bi, bookId);
      var book := lib.books[bi];
      var member := lib.members[mi];
      if book.available <= 0 then Step(lib, BookNotAvailable)
      else
        var tx := Transaction(|lib.transactions| + 1, memberId, bookId, Borrow, date);
        Step(Library(lib.books[bi := book.(available := book.available - 1)],
                     lib.members[mi := member.(borrowedBooks := member.borrowedBooks + [bookId])],
                     lib.transactions + [tx]),
             Success)
  }

  /**
   Takes back one copy of a book from a member. The member and the book are
   looked up as for borrowing; a missing member, a missing book, or a book
   the member does not hold turns the request away with nothing changed.
   */
  function ReturnBook(lib: Library, memberId: int, bookId: int, date: string): (r: Step)
    ensures r.outcome != Success ==> r.state == lib
    ensures memberId !in MemberIds(lib.members) ==> r == Step(lib, MemberNotFound)
    ensures memberId in MemberIds(lib.members) && bookId !in BookIds(lib.books) ==> r == Step(lib, BookNotFound)
    ensures forall mi, bi | IsFirst(MemberIds(lib.members), mi, memberId) && IsFirst(BookIds(lib.books), bi, bookId) ::
      if bookId !in lib.members[mi].borrowedBooks then r == Step(lib, NotBorrowedByMember)
      else r.outcome == Success && Restored(lib, r.state, mi, bi, Transaction(|lib.transactions| + 1, memberId, bookId, Return, date))
  {
    match (Find(MemberIds(lib.members), memberId), Find(BookIds(lib.books), bookId))
    case (None, _) => Step(lib, MemberNotFound)
    case (Some(_), None) => Step(lib, BookNotFound)
    case (Some(mi), Some(bi)) =>
      FindIsFirstMatch(MemberIds(lib.members), memberId, mi);
      FindIsFirstMatch(BookIds(lib.books), bookId, bi);
      FirstIsOnlyFirst(MemberIds(lib.members), mi, memberId);
      FirstIsOnlyFirst(BookIds(lib.books), bi, bookId);
      var book := lib.books[bi];
      var member := lib.members[mi];
      if bookId !in member.borrowedBooks then Step(lib, NotBorrowedByMember)
      else
        var tx := Transaction(|lib.transactions| + 1, memberId, bookId, Return, date);
        Step(Library(lib.books[bi := book.(available := book.available + 1)],
                     lib.members[mi := member.(borrowedBooks := RemoveFirst(member.borrowedBooks, bookId))],
                     lib.transactions + [tx]),
             Success)
  }

  /** A successful borrow names the member and the book it found, and the change it made. */
  lemma BorrowSucceeded(lib: Library, memberId: int, bookId: int, date: string) returns (mi: nat, bi: nat)
    requires BorrowBook(lib, memberId, bookId, date).outcome == Success
    ensures IsFirst(MemberIds(lib.members), mi, memberId) && IsFirst(BookIds(lib.books), bi, bookId)
    ensures lib.books[bi].available > 0
    ensures Lent(lib, BorrowBook(lib, memberId, bookId, date).state, mi, bi,
                 Transaction(|lib.transactions| + 1, memberId, bookId, Borrow, date))
  {
    mi := Find(MemberIds(lib.members), memberId).value;
    bi := Find(BookIds(lib.books), bookId).value;
  }

  /** A successful return names the member and the book it found, and the change it made. */
  lemma ReturnSucceeded(lib: Library, memberId: int, bookId: int, date: string) returns (mi: nat, bi: nat)
    requires ReturnBook(lib, memberId, bookId, date).outcome == Success
    ensures IsFirst(MemberIds(lib.members), mi, memberId) && IsFirst(BookIds(lib.books), bi, bookId)
    ensures bookId in lib.members[mi].borrowedBooks
    ensures Restored(lib, ReturnBook(lib, memberId, bookId, date).state, mi, bi,
                     Transaction(|lib.transactions| + 1, memberId, bookId, Return, date))
  {
    mi := Find(MemberIds(lib.members), memberId).value;
    bi := Find(BookIds(lib.books), bookId).value;
  }
}
