/**
 The three record kinds the catalog keeps: books, members and the
 borrow/return history. They are plain immutable values; the catalog
 replaces a record wholesale when one of its fields changes.
 */
module Records {

  /** A title held by the library; `available` counts the copies not on loan. */
  datatype Book = Book(
    bookId: int,
    title: string,
    author: string,
    isbn: string,
    quantity: int,
    available: int)

  /** A registered borrower; `borrowedBooks` lists the ids of the copies they hold, in borrowing order. */
  datatype Member = Member(
    memberId: int,
    name: string,
    email: string,
    phone: string,
    borrowedBooks: seq<int>)

  datatype TransactionType = Borrow | Return

  /** One entry of the append-only history; `date` is an uninterpreted timestamp. */
  datatype Transaction = Transaction(
    transactionId: int,
    memberId: int,
    bookId: int,
    transactionType: TransactionType,
    date: string)

  /** A freshly registered book: every copy is on the shelf. */
  function NewBook(bookId: int, title: string, author: string, isbn: string, quantity: int): (r: Book)
    ensures r.bookId == bookId && r.title == title && r.author == author && r.isbn == isbn
    ensures r.quantity == quantity && r.available == r.quantity
  {
    Book(bookId, title, author, isbn, quantity, quantity)
  }

  /** A freshly registered member holds nothing. */
  function NewMember(memberId: int, name: string, email: string, phone: string): (r: Member)
    ensures r.memberId == memberId && r.name == name && r.email == email && r.phone == phone
    ensures r.borrowedBooks == []
  {
    Member(memberId, name, email, phone, [])
  }
}
