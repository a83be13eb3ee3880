# Library catalog — a Dafny model

This project models the catalog core of a small library manager (`library_management.py`).
The catalog keeps three insertion-ordered collections: books, members and the borrow/return
history. Four operations change it:

- **add book** and **add member** append a record whose id is the collection's length plus one;
- **borrow** and **return** look the member and then the book up by first match, check
  availability or possession, and on success adjust the book's `available` count, the member's
  `borrowed_books` list and the history together. A failed check changes nothing.

Each operation is a pure transition (`Catalog.AddBook`, `Catalog.AddMember`, `Catalog.BorrowBook`,
`Catalog.ReturnBook`). The borrow and return transitions return the new catalog together with an
`Outcome` tag that stands for the message the program prints. The timestamp the program reads from
the clock is a `date: string` parameter. The file save after each change has no effect on the
in-memory state and is not modelled.

Modules, one per concern:

- `Records` (`records.dfy`): the `Book`, `Member` and `Transaction` records.
- `Lists` (`lists.dfy`): the first-match scan used for lookups (`Find`, specified by `IsFirst`)
  and removal of a value's first occurrence (`RemoveFirst`, the behaviour of a list's `remove`).
- `Catalog` (`catalog.dfy`): the catalog state, the four transitions, and the two-state relations
  `Lent` and `Restored` that describe a successful borrow and a successful return.
- `Invariants` (`invariants.dfy`): the invariants of every catalog built from an empty one, and
  their preservation. `Replay` applies a sequence of requests to the empty catalog. The invariants
  are: sequential ids, every held id names a book, and conservation. Conservation says that, for
  each book, `quantity - available` equals the number of copies of that id in all members' lists.
- `Scenarios` (`scenarios.dfy`): borrow followed by return, and a worked session.

Three consequences of the code that the lemmas make precise:

- Borrowing and then returning the same book restores the member's `borrowed_books` only as a
  multiset. Borrowing appends at the end; returning removes the first occurrence. The order comes
  back exactly if and only if, from the member's earliest copy of that book on, they hold only
  copies of it (`Scenarios.BorrowThenReturn`). `Scenarios.ReturnMayReorderHoldings` shows a
  member holding `[1, 2]` ending with `[2, 1]`.
- In the worked session (two copies, two borrows, a refused third borrow, one return), the return
  is transaction 3, because the two successful borrows take ids 1 and 2 (`Scenarios.OneCopyBack`).
- Nothing checks that a new book's quantity is non-negative. So `0 <= available` holds only when
  every book was added with a non-negative quantity (`Invariants.ReplayAvailableBounds`).
  `available <= quantity` holds in every catalog built from an empty one
  (`Invariants.ReplayAvailableAtMostQuantity`).

## Model

| member | source | states |
|---|---|---|
| `Lists.Find` | library_management.py:103-104 | The scan returns a position exactly when the id occurs, and that position is the first occurrence |
| `Lists.FindIsFirstMatch` | library_management.py:103-104 | The scan returns position `i` if and only if `i` is the first occurrence of the id |
| `Lists.RemoveFirst` | library_management.py:139 | Removing a present value shortens the list by one, deletes exactly its first occurrence, and takes one copy out of the multiset |
| `Lists.AppendThenRemoveFirst` | library_management.py:117 | Appending a value and then removing its first occurrence gives back the original list if and only if, once the value occurs, only that value follows |
| `Records.NewBook` | library_management.py:6-12 | A new book carries the given id and fields, and all its copies are on the shelf (`available == quantity`) |
| `Records.NewMember` | library_management.py:25-30 | A new member carries the given id and fields, and holds no books |
| `Catalog.AddBook` | library_management.py:88-93 | Appends exactly one book with id old length + 1, the given fields and `available == quantity`; earlier books, members and history unchanged |
| `Catalog.AddMember` | library_management.py:95-100 | Appends exactly one member with id old length + 1, the given fields and no borrowed books; earlier members, books and history unchanged |
| `Catalog.BorrowBook` | library_management.py:102-122 | Checks in order that the member exists, the book exists, and the first matching book has `available > 0`. A failed check leaves the catalog unchanged and names that check. Otherwise the catalog becomes `Lent`: that book has one copy fewer on the shelf, the member's list gains the id at its end, one `Borrow` transaction with id old length + 1 is appended, and nothing else changes |
| `Catalog.ReturnBook` | library_management.py:124-144 | Checks in order that the member exists, the book exists, and the member holds the id. A failed check leaves the catalog unchanged. Otherwise the catalog becomes `Restored`: one more copy on the shelf, the first occurrence of the id leaves the member's list, one `Return` transaction is appended, and nothing else changes |
| `Catalog.BorrowSucceeded` | library_management.py:112-120 | A successful borrow found the first matching member and book, the book had a copy on the shelf, and the catalog changed as `Lent` describes |
| `Catalog.ReturnSucceeded` | library_management.py:134-142 | A successful return found the first matching member and book, the member held the id, and the catalog changed as `Restored` describes |
| `Invariants.OnLoanUpdate` | library_management.py:117 | Replacing one member's list changes the number of copies on loan by exactly the change in that member's holdings |
| `Invariants.OnLoanZero` | library_management.py:134 | No copy of an id is on loan if and only if no member's list contains it |
| `Invariants.SequentialLookup` | library_management.py:89-104 | With ids following insertion order, the first-match lookup of id `n` answers position `n - 1` when `1 <= n <= length` and nothing otherwise; no other record carries that id |
| `Invariants.AddBookPreservesValid` | library_management.py:88-92 | Adding a book keeps ids sequential, every held id naming a book, and conservation (the new book has nothing on loan) |
| `Invariants.AddMemberPreservesValid` | library_management.py:95-99 | Adding a member keeps the three invariants |
| `Invariants.BorrowPreservesValid` | library_management.py:116-120 | A borrow keeps the three invariants: the shelf loses one copy exactly when a member gains one |
| `Invariants.ReturnPreservesValid` | library_management.py:138-142 | A return keeps the three invariants: the shelf gains one copy exactly when a member gives one back |
| `Invariants.ReplayValid` | library_management.py:58-144 | Every catalog built from an empty one by the four operations has sequential book, member and transaction ids, only known books on loan, and conservation for every book |
| `Invariants.HeldCopiesAreOffShelf` | library_management.py:134-139 | In a valid catalog, every id a member holds names a book with at least one copy off the shelf |
| `Invariants.ApplyPreservesStocked` | library_management.py:112-117 | No operation brings a shelf count below zero, given that a book being added has a non-negative quantity |
| `Invariants.ReplayAvailableAtMostQuantity` | library_management.py:116-117 | In every catalog built from an empty one, each book has at most `quantity` copies on the shelf, with no assumption on the quantities added |
| `Invariants.ReplayAvailableBounds` | library_management.py:112-117 | In every catalog built from an empty one in which no book was added with a negative quantity, each book has between zero and `quantity` copies on the shelf |
| `Invariants.ApplyExtendsHistory` | library_management.py:118-120 | Every operation keeps the earlier history as a prefix and adds at most one transaction |
| `Scenarios.ReturnUndoesLend` | library_management.py:134-142 | Returning the copy just lent succeeds, restores every book and the member's holdings as a multiset, and restores the exact list if and only if only that book follows its first copy |
| `Scenarios.BorrowThenReturn` | library_management.py:116-142 | A successful borrow followed by a return of the same pair restores all books, restores every member's holdings as a multiset (the exact lists under the same condition), and appends a `Borrow` then a `Return` transaction |
| `Scenarios.ReturnMayReorderHoldings` | library_management.py:116-139 | In a catalog with books 1 and 2 where member 1 holds `[1, 2]` and book 1 has a copy on the shelf, `BorrowBook(1, 1)` succeeds, the following `ReturnBook(1, 1)` succeeds, and the member ends holding `[2, 1]` |
| `Scenarios.TwoCopiesLent` | library_management.py:102-122 | From an empty catalog with one two-copy book and one member: two borrows take the shelf to 0 and the list to `[1, 1]`, and a third is refused with nothing changed |
| `Scenarios.OneCopyBack` | library_management.py:124-144 | Continuing the session, a return puts one copy back, leaves `[1]`, and is recorded as transaction 3 |

## Left out

- Reading and writing `library_data.json` (`load_data`, `save_data`, lines 65-86) is file I/O with
  its errors caught and printed. The model treats the save as having no effect on the catalog and
  starts from the empty catalog of a first run. No save-then-load round trip is claimed. The
  constructors at lines 6 and 25 do not accept the `available` and `borrowed_books` keys that the
  save writes, so loading any non-empty saved file fails and leaves all collections empty. Even
  a successful load would reset `available` and `borrowed_books`.
- The `to_dict` serialisers (lines 14-56) only feed the JSON file.
- `display_books` and `display_members` (lines 146-160) only print; they do not change the catalog.
- The interactive menu, its `input()`/`int()` parsing and every printed message (lines 162-217)
  are console I/O; the printed messages are the `Outcome` tags.
- `datetime.now().strftime(...)` (lines 119, 141) reads the clock; the date is a parameter.
- Python's dynamic typing: the model takes ids and quantities to be integers, as the menu's
  `int()` conversions produce. Python integers are unbounded, as Dafny's are, so no wrap-around
  arises.
