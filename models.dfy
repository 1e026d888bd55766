/**
 * The entities of the library's record store: books, users and borrow events.
 * Timestamps are integers on one clock (earlier is smaller); a borrow that
 * has no return date carries None.
 */
module Models {
  import opened Aggregation

  datatype Option<T> = None | Some(value: T)

  /** A title the library holds, with its page count and how many copies it owns. */
  datatype Book = Book(id: int, title: string, pages: int, copies: int)

  datatype User = User(id: int, name: string)

  /** One lending of a book to a user; returnDate is nullable in the store. */
  datatype Borrow = Borrow(id: int, bookId: int, userId: int, borrowDate: int, returnDate: Option<int>)

  function OfBook(bookId: int): Borrow -> bool {
    (b: Borrow) => b.bookId == bookId
  }

  function OfUser(userId: int): Borrow -> bool {
    (b: Borrow) => b.userId == userId
  }

  /** The borrows that reference a book: its navigation collection in the store. */
  function BookBorrowInfo(borrows: seq<Borrow>, bookId: int): (r: seq<Borrow>)
    ensures forall b :: b in r <==> b in borrows && b.bookId == bookId
  {
    FilterMembers(borrows, OfBook(bookId));
    Filter(borrows, OfBook(bookId))
  }

  /** The borrows that reference a user: its navigation collection in the store. */
  function UserBorrowInfo(borrows: seq<Borrow>, userId: int): (r: seq<Borrow>)
    ensures forall b :: b in r <==> b in borrows && b.userId == userId
  {
    FilterMembers(borrows, OfUser(userId));
    Filter(borrows, OfUser(userId))
  }

  /** The first book with the given id, as a lookup by primary key returns it. */
  function FindBook(books: seq<Book>, id: int): (r: Option<Book>)
    ensures r.Some? ==> r.value in books && r.value.id == id
    ensures r.None? <==> forall b :: b in books ==> b.id != id
  {
    if books == [] then None
    else if books[0].id == id then Some(books[0])
    else FindBook(books[1..], id)
  }

  /** The first user with the given id, as a lookup by primary key returns it. */
  function FindUser(users: seq<User>, id: int): (r: Option<User>)
    ensures r.Some? ==> r.value in users && r.value.id == id
    ensures r.None? <==> forall u :: u in users ==> u.id != id
  {
    if users == [] then None
    else if users[0].id == id then Some(users[0])
    else FindUser(users[1..], id)
  }
}
