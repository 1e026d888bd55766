/**
 * The three read-only queries of the library service, each a function of the
 * store's contents (books, users, borrows) and the request's parameters.
 *
 * - MostBorrowedBooks: every borrow grouped by its book (id, title, pages),
 *   counted, ordered by count descending, first three kept.
 * - BookAvailability: the copies of one book that are out at the instant
 *   `now` and the copies left; NotFound for an unknown book.
 * - TopBorrowers: the borrows made in [start, end] grouped by user
 *   (id, name), counted, ordered by count descending, first three kept.
 *
 * The group keys are read through each borrow's book or user, so a borrow
 * whose book or user is absent forms no row (an inner join); the store's
 * foreign keys rule that case out.
 */
module LibraryService {
  import opened Models
  import opened Aggregation

  /** How many books the most-borrowed query returns. */
  const NUMBER_OF_BOOKS: nat := 3
  /** How many users the top-borrowers query returns. */
  const NUMBER_OF_USERS: nat := 3

  /** Group key of the most-borrowed query. */
  datatype BookKey = BookKey(id: int, title: string, pages: int)

  /** Group key of the top-borrowers query. */
  datatype UserKey = UserKey(id: int, name: string)

  datatype Availability = Availability(available: int, borrowed: nat)

  /** A query's answer, or the NotFound status the transport reports. */
  datatype Result<T> = Ok(value: T) | NotFound

  function KeyOfBook(b: Book): BookKey {
    BookKey(b.id, b.title, b.pages)
  }

  function KeyOfUser(u: User): UserKey {
    UserKey(u.id, u.name)
  }

  // ---------------------------------------------------------------------------
  // Most-borrowed books

  /** The group key of each borrow whose book exists, in borrow order. */
  function BookKeys(books: seq<Book>, borrows: seq<Borrow>): (keys: seq<BookKey>)
    ensures |keys| <= |borrows|
    ensures forall k :: k in keys ==>
      FindBook(books, k.id).Some? && k == KeyOfBook(FindBook(books, k.id).value)
  {
    if borrows == [] then []
    else match FindBook(books, borrows[0].bookId)
      case None => BookKeys(books, borrows[1..])
      case Some(book) => [KeyOfBook(book)] + BookKeys(books, borrows[1..])
  }

  /** The size of a book's group is the number of borrows that reference it. */
  lemma {:induction false} BookKeyCount(books: seq<Book>, borrows: seq<Borrow>, book: Book)
    requires FindBook(books, book.id) == Some(book)
    ensures Count(BookKeys(books, borrows), KeyOfBook(book)) == |BookBorrowInfo(borrows, book.id)|
  {
    if borrows != [] {
      var b := borrows[0];
      var rest := borrows[1..];
      BookKeyCount(books, rest, book);
      var head: seq<BookKey> := match FindBook(books, b.bookId)
        case None => []
        case Some(f) => [KeyOfBook(f)];
      assert BookKeys(books, borrows) == head + BookKeys(books, rest);
      CountConcat(head, BookKeys(books, rest), KeyOfBook(book));
      assert Count(head, KeyOfBook(book)) == if b.bookId == book.id then 1 else 0;
    }
  }

  /** `GetMostBorrowedBooksAsync`: the three most borrowed books with their borrow counts. */
  function MostBorrowedBooks(books: seq<Book>, borrows: seq<Borrow>): seq<Group<BookKey>> {
    Top(BookKeys(books, borrows), NUMBER_OF_BOOKS)
  }

  /** The answer is a correct top-three ranking of the borrows' books, whatever the tie order. */
  lemma MostBorrowedIsRanking(books: seq<Book>, borrows: seq<Borrow>)
    ensures IsRanking(BookKeys(books, borrows), NUMBER_OF_BOOKS, MostBorrowedBooks(books, borrows))
  {
    TopIsRanking(BookKeys(books, borrows), NUMBER_OF_BOOKS);
  }

  /** When no two books were borrowed equally often, every correct ranking is the answer. */
  lemma MostBorrowedWithoutTies(books: seq<Book>, borrows: seq<Borrow>, r: seq<Group<BookKey>>)
    requires IsRanking(BookKeys(books, borrows), NUMBER_OF_BOOKS, r)
    requires NoTies(BookKeys(books, borrows))
    ensures MostBorrowedBooks(books, borrows) == r
  {
    MostBorrowedIsRanking(books, borrows);
    RankingUniqueWithoutTies(BookKeys(books, borrows), NUMBER_OF_BOOKS, MostBorrowedBooks(books, borrows), r);
  }

  /**
   * In every correct answer r (whatever its tie order), each entry is an
   * existing book, listed under its own title and page count, with the number
   * of borrows that reference it, so at least one.
   */
  lemma MostBorrowedEntries(books: seq<Book>, borrows: seq<Borrow>, r: seq<Group<BookKey>>)
    requires IsRanking(BookKeys(books, borrows), NUMBER_OF_BOOKS, r)
    ensures forall i :: 0 <= i < |r| ==>
      && FindBook(books, r[i].key.id).Some?
      && r[i].key == KeyOfBook(FindBook(books, r[i].key.id).value)
      && r[i].count == |BookBorrowInfo(borrows, r[i].key.id)|
      && r[i].count >= 1
  {
    forall i | 0 <= i < |r|
      ensures r[i].count == |BookBorrowInfo(borrows, r[i].key.id)|
    {
      BookKeyCount(books, borrows, FindBook(books, r[i].key.id).value);
    }
  }

  /** Every correct answer lists at most three books, none twice, with counts that never increase. */
  lemma MostBorrowedOrder(books: seq<Book>, borrows: seq<Borrow>, r: seq<Group<BookKey>>)
    requires IsRanking(BookKeys(books, borrows), NUMBER_OF_BOOKS, r)
    ensures |r| <= NUMBER_OF_BOOKS
    ensures forall i, j :: 0 <= i < j < |r| ==> r[i].key.id != r[j].key.id
    ensures forall i, j :: 0 <= i < j < |r| ==> r[i].count >= r[j].count
  {
    var keys := BookKeys(books, borrows);
    forall i, j | 0 <= i < j < |r| ensures r[i].key.id != r[j].key.id {
      assert r[i].key in keys && r[j].key in keys;
    }
  }

  /** A book no borrow references is listed by no correct answer. */
  lemma NeverBorrowedNeverListed(books: seq<Book>, borrows: seq<Borrow>, bookId: int, r: seq<Group<BookKey>>)
    requires IsRanking(BookKeys(books, borrows), NUMBER_OF_BOOKS, r)
    requires forall b :: b in borrows ==> b.bookId != bookId
    ensures forall g :: g in r ==> g.key.id != bookId
  {
    MostBorrowedEntries(books, borrows, r);
    FilterMembers(borrows, OfBook(bookId));
    assert |BookBorrowInfo(borrows, bookId)| == 0;
    forall g | g in r ensures g.key.id != bookId {
      var i :| 0 <= i < |r| && r[i] == g;
    }
  }

  /**
   * An existing book a correct answer leaves out has been borrowed no more
   * often than any book listed, and fewer than three books are listed only
   * when every borrowed book is.
   */
  lemma MostBorrowedDropsNoBetter(books: seq<Book>, borrows: seq<Borrow>, book: Book, r: seq<Group<BookKey>>)
    requires FindBook(books, book.id) == Some(book)
    requires IsRanking(BookKeys(books, borrows), NUMBER_OF_BOOKS, r)
    requires forall g :: g in r ==> g.key.id != book.id
    ensures forall g :: g in r ==> |BookBorrowInfo(borrows, book.id)| <= g.count
    ensures |r| < NUMBER_OF_BOOKS ==> BookBorrowInfo(borrows, book.id) == []
  {
    BookKeyCount(books, borrows, book);
    UnrankedKey(BookKeys(books, borrows), NUMBER_OF_BOOKS, r, KeyOfBook(book));
  }

  // ---------------------------------------------------------------------------
  // Availability

  /**
   * A borrow holds a copy at `now` when it started at or before `now` and its
   * return date is at or after `now`; comparing with a missing return date is false.
   */
  predicate OnLoanAt(b: Borrow, now: int) {
    && b.borrowDate <= now
    && match b.returnDate
       case None => false
       case Some(returned) => returned >= now
  }

  function OnLoan(now: int): Borrow -> bool {
    (b: Borrow) => OnLoanAt(b, now)
  }

  /** The borrows of a book that hold a copy at `now`. */
  function CopiesOut(borrows: seq<Borrow>, bookId: int, now: int): (r: seq<Borrow>)
    ensures forall b :: b in r <==> b in borrows && b.bookId == bookId && OnLoanAt(b, now)
    ensures |r| <= |BookBorrowInfo(borrows, bookId)|
  {
    FilterMembers(BookBorrowInfo(borrows, bookId), OnLoan(now));
    Filter(BookBorrowInfo(borrows, bookId), OnLoan(now))
  }

  /**
   * `GetBookAvailabilityAsync` with the clock read once as `now`: NotFound
   * exactly when no book has the id; otherwise the copies out at `now` and the
   * copies left, which add up to the copies owned (left is negative when
   * more copies are out than owned).
   */
  function BookAvailability(books: seq<Book>, borrows: seq<Borrow>, bookId: int, now: int): (r: Result<Availability>)
    ensures r.NotFound? <==> forall b :: b in books ==> b.id != bookId
    ensures r.Ok? ==>
      && FindBook(books, bookId).Some?
      && r.value.available + r.value.borrowed == FindBook(books, bookId).value.copies
    ensures r.Ok? ==> r.value.borrowed <= |BookBorrowInfo(borrows, bookId)|
  {
    match FindBook(books, bookId)
    case None => NotFound
    case Some(book) =>
      var borrowed := |CopiesOut(borrows, book.id, now)|;
      Ok(Availability(book.copies - borrowed, borrowed))
  }

  lemma CopiesOutConcat(a: seq<Borrow>, b: seq<Borrow>, bookId: int, now: int)
    ensures CopiesOut(a + b, bookId, now) == CopiesOut(a, bookId, now) + CopiesOut(b, bookId, now)
  {
    FilterConcat(a, b, OfBook(bookId));
    FilterConcat(BookBorrowInfo(a, bookId), BookBorrowInfo(b, bookId), OnLoan(now));
  }

  /** With no borrows every copy of an existing book is available. */
  lemma AvailabilityWithoutBorrows(books: seq<Book>, book: Book, now: int)
    requires FindBook(books, book.id) == Some(book)
    ensures BookAvailability(books, [], book.id, now) == Ok(Availability(book.copies, 0))
  {
  }

  /**
   * Adding one borrow anywhere in the store changes the copies out by one when
   * it is of this book and holds a copy at `now`, and by nothing otherwise;
   * with AvailabilityWithoutBorrows this fixes the count on every store.
   */
  lemma {:induction false} AvailabilityAddBorrow(books: seq<Book>, before: seq<Borrow>, after: seq<Borrow>,
                                                 b: Borrow, bookId: int, now: int)
    requires FindBook(books, bookId).Some?
    ensures var old_ := BookAvailability(books, before + after, bookId, now);
      var new_ := BookAvailability(books, before + [b] + after, bookId, now);
      var delta := if b.bookId == bookId && OnLoanAt(b, now) then 1 else 0;
      && new_.value.borrowed == old_.value.borrowed + delta
      && new_.value.available == old_.value.available - delta
  {
    CopiesOutConcat(before, [b] + after, bookId, now);
    CopiesOutConcat([b], after, bookId, now);
    CopiesOutConcat(before, after, bookId, now);
    assert before + [b] + after == before + ([b] + after);
    var single := CopiesOut([b], bookId, now);
    assert [b][1..] == [];
    assert single == if b.bookId == bookId && OnLoanAt(b, now) then [b] else [];
  }

  /** A borrow with no return date never changes the availability of any book. */
  lemma UnreturnedBorrowNeverCounted(books: seq<Book>, before: seq<Borrow>, after: seq<Borrow>,
                                     b: Borrow, bookId: int, now: int)
    requires b.returnDate.None?
    ensures BookAvailability(books, before + [b] + after, bookId, now)
         == BookAvailability(books, before + after, bookId, now)
  {
    if FindBook(books, bookId).Some? {
      AvailabilityAddBorrow(books, before, after, b, bookId, now);
    }
  }

  // ---------------------------------------------------------------------------
  // Top borrowers in a window

  /** The borrow was made within [start, end], both ends included. */
  predicate InWindow(b: Borrow, start: int, end: int) {
    start <= b.borrowDate && b.borrowDate <= end
  }

  function Within(start: int, end: int): Borrow -> bool {
    (b: Borrow) => InWindow(b, start, end)
  }

  /** The borrows made within [start, end], in store order. */
  function WindowBorrows(borrows: seq<Borrow>, start: int, end: int): (r: seq<Borrow>)
    ensures forall b :: b in r <==> b in borrows && InWindow(b, start, end)
  {
    FilterMembers(borrows, Within(start, end));
    Filter(borrows, Within(start, end))
  }

  /** The group key of each borrow whose user exists, in borrow order. */
  function UserKeys(users: seq<User>, borrows: seq<Borrow>): (keys: seq<UserKey>)
    ensures |keys| <= |borrows|
    ensures forall k :: k in keys ==>
      FindUser(users, k.id).Some? && k == KeyOfUser(FindUser(users, k.id).value)
  {
    if borrows == [] then []
    else match FindUser(users, borrows[0].userId)
      case None => UserKeys(users, borrows[1..])
      case Some(user) => [KeyOfUser(user)] + UserKeys(users, borrows[1..])
  }

  /** The size of a user's group is the number of that user's borrows. */
  lemma {:induction false} UserKeyCount(users: seq<User>, borrows: seq<Borrow>, user: User)
    requires FindUser(users, user.id) == Some(user)
    ensures Count(UserKeys(users, borrows), KeyOfUser(user)) == |UserBorrowInfo(borrows, user.id)|
  {
    if borrows != [] {
      var b := borrows[0];
      var rest := borrows[1..];
      UserKeyCount(users, rest, user);
      var head: seq<UserKey> := match FindUser(users, b.userId)
        case None => []
        case Some(f) => [KeyOfUser(f)];
      assert UserKeys(users, borrows) == head + UserKeys(users, rest);
      CountConcat(head, UserKeys(users, rest), KeyOfUser(user));
      assert Count(head, KeyOfUser(user)) == if b.userId == user.id then 1 else 0;
    }
  }

  /**
   * `GetTopBorrowerOfBookAsync`: the three users with the most borrows made
   * within [start, end], with their in-window borrow counts.
   */
  function TopBorrowers(users: seq<User>, borrows: seq<Borrow>, start: int, end: int): seq<Group<UserKey>> {
    Top(UserKeys(users, WindowBorrows(borrows, start, end)), NUMBER_OF_USERS)
  }

  /** The answer is a correct top-three ranking of the in-window borrows' users, whatever the tie order. */
  lemma TopBorrowersIsRanking(users: seq<User>, borrows: seq<Borrow>, start: int, end: int)
    ensures IsRanking(UserKeys(users, WindowBorrows(borrows, start, end)), NUMBER_OF_USERS,
                      TopBorrowers(users, borrows, start, end))
  {
    TopIsRanking(UserKeys(users, WindowBorrows(borrows, start, end)), NUMBER_OF_USERS);
  }

  /**
   * Whatever order the store puts tied users in, the answer has the same
   * length and the same counts, position by position, as every correct ranking.
   */
  lemma TopBorrowersCountsDetermined(users: seq<User>, borrows: seq<Borrow>, start: int, end: int,
                                     r: seq<Group<UserKey>>)
    requires IsRanking(UserKeys(users, WindowBorrows(borrows, start, end)), NUMBER_OF_USERS, r)
    ensures |TopBorrowers(users, borrows, start, end)| == |r|
    ensures forall i :: 0 <= i < |r| ==> TopBorrowers(users, borrows, start, end)[i].count == r[i].count
  {
    TopBorrowersIsRanking(users, borrows, start, end);
    RankingCountsDetermined(UserKeys(users, WindowBorrows(borrows, start, end)), NUMBER_OF_USERS,
                            TopBorrowers(users, borrows, start, end), r);
  }

  /**
   * In every correct answer r (whatever its tie order), each entry is an
   * existing user, listed under their own name, with the number of their
   * borrows in the window, so at least one.
   */
  lemma TopBorrowersEntries(users: seq<User>, borrows: seq<Borrow>, start: int, end: int,
                            r: seq<Group<UserKey>>)
    requires IsRanking(UserKeys(users, WindowBorrows(borrows, start, end)), NUMBER_OF_USERS, r)
    ensures var window := WindowBorrows(borrows, start, end);
      forall i :: 0 <= i < |r| ==>
        && FindUser(users, r[i].key.id).Some?
        && r[i].key == KeyOfUser(FindUser(users, r[i].key.id).value)
        && r[i].count == |UserBorrowInfo(window, r[i].key.id)|
        && r[i].count >= 1
  {
    var window := WindowBorrows(borrows, start, end);
    forall i | 0 <= i < |r|
      ensures r[i].count == |UserBorrowInfo(window, r[i].key.id)|
    {
      UserKeyCount(users, window, FindUser(users, r[i].key.id).value);
    }
  }

  /**
   * Every correct answer lists at most three users, none twice, with counts
   * that never increase and together are no more than the borrows in the window.
   */
  lemma TopBorrowersOrder(users: seq<User>, borrows: seq<Borrow>, start: int, end: int,
                          r: seq<Group<UserKey>>)
    requires IsRanking(UserKeys(users, WindowBorrows(borrows, start, end)), NUMBER_OF_USERS, r)
    ensures |r| <= NUMBER_OF_USERS
    ensures forall i, j :: 0 <= i < j < |r| ==> r[i].key.id != r[j].key.id
    ensures forall i, j :: 0 <= i < j < |r| ==> r[i].count >= r[j].count
    ensures SumCounts(r) <= |WindowBorrows(borrows, start, end)|
  {
    var keys := UserKeys(users, WindowBorrows(borrows, start, end));
    forall i, j | 0 <= i < j < |r| ensures r[i].key.id != r[j].key.id {
      assert r[i].key in keys && r[j].key in keys;
    }
    RankingSumBound(keys, NUMBER_OF_USERS, r);
  }

  /**
   * An existing user a correct answer leaves out made no more borrows in the
   * window than any user listed, and fewer than three users are listed only
   * when every user with a borrow in the window is.
   */
  lemma TopBorrowersDropsNoBetter(users: seq<User>, borrows: seq<Borrow>, start: int, end: int, user: User,
                                  r: seq<Group<UserKey>>)
    requires FindUser(users, user.id) == Some(user)
    requires IsRanking(UserKeys(users, WindowBorrows(borrows, start, end)), NUMBER_OF_USERS, r)
    requires forall g :: g in r ==> g.key.id != user.id
    ensures var window := WindowBorrows(borrows, start, end);
      forall g :: g in r ==> |UserBorrowInfo(window, user.id)| <= g.count
    ensures |r| < NUMBER_OF_USERS ==> UserBorrowInfo(WindowBorrows(borrows, start, end), user.id) == []
  {
    var window := WindowBorrows(borrows, start, end);
    UserKeyCount(users, window, user);
    UnrankedKey(UserKeys(users, window), NUMBER_OF_USERS, r, KeyOfUser(user));
  }

  /**
   * A borrow made outside [start, end], wherever it sits in the store, never
   * changes the borrows that are ranked, so it changes neither the set of
   * correct answers nor the answer computed.
   */
  lemma OutOfWindowBorrowIgnored(users: seq<User>, before: seq<Borrow>, after: seq<Borrow>,
                                 b: Borrow, start: int, end: int)
    requires !InWindow(b, start, end)
    ensures WindowBorrows(before + [b] + after, start, end) == WindowBorrows(before + after, start, end)
    ensures TopBorrowers(users, before + [b] + after, start, end)
         == TopBorrowers(users, before + after, start, end)
  {
    assert before + [b] + after == before + ([b] + after);
    FilterConcat(before, [b] + after, Within(start, end));
    FilterConcat([b], after, Within(start, end));
    FilterConcat(before, after, Within(start, end));
    assert Filter([b], Within(start, end)) == [];
  }

  /** A window whose start is after its end holds no borrow, so every correct answer is empty. */
  lemma EmptyWindowGivesNoUsers(users: seq<User>, borrows: seq<Borrow>, start: int, end: int)
    requires start > end
    ensures forall r :: IsRanking(UserKeys(users, WindowBorrows(borrows, start, end)), NUMBER_OF_USERS, r) ==> r == []
    ensures TopBorrowers(users, borrows, start, end) == []
  {
    var window := WindowBorrows(borrows, start, end);
    FilterMembers(borrows, Within(start, end));
    assert window == [];
    assert UserKeys(users, window) == [];
    assert Keys(UserKeys(users, window)) == {};
    assert Tally(UserKeys(users, window)) == [];
  }
}
