/**
 * The store's seed data as a concrete scenario for the three queries.
 * Identities are the ones the store assigns on insertion (1, 2, 3, ...);
 * timestamps are days relative to the instant the seed ran, which is
 * taken as `now` = 0.
 */
module Seeding {
  import opened Models
  import opened Aggregation
  import opened LibraryService

  const SEED_BOOKS: seq<Book> := [
    Book(1, "Lord of the Rings", 603, 5),
    Book(2, "A Dance with Dragons", 412, 3),
    Book(3, "The Hobbit", 310, 4)
  ]

  const SEED_USERS: seq<User> := [
    User(1, "Alice"),
    User(2, "Bo"),
    User(3, "Chenchen")
  ]

  const SEED_BORROWS: seq<Borrow> := [
    Borrow(1, 1, 1, -10, Some(-5)),
    Borrow(2, 2, 1, -7, Some(-2)),
    Borrow(3, 1, 2, -3, Some(-1)),
    Borrow(4, 3, 3, -1, Some(4)),
    Borrow(5, 2, 3, -2, Some(3)),
    Borrow(6, 2, 2, -4, Some(1))
  ]

  const NOW: int := 0

  // Every constant below is spelled out in full (rather than built from the
  // others) so that the verifier can evaluate the queries on it directly.

  const LOTR: BookKey := BookKey(1, "Lord of the Rings", 603)
  const DRAGONS: BookKey := BookKey(2, "A Dance with Dragons", 412)
  const HOBBIT: BookKey := BookKey(3, "The Hobbit", 310)

  const ALICE: UserKey := UserKey(1, "Alice")
  const BO: UserKey := UserKey(2, "Bo")
  const CHENCHEN: UserKey := UserKey(3, "Chenchen")

  /** The group key of each seed borrow, in store order. */
  const BOOK_KEYS: seq<BookKey> := [
    BookKey(1, "Lord of the Rings", 603),
    BookKey(2, "A Dance with Dragons", 412),
    BookKey(1, "Lord of the Rings", 603),
    BookKey(3, "The Hobbit", 310),
    BookKey(2, "A Dance with Dragons", 412),
    BookKey(2, "A Dance with Dragons", 412)
  ]

  /** The user of each seed borrow, in store order. */
  const USER_KEYS: seq<UserKey> := [UserKey(1, "Alice"), UserKey(1, "Alice"), UserKey(2, "Bo"), UserKey(3, "Chenchen"), UserKey(3, "Chenchen"), UserKey(2, "Bo")]

  /** The seed borrows made in [-5, 0], in store order. */
  const SHORT_BORROWS: seq<Borrow> := [
    Borrow(3, 1, 2, -3, Some(-1)),
    Borrow(4, 3, 3, -1, Some(4)),
    Borrow(5, 2, 3, -2, Some(3)),
    Borrow(6, 2, 2, -4, Some(1))
  ]

  /** The users of the seed borrows made in [-5, 0], in store order. */
  const SHORT_KEYS: seq<UserKey> := [UserKey(2, "Bo"), UserKey(3, "Chenchen"), UserKey(3, "Chenchen"), UserKey(2, "Bo")]

  // ---------------------------------------------------------------------------
  // Rankings of two or three keys, for the examples below

  /** Three keys that make up s, listed by non-increasing count, are a correct ranking of s. */
  lemma ThreeIsRanking<K(!new)>(s: seq<K>, n: nat, a: K, b: K, c: K)
    requires forall k :: k in s <==> k == a || k == b || k == c
    requires a != b && b != c && a != c
    requires Count(s, a) >= Count(s, b) >= Count(s, c)
    requires n >= 3
    ensures IsRanking(s, n, [Group(a, Count(s, a)), Group(b, Count(s, b)), Group(c, Count(s, c))])
  {
    var r := [Group(a, Count(s, a)), Group(b, Count(s, b)), Group(c, Count(s, c))];
    assert Keys(s) == {a, b, c};
    assert |{a, b}| == 2;
    assert |{a, b, c}| == 3;
    assert r[0].key == a && r[1].key == b && r[2].key == c;
    assert a in s && b in s && c in s;
    forall k | k in s ensures Ranked(k, r) {
      if k == a { assert r[0].key == k; }
      else if k == b { assert r[1].key == k; }
      else { assert r[2].key == k; }
    }
  }

  /** Two keys that make up s, listed by non-increasing count, are a correct ranking of s. */
  lemma TwoIsRanking<K(!new)>(s: seq<K>, n: nat, a: K, b: K)
    requires forall k :: k in s <==> k == a || k == b
    requires a != b
    requires Count(s, a) >= Count(s, b)
    requires n >= 2
    ensures IsRanking(s, n, [Group(a, Count(s, a)), Group(b, Count(s, b))])
  {
    var r := [Group(a, Count(s, a)), Group(b, Count(s, b))];
    assert Keys(s) == {a, b};
    assert |{a, b}| == 2;
    assert r[0].key == a && r[1].key == b;
    assert a in s && b in s;
    forall k | k in s ensures Ranked(k, r) {
      if k == a { assert r[0].key == k; }
      else { assert r[1].key == k; }
    }
  }

  // ---------------------------------------------------------------------------
  // Lookups and availability

  lemma SeedBookLookups()
    ensures FindBook(SEED_BOOKS, 1) == Some(SEED_BOOKS[0])
    ensures FindBook(SEED_BOOKS, 2) == Some(SEED_BOOKS[1])
    ensures FindBook(SEED_BOOKS, 3) == Some(SEED_BOOKS[2])
    ensures FindBook(SEED_BOOKS, 4) == None
  {
  }

  lemma SeedUserLookups()
    ensures FindUser(SEED_USERS, 1) == Some(SEED_USERS[0])
    ensures FindUser(SEED_USERS, 2) == Some(SEED_USERS[1])
    ensures FindUser(SEED_USERS, 3) == Some(SEED_USERS[2])
  {
  }

  lemma SeedCopiesOutOfLotr()
    ensures CopiesOut(SEED_BORROWS, 1, NOW) == []
  {
  }

  /** The borrows of book 1 were both returned before `now`. */
  lemma SeedAvailabilityOfLotr()
    ensures BookAvailability(SEED_BOOKS, SEED_BORROWS, 1, NOW) == Ok(Availability(5, 0))
  {
    SeedCopiesOutOfLotr();
  }

  lemma SeedCopiesOutOfDragons()
    ensures |CopiesOut(SEED_BORROWS, 2, NOW)| == 2
  {
  }

  /** Two borrows of book 2 straddle `now`; the third was returned earlier. */
  lemma SeedAvailabilityOfDragons()
    ensures BookAvailability(SEED_BOOKS, SEED_BORROWS, 2, NOW) == Ok(Availability(1, 2))
  {
    SeedBookLookups();
    SeedCopiesOutOfDragons();
  }

  lemma SeedCopiesOutOfHobbit()
    ensures |CopiesOut(SEED_BORROWS, 3, NOW)| == 1
  {
  }

  /** The one borrow of book 3 straddles `now`. */
  lemma SeedAvailabilityOfHobbit()
    ensures BookAvailability(SEED_BOOKS, SEED_BORROWS, 3, NOW) == Ok(Availability(3, 1))
  {
    SeedBookLookups();
    SeedCopiesOutOfHobbit();
  }

  /** There is no book 4. */
  lemma SeedAvailabilityOfMissingBook()
    ensures BookAvailability(SEED_BOOKS, SEED_BORROWS, 4, NOW) == NotFound
  {
    SeedBookLookups();
  }

  // ---------------------------------------------------------------------------
  // Most-borrowed books

  lemma SeedBookKeys()
    ensures BookKeys(SEED_BOOKS, SEED_BORROWS) == BOOK_KEYS
  {
    SeedBookLookups();
  }

  lemma SeedBookMembers()
    ensures forall k :: k in BOOK_KEYS <==> k == LOTR || k == DRAGONS || k == HOBBIT
  {
  }

  lemma SeedLotrCount()
    ensures Count(BOOK_KEYS, LOTR) == 2
  {
  }

  lemma SeedDragonsCount()
    ensures Count(BOOK_KEYS, DRAGONS) == 3
  {
  }

  lemma SeedHobbitCount()
    ensures Count(BOOK_KEYS, HOBBIT) == 1
  {
  }

  /** Book 2 was borrowed three times, book 1 twice and book 3 once. */
  lemma SeedBookRanking()
    ensures IsRanking(BOOK_KEYS, NUMBER_OF_BOOKS, [Group(DRAGONS, 3), Group(LOTR, 2), Group(HOBBIT, 1)])
  {
    SeedBookMembers();
    SeedLotrCount();
    SeedDragonsCount();
    SeedHobbitCount();
    ThreeIsRanking(BOOK_KEYS, NUMBER_OF_BOOKS, DRAGONS, LOTR, HOBBIT);
  }

  /** No two seed books were borrowed equally often. */
  lemma SeedBookNoTies()
    ensures NoTies(BOOK_KEYS)
  {
    SeedBookMembers();
    SeedLotrCount();
    SeedDragonsCount();
    SeedHobbitCount();
  }

  /** So the answer is exactly book 2, book 1, book 3. */
  lemma SeedMostBorrowed()
    ensures MostBorrowedBooks(SEED_BOOKS, SEED_BORROWS) == [Group(DRAGONS, 3), Group(LOTR, 2), Group(HOBBIT, 1)]
  {
    SeedBookKeys();
    SeedBookRanking();
    SeedBookNoTies();
    MostBorrowedWithoutTies(SEED_BOOKS, SEED_BORROWS, [Group(DRAGONS, 3), Group(LOTR, 2), Group(HOBBIT, 1)]);
  }

  // ---------------------------------------------------------------------------
  // Top borrowers

  lemma SeedUserKeys()
    ensures UserKeys(SEED_USERS, SEED_BORROWS) == USER_KEYS
  {
    SeedUserLookups();
  }

  /** Every seed borrow was made in [-10, 0]. */
  lemma SeedWideWindow()
    ensures WindowBorrows(SEED_BORROWS, -10, NOW) == SEED_BORROWS
  {
    var p := Within(-10, NOW);
    assert SEED_BORROWS == SEED_BORROWS[..2] + SHORT_BORROWS;
    FilterConcat(SEED_BORROWS[..2], SHORT_BORROWS, p);
    FilterKeepsAll(SEED_BORROWS[..2], p);
    FilterKeepsAll(SHORT_BORROWS, p);
  }

  lemma SeedUserMembers()
    ensures forall k :: k in USER_KEYS <==> k == ALICE || k == BO || k == CHENCHEN
  {
  }

  lemma SeedAliceCount()
    ensures Count(USER_KEYS, ALICE) == 2
  {
  }

  lemma SeedBoCount()
    ensures Count(USER_KEYS, BO) == 2
  {
  }

  lemma SeedChenchenCount()
    ensures Count(USER_KEYS, CHENCHEN) == 2
  {
  }

  /**
   * In the window [-10, 0] each user made two borrows: a three-way tie, so
   * any order of the three users is a correct answer (two are shown).
   */
  lemma SeedWideRankings()
    ensures IsRanking(USER_KEYS, NUMBER_OF_USERS, [Group(ALICE, 2), Group(BO, 2), Group(CHENCHEN, 2)])
    ensures IsRanking(USER_KEYS, NUMBER_OF_USERS, [Group(CHENCHEN, 2), Group(BO, 2), Group(ALICE, 2)])
  {
    SeedUserMembers();
    SeedAliceCount();
    SeedBoCount();
    SeedChenchenCount();
    ThreeIsRanking(USER_KEYS, NUMBER_OF_USERS, ALICE, BO, CHENCHEN);
    ThreeIsRanking(USER_KEYS, NUMBER_OF_USERS, CHENCHEN, BO, ALICE);
  }

  /**
   * Whichever order is chosen, all three users are listed (and by
   * TopBorrowersCountsDetermined each with two borrows).
   */
  lemma SeedTopBorrowersTie()
    ensures |TopBorrowers(SEED_USERS, SEED_BORROWS, -10, NOW)| == 3
  {
    SeedWideWindow();
    SeedUserKeys();
    SeedWideRankings();
    TopBorrowersCountsDetermined(SEED_USERS, SEED_BORROWS, -10, NOW,
                                 [Group(ALICE, 2), Group(BO, 2), Group(CHENCHEN, 2)]);
  }

  /** Only the last four seed borrows were made in [-5, 0]. */
  lemma SeedShortWindow()
    ensures WindowBorrows(SEED_BORROWS, -5, NOW) == SHORT_BORROWS
  {
    var p := Within(-5, NOW);
    assert SEED_BORROWS == SEED_BORROWS[..2] + SHORT_BORROWS;
    FilterConcat(SEED_BORROWS[..2], SHORT_BORROWS, p);
    FilterMembers(SEED_BORROWS[..2], p);
    FilterKeepsAll(SHORT_BORROWS, p);
  }

  lemma SeedShortWindowKeys()
    ensures UserKeys(SEED_USERS, SHORT_BORROWS) == SHORT_KEYS
  {
    SeedUserLookups();
  }

  lemma SeedShortMembers()
    ensures forall k :: k in SHORT_KEYS <==> k == BO || k == CHENCHEN
  {
  }

  lemma SeedShortCounts()
    ensures Count(SHORT_KEYS, BO) == 2
    ensures Count(SHORT_KEYS, CHENCHEN) == 2
  {
  }

  /** In the window [-5, 0] Bo and Chenchen tie with two borrows each; either order is correct. */
  lemma SeedShortRankings()
    ensures IsRanking(SHORT_KEYS, NUMBER_OF_USERS, [Group(BO, 2), Group(CHENCHEN, 2)])
    ensures IsRanking(SHORT_KEYS, NUMBER_OF_USERS, [Group(CHENCHEN, 2), Group(BO, 2)])
  {
    SeedShortMembers();
    SeedShortCounts();
    TwoIsRanking(SHORT_KEYS, NUMBER_OF_USERS, BO, CHENCHEN);
    TwoIsRanking(SHORT_KEYS, NUMBER_OF_USERS, CHENCHEN, BO);
  }

  /**
   * Alice made no borrow in [-5, 0], so the answer lists only two users (and
   * by TopBorrowersCountsDetermined each with two borrows).
   */
  lemma SeedTopBorrowersShortWindow()
    ensures |TopBorrowers(SEED_USERS, SEED_BORROWS, -5, NOW)| == 2
  {
    SeedShortWindow();
    SeedShortWindowKeys();
    SeedShortRankings();
    TopBorrowersCountsDetermined(SEED_USERS, SEED_BORROWS, -5, NOW, [Group(BO, 2), Group(CHENCHEN, 2)]);
  }

  // ---------------------------------------------------------------------------
  // Two edge cases of the availability query

  /** Three copies out of a book that owns two: the availability is reported as -1, not clamped. */
  lemma OverbookedAvailability()
    ensures BookAvailability([Book(7, "Overbooked", 100, 2)], [
      Borrow(1, 7, 1, -3, Some(2)),
      Borrow(2, 7, 2, -2, Some(1)),
      Borrow(3, 7, 3, -1, Some(0))
    ], 7, NOW) == Ok(Availability(-1, 3))
  {
  }

  /** A borrow with no return date holds no copy: the book is reported fully available. */
  lemma UnreturnedBorrowAvailability()
    ensures BookAvailability([Book(8, "Outstanding", 100, 1)], [Borrow(1, 8, 1, -3, None)], 8, NOW)
         == Ok(Availability(1, 0))
  {
  }
}
