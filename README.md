# LibraryApi query core in Dafny

This project models the three read-only queries of the library service's
gRPC handler `LibraryServiceLogic`:

- **most borrowed books** (`GetMostBorrowedBooksAsync`). Every borrow is
  grouped by its book (id, title, page count) and each group is counted. The
  groups are ordered by count, descending, and the first three are kept.
- **book availability** (`GetBookAvailabilityAsync`). The book is looked up by
  id, with NotFound when it is absent. The borrows of that book that straddle
  one sampled instant `now` are counted. Copies available are the copies owned
  minus that count, not clamped at zero.
- **top borrowers in a time frame** (`GetTopBorrowerOfBookAsync`). Only
  borrows made in `[start, end]` (both ends included) are kept. They are
  grouped by user (id, name) and counted, ordered by count descending, and the
  first three are kept.

Each query is a pure function of the store's contents and the request's
parameters. The store holds books, users and borrows as sequences in store
order; a borrow's return date is optional.

Files and modules:

- `aggregation.dfy` (`Aggregation`): the LINQ pipeline on sequences. It has
  `Filter` (Where), `Count`, `Distinct`, `Tally` (group-by-and-count),
  `Insert`/`SortDesc` (order by count, descending) and `Top` (take n). It also
  has the specification predicate `IsRanking`, "a correct top-n answer,
  whatever the tie order", and the lemmas about it.
- `models.dfy` (`Models`): the entities `Book`, `User` and `Borrow`. It also
  has the navigation collections `BookBorrowInfo` and `UserBorrowInfo`, and the
  primary-key lookups `FindBook` and `FindUser`.
- `library_service.dfy` (`LibraryService`): the three queries and their
  properties.
- `seeding.dfy` (`Seeding`): the seed data of the store as a concrete scenario,
  with the answers the three queries give on it.

Modelling decisions:

- **Ties.** The service orders by count only. The store that translates the
  query to SQL fixes no order among equal counts. `IsRanking` is the
  specification of a correct answer under any tie order.
  - The properties of the two rankings (`MostBorrowedEntries`,
    `MostBorrowedOrder`, `NeverBorrowedNeverListed`, `MostBorrowedDropsNoBetter`
    and their `TopBorrowers*` counterparts) hold for every `r` with `IsRanking`.
  - `MostBorrowedIsRanking` and `TopBorrowersIsRanking` show that the computed
    answers are such an `r`.
  - `RankingCountsDetermined` shows that all correct answers agree on their
    length and their counts, position by position.
  - `RankingUniqueWithoutTies` shows that without ties there is only one
    correct answer.
  - The executable `Top` picks one admissible order: groups in order of first
    occurrence (`DistinctInFirstOccurrenceOrder`), then an insertion sort by
    count.
  - The lemmas that name the computed answer itself are few.
    `MostBorrowedWithoutTies` and `TopBorrowersCountsDetermined` tie it to
    every correct ranking. `OutOfWindowBorrowIgnored` and
    `EmptyWindowGivesNoUsers` state their fact both for the ranked borrows
    (and so for every correct answer) and for the computed answer.
- **Joins.** A group key reads the borrow's `Book` or `User` navigation. So a
  borrow whose book or user is absent forms no group, as an inner join would.
  The store's foreign keys exclude that case, and the model needs no
  precondition for it.
- **Time.** Timestamps are integers on one clock. The single read of the clock
  becomes the parameter `now`. A missing return date makes `ReturnDate >= now`
  false, as C#'s lifted comparison with null does, so such a borrow never holds
  a copy.
- **Seed data.** The seed timestamps are whole days relative to the instant of
  seeding, which the examples take as `now = 0`. Store ids are 1, 2, 3, … in
  insertion order.

## Model

| member | source | states |
|---|---|---|
| Models.BookBorrowInfo | LibraryApi/Data/Models.cs:11 | a book's borrow collection holds exactly the borrows whose BookId is the book's id |
| Models.UserBorrowInfo | LibraryApi/Data/Models.cs:18 | a user's borrow collection holds exactly the borrows whose UserId is the user's id |
| Models.FindBook | LibraryApi/Services/LibraryService.cs:47-49 | the lookup returns a stored book with the requested id, and returns nothing exactly when no stored book has that id |
| Models.FindUser | LibraryApi/Services/LibraryService.cs:78 | the lookup returns a stored user with the requested id, and returns nothing exactly when no stored user has that id |
| Aggregation.Filter | LibraryApi/Services/LibraryService.cs:77 | Where never yields more elements than it is given |
| Aggregation.FilterMembers | LibraryApi/Services/LibraryService.cs:77 | Where keeps an element exactly when it is in the input and satisfies the predicate; it keeps nothing when none does |
| Aggregation.FilterKeepsAll | LibraryApi/Services/LibraryService.cs:77 | Where keeps the whole input, in order, when every element satisfies the predicate |
| Aggregation.FilterConcat | LibraryApi/Services/LibraryService.cs:77 | Where over a concatenation is the concatenation of the two Where results, so the store's order is kept |
| Aggregation.Count | LibraryApi/Services/LibraryService.cs:33 | a group's Count is at most the input's length, and is positive exactly when the key occurs |
| Aggregation.CountConcat | LibraryApi/Services/LibraryService.cs:33 | counting over a concatenation adds the counts of its two parts |
| Aggregation.Distinct | LibraryApi/Services/LibraryService.cs:22-27 | the group keys are exactly the keys that occur, each listed once |
| Aggregation.DistinctInFirstOccurrenceOrder | LibraryApi/Services/LibraryService.cs:22-27 | the group keys are listed in the order in which each key first occurs among the borrows |
| Aggregation.Tally | LibraryApi/Services/LibraryService.cs:22-34 | GroupBy with Count yields one group per distinct key and no key twice; each group carries its key's exact number of occurrences, and every occurring key has its group |
| Aggregation.TallySum | LibraryApi/Services/LibraryService.cs:22-34 | the group counts add up to the number of grouped elements |
| Aggregation.Insert | LibraryApi/Services/LibraryService.cs:35 | insertion adds exactly the one group, keeping every other group (as a multiset) |
| Aggregation.InsertKeepsSorted | LibraryApi/Services/LibraryService.cs:35 | inserting into a list sorted by non-increasing count keeps it sorted |
| Aggregation.InsertKeepsDistinctKeys | LibraryApi/Services/LibraryService.cs:35 | inserting a group with a new key keeps the keys distinct |
| Aggregation.SortDesc | LibraryApi/Services/LibraryService.cs:35 | OrderByDescending returns a permutation of its input, sorted by non-increasing count |
| Aggregation.SortDescKeepsDistinctKeys | LibraryApi/Services/LibraryService.cs:35 | ordering does not duplicate any key |
| Aggregation.TopIsRanking | LibraryApi/Services/LibraryService.cs:22-36 | `Top` (GroupBy, Count, OrderByDescending and Take(n) together) gives a correct ranking as the specification `IsRanking` defines it: min(n, distinct keys) entries, exact counts, distinct keys, non-increasing counts, and nothing dropped that outranks an entry kept |
| Aggregation.TopEntriesExact | LibraryApi/Services/LibraryService.cs:28-34 | every entry of the answer is an occurring key with its exact count |
| Aggregation.TopDroppedNoBetter | LibraryApi/Services/LibraryService.cs:35-36 | a key left out by Take occurs no more often than any entry kept |
| Aggregation.PrefixDropsNoBetter | LibraryApi/Services/LibraryService.cs:35-36 | after ordering by count, a group that Take does not keep is outranked by each group it keeps |
| Aggregation.RankingCountsDetermined | LibraryApi/Services/LibraryService.cs:35-36 | all correct rankings have the same length and the same count at each position; the tie order changes only which keys appear |
| Aggregation.RankingUniqueWithoutTies | LibraryApi/Services/LibraryService.cs:35-36 | when no two keys occur equally often there is exactly one correct ranking |
| Aggregation.UnrankedKey | LibraryApi/Services/LibraryService.cs:35-36 | a key a correct ranking leaves out occurs no more often than any entry, and not at all when the ranking has fewer than n entries |
| Aggregation.ShortRankingIsComplete | LibraryApi/Services/LibraryService.cs:36 | a ranking shorter than n lists every occurring key |
| Aggregation.CountAtMost | LibraryApi/Services/LibraryService.cs:35-36 | position i of one correct ranking never carries a larger count than position i of another |
| Aggregation.SumCountsBound | LibraryApi/Services/LibraryService.cs:28-34 | exactly counted groups with distinct keys add up to at most the elements grouped, and to all of them when every key has a group |
| Aggregation.RankingSumBound | LibraryApi/Services/LibraryService.cs:78-86 | the counts of a correct ranking add up to at most the number of elements ranked |
| LibraryService.BookKeys | LibraryApi/Services/LibraryService.cs:22-27 | each group key (`KeyOfBook`, the anonymous key of the GroupBy) is the (id, title, pages) of the stored book with that id; there are never more keys than borrows |
| LibraryService.BookKeyCount | LibraryApi/Services/LibraryService.cs:33 | the size of a book's group is the number of borrows that reference the book |
| LibraryService.MostBorrowedIsRanking | LibraryApi/Services/LibraryService.cs:17-43 | the answer of `MostBorrowedBooks`, the model of GetMostBorrowedBooksAsync, is a correct top-3 ranking of the borrows' books, whatever the tie order |
| LibraryService.MostBorrowedWithoutTies | LibraryApi/Services/LibraryService.cs:35-36 | when no two books were borrowed equally often, the answer is the one correct ranking |
| LibraryService.MostBorrowedEntries | LibraryApi/Services/LibraryService.cs:22-34 | in every correct answer, each entry is a stored book under its own title and page count; its BorrowCount is the number of borrows with that BookId, so at least 1 |
| LibraryService.MostBorrowedOrder | LibraryApi/Services/LibraryService.cs:19 | every correct answer has at most numberOfBooks = 3 entries, no book id twice, and BorrowCount non-increasing |
| LibraryService.NeverBorrowedNeverListed | LibraryApi/Services/LibraryService.cs:22-33 | a book with zero borrows appears in no correct answer |
| LibraryService.MostBorrowedDropsNoBetter | LibraryApi/Services/LibraryService.cs:35-36 | a stored book that a correct answer leaves out was borrowed no more often than every entry; fewer than 3 entries only when the book was never borrowed |
| LibraryService.CopiesOut | LibraryApi/Services/LibraryService.cs:56-58 | the borrows counted (the Count predicate `OnLoanAt`) are exactly this book's borrows with BorrowDate <= now and a ReturnDate present and >= now |
| LibraryService.BookAvailability | LibraryApi/Services/LibraryService.cs:44-67 | NotFound exactly when no book has the id; otherwise Available + Borrowed == NumCopies, with Borrowed at most the book's borrows |
| LibraryService.CopiesOutConcat | LibraryApi/Services/LibraryService.cs:56-58 | the borrows counted from two parts of the store are those counted from each part |
| LibraryService.AvailabilityWithoutBorrows | LibraryApi/Services/LibraryService.cs:60-65 | with no borrows an existing book has all NumCopies available and none borrowed |
| LibraryService.AvailabilityAddBorrow | LibraryApi/Services/LibraryService.cs:55-65 | adding one borrow anywhere raises Borrowed by one and lowers Available by one exactly when it is of this book and straddles now; otherwise neither changes (Available is not clamped) |
| LibraryService.UnreturnedBorrowNeverCounted | LibraryApi/Services/LibraryService.cs:56-58 | a borrow with a null ReturnDate never changes any availability answer |
| LibraryService.WindowBorrows | LibraryApi/Services/LibraryService.cs:77 | the kept borrows (the Where predicate `InWindow`) are exactly those with startDate <= BorrowDate <= endDate |
| LibraryService.UserKeys | LibraryApi/Services/LibraryService.cs:78 | each group key (`KeyOfUser`, the anonymous key of the GroupBy) is the (id, name) of the stored user with that id; there are never more keys than borrows |
| LibraryService.UserKeyCount | LibraryApi/Services/LibraryService.cs:83 | the size of a user's group is the number of that user's borrows |
| LibraryService.TopBorrowersIsRanking | LibraryApi/Services/LibraryService.cs:69-100 | the answer of `TopBorrowers`, the model of GetTopBorrowerOfBookAsync, is a correct top-3 ranking of the in-window borrows' users, whatever the tie order |
| LibraryService.TopBorrowersCountsDetermined | LibraryApi/Services/LibraryService.cs:85-86 | whatever order ties are put in, the answer has the length and the counts of every correct ranking |
| LibraryService.TopBorrowersEntries | LibraryApi/Services/LibraryService.cs:78-84 | in every correct answer, each entry is a stored user under their own name; its BorrowCount is that user's number of in-window borrows, so at least 1 |
| LibraryService.TopBorrowersOrder | LibraryApi/Services/LibraryService.cs:74-86 | every correct answer has at most numberOfUsers = 3 entries, no user id twice, BorrowCount non-increasing, and the counts add up to at most the number of in-window borrows |
| LibraryService.TopBorrowersDropsNoBetter | LibraryApi/Services/LibraryService.cs:85-86 | a stored user that a correct answer leaves out made no more in-window borrows than every entry; fewer than 3 entries only when the user made none |
| LibraryService.OutOfWindowBorrowIgnored | LibraryApi/Services/LibraryService.cs:77 | a borrow outside [start, end], wherever it sits in the store, changes neither the borrows ranked (so not the correct answers) nor the computed answer |
| LibraryService.EmptyWindowGivesNoUsers | LibraryApi/Services/LibraryService.cs:77 | start > end leaves no borrow to rank, so every correct answer, and the computed one, is empty |
| Seeding.SeedBookLookups | LibraryApi/Data/Seeding.cs:13-18 | the seed books get ids 1, 2, 3, and there is no book 4 |
| Seeding.SeedUserLookups | LibraryApi/Data/Seeding.cs:20-25 | the seed users get ids 1, 2, 3 |
| Seeding.SeedCopiesOutOfLotr | LibraryApi/Data/Seeding.cs:33-53 | no borrow of book 1 straddles now: both were returned one and five days ago |
| Seeding.SeedCopiesOutOfDragons | LibraryApi/Data/Seeding.cs:40-74 | two borrows of book 2 straddle now; the third was returned two days ago |
| Seeding.SeedCopiesOutOfHobbit | LibraryApi/Data/Seeding.cs:54-60 | the one borrow of book 3 straddles now |
| Seeding.SeedAvailabilityOfLotr | LibraryApi/Data/Seeding.cs:33-53 | both borrows of book 1 ended before now: 5 available, 0 borrowed |
| Seeding.SeedAvailabilityOfDragons | LibraryApi/Data/Seeding.cs:40-74 | two of book 2's three borrows straddle now: 1 available, 2 borrowed |
| Seeding.SeedAvailabilityOfHobbit | LibraryApi/Data/Seeding.cs:54-60 | book 3's one borrow straddles now: 3 available, 1 borrowed |
| Seeding.SeedAvailabilityOfMissingBook | LibraryApi/Services/LibraryService.cs:51-52 | asking about book 4 of the seed store gives NotFound |
| Seeding.SeedBookKeys | LibraryApi/Data/Seeding.cs:31-75 | the six seed borrows group under books 1, 2, 1, 3, 2, 2 |
| Seeding.SeedBookMembers | LibraryApi/Data/Seeding.cs:31-75 | the seed borrows reference exactly the three seed books |
| Seeding.SeedLotrCount | LibraryApi/Data/Seeding.cs:31-75 | book 1 was borrowed twice |
| Seeding.SeedDragonsCount | LibraryApi/Data/Seeding.cs:31-75 | book 2 was borrowed three times |
| Seeding.SeedHobbitCount | LibraryApi/Data/Seeding.cs:31-75 | book 3 was borrowed once |
| Seeding.SeedBookRanking | LibraryApi/Data/Seeding.cs:31-75 | book 2 (3 borrows), book 1 (2), book 3 (1) is a correct ranking of the seed borrows |
| Seeding.SeedBookNoTies | LibraryApi/Data/Seeding.cs:31-75 | no two seed books were borrowed equally often |
| Seeding.SeedMostBorrowed | LibraryApi/Data/Seeding.cs:31-75 | on the seed store the most-borrowed answer is exactly book 2 (3), book 1 (2), book 3 (1) |
| Seeding.SeedWideWindow | LibraryApi/Data/Seeding.cs:31-75 | every seed borrow was made within [-10, 0] days |
| Seeding.SeedUserKeys | LibraryApi/Data/Seeding.cs:31-75 | the six seed borrows group under users 1, 1, 2, 3, 3, 2 |
| Seeding.SeedUserMembers | LibraryApi/Data/Seeding.cs:31-75 | the seed borrows reference exactly the three seed users |
| Seeding.SeedAliceCount | LibraryApi/Data/Seeding.cs:31-75 | Alice borrowed twice |
| Seeding.SeedBoCount | LibraryApi/Data/Seeding.cs:31-75 | Bo borrowed twice |
| Seeding.SeedChenchenCount | LibraryApi/Data/Seeding.cs:31-75 | Chenchen borrowed twice |
| Seeding.SeedWideRankings | LibraryApi/Data/Seeding.cs:31-75 | in [-10, 0] the three users tie at two borrows each, so both Alice, Bo, Chenchen and the reverse order are correct answers |
| Seeding.SeedTopBorrowersTie | LibraryApi/Data/Seeding.cs:31-75 | in [-10, 0] the answer lists all three users |
| Seeding.SeedShortWindow | LibraryApi/Data/Seeding.cs:47-75 | only the last four seed borrows were made within [-5, 0] days |
| Seeding.SeedShortWindowKeys | LibraryApi/Data/Seeding.cs:47-75 | the four borrows within [-5, 0] days group under users 2, 3, 3, 2 |
| Seeding.SeedShortMembers | LibraryApi/Data/Seeding.cs:47-75 | only Bo and Chenchen borrowed within [-5, 0] days |
| Seeding.SeedShortCounts | LibraryApi/Data/Seeding.cs:47-75 | Bo and Chenchen each borrowed twice within [-5, 0] days |
| Seeding.SeedShortRankings | LibraryApi/Data/Seeding.cs:47-75 | in [-5, 0] Bo and Chenchen tie at two borrows each, and either order is a correct answer |
| Seeding.SeedTopBorrowersShortWindow | LibraryApi/Data/Seeding.cs:47-75 | in [-5, 0] Alice made no borrow, so the answer lists only two users |
| Seeding.OverbookedAvailability | LibraryApi/Services/LibraryService.cs:60-65 | three copies out of a book that owns two give Available = -1 and Borrowed = 3, not clamped |
| Seeding.UnreturnedBorrowAvailability | LibraryApi/Services/LibraryService.cs:56-58 | a borrow without a return date leaves its book fully available |

## Left out

- Asynchrony (`async`/`await`, `ToListAsync`), Entity Framework and the SQL translation of `GroupBy`/`OrderByDescending`/`Take`. The queries are modelled as functions over in-memory sequences. This includes the order the database puts tied groups in: the model does not pin it down (see `IsRanking`). The concrete `Top` uses one admissible order.
- The gRPC transport. `RpcException`/`Status` become the `NotFound` result variant. The request's `Timestamp.ToDateTime` conversion is left out, and the window bounds are integers. Filling the response messages (`AddRange`, the mapping to `BookProto`/`UserProto`) is left out because it only copies fields.
- `DateTime.UtcNow` is a clock read, and it becomes the parameter `now`. Timestamps are integers, so tick resolution and time zones are not modelled.
- C#'s 32-bit `int` for ids, page counts, copies and counts is not modelled; all are unbounded integers. Counts are bounded by the number of stored borrows, and `NumCopies - numCurrentlyBorrowed` overflows only for copy counts near the `int` limits.
- `LibraryApi/Program.cs` (host wiring, service registration, migrations) and `LibraryApi/Data/DbContext.cs` (the EF `DbContext`) are not part of this model. The store is three plain sequences.
- The seeding routine itself is not modelled: its "only if the store is empty" guard, `AddRange`/`SaveChanges`, and id assignment by the database. Only its data are used, as the concrete scenario in `Seeding`.
- Seeding.SeedTopBorrowersTie and Seeding.SeedTopBorrowersShortWindow state only the length of the answer, not its tie order (which is unspecified). Its counts follow from `TopBorrowersCountsDetermined` together with `SeedWideRankings` and `SeedShortRankings`.
- Models.FindBook and Models.FindUser return the first book or user with the id. A SQL join would give one row per match instead. The two agree because `Id` is the primary key, so ids are assumed unique; a store with two books or users sharing an id is outside the model.
- Referential integrity between borrows and books or users is not assumed. A borrow whose book or user is missing is dropped from the groups, as the join in the generated SQL would drop it.
