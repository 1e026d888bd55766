/**
 * The query pipeline shared by the ranking queries of the library service:
 * `Where` (Filter), `GroupBy(...).Select(Count)` (Tally),
 * `OrderByDescending(Count)` (SortDesc) and `Take(n)` (Top).
 *
 * The ordering among groups with equal counts is not fixed by the service
 * (the store that runs the query chooses it), so the properties of a ranking
 * are stated by the predicate IsRanking, which admits every tie order.
 * Top computes one admissible answer: groups in order of first occurrence,
 * then an insertion sort by count, descending.
 */
module Aggregation {

  /** One group of a group-by-and-count: its key and how many elements share it. */
  datatype Group<K> = Group(key: K, count: nat)

  function Min(a: nat, b: nat): nat {
    if a <= b then a else b
  }

  /** The elements of s that satisfy p, in their original order (LINQ `Where`). */
  function Filter<T(!new)>(s: seq<T>, p: T -> bool): (r: seq<T>)
    ensures |r| <= |s|
  {
    if s == [] then []
    else if p(s[0]) then [s[0]] + Filter(s[1..], p)
    else Filter(s[1..], p)
  }

  /** Filter keeps exactly the elements that satisfy p, so nothing when none does. */
  lemma {:induction false} FilterMembers<T(!new)>(s: seq<T>, p: T -> bool)
    ensures forall x :: x in Filter(s, p) <==> x in s && p(x)
    ensures (forall x :: x in s ==> !p(x)) ==> Filter(s, p) == []
  {
    if s != [] {
      FilterMembers(s[1..], p);
      assert forall x :: x in s <==> x == s[0] || x in s[1..] by {
        assert s == [s[0]] + s[1..];
      }
    }
  }

  /** Filter keeps the whole input when every element satisfies p. */
  lemma {:induction false} FilterKeepsAll<T(!new)>(s: seq<T>, p: T -> bool)
    requires forall x :: x in s ==> p(x)
    ensures Filter(s, p) == s
  {
    if s != [] {
      assert s[0] in s;
      assert forall x :: x in s[1..] ==> x in s;
      FilterKeepsAll(s[1..], p);
      assert s == [s[0]] + s[1..];
    }
  }

  lemma {:induction false} FilterConcat<T(!new)>(a: seq<T>, b: seq<T>, p: T -> bool)
    ensures Filter(a + b, p) == Filter(a, p) + Filter(b, p)
  {
    if a == [] {
      assert a + b == b;
    } else {
      assert (a + b)[1..] == a[1..] + b;
      FilterConcat(a[1..], b, p);
    }
  }

  /** Number of occurrences of k in s: the size of the group of k. */
  function Count<K(==,!new)>(s: seq<K>, k: K): (n: nat)
    ensures n <= |s|
    ensures n > 0 <==> k in s
  {
    if s == [] then 0
    else (if s[0] == k then 1 else 0) + Count(s[1..], k)
  }

  lemma {:induction false} CountConcat<K(!new)>(a: seq<K>, b: seq<K>, k: K)
    ensures Count(a + b, k) == Count(a, k) + Count(b, k)
  {
    if a == [] {
      assert a + b == b;
    } else {
      assert (a + b)[1..] == a[1..] + b;
      CountConcat(a[1..], b, k);
    }
  }

  /** The set of keys that occur in s, i.e. the groups a group-by forms. */
  function Keys<K(==,!new)>(s: seq<K>): set<K> {
    set k | k in s
  }

  predicate NoDups<K(==,!new)>(s: seq<K>) {
    forall i, j :: 0 <= i < j < |s| ==> s[i] != s[j]
  }

  /** The distinct elements of s, in the order of their first occurrence. */
  function Distinct<K(==,!new)>(s: seq<K>): (d: seq<K>)
    ensures forall k :: k in d <==> k in s
    ensures NoDups(d)
    ensures |d| <= |s|
  {
    if s == [] then []
    else
      var d' := Distinct(s[..|s| - 1]);
      assert forall k :: k in s <==> k in s[..|s| - 1] || k == s[|s| - 1] by {
        assert s == s[..|s| - 1] + [s[|s| - 1]];
      }
      if s[|s| - 1] in d' then d' else d' + [s[|s| - 1]]
  }

  /** The position of the first occurrence of k in s. */
  function FirstIndex<K(==,!new)>(s: seq<K>, k: K): (i: nat)
    requires k in s
    ensures i < |s| && s[i] == k
    ensures forall j :: 0 <= j < i ==> s[j] != k
  {
    if s[0] == k then 0 else 1 + FirstIndex(s[1..], k)
  }

  /** Appending elements does not move the first occurrence of a key already present. */
  lemma FirstIndexPrefix<K(!new)>(a: seq<K>, b: seq<K>, k: K)
    requires k in a
    ensures FirstIndex(a + b, k) == FirstIndex(a, k)
  {
    assert forall j :: 0 <= j < |a| ==> (a + b)[j] == a[j];
  }

  /** Distinct lists the keys in the order of their first occurrence in s. */
  lemma {:induction false} DistinctInFirstOccurrenceOrder<K(!new)>(s: seq<K>)
    ensures forall i, j :: 0 <= i < j < |Distinct(s)| ==>
      FirstIndex(s, Distinct(s)[i]) < FirstIndex(s, Distinct(s)[j])
  {
    if s != [] {
      var init := s[..|s| - 1];
      var x := s[|s| - 1];
      var d' := Distinct(init);
      var d := Distinct(s);
      DistinctInFirstOccurrenceOrder(init);
      assert s == init + [x];
      forall k | k in init ensures FirstIndex(s, k) == FirstIndex(init, k) {
        FirstIndexPrefix(init, [x], k);
      }
      assert forall j :: 0 <= j < |init| ==> s[j] == init[j];
      forall i, j | 0 <= i < j < |d| ensures FirstIndex(s, d[i]) < FirstIndex(s, d[j]) {
        assert d[i] == d'[i];
        if j < |d'| {
          assert d[j] == d'[j];
        } else {
          // d[j] is x, seen for the first time at the last position
          assert d[j] == x && x !in init;
          assert FirstIndex(s, x) == |s| - 1;
        }
      }
    }
  }

  lemma {:induction false} NoDupsCard<K(!new)>(d: seq<K>)
    requires NoDups(d)
    ensures |Keys(d)| == |d|
  {
    if d != [] {
      var init := d[..|d| - 1];
      NoDupsCard(init);
      assert Keys(d) == Keys(init) + {d[|d| - 1]} by {
        assert d == init + [d[|d| - 1]];
      }
      assert d[|d| - 1] !in Keys(init);
    }
  }

  lemma DistinctCard<K(!new)>(s: seq<K>)
    ensures |Distinct(s)| == |Keys(s)|
  {
    NoDupsCard(Distinct(s));
    assert Keys(Distinct(s)) == Keys(s);
  }

  predicate DistinctKeys<K(==,!new)>(r: seq<Group<K>>) {
    forall i, j :: 0 <= i < j < |r| ==> r[i].key != r[j].key
  }

  predicate SortedDesc<K(==,!new)>(r: seq<Group<K>>) {
    forall i, j :: 0 <= i < j < |r| ==> r[i].count >= r[j].count
  }

  /** Group-by-and-count: one group per distinct element of s, in order of first occurrence. */
  function Tally<K(==,!new)>(s: seq<K>): (t: seq<Group<K>>)
    ensures |t| == |Keys(s)|
    ensures DistinctKeys(t)
    ensures forall g :: g in t ==> g.key in s && g.count == Count(s, g.key)
    ensures forall k :: k in s ==> Group(k, Count(s, k)) in t
  {
    var d := Distinct(s);
    DistinctCard(s);
    var t := seq(|d|, i requires 0 <= i < |d| => Group(d[i], Count(s, d[i])));
    assert forall k :: k in s ==> Group(k, Count(s, k)) in t by {
      forall k | k in s ensures Group(k, Count(s, k)) in t {
        var i :| 0 <= i < |d| && d[i] == k;
        assert t[i] == Group(k, Count(s, k));
      }
    }
    t
  }

  /** Inserts g into r before the first group whose count does not exceed g's. */
  function Insert<K(==,!new)>(g: Group<K>, r: seq<Group<K>>): (r': seq<Group<K>>)
    ensures |r'| == |r| + 1
    ensures multiset(r') == multiset(r) + multiset{g}
    ensures forall x :: x in r' <==> x == g || x in r
  {
    if r == [] || r[0].count <= g.count then [g] + r
    else
      assert r == [r[0]] + r[1..];
      [r[0]] + Insert(g, r[1..])
  }

  lemma {:induction false} InsertKeepsSorted<K(!new)>(g: Group<K>, r: seq<Group<K>>)
    requires SortedDesc(r)
    ensures SortedDesc(Insert(g, r))
  {
    if r != [] && r[0].count > g.count {
      var rest := Insert(g, r[1..]);
      InsertKeepsSorted(g, r[1..]);
      // the head of rest is g or r[1], and neither outranks r[0]
      assert rest[0].count <= r[0].count by {
        if |r| > 1 && r[1].count > g.count {
          assert rest[0] == r[1];
        } else {
          assert rest[0] == g;
        }
      }
      var r' := [r[0]] + rest;
      forall i, j | 0 <= i < j < |r'| ensures r'[i].count >= r'[j].count {
        assert r'[j] == rest[j - 1];
        if i > 0 {
          assert r'[i] == rest[i - 1];
        } else if j > 1 {
          assert rest[0].count >= rest[j - 1].count;
        }
      }
    }
  }

  lemma {:induction false} InsertKeepsDistinctKeys<K(!new)>(g: Group<K>, r: seq<Group<K>>)
    requires DistinctKeys(r)
    requires forall x :: x in r ==> x.key != g.key
    ensures DistinctKeys(Insert(g, r))
  {
    if r == [] || r[0].count <= g.count {
      var r' := [g] + r;
      forall i, j | 0 <= i < j < |r'| ensures r'[i].key != r'[j].key {
        if i > 0 {
          assert r'[i] == r[i - 1] && r'[j] == r[j - 1];
        } else {
          assert r'[j] in r;
        }
      }
    } else {
      var rest := Insert(g, r[1..]);
      assert forall x :: x in r[1..] ==> x in r;
      InsertKeepsDistinctKeys(g, r[1..]);
      assert forall x :: x in rest ==> x.key != r[0].key by {
        forall x | x in rest ensures x.key != r[0].key {
          if x != g {
            var j :| 0 <= j < |r| - 1 && r[1..][j] == x;
            assert r[j + 1] == x;
          }
        }
      }
      var r' := [r[0]] + rest;
      forall i, j | 0 <= i < j < |r'| ensures r'[i].key != r'[j].key {
        if i > 0 {
          assert r'[i] == rest[i - 1] && r'[j] == rest[j - 1];
        } else {
          assert r'[j] in rest;
        }
      }
    }
  }

  /** `OrderByDescending(g => g.count)`: a permutation of t, sorted by count, non-increasing. */
  function SortDesc<K(==,!new)>(t: seq<Group<K>>): (r: seq<Group<K>>)
    ensures |r| == |t|
    ensures multiset(r) == multiset(t)
    ensures forall x :: x in r <==> x in t
    ensures SortedDesc(r)
  {
    if t == [] then []
    else
      assert t == [t[0]] + t[1..];
      var rest := SortDesc(t[1..]);
      InsertKeepsSorted(t[0], rest);
      Insert(t[0], rest)
  }

  lemma {:induction false} SortDescKeepsDistinctKeys<K(!new)>(t: seq<Group<K>>)
    requires DistinctKeys(t)
    ensures DistinctKeys(SortDesc(t))
  {
    if t != [] {
      var rest := SortDesc(t[1..]);
      SortDescKeepsDistinctKeys(t[1..]);
      forall x | x in rest ensures x.key != t[0].key {
        var j :| 0 <= j < |t| - 1 && t[1..][j] == x;
        assert t[j + 1] == x;
      }
      InsertKeepsDistinctKeys(t[0], rest);
    }
  }

  /** The full pipeline: group s by key, count, order by count descending, take the first n. */
  function Top<K(==,!new)>(s: seq<K>, n: nat): seq<Group<K>> {
    var sorted := SortDesc(Tally(s));
    sorted[..Min(n, |sorted|)]
  }

  /** k is the key of some entry of r. */
  predicate Ranked<K(==,!new)>(k: K, r: seq<Group<K>>) {
    exists i :: 0 <= i < |r| && r[i].key == k
  }

  /**
   * r is a correct answer to "the n keys of s with the most occurrences, most first",
   * whatever order the ties are put in:
   * - r has n entries, or one per distinct key when s has fewer than n distinct keys;
   * - each entry is a key of s with its exact number of occurrences;
   * - no key is listed twice;
   * - the counts are non-increasing;
   * - a key of s that was left out occurs no more often than any entry kept.
   */
  ghost predicate IsRanking<K(!new)>(s: seq<K>, n: nat, r: seq<Group<K>>) {
    && |r| == Min(n, |Keys(s)|)
    && (forall i :: 0 <= i < |r| ==> r[i].key in s && r[i].count == Count(s, r[i].key))
    && DistinctKeys(r)
    && SortedDesc(r)
    && (forall k, i :: k in s && !Ranked(k, r) && 0 <= i < |r| ==> Count(s, k) <= r[i].count)
  }

  /** The concrete pipeline gives a correct ranking. */
  lemma TopIsRanking<K(!new)>(s: seq<K>, n: nat)
    ensures IsRanking(s, n, Top(s, n))
  {
    var t := Tally(s);
    var sorted := SortDesc(t);
    var r := Top(s, n);
    assert r == sorted[..Min(n, |sorted|)];
    SortDescKeepsDistinctKeys(t);
    TopEntriesExact(s, n);
    TopDroppedNoBetter(s, n);
  }

  lemma TopEntriesExact<K(!new)>(s: seq<K>, n: nat)
    ensures forall i :: 0 <= i < |Top(s, n)| ==>
      Top(s, n)[i].key in s && Top(s, n)[i].count == Count(s, Top(s, n)[i].key)
  {
    var t := Tally(s);
    var sorted := SortDesc(t);
    var r := Top(s, n);
    forall i | 0 <= i < |r| ensures r[i].key in s && r[i].count == Count(s, r[i].key) {
      assert r[i] == sorted[i];
      assert sorted[i] in t;
    }
  }

  lemma TopDroppedNoBetter<K(!new)>(s: seq<K>, n: nat)
    ensures forall k, i :: k in s && !Ranked(k, Top(s, n)) && 0 <= i < |Top(s, n)| ==>
      Count(s, k) <= Top(s, n)[i].count
  {
    var sorted := SortDesc(Tally(s));
    var m := Min(n, |sorted|);
    forall k | k in s && !Ranked(k, sorted[..m])
      ensures forall i :: 0 <= i < m ==> Count(s, k) <= sorted[..m][i].count
    {
      assert Group(k, Count(s, k)) in sorted;
      PrefixDropsNoBetter(sorted, m, Group(k, Count(s, k)));
    }
  }

  /** In a list sorted by count, a group outside the first m entries is outranked by each of them. */
  lemma PrefixDropsNoBetter<K(!new)>(sorted: seq<Group<K>>, m: nat, g: Group<K>)
    requires m <= |sorted| && SortedDesc(sorted)
    requires g in sorted && !Ranked(g.key, sorted[..m])
    ensures forall i :: 0 <= i < m ==> g.count <= sorted[..m][i].count
  {
    var p :| 0 <= p < |sorted| && sorted[p] == g;
    assert forall j :: 0 <= j < m ==> sorted[..m][j].key != g.key;
    assert p >= m;
  }

  /** A key that a correct ranking leaves out is outranked by every entry, and occurs not at all when the ranking is short. */
  lemma UnrankedKey<K(!new)>(s: seq<K>, n: nat, r: seq<Group<K>>, k: K)
    requires IsRanking(s, n, r)
    requires forall g :: g in r ==> g.key != k
    ensures forall g :: g in r ==> Count(s, k) <= g.count
    ensures |r| < n ==> Count(s, k) == 0
  {
    assert !Ranked(k, r) by {
      forall i | 0 <= i < |r| ensures r[i].key != k {
        assert r[i] in r;
      }
    }
    if k in s {
      forall g | g in r ensures Count(s, k) <= g.count {
        var i :| 0 <= i < |r| && r[i] == g;
      }
      if |r| < n {
        ShortRankingIsComplete(s, n, r);
      }
    }
  }

  /** Keys of the first m entries of r. */
  function KeySet<K(==,!new)>(r: seq<Group<K>>, m: nat): set<K>
    requires m <= |r|
  {
    set j | 0 <= j < m :: r[j].key
  }

  lemma {:induction false} KeySetCard<K(!new)>(r: seq<Group<K>>, m: nat)
    requires m <= |r|
    ensures |KeySet(r, m)| <= m
    ensures DistinctKeys(r) ==> |KeySet(r, m)| == m
  {
    if m > 0 {
      KeySetCard(r, m - 1);
      assert KeySet(r, m) == KeySet(r, m - 1) + {r[m - 1].key};
      if DistinctKeys(r) {
        assert r[m - 1].key !in KeySet(r, m - 1);
      }
    }
  }

  lemma SubsetCard<K(!new)>(x: set<K>, y: set<K>)
    requires x <= y
    ensures |x| <= |y|
  {
    assert y == x + (y - x);
  }

  /** Position i of any correct ranking cannot carry a larger count than position i of another. */
  lemma CountAtMost<K(!new)>(s: seq<K>, n: nat, r1: seq<Group<K>>, r2: seq<Group<K>>, i: nat)
    requires IsRanking(s, n, r1) && IsRanking(s, n, r2)
    requires i < |r1|
    ensures r1[i].count <= r2[i].count
  {
    var a := KeySet(r1, i + 1);
    var b := KeySet(r2, i);
    KeySetCard(r1, i + 1);
    KeySetCard(r2, i);
    assert !(a <= b) by {
      if a <= b {
        SubsetCard(a, b);
      }
    }
    var k :| k in a && k !in b;
    var j :| 0 <= j < i + 1 && r1[j].key == k;
    assert Count(s, k) >= r1[i].count;
    assert k in s;
    if Ranked(k, r2) {
      var q :| 0 <= q < |r2| && r2[q].key == k;
    }
  }

  /** All correct rankings agree on their counts: ties change only which keys appear. */
  lemma RankingCountsDetermined<K(!new)>(s: seq<K>, n: nat, r1: seq<Group<K>>, r2: seq<Group<K>>)
    requires IsRanking(s, n, r1) && IsRanking(s, n, r2)
    ensures |r1| == |r2|
    ensures forall i :: 0 <= i < |r1| ==> r1[i].count == r2[i].count
  {
    forall i | 0 <= i < |r1| ensures r1[i].count == r2[i].count {
      CountAtMost(s, n, r1, r2, i);
      CountAtMost(s, n, r2, r1, i);
    }
  }

  /** No two distinct keys of s occur equally often. */
  ghost predicate NoTies<K(!new)>(s: seq<K>) {
    forall a, b :: a in s && b in s && a != b ==> Count(s, a) != Count(s, b)
  }

  /** Without ties there is exactly one correct ranking. */
  lemma RankingUniqueWithoutTies<K(!new)>(s: seq<K>, n: nat, r1: seq<Group<K>>, r2: seq<Group<K>>)
    requires IsRanking(s, n, r1) && IsRanking(s, n, r2)
    requires NoTies(s)
    ensures r1 == r2
  {
    RankingCountsDetermined(s, n, r1, r2);
    forall i | 0 <= i < |r1| ensures r1[i] == r2[i] {
      assert Count(s, r1[i].key) == Count(s, r2[i].key);
    }
  }

  /** A ranking shorter than n lists every key of s. */
  lemma ShortRankingIsComplete<K(!new)>(s: seq<K>, n: nat, r: seq<Group<K>>)
    requires IsRanking(s, n, r)
    requires |r| < n
    ensures forall k :: k in s ==> Ranked(k, r)
  {
    var ranked := KeySet(r, |r|);
    KeySetCard(r, |r|);
    assert ranked <= Keys(s);
    assert Keys(s) - ranked == {} by {
      assert |Keys(s)| == |ranked| + |Keys(s) - ranked| by {
        assert Keys(s) == ranked + (Keys(s) - ranked);
      }
    }
    forall k | k in s ensures Ranked(k, r) {
      assert k in ranked;
    }
  }

  /** Sum of the counts of a list of groups. */
  function SumCounts<K(==,!new)>(r: seq<Group<K>>): nat {
    if r == [] then 0 else r[0].count + SumCounts(r[1..])
  }

  /** The elements of s other than k. */
  function Remove<K(==,!new)>(s: seq<K>, k: K): (r: seq<K>)
    ensures |r| + Count(s, k) == |s|
    ensures forall x :: x != k ==> Count(r, x) == Count(s, x)
    ensures forall x :: x in r <==> x in s && x != k
  {
    if s == [] then []
    else if s[0] == k then Remove(s[1..], k)
    else [s[0]] + Remove(s[1..], k)
  }

  /**
   * Groups with distinct keys, each counted exactly, account for at most the
   * elements of s, and for all of them when every element of s has a group.
   */
  lemma {:induction false} SumCountsBound<K(!new)>(s: seq<K>, r: seq<Group<K>>)
    requires DistinctKeys(r)
    requires forall i :: 0 <= i < |r| ==> r[i].count == Count(s, r[i].key)
    ensures SumCounts(r) <= |s|
    ensures (forall k :: k in s ==> Ranked(k, r)) ==> SumCounts(r) == |s|
    decreases |r|
  {
    if r == [] {
      assert (forall k :: k in s ==> Ranked(k, r)) ==> s == [] by {
        if s != [] { assert !Ranked(s[0], r); }
      }
    } else {
      var s' := Remove(s, r[0].key);
      var rest := r[1..];
      forall i | 0 <= i < |rest| ensures rest[i].count == Count(s', rest[i].key) {
        assert rest[i] == r[i + 1];
      }
      SumCountsBound(s', rest);
      if forall k :: k in s ==> Ranked(k, r) {
        forall k | k in s' ensures Ranked(k, rest) {
          assert Ranked(k, r);
          var j :| 0 <= j < |r| && r[j].key == k;
          assert j != 0;
          assert rest[j - 1].key == k;
        }
      }
    }
  }

  /** The counts of any correct ranking add up to at most the number of elements ranked. */
  lemma RankingSumBound<K(!new)>(s: seq<K>, n: nat, r: seq<Group<K>>)
    requires IsRanking(s, n, r)
    ensures SumCounts(r) <= |s|
  {
    SumCountsBound(s, r);
  }

  /** Every element of s is counted in exactly one group of Tally(s). */
  lemma TallySum<K(!new)>(s: seq<K>)
    ensures SumCounts(Tally(s)) == |s|
  {
    var t := Tally(s);
    forall i | 0 <= i < |t| ensures t[i].count == Count(s, t[i].key) {
      assert t[i] in t;
    }
    forall k | k in s ensures Ranked(k, t) {
      var g := Group(k, Count(s, k));
      var p :| 0 <= p < |t| && t[p] == g;
    }
    SumCountsBound(s, t);
  }
}
