/** `Array.prototype.sort` with a comparator over one or two numeric keys,
    modelled as an insertion sort on a lexicographic rank. */
module ArraySort {

  /** A sort key: compared on `major` first, then on `minor`. */
  datatype Rank = Rank(major: int, minor: int)

  predicate RankLe(a: Rank, b: Rank) {
    a.major < b.major || (a.major == b.major && a.minor <= b.minor)
  }

  predicate SortedBy<T>(s: seq<T>, rank: T -> Rank) {
    forall i, j :: 0 <= i < j < |s| ==> RankLe(rank(s[i]), rank(s[j]))
  }

  /** Places `x` in front of the first element that does not rank below it. */
  function Insert<T>(x: T, s: seq<T>, rank: T -> Rank): (r: seq<T>)
    ensures multiset(r) == multiset(s) + multiset{x}
  {
    if s == [] then [x]
    else if RankLe(rank(x), rank(s[0])) then [x] + s
    else
      assert s == [s[0]] + s[1..];
      [s[0]] + Insert(x, s[1..], rank)
  }

  lemma {:induction false} InsertSorted<T>(x: T, s: seq<T>, rank: T -> Rank)
    requires SortedBy(s, rank)
    ensures SortedBy(Insert(x, s, rank), rank)
  {
    if s != [] && !RankLe(rank(x), rank(s[0])) {
      var tail := Insert(x, s[1..], rank);
      InsertSorted(x, s[1..], rank);
      forall k | 0 <= k < |tail|
        ensures RankLe(rank(s[0]), rank(tail[k]))
      {
        assert tail[k] in multiset(tail);
        if tail[k] != x {
          assert tail[k] in multiset(s[1..]);
          var m :| 0 <= m < |s[1..]| && s[1..][m] == tail[k];
          assert s[1 + m] == tail[k];
        }
      }
    }
  }

  /** The sorted order: non-decreasing rank, same elements. */
  function SortByRank<T>(s: seq<T>, rank: T -> Rank): (r: seq<T>)
    ensures SortedBy(r, rank)
    ensures multiset(r) == multiset(s)
    ensures |r| == |s|
  {
    if s == [] then []
    else
      assert s == [s[0]] + s[1..];
      var rest := SortByRank(s[1..], rank);
      InsertSorted(s[0], rest, rank);
      Insert(s[0], rest, rank)
  }

  /** The images under `f` of the elements satisfying `p`, in order. */
  function FilterMap<T, U>(s: seq<T>, p: T -> bool, f: T -> U): seq<U> {
    if s == [] then []
    else (if p(s[0]) then [f(s[0])] else []) + FilterMap(s[1..], p, f)
  }

  lemma {:induction false} FilterMapAppend<T, U>(a: seq<T>, b: seq<T>, p: T -> bool, f: T -> U)
    ensures FilterMap(a + b, p, f) == FilterMap(a, p, f) + FilterMap(b, p, f)
  {
    if a != [] {
      assert (a + b)[1..] == a[1..] + b;
      FilterMapAppend(a[1..], b, p, f);
    } else {
      assert a + b == b;
    }
  }

  lemma {:induction false} FilterMapInsert<T, U>(x: T, s: seq<T>, rank: T -> Rank, p: T -> bool, f: T -> U)
    ensures multiset(FilterMap(Insert(x, s, rank), p, f))
         == multiset(FilterMap(s, p, f)) + multiset(FilterMap([x], p, f))
  {
    if s == [] {
      assert Insert(x, s, rank) == [x];
    } else if RankLe(rank(x), rank(s[0])) {
      assert Insert(x, s, rank) == [x] + s;
      FilterMapAppend([x], s, p, f);
    } else {
      var head := FilterMap([s[0]], p, f);
      var tail := Insert(x, s[1..], rank);
      InsertPastHead(x, s, rank);
      FilterMapAppend([s[0]], tail, p, f);
      FilterMapCons(s, p, f);
      calc {
        multiset(FilterMap(Insert(x, s, rank), p, f));
        multiset(head + FilterMap(tail, p, f));
        multiset(head) + multiset(FilterMap(tail, p, f));
        { FilterMapInsert(x, s[1..], rank, p, f); }
        multiset(head) + multiset(FilterMap(s[1..], p, f)) + multiset(FilterMap([x], p, f));
        multiset(head + FilterMap(s[1..], p, f)) + multiset(FilterMap([x], p, f));
        multiset(FilterMap(s, p, f)) + multiset(FilterMap([x], p, f));
      }
    }
  }

  /** The filter-map of a non-empty sequence: its head's, then its tail's. */
  lemma FilterMapCons<T, U>(s: seq<T>, p: T -> bool, f: T -> U)
    requires s != []
    ensures FilterMap(s, p, f) == FilterMap([s[0]], p, f) + FilterMap(s[1..], p, f)
  {
    assert FilterMap([s[0]], p, f) == (if p(s[0]) then [f(s[0])] else []) + FilterMap([], p, f);
  }

  lemma InsertPastHead<T>(x: T, s: seq<T>, rank: T -> Rank)
    requires s != [] && !RankLe(rank(x), rank(s[0]))
    ensures Insert(x, s, rank) == [s[0]] + Insert(x, s[1..], rank)
  {
  }

  /** Filtering the sorted sequence keeps the same multiset as filtering the input. */
  lemma {:induction false} FilterMapSorted<T, U>(s: seq<T>, rank: T -> Rank, p: T -> bool, f: T -> U)
    ensures multiset(FilterMap(SortByRank(s, rank), p, f)) == multiset(FilterMap(s, p, f))
  {
    if s != [] {
      var rest := SortByRank(s[1..], rank);
      var head := FilterMap([s[0]], p, f);
      assert SortByRank(s, rank) == Insert(s[0], rest, rank);
      FilterMapCons(s, p, f);
      calc {
        multiset(FilterMap(Insert(s[0], rest, rank), p, f));
        { FilterMapInsert(s[0], rest, rank, p, f); }
        multiset(FilterMap(rest, p, f)) + multiset(head);
        { FilterMapSorted(s[1..], rank, p, f); }
        multiset(FilterMap(s[1..], p, f)) + multiset(head);
        multiset(head + FilterMap(s[1..], p, f));
      }
    }
  }
}
