/** The unacked-counts summary of share/www/static/timeline_list.js
    (`UnackedCountsRenderer.show`): the highest levels with cumulative counts, and a
    trailing total row when some levels are left out. Rendered rows are values; the
    DOM target is the renderer's `rows` field. */
module TimelineList {
  import opened Wrappers
  import opened ArraySort

  /** A key of the counts object the server sends: "total" or a level. */
  datatype CountKey = TotalKey | LevelKey(level: int)

  datatype RowLabel = TotalLabel | LevelLabel(level: int)

  /** One rendered pair: the label, the cumulative count, and the "+n" badge if any. */
  datatype Row = Row(heading: RowLabel, sum: int, thisCount: Option<int>)

  /** An entry of `leveled_counts`. */
  datatype LevelCount = LevelCount(level: int, count: int)

  const DEFAULT_LEVEL_NUM := 2

  /** A non-empty set has an element to pick. */
  lemma HasElement(s: set<int>)
    requires s != {}
    ensures exists x :: x in s
  {
    if forall x :: x !in s {
      assert false;
    }
  }

  /** How many level rows are shown: at most `levelNum`, and none when it is not positive. */
  function ShownCount(levelNum: int, n: nat): (k: nat)
    ensures k <= n && (levelNum > 0 ==> k <= levelNum)
    ensures levelNum > 0 ==> k == n || k == levelNum
    ensures levelNum <= 0 ==> k == 0
  {
    if levelNum <= 0 then 0 else if levelNum < n then levelNum else n
  }

  function RowLevels(rows: seq<Row>): (ls: seq<int>)
    requires forall k :: 0 <= k < |rows| ==> rows[k].heading.LevelLabel?
    ensures |ls| == |rows|
    ensures forall k :: 0 <= k < |rows| ==> ls[k] == rows[k].heading.level
  {
    if rows == [] then [] else RowLevels(rows[..|rows| - 1]) + [rows[|rows| - 1].heading.level]
  }

  /** Level rows as `show` renders them: levels present in the counts, strictly
      descending, no level left out above a shown one, each row carrying the running sum
      of the counts and, after the first, its own count as "+n". */
  ghost predicate LevelRows(levels: map<int, int>, rows: seq<Row>) {
    && (forall k :: 0 <= k < |rows| ==> rows[k].heading.LevelLabel? && rows[k].heading.level in levels)
    && (forall k, k' :: 0 <= k < k' < |rows| ==> rows[k].heading.level > rows[k'].heading.level)
    && (forall l, k :: l in levels && 0 <= k < |rows| && l > rows[k].heading.level ==>
          l in RowLevels(rows[..k]))
    && (|rows| > 0 ==> rows[0].sum == levels[rows[0].heading.level] && rows[0].thisCount.None?)
    && (forall k :: 0 < k < |rows| ==>
          rows[k].thisCount == Some(levels[rows[k].heading.level])
          && rows[k].sum == rows[k - 1].sum + levels[rows[k].heading.level])
  }

  /** The total row `show` adds when some levels are left out: the total, and as "+n"
      the total less the sum shown on the last level row. */
  function TotalRow(total: int, levelRows: seq<Row>): Row {
    Row(TotalLabel, total, Some(total - if levelRows == [] then 0 else levelRows[|levelRows| - 1].sum))
  }

  /** The summary `show` renders for a non-zero total: the `ShownCount` highest levels,
      then a total row exactly when more levels exist than `levelNum`. */
  ghost predicate Summarises(levelNum: int, total: int, levels: map<int, int>, rows: seq<Row>) {
    var shown := ShownCount(levelNum, |levels.Keys|);
    && |rows| == shown + (if |levels.Keys| > levelNum then 1 else 0)
    && LevelRows(levels, rows[..shown])
    && (|levels.Keys| > levelNum ==> rows[shown] == TotalRow(total, rows[..shown]))
  }

  /** The sum of the counts of the given levels. */
  function SumOf(levels: map<int, int>, ls: seq<int>): int
    requires forall k :: 0 <= k < |ls| ==> ls[k] in levels
  {
    if ls == [] then 0 else SumOf(levels, ls[..|ls| - 1]) + levels[ls[|ls| - 1]]
  }

  /** Each level row shows the sum of the counts of its level and all the levels above. */
  lemma {:induction false} RowSumsArePrefixSums(levels: map<int, int>, rows: seq<Row>, k: nat)
    requires LevelRows(levels, rows)
    requires k < |rows|
    ensures rows[k].sum == SumOf(levels, RowLevels(rows[..k + 1]))
  {
    var ls := RowLevels(rows[..k + 1]);
    if k > 0 {
      RowSumsArePrefixSums(levels, rows, k - 1);
      assert rows[..k + 1][..k] == rows[..k];
      assert ls[..k] == RowLevels(rows[..k]);
    } else {
      assert ls[..0] == [];
    }
  }

  // ----------------------------------------------------- the computation

  ghost predicate DistinctLevels(lc: seq<LevelCount>) {
    forall i, j :: 0 <= i < j < |lc| ==> lc[i].level != lc[j].level
  }

  /** Every entry carries the count of its level. */
  ghost predicate CountsFrom(levels: map<int, int>, lc: seq<LevelCount>) {
    forall i :: 0 <= i < |lc| ==> lc[i].level in levels && lc[i].count == levels[lc[i].level]
  }

  function LevelSet(lc: seq<LevelCount>): set<int> {
    set e | e in lc :: e.level
  }

  /** What the walk over the level keys has collected while `remaining` keys are left. */
  ghost predicate CollectSoFar(levels: map<int, int>, lc: seq<LevelCount>, remaining: set<int>) {
    && remaining <= levels.Keys
    && |lc| + |remaining| == |levels.Keys|
    && CountsFrom(levels, lc) && DistinctLevels(lc)
    && (forall i :: 0 <= i < |lc| ==> lc[i].level !in remaining)
    && (forall l :: l in levels ==> l in remaining || l in LevelSet(lc))
  }

  /** Taking one remaining key moves it, with its count, from the keys left to the entries. */
  lemma CollectStep(levels: map<int, int>, lc: seq<LevelCount>, remaining: set<int>, l: int)
    requires CollectSoFar(levels, lc, remaining)
    requires l in remaining
    ensures CollectSoFar(levels, lc + [LevelCount(l, levels[l])], remaining - {l})
  {
    var e := LevelCount(l, levels[l]);
    LevelSetSnoc(lc, e);
    DistinctSnoc(lc, e, remaining);
    assert |remaining - {l}| == |remaining| - 1;
  }

  lemma LevelSetSnoc(lc: seq<LevelCount>, e: LevelCount)
    ensures LevelSet(lc + [e]) == LevelSet(lc) + {e.level}
  {
    assert forall x :: x in lc + [e] <==> x in lc || x == e;
  }

  lemma DistinctSnoc(lc: seq<LevelCount>, e: LevelCount, remaining: set<int>)
    requires DistinctLevels(lc)
    requires forall i :: 0 <= i < |lc| ==> lc[i].level !in remaining
    requires e.level in remaining
    ensures DistinctLevels(lc + [e])
  {
    var lc' := lc + [e];
    forall i, j | 0 <= i < j < |lc'|
      ensures lc'[i].level != lc'[j].level
    {
      if j == |lc| {
        assert lc'[i] == lc[i];
      } else {
        assert lc'[i] == lc[i] && lc'[j] == lc[j];
      }
    }
  }

  /** `$.each(unacked_counts, ...)`: one entry per level, in some order. */
  method CollectLevels(levels: map<int, int>) returns (lc: seq<LevelCount>)
    ensures CountsFrom(levels, lc) && DistinctLevels(lc)
    ensures |lc| == |levels.Keys|
    ensures forall l :: l in levels ==> l in LevelSet(lc)
  {
    lc := [];
    var remaining := levels.Keys;
    while remaining != {}
      invariant CollectSoFar(levels, lc, remaining)
      decreases |remaining|
    {
      HasElement(remaining);
      var l :| l in remaining;
      CollectStep(levels, lc, remaining, l);
      lc := lc + [LevelCount(l, levels[l])];
      remaining := remaining - {l};
    }
  }

  /** The comparator `b.level - a.level`: higher levels first. */
  function HigherFirst(e: LevelCount): Rank {
    Rank(-e.level, 0)
  }

  lemma {:induction false} DistinctCountAtMostOne<T>(s: seq<T>, x: T)
    requires forall i, j :: 0 <= i < j < |s| ==> s[i] != s[j]
    ensures multiset(s)[x] <= 1
  {
    if s != [] {
      assert s == [s[0]] + s[1..];
      DistinctCountAtMostOne(s[1..], x);
      if x == s[0] {
        assert x !in s[1..];
      }
    }
  }

  lemma RepeatedCountsTwice<T>(s: seq<T>, i: nat, j: nat)
    requires i < j < |s| && s[i] == s[j]
    ensures multiset(s)[s[i]] >= 2
  {
    assert s == s[..j] + [s[j]] + s[j + 1..];
    assert s[i] in s[..j];
  }

  /** Sorting keeps the entries, so their counts and their set of levels. */
  lemma SortedKeepsEntries(levels: map<int, int>, lc: seq<LevelCount>)
    requires CountsFrom(levels, lc)
    ensures CountsFrom(levels, SortByRank(lc, HigherFirst))
    ensures LevelSet(SortByRank(lc, HigherFirst)) == LevelSet(lc)
  {
    var sorted := SortByRank(lc, HigherFirst);
    assert forall x :: x in sorted <==> x in lc by {
      forall x
        ensures x in sorted <==> x in lc
      {
        assert x in sorted <==> x in multiset(sorted);
        assert x in lc <==> x in multiset(lc);
      }
    }
    forall i | 0 <= i < |sorted|
      ensures sorted[i].level in levels && sorted[i].count == levels[sorted[i].level]
    {
      assert sorted[i] in lc;
      var j :| 0 <= j < |lc| && lc[j] == sorted[i];
    }
  }

  /** Sorting orders the levels strictly downwards because no level occurs twice. */
  lemma SortedStrictlyDescends(lc: seq<LevelCount>)
    requires DistinctLevels(lc)
    ensures var sorted := SortByRank(lc, HigherFirst);
            forall i, j :: 0 <= i < j < |sorted| ==> sorted[i].level > sorted[j].level
  {
    var sorted := SortByRank(lc, HigherFirst);
    forall i, j | 0 <= i < j < |sorted|
      ensures sorted[i].level > sorted[j].level
    {
      assert RankLe(HigherFirst(sorted[i]), HigherFirst(sorted[j]));
      if sorted[i].level == sorted[j].level {
        assert sorted[i] in multiset(lc) && sorted[j] in multiset(lc);
        SameLevelIsSameEntry(lc, sorted[i], sorted[j]);
        RepeatedCountsTwice(sorted, i, j);
        DistinctLevelsDistinct(lc);
        DistinctCountAtMostOne(lc, sorted[i]);
        assert false;
      }
    }
  }

  /** Two entries of a list with distinct levels that share a level are the same entry. */
  lemma SameLevelIsSameEntry(lc: seq<LevelCount>, x: LevelCount, y: LevelCount)
    requires DistinctLevels(lc)
    requires x in multiset(lc) && y in multiset(lc) && x.level == y.level
    ensures x == y
  {
    var i :| 0 <= i < |lc| && lc[i] == x;
    var j :| 0 <= j < |lc| && lc[j] == y;
    assert lc[i].level == lc[j].level;
  }

  lemma DistinctLevelsDistinct(lc: seq<LevelCount>)
    requires DistinctLevels(lc)
    ensures forall i, j :: 0 <= i < j < |lc| ==> lc[i] != lc[j]
  {
  }

  /** The entries sorted for `show`: one per level with its count, highest level first. */
  ghost predicate SortedLevels(levels: map<int, int>, sorted: seq<LevelCount>) {
    && |sorted| == |levels.Keys|
    && CountsFrom(levels, sorted)
    && (forall l :: l in levels ==> l in LevelSet(sorted))
    && (forall i, j :: 0 <= i < j < |sorted| ==> sorted[i].level > sorted[j].level)
  }

  /** The first `|rows|` level rows built from `sorted`, with their running sums. */
  ghost predicate LevelRowsFrom(sorted: seq<LevelCount>, rows: seq<Row>) {
    && |rows| <= |sorted|
    && (forall k :: 0 <= k < |rows| ==> rows[k].heading == LevelLabel(sorted[k].level))
    && (|rows| > 0 ==> rows[0].sum == sorted[0].count && rows[0].thisCount.None?)
    && (forall k :: 0 < k < |rows| ==>
          rows[k].thisCount == Some(sorted[k].count) && rows[k].sum == rows[k - 1].sum + sorted[k].count)
  }

  /** Sorts the per-level counts the way `show` does, highest level first. */
  method SortLevels(levels: map<int, int>) returns (sorted: seq<LevelCount>)
    ensures SortedLevels(levels, sorted)
  {
    var collected := CollectLevels(levels);
    sorted := SortByRank(collected, HigherFirst);
    SortedKeepsEntries(levels, collected);
    SortedStrictlyDescends(collected);
    assert |sorted| == |levels.Keys|;
    assert CountsFrom(levels, sorted);
    assert forall l :: l in levels ==> l in LevelSet(sorted);
  }

  /** The loop of `show`: a row per entry of `sorted` until `levelNum` rows are made. */
  method BuildLevelRows(sorted: seq<LevelCount>, levelNum: int) returns (rows: seq<Row>)
    ensures |rows| == ShownCount(levelNum, |sorted|)
    ensures LevelRowsFrom(sorted, rows)
  {
    rows := [];
    var sum: Option<int> := None;
    var i := 0;
    while i < |sorted| && i < levelNum
      invariant 0 <= i <= ShownCount(levelNum, |sorted|) && |rows| == i
      invariant LevelRowsFrom(sorted, rows)
      invariant sum == if i == 0 then None else Some(rows[i - 1].sum)
    {
      var entry := sorted[i];
      var row;
      if sum.Some? {
        sum := Some(sum.value + entry.count);
        row := Row(LevelLabel(entry.level), sum.value, Some(entry.count));
      } else {
        sum := Some(entry.count);
        row := Row(LevelLabel(entry.level), sum.value, None);
      }
      LevelRowsSnoc(sorted, rows, row);
      rows := rows + [row];
      i := i + 1;
    }
  }

  lemma LevelRowsSnoc(sorted: seq<LevelCount>, rows: seq<Row>, row: Row)
    requires LevelRowsFrom(sorted, rows) && |rows| < |sorted|
    requires row.heading == LevelLabel(sorted[|rows|].level)
    requires rows == [] ==> row.sum == sorted[0].count && row.thisCount.None?
    requires rows != [] ==> row.sum == rows[|rows| - 1].sum + sorted[|rows|].count
                            && row.thisCount == Some(sorted[|rows|].count)
    ensures LevelRowsFrom(sorted, rows + [row])
  {
    var r := rows + [row];
    assert forall k :: 0 <= k < |rows| ==> r[k] == rows[k];
  }

  /** The rows `show` renders for the counts (`total` and the per-level `levels`). */
  method ComputeRows(levelNum: int, total: int, levels: map<int, int>) returns (rows: seq<Row>)
    ensures total == 0 ==> rows == [Row(TotalLabel, 0, None)]
    ensures total != 0 ==> Summarises(levelNum, total, levels, rows)
  {
    if total == 0 {
      return [Row(TotalLabel, total, None)];
    }
    var sorted := SortLevels(levels);
    var levelRows := BuildLevelRows(sorted, levelNum);
    rows := levelRows;
    if |sorted| > levelNum {
      rows := rows + [TotalRow(total, levelRows)];
    }
    FinishSummary(levelNum, total, levels, sorted, levelRows, rows);
  }

  lemma FinishSummary(levelNum: int, total: int, levels: map<int, int>, sorted: seq<LevelCount>,
                      levelRows: seq<Row>, rows: seq<Row>)
    requires SortedLevels(levels, sorted) && LevelRowsFrom(sorted, levelRows)
    requires |levelRows| == ShownCount(levelNum, |levels.Keys|)
    requires rows == levelRows + if |levels.Keys| > levelNum then [TotalRow(total, levelRows)] else []
    ensures Summarises(levelNum, total, levels, rows)
  {
    assert rows[..|levelRows|] == levelRows;
    SortedRowsAreLevelRows(levels, sorted, levelRows);
  }

  lemma SortedRowsAreLevelRows(levels: map<int, int>, sorted: seq<LevelCount>, rows: seq<Row>)
    requires SortedLevels(levels, sorted) && LevelRowsFrom(sorted, rows)
    ensures LevelRows(levels, rows)
  {
    RowsAreHighest(levels, sorted, rows);
  }

  lemma RowsAreHighest(levels: map<int, int>, sorted: seq<LevelCount>, rows: seq<Row>)
    requires SortedLevels(levels, sorted) && LevelRowsFrom(sorted, rows)
    ensures forall l, k :: l in levels && 0 <= k < |rows| && l > rows[k].heading.level ==>
              l in RowLevels(rows[..k])
  {
    forall l, k | l in levels && 0 <= k < |rows| && l > rows[k].heading.level
      ensures l in RowLevels(rows[..k])
    {
      var e :| e in sorted && e.level == l;
      var j :| 0 <= j < |sorted| && sorted[j] == e;
      assert sorted[j].level > sorted[k].level ==> j < k;
      assert RowLevels(rows[..k])[j] == l;
    }
  }

  /** The counts object passed to `show`, which it modifies. */
  class CountsObject {
    var entries: map<CountKey, int>

    constructor(entries: map<CountKey, int>)
      ensures this.entries == entries
    {
      this.entries := entries;
    }
  }

  /** The per-level part of a counts object. */
  function LevelsOf(entries: map<CountKey, int>): (levels: map<int, int>)
    ensures forall l :: l in levels <==> LevelKey(l) in entries
    ensures forall l :: l in levels ==> levels[l] == entries[LevelKey(l)]
  {
    map k | k in entries.Keys && k.LevelKey? :: k.level := entries[k]
  }

  class UnackedCountsRenderer {
    const levelNum: int
    /** The content of the DOM target. */
    var rows: seq<Row>

    constructor(levelNumArg: Option<int>)
      ensures levelNum == levelNumArg.GetOr(DEFAULT_LEVEL_NUM) && rows == []
    {
      levelNum := levelNumArg.GetOr(DEFAULT_LEVEL_NUM);
      rows := [];
    }

    /** `show(unacked_counts)`: renders the summary and, unless the total is 0, deletes
        the "total" key from the caller's object. */
    method Show(counts: CountsObject)
      requires TotalKey in counts.entries
      modifies this, counts
      ensures old(counts.entries[TotalKey]) == 0 ==> rows == [Row(TotalLabel, 0, None)] && counts.entries == old(counts.entries)
      ensures old(counts.entries[TotalKey]) != 0 ==>
                && Summarises(levelNum, old(counts.entries[TotalKey]), LevelsOf(old(counts.entries)), rows)
                && counts.entries == old(counts.entries) - {TotalKey}
    {
      var total := counts.entries[TotalKey];
      if total == 0 {
        rows := [Row(TotalLabel, total, None)];
        return;
      }
      counts.entries := counts.entries - {TotalKey};
      rows := ComputeRows(levelNum, total, LevelsOf(counts.entries));
      assert LevelsOf(counts.entries) == LevelsOf(old(counts.entries));
    }
  }
}
