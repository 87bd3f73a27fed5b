/** The display-action planner of share/www/static/timeline.js
    (`StatusContainer._scanStatusesForDisplayActions`): given the status
    elements of a timeline, a threshold level, whether to animate, and the
    cursor, decide which statuses toggle (with or without animation), where the
    "N statuses hidden here" headers go, and which status anchors the scroll
    position. Elements are referred to by their index in display order; their
    measured offsets and heights are inputs. */
module TimelineDisplay {
  import opened Wrappers
  import opened ArraySort
  import BusyBird

  /** At most this many toggles are animated; the rest toggle at once. */
  const ANIMATE_STATUS_MAX_NUM := 15

  /** A status element: its level (`data-bb-status-level`), whether it is displayed,
      and its measured offset from the document top and its height. */
  datatype Entry = Entry(level: int, visible: bool, top: int, height: int)

  /** The browser window: scroll offset and height. */
  datatype Window = Window(top: int, range: int)

  datatype Action = StayVisible | StayInvisible | BecomeVisible | BecomeInvisible

  predicate Becomes(a: Action) {
    a == BecomeVisible || a == BecomeInvisible
  }

  /** A status must be displayed iff its level reaches the threshold; comparing that with
      its current display picks exactly one of the four actions. */
  function ActionOf(e: Entry, threshold: int): (a: Action)
    ensures (a == StayVisible || a == BecomeVisible) <==> e.level >= threshold
    ensures (a == StayVisible || a == BecomeInvisible) <==> e.visible
    ensures Becomes(a) <==> (e.level >= threshold) != e.visible
  {
    if e.level >= threshold then
      (if e.visible then StayVisible else BecomeVisible)
    else
      (if e.visible then BecomeInvisible else StayInvisible)
  }

  // ------------------------------------------------------------- the metrics

  /** `cursor_index` when given and non-zero, else 0 (`if(!cursor_index) cursor_index = 0`). */
  function CursorOrigin(cursorIndex: Option<int>): int {
    cursorIndex.GetOr(0)
  }

  /** The position the scan uses for entry `i`: its offset when displayed, otherwise the
      position of the entry before it (0 before the first). */
  function PosAt(entries: seq<Entry>, i: nat): int
    requires i < |entries|
  {
    if entries[i].visible then entries[i].top
    else if i == 0 then 0
    else PosAt(entries, i - 1)
  }

  /** How far entry `i` lies outside the window (0 when inside it). */
  function WinDist(entries: seq<Entry>, win: Window, i: nat): int
    requires i < |entries|
  {
    BusyBird.DistanceRanges(win.top, win.range, PosAt(entries, i), entries[i].height)
  }

  function CursorDist(i: int, cursor: int): nat {
    if i >= cursor then i - cursor else cursor - i
  }

  /** The order of priority: window distance first, then distance from the cursor index. */
  function KeyOf(entries: seq<Entry>, win: Window, cursor: int, i: nat): Rank
    requires i < |entries|
  {
    Rank(WinDist(entries, win, i), CursorDist(i, cursor))
  }

  /** One element of `metrics_list`. */
  datatype Metric = Metric(index: nat, action: Action, winDist: int, cursorDist: int)

  function MetricRank(m: Metric): Rank {
    Rank(m.winDist, m.cursorDist)
  }

  predicate MetricBecomes(m: Metric) {
    Becomes(m.action)
  }

  function MetricIndex(m: Metric): nat {
    m.index
  }

  function MetricAt(entries: seq<Entry>, threshold: int, win: Window, cursor: int, i: nat): Metric
    requires i < |entries|
  {
    Metric(i, ActionOf(entries[i], threshold), WinDist(entries, win, i), CursorDist(i, cursor))
  }

  // ---------------------------------------------------------- index selections

  /** Indices below `n` of the statuses under the threshold (to be hidden), in order. */
  function BelowUpTo(entries: seq<Entry>, threshold: int, n: nat): seq<nat>
    requires n <= |entries|
  {
    if n == 0 then []
    else BelowUpTo(entries, threshold, n - 1)
         + (if entries[n - 1].level < threshold then [n - 1] else [])
  }

  /** Indices below `n` of the statuses at or above the threshold (to be shown), in order. */
  function AboveUpTo(entries: seq<Entry>, threshold: int, n: nat): seq<nat>
    requires n <= |entries|
  {
    if n == 0 then []
    else AboveUpTo(entries, threshold, n - 1)
         + (if entries[n - 1].level >= threshold then [n - 1] else [])
  }

  /** Indices below `n` of the statuses whose display must change, in order. */
  function BecomeUpTo(entries: seq<Entry>, threshold: int, n: nat): seq<nat>
    requires n <= |entries|
  {
    if n == 0 then []
    else BecomeUpTo(entries, threshold, n - 1)
         + (if Becomes(ActionOf(entries[n - 1], threshold)) then [n - 1] else [])
  }

  ghost predicate StrictlyIncreasing(s: seq<nat>) {
    forall i, j :: 0 <= i < j < |s| ==> s[i] < s[j]
  }

  lemma {:induction false} BelowUpToMembers(entries: seq<Entry>, threshold: int, n: nat)
    requires n <= |entries|
    ensures forall i :: i in BelowUpTo(entries, threshold, n) <==> 0 <= i < n && entries[i].level < threshold
    ensures StrictlyIncreasing(BelowUpTo(entries, threshold, n))
  {
    if n > 0 {
      BelowUpToMembers(entries, threshold, n - 1);
      var s := BelowUpTo(entries, threshold, n - 1);
      forall a | a in s ensures a < n - 1 { }
      AppendLargerIncreasing(s, n - 1);
    }
  }

  lemma AppendLargerIncreasing(s: seq<nat>, x: nat)
    requires StrictlyIncreasing(s)
    requires forall a :: a in s ==> a < x
    ensures StrictlyIncreasing(s + [x])
  {
    forall a, b | 0 <= a < b < |s| + 1
      ensures (s + [x])[a] < (s + [x])[b]
    {
      if b == |s| {
        assert s[a] in s;
      }
    }
  }

  /** The statuses whose display changes are exactly those whose visibility differs
      from their target, each listed once, in display order. */
  lemma {:induction false} BecomeUpToMembers(entries: seq<Entry>, threshold: int, n: nat)
    requires n <= |entries|
    ensures forall i :: i in BecomeUpTo(entries, threshold, n)
              <==> 0 <= i < n && (entries[i].level >= threshold) != entries[i].visible
    ensures StrictlyIncreasing(BecomeUpTo(entries, threshold, n))
  {
    if n > 0 {
      BecomeUpToMembers(entries, threshold, n - 1);
      var s := BecomeUpTo(entries, threshold, n - 1);
      forall a | a in s ensures a < n - 1 { }
      AppendLargerIncreasing(s, n - 1);
    }
  }

  // -------------------------------------------------------------- hidden runs

  /** A maximal run of consecutive hidden statuses and the status its header precedes
      (`None` for a run at the end of the list). */
  datatype HiddenRun = HiddenRun(followedBy: Option<nat>, entries: seq<nat>)

  function FlattenRuns(runs: seq<HiddenRun>): seq<nat> {
    if runs == [] then [] else FlattenRuns(runs[..|runs| - 1]) + runs[|runs| - 1].entries
  }

  function TotalRunLength(runs: seq<HiddenRun>): nat {
    if runs == [] then 0 else TotalRunLength(runs[..|runs| - 1]) + |runs[|runs| - 1].entries|
  }

  /** Position `k` holds a status at or above the threshold. */
  predicate ShownAt(entries: seq<Entry>, threshold: int, k: int) {
    0 <= k < |entries| && entries[k].level >= threshold
  }

  ghost predicate Contiguous(s: seq<nat>) {
    forall k :: 0 <= k < |s| - 1 ==> s[k + 1] == s[k] + 1
  }

  /** A well-formed run: non-empty, consecutive, not preceded by a hidden status, and
      followed by the shown status it is attached to, or by the end of the list. */
  ghost predicate RunOk(entries: seq<Entry>, threshold: int, r: HiddenRun) {
    && r.entries != []
    && Contiguous(r.entries)
    && r.entries[|r.entries| - 1] < |entries|
    && (r.entries[0] == 0 || ShownAt(entries, threshold, r.entries[0] - 1))
    && match r.followedBy
       case Some(f) => f == r.entries[|r.entries| - 1] + 1 && f < |entries| && entries[f].level >= threshold
       case None => r.entries[|r.entries| - 1] == |entries| - 1
  }

  /** The runs partition the hidden statuses: their lengths and the number of shown
      statuses add up to the number of statuses. */
  lemma {:induction false} RunsPartitionCount(entries: seq<Entry>, threshold: int, runs: seq<HiddenRun>)
    requires FlattenRuns(runs) == BelowUpTo(entries, threshold, |entries|)
    ensures TotalRunLength(runs) + |AboveUpTo(entries, threshold, |entries|)| == |entries|
  {
    RunLengthIsFlatLength(runs);
    SplitCount(entries, threshold, |entries|);
  }

  lemma {:induction false} RunLengthIsFlatLength(runs: seq<HiddenRun>)
    ensures TotalRunLength(runs) == |FlattenRuns(runs)|
  {
    if runs != [] {
      RunLengthIsFlatLength(runs[..|runs| - 1]);
    }
  }

  lemma {:induction false} SplitCount(entries: seq<Entry>, threshold: int, n: nat)
    requires n <= |entries|
    ensures |BelowUpTo(entries, threshold, n)| + |AboveUpTo(entries, threshold, n)| == n
  {
    if n > 0 {
      SplitCount(entries, threshold, n - 1);
    }
  }

  lemma FlattenRunsSnoc(runs: seq<HiddenRun>, r: HiddenRun)
    ensures FlattenRuns(runs + [r]) == FlattenRuns(runs) + r.entries
  {
    assert (runs + [r])[..|runs|] == runs;
  }

  // --------------------------------------------------------------- the plan

  /** `final_result`: the hidden-run list, the elements to toggle with and without
      animation, and the scroll anchor. */
  datatype DisplayPlan = DisplayPlan(
    hiddenRuns: seq<HiddenRun>,
    animate: seq<nat>,
    immediate: seq<nat>,
    anchor: Option<nat>)

  function AnimateMax(enableAnimation: bool): nat {
    if enableAnimation then ANIMATE_STATUS_MAX_NUM else 0
  }

  /** The metrics the first pass has built after `i` statuses. */
  ghost predicate MetricsSoFar(entries: seq<Entry>, threshold: int, win: Window, cursor: int, i: nat,
                               metrics: seq<Metric>)
    requires i <= |entries|
  {
    && |metrics| == i
    && (forall k :: 0 <= k < i ==> metrics[k] == MetricAt(entries, threshold, win, cursor, k))
    && FilterMap(metrics, MetricBecomes, MetricIndex) == BecomeUpTo(entries, threshold, i)
  }

  /** The hidden runs the first pass has closed after `i` statuses, and the open run. */
  ghost predicate RunsSoFar(entries: seq<Entry>, threshold: int, i: nat, runs: seq<HiddenRun>, pending: seq<nat>)
    requires i <= |entries|
  {
    && FlattenRuns(runs) + pending == BelowUpTo(entries, threshold, i)
    && (forall k :: 0 <= k < |runs| ==>
          RunOk(entries, threshold, runs[k]) && runs[k].followedBy.Some? && runs[k].followedBy.value < i)
    && (pending == [] ==> i == 0 || entries[i - 1].level >= threshold)
    && (pending != [] ==>
          Contiguous(pending) && pending[|pending| - 1] == i - 1
          && (pending[0] == 0 || ShownAt(entries, threshold, pending[0] - 1)))
  }

  /** `metrics_list` before sorting: the metric of every status, in display order. */
  ghost predicate MetricsOf(entries: seq<Entry>, threshold: int, win: Window, cursor: int, metrics: seq<Metric>) {
    && |metrics| == |entries|
    && (forall k :: 0 <= k < |entries| ==> metrics[k] == MetricAt(entries, threshold, win, cursor, k))
    && FilterMap(metrics, MetricBecomes, MetricIndex) == BecomeUpTo(entries, threshold, |entries|)
  }

  /** The hidden-run part of the plan, as the first pass leaves it. */
  ghost predicate RunsOk(entries: seq<Entry>, threshold: int, runs: seq<HiddenRun>) {
    && (forall k :: 0 <= k < |runs| ==> RunOk(entries, threshold, runs[k]))
    && (forall k :: 0 <= k < |runs| - 1 ==> runs[k].followedBy.Some?)
    && FlattenRuns(runs) == BelowUpTo(entries, threshold, |entries|)
  }

  /** The metric the loop builds from the running position is the one `MetricAt` names,
      and the running position advances to `PosAt`. */
  lemma MetricHere(entries: seq<Entry>, threshold: int, win: Window, cursor: int, i: nat, prevPos: int, action: Action)
    requires i < |entries|
    requires prevPos == if i == 0 then 0 else PosAt(entries, i - 1)
    requires action == ActionOf(entries[i], threshold)
    ensures (if entries[i].visible then entries[i].top else prevPos) == PosAt(entries, i)
    ensures Metric(i, action, BusyBird.DistanceRanges(win.top, win.range,
                                 if entries[i].visible then entries[i].top else prevPos, entries[i].height),
                   CursorDist(i, cursor))
            == MetricAt(entries, threshold, win, cursor, i)
  {
  }

  /** Every status adds its own metric. */
  lemma ScanMetric(entries: seq<Entry>, threshold: int, win: Window, cursor: int, i: nat, metrics: seq<Metric>)
    requires i < |entries|
    requires MetricsSoFar(entries, threshold, win, cursor, i, metrics)
    ensures MetricsSoFar(entries, threshold, win, cursor, i + 1, metrics + [MetricAt(entries, threshold, win, cursor, i)])
  {
    FilterMapAppend(metrics, [MetricAt(entries, threshold, win, cursor, i)], MetricBecomes, MetricIndex);
  }

  /** A shown status after a run of hidden ones closes the run, headed by this status. */
  lemma ScanShownAfterRun(entries: seq<Entry>, threshold: int, i: nat, runs: seq<HiddenRun>, pending: seq<nat>)
    requires i < |entries| && entries[i].level >= threshold && pending != []
    requires RunsSoFar(entries, threshold, i, runs, pending)
    ensures RunsSoFar(entries, threshold, i + 1, runs + [HiddenRun(Some(i), pending)], [])
  {
    var r := HiddenRun(Some(i), pending);
    assert RunOk(entries, threshold, r);
    var runs' := runs + [r];
    forall k | 0 <= k < |runs'|
      ensures RunOk(entries, threshold, runs'[k]) && runs'[k].followedBy.Some? && runs'[k].followedBy.value < i + 1
    {
      if k < |runs| {
        assert runs'[k] == runs[k];
      }
    }
    FlattenRunsSnoc(runs, r);
    assert BelowUpTo(entries, threshold, i + 1) == BelowUpTo(entries, threshold, i);
  }

  /** A shown status with no open run leaves the runs as they are. */
  lemma ScanShown(entries: seq<Entry>, threshold: int, i: nat, runs: seq<HiddenRun>)
    requires i < |entries| && entries[i].level >= threshold
    requires RunsSoFar(entries, threshold, i, runs, [])
    ensures RunsSoFar(entries, threshold, i + 1, runs, [])
  {
  }

  /** A hidden status opens or extends the open run. */
  lemma ScanHidden(entries: seq<Entry>, threshold: int, i: nat, runs: seq<HiddenRun>, pending: seq<nat>)
    requires i < |entries| && entries[i].level < threshold
    requires RunsSoFar(entries, threshold, i, runs, pending)
    ensures RunsSoFar(entries, threshold, i + 1, runs, pending + [i])
  {
    assert FlattenRuns(runs) + (pending + [i]) == BelowUpTo(entries, threshold, i + 1);
    OpenRunExtends(entries, threshold, i, pending);
  }

  lemma OpenRunExtends(entries: seq<Entry>, threshold: int, i: nat, pending: seq<nat>)
    requires i < |entries|
    requires pending == [] ==> i == 0 || entries[i - 1].level >= threshold
    requires pending != [] ==>
               Contiguous(pending) && pending[|pending| - 1] == i - 1
               && (pending[0] == 0 || ShownAt(entries, threshold, pending[0] - 1))
    ensures Contiguous(pending + [i])
    ensures (pending + [i])[0] == 0 || ShownAt(entries, threshold, (pending + [i])[0] - 1)
  {
  }

  lemma ScanFinish(entries: seq<Entry>, threshold: int, runs: seq<HiddenRun>, pending: seq<nat>)
    requires RunsSoFar(entries, threshold, |entries|, runs, pending)
    ensures pending == [] ==> RunsOk(entries, threshold, runs)
    ensures pending != [] ==> RunsOk(entries, threshold, runs + [HiddenRun(None, pending)])
  {
    assert FlattenRuns(runs) + pending == BelowUpTo(entries, threshold, |entries|);
    if pending != [] {
      var r := HiddenRun(None, pending);
      assert RunOk(entries, threshold, r);
      var runs' := runs + [r];
      forall k | 0 <= k < |runs'|
        ensures RunOk(entries, threshold, runs'[k])
        ensures k < |runs'| - 1 ==> runs'[k].followedBy.Some?
      {
        if k < |runs| {
          assert runs'[k] == runs[k];
        }
      }
      FlattenRunsSnoc(runs, r);
    }
  }

  /** The second pass over the sorted metrics after `j` of them. */
  ghost predicate PickSoFar(entries: seq<Entry>, win: Window, cursor: int, maxAnimate: nat,
                            sorted: seq<Metric>, j: nat, animate: seq<nat>, immediate: seq<nat>)
    requires j <= |sorted|
    requires forall m :: m in sorted ==> m.index < |entries|
  {
    && animate + immediate == FilterMap(sorted[..j], MetricBecomes, MetricIndex)
    && |animate| <= maxAnimate
    && (immediate != [] ==> |animate| == maxAnimate)
    && (forall a, q :: a in animate && j <= q < |sorted| ==>
          a < |entries| && RankLe(KeyOf(entries, win, cursor, a), MetricRank(sorted[q])))
    && (forall a, b :: a in animate && b in immediate ==>
          a < |entries| && b < |entries|
          && RankLe(KeyOf(entries, win, cursor, a), KeyOf(entries, win, cursor, b)))
  }

  /** The anchor after the first `j` sorted metrics: the first that stays visible. */
  ghost predicate AnchorSoFar(entries: seq<Entry>, win: Window, cursor: int, sorted: seq<Metric>, j: nat,
                              anchor: Option<nat>)
    requires j <= |sorted|
  {
    && (anchor.None? ==> forall q :: 0 <= q < j ==> sorted[q].action != StayVisible)
    && (anchor.Some? ==>
          && anchor.value < |entries|
          && (exists q :: 0 <= q < j && sorted[q].index == anchor.value && sorted[q].action == StayVisible)
          && (forall q :: 0 <= q < |sorted| && sorted[q].action == StayVisible ==>
                RankLe(KeyOf(entries, win, cursor, anchor.value), MetricRank(sorted[q]))))
  }

  /** A metric whose status keeps its display adds no toggle. */
  lemma PickSkip(entries: seq<Entry>, win: Window, cursor: int, maxAnimate: nat,
                 sorted: seq<Metric>, j: nat, animate: seq<nat>, immediate: seq<nat>)
    requires j < |sorted|
    requires forall m :: m in sorted ==> m.index < |entries|
    requires !MetricBecomes(sorted[j])
    requires PickSoFar(entries, win, cursor, maxAnimate, sorted, j, animate, immediate)
    ensures PickSoFar(entries, win, cursor, maxAnimate, sorted, j + 1, animate, immediate)
  {
    assert sorted[..j + 1] == sorted[..j] + [sorted[j]];
    FilterMapAppend(sorted[..j], [sorted[j]], MetricBecomes, MetricIndex);
  }

  /** While the quota lasts, a toggled status is animated. */
  lemma PickAnimate(entries: seq<Entry>, win: Window, cursor: int, maxAnimate: nat,
                    sorted: seq<Metric>, j: nat, animate: seq<nat>, immediate: seq<nat>)
    requires j < |sorted|
    requires SortedBy(sorted, MetricRank)
    requires forall m :: m in sorted ==> m.index < |entries|
    requires forall m :: m in sorted ==> MetricRank(m) == KeyOf(entries, win, cursor, m.index)
    requires MetricBecomes(sorted[j]) && |animate| < maxAnimate
    requires PickSoFar(entries, win, cursor, maxAnimate, sorted, j, animate, immediate)
    ensures PickSoFar(entries, win, cursor, maxAnimate, sorted, j + 1, animate + [sorted[j].index], immediate)
  {
    var m := sorted[j];
    assert m in sorted;
    assert sorted[..j + 1] == sorted[..j] + [m];
    FilterMapAppend(sorted[..j], [m], MetricBecomes, MetricIndex);
    assert MetricRank(m) == KeyOf(entries, win, cursor, m.index);
  }

  /** Once the quota is full, a toggled status changes at once. */
  lemma PickImmediate(entries: seq<Entry>, win: Window, cursor: int, maxAnimate: nat,
                      sorted: seq<Metric>, j: nat, animate: seq<nat>, immediate: seq<nat>)
    requires j < |sorted|
    requires forall m :: m in sorted ==> m.index < |entries|
    requires forall m :: m in sorted ==> MetricRank(m) == KeyOf(entries, win, cursor, m.index)
    requires MetricBecomes(sorted[j]) && |animate| >= maxAnimate
    requires PickSoFar(entries, win, cursor, maxAnimate, sorted, j, animate, immediate)
    ensures PickSoFar(entries, win, cursor, maxAnimate, sorted, j + 1, animate, immediate + [sorted[j].index])
  {
    var m := sorted[j];
    assert m in sorted;
    assert sorted[..j + 1] == sorted[..j] + [m];
    FilterMapAppend(sorted[..j], [m], MetricBecomes, MetricIndex);
    assert MetricRank(m) == KeyOf(entries, win, cursor, m.index);
  }

  /** The first metric that stays visible becomes the anchor; later ones leave it alone. */
  lemma AnchorStep(entries: seq<Entry>, win: Window, cursor: int, sorted: seq<Metric>, j: nat, anchor: Option<nat>)
    requires j < |sorted|
    requires SortedBy(sorted, MetricRank)
    requires forall m :: m in sorted ==> m.index < |entries|
    requires forall m :: m in sorted ==> MetricRank(m) == KeyOf(entries, win, cursor, m.index)
    requires AnchorSoFar(entries, win, cursor, sorted, j, anchor)
    ensures AnchorSoFar(entries, win, cursor, sorted, j + 1,
                        if anchor.None? && sorted[j].action == StayVisible then Some(sorted[j].index) else anchor)
  {
    var m := sorted[j];
    assert m in sorted;
    assert MetricRank(m) == KeyOf(entries, win, cursor, m.index);
  }

  /** Every metric in the sorted list is the metric of the status it names. */
  ghost predicate MetricsFaithful(entries: seq<Entry>, threshold: int, win: Window, cursor: int, ms: seq<Metric>) {
    forall m :: m in ms ==> m.index < |entries| && m == MetricAt(entries, threshold, win, cursor, m.index)
  }

  lemma SortedFaithful(entries: seq<Entry>, threshold: int, win: Window, cursor: int, metrics: seq<Metric>)
    requires MetricsOf(entries, threshold, win, cursor, metrics)
    ensures MetricsFaithful(entries, threshold, win, cursor, SortByRank(metrics, MetricRank))
    ensures forall m :: m in SortByRank(metrics, MetricRank) ==> m.index < |entries|
    ensures forall m :: m in SortByRank(metrics, MetricRank) ==>
              MetricRank(m) == KeyOf(entries, win, cursor, m.index)
  {
    var sorted := SortByRank(metrics, MetricRank);
    forall m | m in sorted
      ensures m.index < |entries| && m == MetricAt(entries, threshold, win, cursor, m.index)
    {
      assert m in multiset(metrics);
      var k :| 0 <= k < |metrics| && metrics[k] == m;
    }
  }

  lemma PickDone(entries: seq<Entry>, win: Window, cursor: int, maxAnimate: nat, sorted: seq<Metric>,
                 animate: seq<nat>, immediate: seq<nat>, anchor: Option<nat>)
    requires forall m :: m in sorted ==> m.index < |entries|
    requires PickSoFar(entries, win, cursor, maxAnimate, sorted, |sorted|, animate, immediate)
    requires AnchorSoFar(entries, win, cursor, sorted, |sorted|, anchor)
    ensures PickOutcome(entries, win, cursor, maxAnimate, sorted, animate, immediate, anchor)
  {
    assert sorted[..|sorted|] == sorted;
  }

  /** What the second pass delivers, stated over the sorted metrics. */
  ghost predicate PickOutcome(entries: seq<Entry>, win: Window, cursor: int, maxAnimate: nat, sorted: seq<Metric>,
                              animate: seq<nat>, immediate: seq<nat>, anchor: Option<nat>) {
    && animate + immediate == FilterMap(sorted, MetricBecomes, MetricIndex)
    && |animate| <= maxAnimate
    && (immediate != [] ==> |animate| == maxAnimate)
    && (forall a, b :: a in animate && b in immediate ==>
          a < |entries| && b < |entries|
          && RankLe(KeyOf(entries, win, cursor, a), KeyOf(entries, win, cursor, b)))
    && (anchor.None? ==> forall q :: 0 <= q < |sorted| ==> sorted[q].action != StayVisible)
    && (anchor.Some? ==>
          && anchor.value < |entries|
          && (exists q :: 0 <= q < |sorted| && sorted[q].index == anchor.value && sorted[q].action == StayVisible)
          && (forall q :: 0 <= q < |sorted| && sorted[q].action == StayVisible ==>
                RankLe(KeyOf(entries, win, cursor, anchor.value), MetricRank(sorted[q]))))
  }

  /** The toggle lists of a plan: together exactly the statuses whose display changes,
      at most `maxAnimate` animated, the animated ones filled first and ranked no later
      than any immediate one. */
  ghost predicate TogglesOk(entries: seq<Entry>, threshold: int, win: Window, cursor: int, maxAnimate: nat,
                            animate: seq<nat>, immediate: seq<nat>) {
    && multiset(animate + immediate) == multiset(BecomeUpTo(entries, threshold, |entries|))
    && |animate| <= maxAnimate
    && (immediate != [] ==> |animate| == maxAnimate)
    && (forall a, b :: a in animate && b in immediate ==>
          a < |entries| && b < |entries|
          && RankLe(KeyOf(entries, win, cursor, a), KeyOf(entries, win, cursor, b)))
  }

  /** The anchor of a plan: absent iff no status stays visible, otherwise a status that
      stays visible and is ranked first among those. */
  ghost predicate AnchorOk(entries: seq<Entry>, threshold: int, win: Window, cursor: int, anchor: Option<nat>) {
    && (anchor.None? <==> forall i :: 0 <= i < |entries| ==> ActionOf(entries[i], threshold) != StayVisible)
    && (anchor.Some? ==>
          && anchor.value < |entries|
          && ActionOf(entries[anchor.value], threshold) == StayVisible
          && forall i :: 0 <= i < |entries| && ActionOf(entries[i], threshold) == StayVisible ==>
               RankLe(KeyOf(entries, win, cursor, anchor.value), KeyOf(entries, win, cursor, i)))
  }

  lemma ToggleFinish(entries: seq<Entry>, threshold: int, win: Window, cursor: int, maxAnimate: nat,
                     metrics: seq<Metric>, sorted: seq<Metric>,
                     animate: seq<nat>, immediate: seq<nat>, anchor: Option<nat>)
    requires MetricsOf(entries, threshold, win, cursor, metrics)
    requires sorted == SortByRank(metrics, MetricRank)
    requires PickOutcome(entries, win, cursor, maxAnimate, sorted, animate, immediate, anchor)
    ensures TogglesOk(entries, threshold, win, cursor, maxAnimate, animate, immediate)
  {
    FilterMapSorted(metrics, MetricRank, MetricBecomes, MetricIndex);
    assert animate + immediate == FilterMap(sorted, MetricBecomes, MetricIndex);
    assert FilterMap(metrics, MetricBecomes, MetricIndex) == BecomeUpTo(entries, threshold, |entries|);
    assert multiset(animate + immediate) == multiset(BecomeUpTo(entries, threshold, |entries|));
  }

  lemma AnchorFinish(entries: seq<Entry>, threshold: int, win: Window, cursor: int, maxAnimate: nat,
                     metrics: seq<Metric>, sorted: seq<Metric>,
                     animate: seq<nat>, immediate: seq<nat>, anchor: Option<nat>)
    requires MetricsOf(entries, threshold, win, cursor, metrics)
    requires multiset(sorted) == multiset(metrics)
    requires MetricsFaithful(entries, threshold, win, cursor, sorted)
    requires PickOutcome(entries, win, cursor, maxAnimate, sorted, animate, immediate, anchor)
    ensures AnchorOk(entries, threshold, win, cursor, anchor)
  {
    forall i | 0 <= i < |entries| && ActionOf(entries[i], threshold) == StayVisible
      ensures anchor.Some?
      ensures anchor.Some? ==> RankLe(KeyOf(entries, win, cursor, anchor.value), KeyOf(entries, win, cursor, i))
    {
      var m := metrics[i];
      assert m in multiset(metrics);
      assert m in sorted;
      var q :| 0 <= q < |sorted| && sorted[q] == m;
    }
    if anchor.Some? {
      var q :| 0 <= q < |sorted| && sorted[q].index == anchor.value && sorted[q].action == StayVisible;
      assert sorted[q] in sorted;
    }
  }

  /** The first pass of the scan: one metric per status, in display order, and the
      hidden runs (`hidden_header_list`). */
  method ScanMetrics(entries: seq<Entry>, threshold: int, win: Window, cursor: int)
    returns (metrics: seq<Metric>, runs: seq<HiddenRun>)
    ensures MetricsOf(entries, threshold, win, cursor, metrics)
    ensures RunsOk(entries, threshold, runs)
  {
    metrics := [];
    runs := [];
    var pending: seq<nat> := [];
    var prevPos := 0;
    var i: nat := 0;
    while i < |entries|
      invariant 0 <= i <= |entries|
      invariant MetricsSoFar(entries, threshold, win, cursor, i, metrics)
      invariant RunsSoFar(entries, threshold, i, runs, pending)
      invariant prevPos == if i == 0 then 0 else PosAt(entries, i - 1)
    {
      var e := entries[i];
      var curPos := if e.visible then e.top else prevPos;
      var action: Action;
      if e.level >= threshold {
        action := if e.visible then StayVisible else BecomeVisible;
      } else {
        action := if e.visible then BecomeInvisible else StayInvisible;
      }
      var m := Metric(i, action, BusyBird.DistanceRanges(win.top, win.range, curPos, e.height), CursorDist(i, cursor));
      MetricHere(entries, threshold, win, cursor, i, prevPos, action);
      ScanMetric(entries, threshold, win, cursor, i, metrics);
      if e.level >= threshold {
        if |pending| > 0 {
          ScanShownAfterRun(entries, threshold, i, runs, pending);
          runs := runs + [HiddenRun(Some(i), pending)];
          pending := [];
        } else {
          ScanShown(entries, threshold, i, runs);
        }
      } else {
        ScanHidden(entries, threshold, i, runs, pending);
        pending := pending + [i];
      }
      metrics := metrics + [m];
      prevPos := curPos;
      i := i + 1;
    }
    ScanFinish(entries, threshold, runs, pending);
    if |pending| > 0 {
      runs := runs + [HiddenRun(None, pending)];
    }
  }

  /** The second pass of the scan: walk the metrics in priority order, fill the animation
      quota first, and take the first status that stays visible as the anchor. */
  method PickToggles(entries: seq<Entry>, win: Window, cursor: int, maxAnimate: nat, sorted: seq<Metric>)
    returns (animate: seq<nat>, immediate: seq<nat>, anchor: Option<nat>)
    requires SortedBy(sorted, MetricRank)
    requires forall m :: m in sorted ==> m.index < |entries|
    requires forall m :: m in sorted ==> MetricRank(m) == KeyOf(entries, win, cursor, m.index)
    ensures PickOutcome(entries, win, cursor, maxAnimate, sorted, animate, immediate, anchor)
  {
    animate := [];
    immediate := [];
    anchor := None;
    var j := 0;
    while j < |sorted|
      invariant 0 <= j <= |sorted|
      invariant PickSoFar(entries, win, cursor, maxAnimate, sorted, j, animate, immediate)
      invariant AnchorSoFar(entries, win, cursor, sorted, j, anchor)
    {
      var m := sorted[j];
      AnchorStep(entries, win, cursor, sorted, j, anchor);
      if anchor.None? && m.action == StayVisible {
        anchor := Some(m.index);
      }
      if Becomes(m.action) {
        if |animate| < maxAnimate {
          PickAnimate(entries, win, cursor, maxAnimate, sorted, j, animate, immediate);
          animate := animate + [m.index];
        } else {
          PickImmediate(entries, win, cursor, maxAnimate, sorted, j, animate, immediate);
          immediate := immediate + [m.index];
        }
      } else {
        PickSkip(entries, win, cursor, maxAnimate, sorted, j, animate, immediate);
      }
      j := j + 1;
    }
    PickDone(entries, win, cursor, maxAnimate, sorted, animate, immediate, anchor);
  }

  /** `_scanStatusesForDisplayActions($statuses, threshold_level, enable_animation, cursor_index)`. */
  method ScanStatusesForDisplayActions(entries: seq<Entry>, threshold: int, enableAnimation: bool,
                                       cursorIndex: Option<int>, win: Window)
    returns (plan: DisplayPlan)
    ensures RunsOk(entries, threshold, plan.hiddenRuns)
    ensures TogglesOk(entries, threshold, win, CursorOrigin(cursorIndex), AnimateMax(enableAnimation),
                      plan.animate, plan.immediate)
    ensures AnchorOk(entries, threshold, win, CursorOrigin(cursorIndex), plan.anchor)
  {
    var cursor := CursorOrigin(cursorIndex);
    var metrics, runs := ScanMetrics(entries, threshold, win, cursor);
    var sorted := SortByRank(metrics, MetricRank);
    SortedFaithful(entries, threshold, win, cursor, metrics);
    var animate, immediate, anchor := PickToggles(entries, win, cursor, AnimateMax(enableAnimation), sorted);
    ToggleFinish(entries, threshold, win, cursor, AnimateMax(enableAnimation), metrics, sorted,
                 animate, immediate, anchor);
    AnchorFinish(entries, threshold, win, cursor, AnimateMax(enableAnimation), metrics, sorted,
                 animate, immediate, anchor);
    plan := DisplayPlan(runs, animate, immediate, anchor);
  }
}
