/** The status container of share/www/static/timeline.js (`bb.StatusContainer`): the list of
    status elements of a timeline view, the threshold level that decides which of them are
    displayed, and the operations that add statuses, change the threshold and load from
    the server. A status element is a value (`StatusDom`); the container's list of
    children is the `children` field. Hidden-statuses headers, animation and window
    scrolling are not part of this model. */
module TimelineContainer {
  import opened Wrappers
  import BusyBird
  import opened TimelineDisplay
  import opened TimelineLoad

  const ADD_STATUSES_BLOCK_SIZE := 100
  /** `setDisplayByThreshold` toggles the immediate list in blocks of this size. */
  const IMMEDIATE_TOGGLE_BLOCK_SIZE := 100
  const LOAD_MORE_STATUSES_COUNT := 20

  /** A `.bb-status` element: the status it shows and whether it is displayed. */
  datatype StatusDom = StatusDom(status: Status, visible: bool)

  /** Where a status element is on the page (offset top and height, in whole pixels). */
  datatype Geometry = Geometry(top: int, height: int)

  /** The scan's view of a list of status elements; `measure(i)` is the geometry of the
      `i`th of them. */
  function EntriesOf(doms: seq<StatusDom>, measure: nat -> Geometry): (es: seq<Entry>)
    ensures |es| == |doms|
    ensures forall i :: 0 <= i < |doms| ==>
              es[i].level == doms[i].status.level && es[i].visible == doms[i].visible
  {
    seq(|doms|, i requires 0 <= i < |doms| =>
      Entry(doms[i].status.level, doms[i].visible, measure(i).top, measure(i).height))
  }

  /** New status elements as `_addStatuses` inserts them: all hidden. */
  function HiddenDoms(ss: seq<Status>): (ds: seq<StatusDom>)
    ensures |ds| == |ss| && forall i :: 0 <= i < |ss| ==> ds[i] == StatusDom(ss[i], false)
  {
    seq(|ss|, i requires 0 <= i < |ss| => StatusDom(ss[i], false))
  }

  /** Status elements displayed exactly when their level reaches `threshold`. */
  function Shown(ss: seq<Status>, threshold: int): (ds: seq<StatusDom>)
    ensures |ds| == |ss|
    ensures forall i :: 0 <= i < |ss| ==> ds[i].status == ss[i] && (ds[i].visible <==> ss[i].level >= threshold)
  {
    seq(|ss|, i requires 0 <= i < |ss| => StatusDom(ss[i], ss[i].level >= threshold))
  }

  lemma HiddenDomsAppend(a: seq<Status>, b: seq<Status>)
    ensures HiddenDoms(a + b) == HiddenDoms(a) + HiddenDoms(b)
  {
  }

  /** The elements after toggling: element `from + x` is toggled once per occurrence of `x`
      in `toggles`, so its display flips when it occurs an odd number of times. */
  function Flipped(doms: seq<StatusDom>, from: nat, toggles: multiset<nat>): (r: seq<StatusDom>)
    ensures |r| == |doms|
  {
    seq(|doms|, i requires 0 <= i < |doms| =>
      if i >= from && toggles[i - from] % 2 == 1 then doms[i].(visible := !doms[i].visible) else doms[i])
  }

  /** Toggling one more element flips exactly that element. */
  lemma FlippedOneMore(doms: seq<StatusDom>, from: nat, toggles: multiset<nat>, x: nat)
    requires from + x < |doms|
    ensures var before := Flipped(doms, from, toggles);
            Flipped(doms, from, toggles + multiset{x})
              == before[from + x := before[from + x].(visible := !before[from + x].visible)]
  {
  }

  /** Toggling by one list and then by another is toggling by both. */
  lemma FlippedTwice(doms: seq<StatusDom>, from: nat, a: multiset<nat>, b: multiset<nat>)
    ensures Flipped(Flipped(doms, from, a), from, b) == Flipped(doms, from, a + b)
  {
  }

  /** In a strictly increasing list every element occurs once. */
  lemma {:induction false} IncreasingOccursOnce(s: seq<nat>, x: nat)
    requires StrictlyIncreasing(s)
    ensures multiset(s)[x] == if x in s then 1 else 0
  {
    if s != [] {
      var init := s[..|s| - 1];
      assert s == init + [s[|s| - 1]];
      assert StrictlyIncreasing(init);
      IncreasingOccursOnce(init, x);
      if x == s[|s| - 1] {
        assert x !in init;
      }
    }
  }

  /** Toggling the statuses whose display changes, as the scan lists them, displays the
      `n` elements from `from` on exactly when their level reaches the threshold, and leaves
      every other element alone. */
  lemma ToggledToThreshold(doms: seq<StatusDom>, from: nat, entries: seq<Entry>, threshold: int,
                           toggles: multiset<nat>)
    requires from + |entries| <= |doms|
    requires forall i :: 0 <= i < |entries| ==>
               entries[i].level == doms[from + i].status.level && entries[i].visible == doms[from + i].visible
    requires toggles == multiset(BecomeUpTo(entries, threshold, |entries|))
    ensures forall i :: 0 <= i < |doms| ==> Flipped(doms, from, toggles)[i].status == doms[i].status
    ensures forall i :: from <= i < from + |entries| ==>
              Flipped(doms, from, toggles)[i].visible == (doms[i].status.level >= threshold)
    ensures forall i :: 0 <= i < |doms| && !(from <= i < from + |entries|) ==>
              Flipped(doms, from, toggles)[i] == doms[i]
  {
    forall i | 0 <= i < |doms|
      ensures Flipped(doms, from, toggles)[i].status == doms[i].status
      ensures from <= i < from + |entries| ==>
                Flipped(doms, from, toggles)[i].visible == (doms[i].status.level >= threshold)
      ensures !(from <= i < from + |entries|) ==> Flipped(doms, from, toggles)[i] == doms[i]
    {
      if from <= i < from + |entries| {
        ToggledOne(doms, from, entries, threshold, i - from);
      } else {
        UntouchedOne(doms, from, entries, threshold, i);
      }
    }
  }

  /** An element outside the scanned range is not toggled. */
  lemma UntouchedOne(doms: seq<StatusDom>, from: nat, entries: seq<Entry>, threshold: int, i: nat)
    requires i < |doms| && !(from <= i < from + |entries|)
    ensures Flipped(doms, from, multiset(BecomeUpTo(entries, threshold, |entries|)))[i] == doms[i]
  {
    var s := BecomeUpTo(entries, threshold, |entries|);
    if i >= from {
      var k: nat := i - from;
      BecomeUpToMembers(entries, threshold, |entries|);
      assert k !in s;
      IncreasingOccursOnce(s, k);
    }
  }

  /** One scanned element: it is toggled exactly once when its display must change, and
      not at all otherwise. */
  lemma ToggledOne(doms: seq<StatusDom>, from: nat, entries: seq<Entry>, threshold: int, k: nat)
    requires from + |entries| <= |doms| && k < |entries|
    requires entries[k].level == doms[from + k].status.level && entries[k].visible == doms[from + k].visible
    ensures Flipped(doms, from, multiset(BecomeUpTo(entries, threshold, |entries|)))[from + k].visible
            == (doms[from + k].status.level >= threshold)
  {
    var s := BecomeUpTo(entries, threshold, |entries|);
    var t := multiset(s);
    var d := doms[from + k];
    assert Flipped(doms, from, t)[from + k] == if t[k] % 2 == 1 then d.(visible := !d.visible) else d;
    BecomeUpToMembers(entries, threshold, |entries|);
    IncreasingOccursOnce(s, k);
    if (entries[k].level >= threshold) != entries[k].visible {
      assert k in s;
      assert t[k] == 1;
    } else {
      assert k !in s;
      assert t[k] == 0;
    }
  }

  /** The elements after a threshold change: the same statuses, each displayed exactly
      when its level reaches the threshold. */
  ghost predicate AtThreshold(before: seq<StatusDom>, after: seq<StatusDom>, threshold: int) {
    && |after| == |before|
    && forall i :: 0 <= i < |after| ==>
         after[i].status == before[i].status && (after[i].visible <==> after[i].status.level >= threshold)
  }

  /** Every element is displayed exactly when its level reaches the threshold. */
  ghost predicate AllAtThreshold(doms: seq<StatusDom>, threshold: int) {
    forall i :: 0 <= i < |doms| ==> (doms[i].visible <==> doms[i].status.level >= threshold)
  }

  /** Statuses added at the threshold, in front of or after a list at the threshold, leave the
      whole list at the threshold. */
  lemma AddedKeepThreshold(added: seq<Status>, doms: seq<StatusDom>, threshold: int)
    requires AllAtThreshold(doms, threshold)
    ensures AllAtThreshold(Shown(added, threshold) + doms, threshold)
    ensures AllAtThreshold(doms + Shown(added, threshold), threshold)
  {
    var s := Shown(added, threshold);
    forall i | 0 <= i < |s + doms|
      ensures ((s + doms)[i].visible <==> (s + doms)[i].status.level >= threshold)
    {
      if i >= |s| {
        assert (s + doms)[i] == doms[i - |s|];
      }
    }
    forall i | 0 <= i < |doms + s|
      ensures ((doms + s)[i].visible <==> (doms + s)[i].status.level >= threshold)
    {
      if i >= |doms| {
        assert (doms + s)[i] == s[i - |doms|];
      }
    }
  }

  /** Applying a plan the scan of the whole list produced brings every element to the
      threshold. */
  lemma PlanReachesThreshold(doms: seq<StatusDom>, measure: nat -> Geometry, threshold: int, win: Window,
                             cursor: int, animate: seq<nat>, immediate: seq<nat>)
    requires TogglesOk(EntriesOf(doms, measure), threshold, win, cursor, ANIMATE_STATUS_MAX_NUM, animate, immediate)
    ensures forall x :: x in animate + immediate ==> x < |doms|
    ensures AtThreshold(doms, Flipped(doms, 0, multiset(animate + immediate)), threshold)
  {
    var entries := EntriesOf(doms, measure);
    assert multiset(animate + immediate) == multiset(BecomeUpTo(entries, threshold, |entries|));
    WholeListToThreshold(doms, entries, threshold, animate + immediate);
  }

  lemma WholeListToThreshold(doms: seq<StatusDom>, entries: seq<Entry>, threshold: int, toggles: seq<nat>)
    requires |entries| == |doms|
    requires forall i :: 0 <= i < |entries| ==>
               entries[i].level == doms[i].status.level && entries[i].visible == doms[i].visible
    requires multiset(toggles) == multiset(BecomeUpTo(entries, threshold, |entries|))
    ensures forall x :: x in toggles ==> x < |doms|
    ensures AtThreshold(doms, Flipped(doms, 0, multiset(toggles)), threshold)
  {
    TogglesInRange(entries, threshold, toggles);
    var after := Flipped(doms, 0, multiset(toggles));
    forall i | 0 <= i < |after|
      ensures after[i].status == doms[i].status && (after[i].visible <==> after[i].status.level >= threshold)
    {
      ToggledOne(doms, 0, entries, threshold, i);
    }
  }

  /** Every index the scan lists for toggling is an index of the scanned list. */
  lemma TogglesInRange(entries: seq<Entry>, threshold: int, toggles: seq<nat>)
    requires multiset(toggles) == multiset(BecomeUpTo(entries, threshold, |entries|))
    ensures forall x :: x in toggles ==> x < |entries|
  {
    BecomeUpToMembers(entries, threshold, |entries|);
    forall x | x in toggles
      ensures x < |entries|
    {
      assert x in multiset(toggles);
      assert x in multiset(BecomeUpTo(entries, threshold, |entries|));
      assert x in BecomeUpTo(entries, threshold, |entries|);
    }
  }

  lemma InsertAfter<T>(pre: seq<T>, mid: seq<T>, post: seq<T>, ins: seq<T>)
    ensures var s := pre + mid + post;
            s[..|pre| + |mid|] + ins + s[|pre| + |mid|..] == pre + (mid + ins) + post
  {
    var s := pre + mid + post;
    assert s[..|pre| + |mid|] == pre + mid;
    assert s[|pre| + |mid|..] == post;
  }

  lemma FlattenSnoc<T>(chunks: seq<BusyBird.Chunk<T>>, b: nat)
    requires b < |chunks|
    ensures BusyBird.Flatten(chunks[..b + 1]) == BusyBird.Flatten(chunks[..b]) + chunks[b].items
  {
    assert chunks[..b + 1][..b] == chunks[..b];
  }

  /** `_getLoadStatusesURL`. */
  function StatusesUrl(apiBase: string, timeline: string): string {
    apiBase + "/timelines/" + timeline + "/statuses.html"
  }

  /** The id of the last status element, the starting point of `loadMoreStatuses`. */
  function LastStatusId(doms: seq<StatusDom>): (r: Option<Id>)
    ensures r.None? <==> doms == []
    ensures r.Some? ==> r.value == doms[|doms| - 1].status.id
  {
    if doms == [] then None else Some(doms[|doms| - 1].status.id)
  }

  /** The arguments `loadMoreStatuses` passes to `loadStatuses`. */
  function LoadMoreArgs(url: string, startId: Option<Id>): LoadArgs {
    LoadArgs(Some(url), Some("any"), Some(LOAD_MORE_STATUSES_COUNT), startId, Some(1))
  }

  /** The arguments `loadUnackedStatuses` passes to `loadStatuses`. */
  function UnackedArgs(url: string): LoadArgs {
    LoadArgs(Some(url), Some("unacked"), None, None, None)
  }

  /** `loadMoreStatuses` asks for one page of 20 statuses of any acked state, starting at the
      last status in the container, displayed or not (or the newest, when the container is
      empty), and appends none that is already at the end of the container. */
  lemma LoadMoreQuery(server: Server, apiBase: string, timeline: string, doms: seq<StatusDom>)
    ensures var o := LoadSpec(server, LoadMoreArgs(StatusesUrl(apiBase, timeline), LastStatusId(doms)));
            && o.sent == [Query(StatusesUrl(apiBase, timeline), "any", LOAD_MORE_STATUSES_COUNT, LastStatusId(doms))]
            && (o.result.Ok? <==> server(o.sent[0]).Some?)
            && (o.result.Ok? ==> o.result.value.statuses == server(o.sent[0]).value)
  {
    SinglePageLoad(server, LoadMoreArgs(StatusesUrl(apiBase, timeline), LastStatusId(doms)));
  }

  /** A failure of the promise chains below. */
  datatype ContainerError = LoadFailed(cause: LoadError) | AckFailed | ReferenceError

  /** What `loadUnackedStatuses` fulfils with. */
  datatype UnackedLoaded = UnackedLoaded(maxReached: bool, statuses: seq<Status>)

  /** The outcome of `loadUnackedStatuses` as it is evidently meant to be: the load, then
      the acknowledgement (`acked` tells whether the POST eventually succeeds), then the
      loaded statuses are prepended. */
  function UnackedOutcome(server: Server, acked: AckPost -> bool, apiBase: string, timeline: string)
    : (r: Result<UnackedLoaded, ContainerError>)
    ensures var o := LoadSpec(server, UnackedArgs(StatusesUrl(apiBase, timeline)));
            && (o.result.Err? ==> r == Err(LoadFailed(o.result.error)))
            && (o.result.Ok? && o.result.value.statuses == [] ==>
                  r == Ok(UnackedLoaded(o.result.value.maxReached, [])))
            && (r.Ok? ==> o.result.Ok? && r.value.statuses == o.result.value.statuses
                          && r.value.maxReached == o.result.value.maxReached)
            && (r == Err(AckFailed) <==>
                  o.result.Ok? && o.result.value.statuses != []
                  && !acked(AckRequest(apiBase, timeline, o.result.value.statuses).value))
            && (o.result.Ok?
                && (o.result.value.statuses == [] || acked(AckRequest(apiBase, timeline, o.result.value.statuses).value))
                ==> r == Ok(UnackedLoaded(o.result.value.maxReached, o.result.value.statuses)))
    ensures r != Err(ReferenceError)
  {
    var o := LoadSpec(server, UnackedArgs(StatusesUrl(apiBase, timeline)));
    match o.result
    case Err(e) => Err(LoadFailed(e))
    case Ok(loaded) =>
      var ack := AckRequest(apiBase, timeline, loaded.statuses);
      if ack.Some? && !acked(ack.value) then Err(AckFailed)
      else Ok(UnackedLoaded(loaded.maxReached, loaded.statuses))
  }

  /** The outcome of `loadUnackedStatuses` as written: the third step reads `result`, which
      is not in scope there, so under strict mode it throws a ReferenceError and the
      statuses are never prepended. */
  function UnackedOutcomeAsWritten(server: Server, acked: AckPost -> bool, apiBase: string, timeline: string)
    : (r: Result<UnackedLoaded, ContainerError>)
    ensures r.Err?
    ensures UnackedOutcome(server, acked, apiBase, timeline).Ok? ==> r == Err(ReferenceError)
    ensures UnackedOutcome(server, acked, apiBase, timeline).Err? ==> r == UnackedOutcome(server, acked, apiBase, timeline)
  {
    var o := LoadSpec(server, UnackedArgs(StatusesUrl(apiBase, timeline)));
    match o.result
    case Err(e) => Err(LoadFailed(e))
    case Ok(loaded) =>
      var ack := AckRequest(apiBase, timeline, loaded.statuses);
      if ack.Some? && !acked(ack.value) then Err(AckFailed)
      else Err(ReferenceError)
  }

  /** A server holding one unacked status, "1" at level 0; it answers only the first page. */
  function OneStatusServer(q: Query): Option<seq<Status>> {
    if q.maxId.None? then Some([Status("1", 0)]) else None
  }

  /** An acknowledgement endpoint that accepts every POST. */
  predicate AcceptsAll(p: AckPost) {
    true
  }

  /** With one unacked status and a working server, the corrected chain delivers the status
      and the chain as written fails. */
  lemma UnackedAsWrittenLosesStatuses()
    ensures UnackedOutcome(OneStatusServer, AcceptsAll, "", "home") == Ok(UnackedLoaded(false, [Status("1", 0)]))
    ensures UnackedOutcomeAsWritten(OneStatusServer, AcceptsAll, "", "home") == Err(ReferenceError)
  {
    var args := UnackedArgs(StatusesUrl("", "home"));
    var q := Query(StatusesUrl("", "home"), "unacked", LOAD_STATUS_DEFAULT_COUNT_PER_PAGE, None);
    assert ValidateLoadArgs(args) == Ok(LoadPlan(q, LOAD_STATUS_DEFAULT_MAX_PAGE_NUM));
    assert OneStatusServer(q) == Some([Status("1", 0)]);
    CrawlStops(OneStatusServer, q, LOAD_STATUS_DEFAULT_MAX_PAGE_NUM, 0, None);
    assert LoadSpec(OneStatusServer, args).result == Ok(Loaded(false, 1, [Status("1", 0)]));
    assert AckRequest("", "home", [Status("1", 0)]).Some?;
  }

  class StatusContainer {
    const timeline: string
    const apiBase: string
    /** The `.bb-status` children of the container, in display order. */
    var children: seq<StatusDom>
    var thresholdLevel: int

    /** The container's invariant: each status is displayed exactly when its level reaches
        the threshold level. */
    ghost predicate Valid()
      reads this
    {
      AllAtThreshold(children, thresholdLevel)
    }

    /** A container with no statuses and threshold level 0; the API base defaults to "". */
    constructor(timeline: string, apiBase: Option<string>)
      ensures this.timeline == timeline && this.apiBase == apiBase.GetOr("")
      ensures children == [] && thresholdLevel == 0
      ensures Valid()
    {
      this.timeline := timeline;
      this.apiBase := apiBase.GetOr("");
      children := [];
      thresholdLevel := 0;
    }

    function GetThresholdLevel(): (t: int)
      reads this
      ensures t == thresholdLevel
    {
      thresholdLevel
    }

    /** Toggles the element `from + x` for every `x` of `toggles`, one after the other. */
    method ApplyToggles(from: nat, toggles: seq<nat>)
      requires forall x :: x in toggles ==> from + x < |children|
      modifies this
      ensures children == Flipped(old(children), from, multiset(toggles))
      ensures thresholdLevel == old(thresholdLevel)
    {
      ghost var start := children;
      assert multiset(toggles[..0]) == multiset{};
      assert Flipped(start, from, multiset{}) == start;
      for k := 0 to |toggles|
        invariant children == Flipped(start, from, multiset(toggles[..k]))
        invariant thresholdLevel == old(thresholdLevel)
      {
        var i := from + toggles[k];
        assert toggles[k] in toggles;
        FlippedOneMore(start, from, multiset(toggles[..k]), toggles[k]);
        children := children[i := children[i].(visible := !children[i].visible)];
        assert toggles[..k + 1] == toggles[..k] + [toggles[k]];
      }
      assert toggles[..|toggles|] == toggles;
    }

    /** What `setDisplayByThreshold` does with a plan: the animated toggles, then the
        immediate ones in blocks of 100. */
    method ApplyPlan(from: nat, animate: seq<nat>, immediate: seq<nat>)
      requires forall x :: x in animate + immediate ==> from + x < |children|
      modifies this
      ensures children == Flipped(old(children), from, multiset(animate + immediate))
      ensures thresholdLevel == old(thresholdLevel)
    {
      ghost var start := children;
      SplitRange(from, animate, immediate, |children|);
      ApplyToggles(from, animate);
      ghost var afterAnimate := children;
      var blocks := BusyBird.BlockEach(immediate, IMMEDIATE_TOGGLE_BLOCK_SIZE);
      assert BusyBird.Flatten(blocks[..0]) == [];
      for b := 0 to |blocks|
        invariant |children| == |start|
        invariant children == Flipped(afterAnimate, from, multiset(BusyBird.Flatten(blocks[..b])))
        invariant thresholdLevel == old(thresholdLevel)
      {
        ChunkWithin(from, immediate, IMMEDIATE_TOGGLE_BLOCK_SIZE, b, blocks[b], |children|);
        ApplyToggles(from, blocks[b].items);
        FlattenSnoc(blocks, b);
        FlippedTwice(afterAnimate, from, multiset(BusyBird.Flatten(blocks[..b])), multiset(blocks[b].items));
      }
      assert blocks[..|blocks|] == blocks;
      FlippedTwice(start, from, multiset(animate), multiset(immediate));
    }

    /** `setThresholdLevel(new_threshold)`: every status becomes displayed exactly when its
        level reaches the new threshold, at most 15 of them with an animation. */
    method SetThresholdLevel(newThreshold: int, win: Window, measure: nat -> Geometry)
      returns (plan: DisplayPlan)
      modifies this
      ensures GetThresholdLevel() == newThreshold
      ensures AtThreshold(old(children), children, newThreshold)
      ensures Valid()
      ensures |plan.animate| <= ANIMATE_STATUS_MAX_NUM
      ensures TogglesOk(EntriesOf(old(children), measure), newThreshold, win, 0, ANIMATE_STATUS_MAX_NUM,
                        plan.animate, plan.immediate)
    {
      thresholdLevel := newThreshold;
      plan := ScanStatusesForDisplayActions(EntriesOf(children, measure), newThreshold, true, None, win);
      PlanReachesThreshold(children, measure, newThreshold, win, 0, plan.animate, plan.immediate);
      ApplyPlan(0, plan.animate, plan.immediate);
    }

    /** The first part of `_addStatuses`: the statuses go in hidden, block by block, each
        block after the previous one and the first at the top or at the bottom. */
    method InsertHidden(added: seq<Status>, isPrepend: bool)
      modifies this
      ensures thresholdLevel == old(thresholdLevel)
      ensures var base := if isPrepend then 0 else |old(children)|;
              children == old(children)[..base] + HiddenDoms(added) + old(children)[base..]
    {
      ghost var before := children;
      var base := if isPrepend then 0 else |children|;
      var blocks := BusyBird.BlockEach(added, ADD_STATUSES_BLOCK_SIZE);
      var nextTop: Option<nat> := None;
      assert BusyBird.Flatten(blocks[..0]) == [];
      for b := 0 to |blocks|
        invariant thresholdLevel == old(thresholdLevel)
        invariant children == before[..base] + HiddenDoms(BusyBird.Flatten(blocks[..b])) + before[base..]
        invariant nextTop.None? <==> b == 0
        invariant nextTop.Some? ==> nextTop.value + 1 == base + |BusyBird.Flatten(blocks[..b])|
      {
        ghost var done := BusyBird.Flatten(blocks[..b]);
        var hidden := HiddenDoms(blocks[b].items);
        FlattenSnoc(blocks, b);
        InsertStep(before, base, done, blocks[b].items, children);
        if nextTop.None? {
          assert blocks[..b] == [];
        }
        InsertBlock(hidden, nextTop, isPrepend, base + |done|);
        nextTop := Some(if nextTop.Some? then nextTop.value + |hidden| else base + |hidden| - 1);
      }
      assert blocks[..|blocks|] == blocks;
    }

    /** One block of `_addStatuses`: right after the previous block, or else at the top or
        at the bottom. `at` is where that is. */
    method InsertBlock(hidden: seq<StatusDom>, nextTop: Option<nat>, isPrepend: bool, ghost at: nat)
      requires at <= |children|
      requires nextTop.Some? ==> nextTop.value + 1 == at
      requires nextTop.None? ==> at == if isPrepend then 0 else |children|
      modifies this
      ensures children == old(children)[..at] + hidden + old(children)[at..]
      ensures thresholdLevel == old(thresholdLevel)
    {
      if nextTop.Some? {
        children := children[..nextTop.value + 1] + hidden + children[nextTop.value + 1..];
      } else if isPrepend {
        assert children[..at] == [] && children[at..] == children;
        children := hidden + children;
      } else {
        assert children[..at] == children && children[at..] == [];
        children := children + hidden;
      }
    }

    /** `_addStatuses(added, is_prepend)`: the statuses go in hidden, and then each is
        displayed exactly when its level reaches the threshold. */
    method AddStatuses(added: seq<Status>, isPrepend: bool, win: Window, measure: nat -> Geometry)
      requires Valid()
      modifies this
      ensures Valid()
      ensures thresholdLevel == old(thresholdLevel)
      ensures children == if isPrepend then Shown(added, thresholdLevel) + old(children)
                          else old(children) + Shown(added, thresholdLevel)
    {
      AddedKeepThreshold(added, children, thresholdLevel);
      ghost var before := children;
      var base := if isPrepend then 0 else |children|;
      InsertHidden(added, isPrepend);
      var segment := children[base..base + |added|];
      assert segment == HiddenDoms(added);
      var plan := ScanStatusesForDisplayActions(EntriesOf(segment, measure), thresholdLevel, false, None, win);
      AddedPlanShows(before, base, added, thresholdLevel, isPrepend, measure, win, plan.animate, plan.immediate);
      ApplyPlan(base, plan.animate, plan.immediate);
    }

    /** `appendStatuses` and `prependStatuses` are `_addStatuses` with `is_prepend` false and
        true; `loadMoreStatuses`: one page of older statuses, appended after dropping a
        leading repeat of the last status in the container, displayed or not. */
    method LoadMoreStatuses(server: Server, win: Window, measure: nat -> Geometry) returns (outcome: LoadOutcome)
      requires Valid()
      modifies this
      ensures Valid()
      ensures thresholdLevel == old(thresholdLevel)
      ensures outcome == LoadSpec(server, LoadMoreArgs(StatusesUrl(apiBase, timeline), LastStatusId(old(children))))
      ensures outcome.result.Err? ==> children == old(children)
      ensures outcome.result.Ok? ==>
                children == old(children)
                  + Shown(DropBoundaryDuplicate(LastStatusId(old(children)), outcome.result.value.statuses),
                          thresholdLevel)
    {
      var startId := LastStatusId(children);
      outcome := LoadStatuses(server, LoadMoreArgs(StatusesUrl(apiBase, timeline), startId));
      if outcome.result.Err? {
        return;
      }
      var added := DropBoundaryDuplicate(startId, outcome.result.value.statuses);
      AddStatuses(added, false, win, measure);
    }

    /** `loadUnackedStatuses`, corrected to prepend the loaded statuses. */
    method LoadUnackedStatuses(server: Server, acked: AckPost -> bool, win: Window, measure: nat -> Geometry)
      returns (r: Result<UnackedLoaded, ContainerError>)
      requires Valid()
      modifies this
      ensures Valid()
      ensures thresholdLevel == old(thresholdLevel)
      ensures r == UnackedOutcome(server, acked, apiBase, timeline)
      ensures r.Err? ==> children == old(children)
      ensures r.Ok? ==> children == Shown(r.value.statuses, thresholdLevel) + old(children)
    {
      var outcome := LoadStatuses(server, UnackedArgs(StatusesUrl(apiBase, timeline)));
      if outcome.result.Err? {
        return Err(LoadFailed(outcome.result.error));
      }
      var loaded := outcome.result.value;
      var ack := AckRequest(apiBase, timeline, loaded.statuses);
      if ack.Some? && !acked(ack.value) {
        return Err(AckFailed);
      }
      AddStatuses(loaded.statuses, true, win, measure);
      r := Ok(UnackedLoaded(loaded.maxReached, loaded.statuses));
    }

    /** `loadUnackedStatuses` as written: it loads and acknowledges, then fails before
        prepending anything. */
    method LoadUnackedStatusesAsWritten(server: Server, acked: AckPost -> bool)
      returns (r: Result<UnackedLoaded, ContainerError>)
      ensures r == UnackedOutcomeAsWritten(server, acked, apiBase, timeline)
      ensures r.Err?
    {
      var outcome := LoadStatuses(server, UnackedArgs(StatusesUrl(apiBase, timeline)));
      if outcome.result.Err? {
        return Err(LoadFailed(outcome.result.error));
      }
      var ack := AckRequest(apiBase, timeline, outcome.result.value.statuses);
      if ack.Some? && !acked(ack.value) {
        return Err(AckFailed);
      }
      r := Err(ReferenceError);
    }

    /** `loadInit`: the unacked statuses, then one page of older ones exactly when the
        unacked load did not reach its page limit; fulfils with the unacked result. */
    method LoadInit(server: Server, acked: AckPost -> bool, win: Window, measure: nat -> Geometry)
      returns (r: Result<UnackedLoaded, ContainerError>, more: Option<LoadOutcome>)
      requires Valid()
      modifies this
      ensures Valid()
      ensures thresholdLevel == old(thresholdLevel)
      ensures var u := UnackedOutcome(server, acked, apiBase, timeline);
              && (more.Some? <==> u.Ok? && !u.value.maxReached)
              && (u.Err? ==> r == u && children == old(children))
              && (u.Ok? && more.None? ==> r == u && children == Shown(u.value.statuses, thresholdLevel) + old(children))
              && (more.Some? ==>
                    var shown := Shown(u.value.statuses, thresholdLevel) + old(children);
                    && more.value == LoadSpec(server, LoadMoreArgs(StatusesUrl(apiBase, timeline), LastStatusId(shown)))
                    && (more.value.result.Err? ==> r == Err(LoadFailed(more.value.result.error)) && children == shown)
                    && (more.value.result.Ok? ==>
                          && r == u
                          && children == shown + Shown(DropBoundaryDuplicate(LastStatusId(shown),
                                                                             more.value.result.value.statuses),
                                                       thresholdLevel)))
    {
      r := LoadUnackedStatuses(server, acked, win, measure);
      more := None;
      if r.Err? || r.value.maxReached {
        return;
      }
      var o := LoadMoreStatuses(server, win, measure);
      more := Some(o);
      if o.result.Err? {
        r := Err(LoadFailed(o.result.error));
      }
    }
  }

  lemma SplitRange(from: nat, animate: seq<nat>, immediate: seq<nat>, n: nat)
    requires forall x :: x in animate + immediate ==> from + x < n
    ensures forall x :: x in animate ==> from + x < n
    ensures forall x :: x in immediate ==> from + x < n
  {
    forall x | x in animate ensures from + x < n { assert x in animate + immediate; }
    forall x | x in immediate ensures from + x < n { assert x in animate + immediate; }
  }

  /** A block of a list whose elements are in range has its elements in range. */
  lemma ChunkWithin(from: nat, a: seq<nat>, size: nat, b: nat, c: BusyBird.Chunk<nat>, n: nat)
    requires forall x :: x in a ==> from + x < n
    requires BusyBird.IsChunk(a, size, b, c)
    ensures forall x :: x in c.items ==> from + x < n
  {
    forall x | x in c.items
      ensures from + x < n
    {
      var k :| 0 <= k < |c.items| && c.items[k] == x;
      assert c.start + k < |a| && x == a[c.start + k];
      assert a[c.start + k] in a;
    }
  }

  /** One block of `_addStatuses`: inserting it hidden right after the statuses already
      inserted extends the inserted run. */
  lemma InsertStep(before: seq<StatusDom>, base: nat, done: seq<Status>, items: seq<Status>,
                   cur: seq<StatusDom>)
    requires base <= |before|
    requires cur == before[..base] + HiddenDoms(done) + before[base..]
    ensures base + |done| <= |cur|
    ensures cur[..base + |done|] + HiddenDoms(items) + cur[base + |done|..]
            == before[..base] + HiddenDoms(done + items) + before[base..]
  {
    InsertAfter(before[..base], HiddenDoms(done), before[base..], HiddenDoms(items));
    HiddenDomsAppend(done, items);
  }

  /** The plan the scan makes for freshly inserted hidden statuses displays each of them
      exactly when its level reaches the threshold. */
  lemma AddedPlanShows(before: seq<StatusDom>, base: nat, added: seq<Status>, threshold: int, isPrepend: bool,
                       measure: nat -> Geometry, win: Window, animate: seq<nat>, immediate: seq<nat>)
    requires base == if isPrepend then 0 else |before|
    requires TogglesOk(EntriesOf(HiddenDoms(added), measure), threshold, win, 0, AnimateMax(false),
                       animate, immediate)
    ensures var mid := before[..base] + HiddenDoms(added) + before[base..];
            && (forall x :: x in animate + immediate ==> base + x < |mid|)
            && Flipped(mid, base, multiset(animate + immediate))
                 == if isPrepend then Shown(added, threshold) + before else before + Shown(added, threshold)
  {
    var entries := EntriesOf(HiddenDoms(added), measure);
    assert multiset(animate + immediate) == multiset(BecomeUpTo(entries, threshold, |entries|));
    AddedShownByToggles(before, base, added, threshold, isPrepend, entries, animate + immediate);
  }

  lemma AddedShownByToggles(before: seq<StatusDom>, base: nat, added: seq<Status>, threshold: int,
                            isPrepend: bool, entries: seq<Entry>, toggles: seq<nat>)
    requires base == if isPrepend then 0 else |before|
    requires |entries| == |added|
    requires forall i :: 0 <= i < |entries| ==> entries[i].level == added[i].level && !entries[i].visible
    requires multiset(toggles) == multiset(BecomeUpTo(entries, threshold, |entries|))
    ensures var mid := before[..base] + HiddenDoms(added) + before[base..];
            && (forall x :: x in toggles ==> base + x < |mid|)
            && Flipped(mid, base, multiset(toggles))
                 == if isPrepend then Shown(added, threshold) + before else before + Shown(added, threshold)
  {
    var mid := before[..base] + HiddenDoms(added) + before[base..];
    TogglesInRange(entries, threshold, toggles);
    AddedEntriesMatch(before, base, added, entries, mid);
    ToggledToThreshold(mid, base, entries, threshold, multiset(toggles));
    AddedAreShown(before, base, added, threshold, isPrepend, mid, Flipped(mid, base, multiset(toggles)));
  }

  /** The entries the scan sees for the added statuses describe the hidden block in place. */
  lemma AddedEntriesMatch(before: seq<StatusDom>, base: nat, added: seq<Status>, entries: seq<Entry>,
                          mid: seq<StatusDom>)
    requires base <= |before|
    requires mid == before[..base] + HiddenDoms(added) + before[base..]
    requires |entries| == |added|
    requires forall i :: 0 <= i < |entries| ==> entries[i].level == added[i].level && !entries[i].visible
    ensures base + |entries| <= |mid|
    ensures forall i :: 0 <= i < |entries| ==>
              entries[i].level == mid[base + i].status.level && entries[i].visible == mid[base + i].visible
  {
    forall i | 0 <= i < |entries|
      ensures entries[i].level == mid[base + i].status.level && entries[i].visible == mid[base + i].visible
    {
      assert mid[base + i] == HiddenDoms(added)[i];
    }
  }

  lemma AddedAreShown(before: seq<StatusDom>, base: nat, added: seq<Status>, threshold: int, isPrepend: bool,
                      mid: seq<StatusDom>, after: seq<StatusDom>)
    requires base == if isPrepend then 0 else |before|
    requires mid == before[..base] + HiddenDoms(added) + before[base..]
    requires |after| == |mid|
    requires forall i :: 0 <= i < |mid| ==> after[i].status == mid[i].status
    requires forall i :: base <= i < base + |added| ==> after[i].visible == (mid[i].status.level >= threshold)
    requires forall i :: 0 <= i < |mid| && !(base <= i < base + |added|) ==> after[i] == mid[i]
    ensures after == if isPrepend then Shown(added, threshold) + before else before + Shown(added, threshold)
  {
    var want := if isPrepend then Shown(added, threshold) + before else before + Shown(added, threshold);
    forall i | 0 <= i < |after|
      ensures after[i] == want[i]
    {
      if base <= i < base + |added| {
        assert mid[i] == StatusDom(added[i - base], false);
      }
    }
  }
}
