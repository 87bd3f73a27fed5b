/** The keyboard level and cursor controls of resources/httpd/static/shaper.js. The page is
    a list of boxes `box_0`, `box_1`, ... in document order, each a status or a header of
    some level, with its offset and height taken as given. The script's global variables
    `current_level` and `cursor` and the page's display and "cursor" marks are the fields
    of `Page`. */
module Shaper {
  import opened Wrappers

  const MAX_LEVEL := 5

  const KEY_H := 104
  const KEY_J := 106
  const KEY_K := 107
  const KEY_L := 108

  /** `div.status_lvN` or `div.header_lvN`. */
  datatype BoxKind = StatusBox | HeaderBox

  datatype Box = Box(kind: BoxKind, level: int, top: int, height: int)

  /** What `changeLevel` anchors on: a box (`target_id` "box_N") or, for an empty
      `target_id`, a page offset (the scroll position plus the control bar height). */
  datatype AnchorTarget = WindowTarget(y: int) | BoxTarget(index: int)

  function Abs(x: int): nat {
    if x < 0 then -x else x
  }

  // ------------------------------------------------------------ statuses by level

  /** The status boxes of the given level among the first `n` boxes, in document order. */
  function OfLevelUpTo(boxes: seq<Box>, level: int, n: nat): (r: seq<nat>)
    requires n <= |boxes|
    ensures forall x :: x in r <==> 0 <= x < n && boxes[x].kind == StatusBox && boxes[x].level == level
    ensures forall k :: 0 <= k < |r| ==> r[k] < n
    ensures forall i, j :: 0 <= i < j < |r| ==> r[i] < r[j]
  {
    if n == 0 then []
    else OfLevelUpTo(boxes, level, n - 1)
         + (if boxes[n - 1].kind == StatusBox && boxes[n - 1].level == level then [n - 1] else [])
  }

  /** `$("div.status_lv" + level)`: the status boxes of that level, in document order. */
  function StatusesOfLevel(boxes: seq<Box>, level: int): (r: seq<nat>)
    ensures forall x :: x in r <==> 0 <= x < |boxes| && boxes[x].kind == StatusBox && boxes[x].level == level
    ensures InBoxes(boxes, r)
    ensures forall i, j :: 0 <= i < j < |r| ==> r[i] < r[j]
  {
    OfLevelUpTo(boxes, level, |boxes|)
  }

  /** What `getStatusArrayForLevel(level)` merges: the statuses of level 1, then 2, and so
      on up to `level`. */
  function StatusesUpTo(boxes: seq<Box>, level: int): (r: seq<nat>)
    decreases level
    ensures InBoxes(boxes, r)
  {
    if level < 1 then [] else StatusesUpTo(boxes, level - 1) + StatusesOfLevel(boxes, level)
  }

  /** The merged list holds exactly the status boxes of levels 1 to `level`. */
  lemma {:induction false} StatusesUpToMembers(boxes: seq<Box>, level: int)
    decreases level
    ensures forall x :: x in StatusesUpTo(boxes, level) <==>
              0 <= x < |boxes| && boxes[x].kind == StatusBox && 1 <= boxes[x].level <= level
  {
    if level >= 1 {
      StatusesUpToMembers(boxes, level - 1);
    }
  }

  /** The merged list is ordered by level and then by document order. */
  ghost predicate ByLevelThenPosition(boxes: seq<Box>, r: seq<nat>)
    requires InBoxes(boxes, r)
  {
    forall i, j :: 0 <= i < j < |r| ==>
      boxes[r[i]].level < boxes[r[j]].level || (boxes[r[i]].level == boxes[r[j]].level && r[i] < r[j])
  }

  lemma {:induction false} StatusesUpToOrdered(boxes: seq<Box>, level: int)
    decreases level
    ensures ByLevelThenPosition(boxes, StatusesUpTo(boxes, level))
  {
    if level >= 1 {
      StatusesUpToOrdered(boxes, level - 1);
      StatusesUpToMembers(boxes, level - 1);
      var a := StatusesUpTo(boxes, level - 1);
      var b := StatusesOfLevel(boxes, level);
      var r := a + b;
      forall i, j | 0 <= i < j < |r|
        ensures boxes[r[i]].level < boxes[r[j]].level
                || (boxes[r[i]].level == boxes[r[j]].level && r[i] < r[j])
      {
        if j < |a| {
          assert r[i] == a[i] && r[j] == a[j];
        } else if i >= |a| {
          assert r[i] == b[i - |a|] && r[j] == b[j - |a|];
          assert b[i - |a|] in b && b[j - |a|] in b;
          assert b[i - |a|] < b[j - |a|];
          assert boxes[r[i]].level == level == boxes[r[j]].level;
        } else {
          assert r[i] == a[i] && a[i] in a;
          assert r[j] == b[j - |a|] && b[j - |a|] in b;
          assert boxes[r[i]].level <= level - 1;
          assert boxes[r[j]].level == level;
        }
      }
    }
  }

  /** `getStatusArrayForLevel(level)`. */
  method GetStatusArrayForLevel(boxes: seq<Box>, level: int) returns (statuses: seq<nat>)
    ensures statuses == StatusesUpTo(boxes, level)
  {
    statuses := [];
    if level < 1 {
      return;
    }
    var tempLevel := 1;
    while tempLevel <= level
      invariant 1 <= tempLevel <= level + 1
      invariant statuses == StatusesUpTo(boxes, tempLevel - 1)
    {
      statuses := statuses + StatusesOfLevel(boxes, tempLevel);
      tempLevel := tempLevel + 1;
    }
  }

  // ------------------------------------------------------------------ the anchor

  /** The anchor point, in half pixels: the middle of the target box, or the given offset.
      A `target_id` naming no box makes `offset()` undefined, and the script stops. */
  function AnchorPoint2(boxes: seq<Box>, target: AnchorTarget): (r: Option<int>)
    ensures r.None? <==> target.BoxTarget? && !(0 <= target.index < |boxes|)
  {
    match target
    case WindowTarget(y) => Some(2 * y)
    case BoxTarget(i) =>
      if 0 <= i < |boxes| then Some(2 * boxes[i].top + boxes[i].height) else None
  }

  /** `Math.abs(offsetTop - anchor_target)`, in half pixels. */
  function Dist2(boxes: seq<Box>, b: nat, y2: int): nat
    requires b < |boxes|
  {
    Abs(2 * boxes[b].top - y2)
  }

  ghost predicate InBoxes(boxes: seq<Box>, list: seq<nat>) {
    forall k :: 0 <= k < |list| ==> list[k] < |boxes|
  }

  /** The position in `list` that the minimum search of `getAnchorElement` ends on. */
  function NearestPos(boxes: seq<Box>, list: seq<nat>, y2: int): (p: nat)
    requires list != [] && InBoxes(boxes, list)
    ensures p < |list|
  {
    if |list| == 1 then 0
    else
      var p := NearestPos(boxes, list[..|list| - 1], y2);
      if p < |list| - 1 && Dist2(boxes, list[|list| - 1], y2) < Dist2(boxes, list[p], y2) then |list| - 1 else p
  }

  /** The search ends on the first box of the list among those nearest to the anchor
      point: the comparison is strict, so a later box at the same distance loses. */
  lemma {:induction false} NearestIsFirstMinimum(boxes: seq<Box>, list: seq<nat>, y2: int)
    requires list != [] && InBoxes(boxes, list)
    ensures var p := NearestPos(boxes, list, y2);
            && p < |list|
            && (forall j :: 0 <= j < |list| ==> Dist2(boxes, list[p], y2) <= Dist2(boxes, list[j], y2))
            && (forall j :: 0 <= j < p ==> Dist2(boxes, list[j], y2) > Dist2(boxes, list[p], y2))
  {
    if |list| > 1 {
      var init := list[..|list| - 1];
      NearestIsFirstMinimum(boxes, init, y2);
      var q := NearestPos(boxes, init, y2);
      assert forall j :: 0 <= j < |init| ==> init[j] == list[j];
    }
  }

  /** The anchor `changeLevel` would pick: the nearest status among the levels shown both
      before and after the change, or none when there is no such status (the script then
      stops on `status_list[0]` being undefined). */
  function AnchorFor(boxes: seq<Box>, currentLevel: int, toLevel: int, y2: int): (r: Option<nat>)
  {
    var list := StatusesUpTo(boxes, if currentLevel > toLevel then toLevel else currentLevel);
    if list == [] then None else Some(list[NearestPos(boxes, list, y2)])
  }

  /** The minimum search of `getAnchorElement` over a non-empty list. */
  method NearestInList(boxes: seq<Box>, statusList: seq<nat>, anchorTarget2: int) returns (minPos: nat)
    requires statusList != [] && InBoxes(boxes, statusList)
    ensures minPos == NearestPos(boxes, statusList, anchorTarget2)
  {
    var minDiff := Dist2(boxes, statusList[0], anchorTarget2);
    minPos := 0;
    assert statusList[..1] == [statusList[0]];
    for i := 1 to |statusList|
      invariant minPos == NearestPos(boxes, statusList[..i], anchorTarget2)
      invariant minPos < i && minDiff == Dist2(boxes, statusList[minPos], anchorTarget2)
    {
      assert statusList[..i + 1][..i] == statusList[..i];
      var diff := Dist2(boxes, statusList[i], anchorTarget2);
      if diff < minDiff {
        minDiff := diff;
        minPos := i;
      }
    }
    assert statusList[..|statusList|] == statusList;
  }

  /** `getAnchorElement(to_level, anchor_target)`, with the anchor point in half pixels. */
  method GetAnchorElement(boxes: seq<Box>, currentLevel: int, toLevel: int, anchorTarget2: int)
    returns (anchor: Option<nat>)
    ensures anchor == AnchorFor(boxes, currentLevel, toLevel, anchorTarget2)
  {
    var anchorLevel := if currentLevel > toLevel then toLevel else currentLevel;
    var statusList := GetStatusArrayForLevel(boxes, anchorLevel);
    if |statusList| == 0 {
      return None;
    }
    var minPos := NearestInList(boxes, statusList, anchorTarget2);
    anchor := Some(statusList[minPos]);
  }

  /** The anchor of a `changeLevel(to_level, target)` call that goes through, or none when
      the call changes nothing: a level outside 1..5, a target naming no box, or no status
      to anchor on. */
  function LevelChangeAnchor(boxes: seq<Box>, currentLevel: int, toLevel: int, target: AnchorTarget): Option<nat> {
    if toLevel <= 0 || toLevel > MAX_LEVEL then None
    else
      match AnchorPoint2(boxes, target)
      case None => None
      case Some(y2) => AnchorFor(boxes, currentLevel, toLevel, y2)
  }

  /** The anchor is a status of a level shown both before and after the change. */
  lemma AnchorIsSharedStatus(boxes: seq<Box>, currentLevel: int, toLevel: int, target: AnchorTarget)
    requires LevelChangeAnchor(boxes, currentLevel, toLevel, target).Some?
    ensures var a := LevelChangeAnchor(boxes, currentLevel, toLevel, target).value;
            && 1 <= toLevel <= MAX_LEVEL
            && a < |boxes| && boxes[a].kind == StatusBox
            && 1 <= boxes[a].level <= toLevel && boxes[a].level <= currentLevel
  {
    var anchorLevel := if currentLevel > toLevel then toLevel else currentLevel;
    var y2 := AnchorPoint2(boxes, target).value;
    StatusesUpToMembers(boxes, anchorLevel);
    var list := StatusesUpTo(boxes, anchorLevel);
    NearestIsFirstMinimum(boxes, list, y2);
    assert list[NearestPos(boxes, list, y2)] in list;
  }

  // --------------------------------------------------------------------- display

  /** The show/hide loop of `changeLevel` after the levels below `upTo`: a status of such a
      level is shown iff its level is at most `toLevel`, a header iff its level is
      `toLevel`; boxes of other levels keep their display. */
  function DisplayAfter(boxes: seq<Box>, displayed: seq<bool>, toLevel: int, upTo: int): (r: seq<bool>)
    requires |displayed| == |boxes|
    ensures |r| == |boxes|
  {
    seq(|boxes|, i requires 0 <= i < |boxes| =>
      if 1 <= boxes[i].level < upTo then
        (if boxes[i].kind == StatusBox then boxes[i].level <= toLevel else boxes[i].level == toLevel)
      else displayed[i])
  }

  /** After the whole loop, statuses of levels 1..5 are shown exactly up to the new level
      and headers exactly at it. */
  lemma DisplayRule(boxes: seq<Box>, displayed: seq<bool>, toLevel: int)
    requires |displayed| == |boxes|
    ensures var r := DisplayAfter(boxes, displayed, toLevel, MAX_LEVEL + 1);
            forall i :: 0 <= i < |boxes| && 1 <= boxes[i].level <= MAX_LEVEL ==>
              && (boxes[i].kind == StatusBox ==> (r[i] <==> boxes[i].level <= toLevel))
              && (boxes[i].kind == HeaderBox ==> (r[i] <==> boxes[i].level == toLevel))
  {
  }

  // ---------------------------------------------------------------------- cursor

  /** A box the cursor can stop on: displayed, and not a header. */
  predicate Eligible(boxes: seq<Box>, displayed: seq<bool>, i: int)
    requires |displayed| == |boxes|
  {
    0 <= i < |boxes| && displayed[i] && boxes[i].kind != HeaderBox
  }

  /** `j` lies strictly beyond `from` in direction `d`. */
  predicate Beyond(from: int, d: int, j: int) {
    if d > 0 then j > from else j < from
  }

  /** The first box the slide from `from` in direction `d` stops on. */
  ghost predicate FirstEligible(boxes: seq<Box>, displayed: seq<bool>, from: int, d: int, t: int)
    requires |displayed| == |boxes|
  {
    && Beyond(from, d, t)
    && Eligible(boxes, displayed, t)
    && forall j :: Beyond(from, d, j) && Beyond(j, d, t) ==> !Eligible(boxes, displayed, j)
  }

  ghost predicate NoneEligible(boxes: seq<Box>, displayed: seq<bool>, from: int, d: int)
    requires |displayed| == |boxes|
  {
    forall j :: Beyond(from, d, j) ==> !Eligible(boxes, displayed, j)
  }

  /** The search loop of `cursorSlide(d)`: from the cursor, step by `d` until a box is
      eligible or there is no box with that number. */
  method FindSlideTarget(boxes: seq<Box>, displayed: seq<bool>, from: int, d: int) returns (target: Option<int>)
    requires |displayed| == |boxes| && 0 <= from <= |boxes|
    requires d == 1 || d == -1
    ensures target.Some? ==> FirstEligible(boxes, displayed, from, d, target.value)
    ensures target.None? ==> NoneEligible(boxes, displayed, from, d)
  {
    var tempCursor := from;
    while true
      invariant -1 <= tempCursor <= |boxes|
      invariant tempCursor == from || (Beyond(from, d, tempCursor) && 0 <= tempCursor < |boxes|)
      invariant forall j :: Beyond(from, d, j) && !Beyond(tempCursor, d, j) ==> !Eligible(boxes, displayed, j)
      decreases if d > 0 then |boxes| - tempCursor else tempCursor + 1
    {
      tempCursor := tempCursor + d;
      if !(0 <= tempCursor < |boxes|) {
        return None;
      }
      if displayed[tempCursor] && boxes[tempCursor].kind != HeaderBox {
        return Some(tempCursor);
      }
    }
  }

  class Page {
    const boxes: seq<Box>
    /** Whether each box is displayed. */
    var displayed: seq<bool>
    /** The boxes carrying the "cursor" class. */
    var marked: set<int>
    var currentLevel: int
    var cursor: int
    /** The number shown in `span#cur_lv_num`, once a level change has set it. */
    var levelStatusNum: Option<nat>

    ghost predicate Valid()
      reads this
    {
      |displayed| == |boxes| && 0 <= cursor <= |boxes|
    }

    /** The script's state when the page loads: level 1, cursor on box 0. */
    constructor(boxes: seq<Box>, displayed: seq<bool>, marked: set<int>)
      requires |displayed| == |boxes|
      ensures Valid()
      ensures this.boxes == boxes && this.displayed == displayed && this.marked == marked
      ensures currentLevel == 1 && cursor == 0 && levelStatusNum.None?
    {
      this.boxes := boxes;
      this.displayed := displayed;
      this.marked := marked;
      currentLevel := 1;
      cursor := 0;
      levelStatusNum := None;
    }

    /** `changeCursor(to_cursor)`: the mark leaves the old box, goes on the new one (if
        there is such a box) and the cursor moves. */
    method ChangeCursor(toCursor: int)
      modifies this
      ensures cursor == toCursor
      ensures marked == (old(marked) - {old(cursor)}) + (if 0 <= toCursor < |boxes| then {toCursor} else {})
      ensures displayed == old(displayed) && currentLevel == old(currentLevel)
      ensures levelStatusNum == old(levelStatusNum)
    {
      marked := marked - {cursor};
      if 0 <= toCursor < |boxes| {
        marked := marked + {toCursor};
      }
      cursor := toCursor;
    }

    /** What a call `changeLevel(to_level, target)` does: nothing when it does not go
        through; otherwise the display rule for the new level, the new level, the count of
        statuses up to it, and the cursor on the anchor. */
    twostate predicate LevelChanged(toLevel: int, target: AnchorTarget)
      reads this
    {
      var a := LevelChangeAnchor(boxes, old(currentLevel), toLevel, target);
      && (a.None? ==>
            displayed == old(displayed) && marked == old(marked) && currentLevel == old(currentLevel)
            && cursor == old(cursor) && levelStatusNum == old(levelStatusNum))
      && (a.Some? ==>
            && |old(displayed)| == |boxes|
            && displayed == DisplayAfter(boxes, old(displayed), toLevel, MAX_LEVEL + 1)
            && currentLevel == toLevel
            && levelStatusNum == Some(|StatusesUpTo(boxes, toLevel)|)
            && cursor == a.value
            && marked == (old(marked) - {old(cursor)}) + {a.value})
    }

    /** What a call `cursorSlide(d)` does: the cursor moves to the first eligible box in
        direction `d`, or nothing changes when there is none. */
    twostate predicate Slid(d: int)
      reads this
      requires |old(displayed)| == |boxes|
    {
      && displayed == old(displayed) && currentLevel == old(currentLevel)
      && levelStatusNum == old(levelStatusNum)
      && ((cursor == old(cursor) && marked == old(marked) && NoneEligible(boxes, displayed, old(cursor), d))
          || (FirstEligible(boxes, displayed, old(cursor), d, cursor)
              && marked == (old(marked) - {old(cursor)}) + {cursor}))
    }

    /** The show/hide loop over levels 1 to `MAX_LEVEL`. */
    method ShowLevels(toLevel: int)
      requires |displayed| == |boxes|
      modifies this
      ensures displayed == DisplayAfter(boxes, old(displayed), toLevel, MAX_LEVEL + 1)
      ensures marked == old(marked) && currentLevel == old(currentLevel) && cursor == old(cursor)
      ensures levelStatusNum == old(levelStatusNum)
    {
      ghost var start := displayed;
      assert DisplayAfter(boxes, start, toLevel, 1) == start;
      for level := 1 to MAX_LEVEL + 1
        invariant displayed == DisplayAfter(boxes, start, toLevel, level)
        invariant marked == old(marked) && currentLevel == old(currentLevel) && cursor == old(cursor)
        invariant levelStatusNum == old(levelStatusNum)
      {
        var current := displayed;
        displayed := seq(|boxes|, i requires 0 <= i < |boxes| =>
          if boxes[i].level == level then
            (if boxes[i].kind == StatusBox then level <= toLevel else level == toLevel)
          else current[i]);
      }
    }

    /** `changeLevel(to_level, target_id)`. */
    method ChangeLevel(toLevel: int, target: AnchorTarget)
      requires Valid()
      modifies this
      ensures Valid()
      ensures LevelChanged(toLevel, target)
    {
      if toLevel <= 0 || toLevel > MAX_LEVEL {
        return;
      }
      var anchorTarget2 := AnchorPoint2(boxes, target);
      if anchorTarget2.None? {
        return;
      }
      var anchor := GetAnchorElement(boxes, currentLevel, toLevel, anchorTarget2.value);
      if anchor.None? {
        return;
      }
      AnchorIsSharedStatus(boxes, currentLevel, toLevel, target);
      ShowLevels(toLevel);
      currentLevel := toLevel;
      var shownNow := GetStatusArrayForLevel(boxes, currentLevel);
      levelStatusNum := Some(|shownNow|);
      ChangeCursor(anchor.value);
    }

    /** `cursorSlide(slide_direction)`; scrolling the window to the new cursor is not
        modelled. */
    method CursorSlide(d: int)
      requires Valid() && (d == 1 || d == -1)
      modifies this
      ensures Valid()
      ensures Slid(d)
    {
      var target := FindSlideTarget(boxes, displayed, cursor, d);
      if target.Some? {
        ChangeCursor(target.value);
      }
    }

    /** `keyHandler(event)` for `event.which`: h one level down, l one level up (both
        anchored on the cursor box), j the cursor down, k the cursor up; any other key does
        nothing. */
    method KeyHandler(which: int)
      requires Valid()
      modifies this
      ensures Valid()
      ensures which == KEY_H ==> LevelChanged(old(currentLevel) - 1, BoxTarget(old(cursor)))
      ensures which == KEY_L ==> LevelChanged(old(currentLevel) + 1, BoxTarget(old(cursor)))
      ensures which == KEY_J ==> Slid(1)
      ensures which == KEY_K ==> Slid(-1)
      ensures which !in {KEY_H, KEY_J, KEY_K, KEY_L} ==>
                displayed == old(displayed) && marked == old(marked) && currentLevel == old(currentLevel)
                && cursor == old(cursor) && levelStatusNum == old(levelStatusNum)
    {
      if which == KEY_H {
        ChangeLevel(currentLevel - 1, BoxTarget(cursor));
      } else if which == KEY_J {
        CursorSlide(1);
      } else if which == KEY_K {
        CursorSlide(-1);
      } else if which == KEY_L {
        ChangeLevel(currentLevel + 1, BoxTarget(cursor));
      }
    }
  }
}
