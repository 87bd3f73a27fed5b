# BusyBird timeline front-end, modelled in Dafny

BusyBird is a personal status (tweet) viewer. Its browser front-end shows one timeline at a
time, pulls statuses from the server page by page, acknowledges ("acks") the unread ones,
and hides statuses whose level is below the user's threshold. The threshold change animates
at most 15 statuses and toggles the others at once. Runs of hidden statuses get a
"N statuses hidden here." header. A small list view renders per-level counts of unread
statuses. An older demo page (the "shaper") changes the shown level with `h`/`l` and moves a
cursor with `j`/`k`.

This project models that logic and proves it against specifications:

- `wrappers.dfy` (`Wrappers`) has `Option` and `Result`.
- `array_sort.dfy` (`ArraySort`) models `Array.prototype.sort` with a comparator. It is a sort
  on a lexicographic rank that returns a sorted permutation. It also proves that sorting keeps
  the multiset of any filter-map of the list.
- `busybird.dfy` (`BusyBird`) models the helpers of `busybird.js`:
  - `defined`;
  - the retry-with-backoff request `ajaxRetry`, as a class driven by its events: a request
    fails or succeeds, the retry timer fires, or the caller cancels;
  - `blockEach`, as the list of chunk calls it schedules;
  - `distanceRanges`;
  - the reference-counted `Spinner`.
- `timeline_display.dfy` (`TimelineDisplay`) models `_scanStatusesForDisplayActions`. This is
  the plan of which statuses to toggle, animated or immediately, where the hidden runs are, and
  which status anchors the window.
- `timeline_load.dfy` (`TimelineLoad`) models:
  - `loadStatuses`, the paginated crawl with boundary deduplication;
  - the ack request of `_ackStatuses`;
  - the hidden-statuses header text.
- `timeline_container.dfy` (`TimelineContainer`) models the `StatusContainer` object. It holds
  its child status elements and its threshold level. Its members add statuses, change the
  threshold, load more statuses, load the unacked statuses and run the initial load. Its
  invariant `Valid` says each status is displayed exactly when its level reaches the threshold.
- `timeline_list.dfy` (`TimelineList`) models `UnackedCountsRenderer.show`. It yields the rows
  it renders: the highest levels with running sums, and an optional total row.
- `shaper.dfy` (`Shaper`) models the shaper page as a class over its global state. The state
  is the boxes, which ones are displayed, the marked cursor box, the current level and the
  cursor.

A status element is a value (`StatusDom`: the status and whether it is displayed). Element
positions and heights come from a `measure` function or from the `Box` records. The server is
a function from the query to `Some(page)` or `None`, where `None` means the request failed.

## Model

| member | source | states |
|---|---|---|
| BusyBird.Defined | share/www/static/busybird.js:7-10 | a value is defined exactly when it is neither null nor undefined; every truthy value is defined |
| BusyBird.DefinedButFalsy | share/www/static/busybird.js:7-10 | `0`, `""` and `false` are defined although falsy, so `defined` is not a truthiness test |
| BusyBird.DistanceRanges | share/www/static/busybird.js:88-95 | the distance is never negative; it is at least each overhang of range b beyond range a and equals one of them or 0; it is 0 exactly when b lies inside a |
| BusyBird.BlockEach | share/www/static/busybird.js:70-86 | the callback runs ceil(n/size) times, call i gets the slice starting at size*i with that start index, and the slices concatenate back to the array |
| BusyBird.CeilDivBound | share/www/static/busybird.js:71 | block i exists exactly when its start index size*i is inside the array |
| BusyBird.Backoff | share/www/static/busybird.js:15-17 | the retry delay before retry k stays between 500 ms and 120000 ms |
| BusyBird.BackoffClosedForm | share/www/static/busybird.js:42-45 | doubling and then clamping k times gives min(500·2^k, 120000) |
| BusyBird.BackoffMonotone | share/www/static/busybird.js:42-45 | later retries never wait less; the first retry waits 1000 ms |
| BusyBird.BackoffSaturates | share/www/static/busybird.js:43-44 | from the eighth retry on the delay is the 120000 ms cap |
| BusyBird.AjaxRetry.constructor | share/www/static/busybird.js:18-29 | `tryMax` defaults to 0 (unlimited); one request is in flight and the promise is pending |
| BusyBird.AjaxRetry.Fail | share/www/static/busybird.js:34-52 | a failure counts a try; once `tryMax > 0` tries have failed the promise is rejected with the error; otherwise the backoff doubles up to the cap and a retry is scheduled after it |
| BusyBird.AjaxRetry.Done | share/www/static/busybird.js:30-33 | a success resolves the promise with the data unless it was already settled |
| BusyBird.AjaxRetry.TimerFires | share/www/static/busybird.js:46-51 | a retry timer sends a new request only while retrying is still allowed |
| BusyBird.AjaxRetry.Cancel | share/www/static/busybird.js:57-65 | cancelling forbids further retries and rejects the promise with "cancelled" unless it was already settled |
| BusyBird.ThreeFailuresScenario | share/www/static/busybird.js:34-52 | with `tryMax` 3 and three failures: three requests are sent, the waits are 1000 and 2000 ms, and the promise is rejected |
| BusyBird.CancelScenario | share/www/static/busybird.js:57-65 | after one failure and a cancel, the scheduled retry sends nothing when its timer fires: one request in all, and the promise is rejected with "cancelled" |
| BusyBird.SpinnerSet | share/www/static/busybird.js:139-148 | the new count is the value clamped at 0; the spinner starts exactly when the count goes from ≤0 to >0 and stops exactly when it goes from >0 to ≤0 |
| BusyBird.Spinner.Set | share/www/static/busybird.js:139-148 | the same, as a state change counting start and stop calls |
| BusyBird.Spinner.Begin | share/www/static/busybird.js:149-151 | the count goes up by one; the spinner starts only from 0 |
| BusyBird.Spinner.End | share/www/static/busybird.js:152-154 | the count goes down by one but never below 0; the spinner stops only when the count leaves 1 |
| ArraySort.SortByRank | share/www/static/timeline.js:111-117 | the comparator sort returns a permutation of its input, ordered by rank |
| ArraySort.FilterMapSorted | share/www/static/timeline.js:111-133 | sorting keeps the multiset of any filter-map of the list (the toggled statuses are the same before and after the sort) |
| TimelineDisplay.ActionOf | share/www/static/timeline.js:92-101 | a status ends visible exactly when its level reaches the threshold; its action toggles exactly when that differs from its current display |
| TimelineDisplay.BelowUpToMembers | share/www/static/timeline.js:94-101 | the collected indices are exactly the statuses below the threshold, in increasing order |
| TimelineDisplay.BecomeUpToMembers | share/www/static/timeline.js:118-133 | the collected indices are exactly the statuses whose display changes, in increasing order |
| TimelineDisplay.RunsPartitionCount | share/www/static/timeline.js:94-110 | the hidden runs together hold as many statuses as lie below the threshold |
| TimelineDisplay.ScanMetrics | share/www/static/timeline.js:78-110 | one metric per status in display order, with the window and cursor distances; the hidden runs are the maximal runs below the threshold, each headed by the next shown status or by none at the end |
| TimelineDisplay.PickToggles | share/www/static/timeline.js:118-133 | walking the sorted metrics fills the animation quota first, sends the rest to the immediate list and takes the first staying-visible status as anchor |
| TimelineDisplay.ScanStatusesForDisplayActions | share/www/static/timeline.js:62-137 | the animated and immediate lists are together exactly the statuses whose display changes; at most 15 are animated (0 without animation); the immediate list is used only once the quota is full; every animated status ranks no later by (window distance, cursor distance) than every immediate one; the anchor is absent iff no status stays visible, otherwise it is a best-ranked status that stays visible; the hidden runs partition the statuses below the threshold |
| TimelineLoad.ValidateLoadArgs | share/www/static/timeline.js:186-203 | the load is refused exactly when the URL is missing, the page limit is not positive or the page size is not positive, with the error of the first failing check in that order; otherwise the plan carries the URL, `startMaxID`, the given ack state or "any", the given page size or 100, and the given page limit or 6 |
| TimelineLoad.LoadDefaults | share/www/static/timeline.js:22-23 | with only a URL the load asks for 100 statuses per page, any ack state, up to 6 pages |
| TimelineLoad.DropBoundaryDuplicate | share/www/static/timeline.js:220-224 | the first status of a page is dropped exactly when it repeats the last id of the previous page; the rest is kept in order |
| TimelineLoad.LoadStatuses | share/www/static/timeline.js:178-242 | the load equals the specification `LoadSpec`: refused arguments send nothing and fail with their error; otherwise the pages are crawled from the validated plan |
| TimelineLoad.CrawlPages | share/www/static/timeline.js:204-238 | the request loop equals the recursive specification `Crawl`: it requests pages until a short page or the page limit, fails on a failed request, and concatenates the deduplicated pages |
| TimelineLoad.CrawlQueries | share/www/static/timeline.js:201-238 | each request after the first asks for pages older than the last status of the previous full page; every page but the last was full |
| TimelineLoad.CrawlOutcome | share/www/static/timeline.js:225-238 | at most `maxPageNum` requests are sent; on success `maxReached` holds exactly when the last page was full and the limit was reached, and the request count is the number of pages |
| TimelineLoad.CrawlMerge | share/www/static/timeline.js:214-238 | on success the statuses are the pages in order, each with its boundary duplicate dropped |
| TimelineLoad.LoadRefusedSendsNothing | share/www/static/timeline.js:186-200 | no request is sent exactly when the arguments are refused, and the load then fails with that error |
| TimelineLoad.LoadPagination | share/www/static/timeline.js:201-238 | for accepted arguments the first request is the validated query and the crawl's bounds and merge hold |
| TimelineLoad.PrependKeeps | share/www/static/timeline.js:225-238 | putting a page in front of a later result keeps its success and puts the page's statuses first |
| TimelineLoad.AckRequest | share/www/static/timeline.js:257-272 | no request is sent exactly when nothing is acked; otherwise one POST to `/timelines/<name>/ack.json` with all ids in order, the last id as `max_id`, and 3 tries |
| TimelineLoad.ParseNatToString | share/www/static/timeline.js:32 | the decimal text of a count reads back as that count |
| TimelineLoad.HiddenHeaderShowsCount | share/www/static/timeline.js:30-33 | the hidden-statuses header shows the number of hidden statuses |
| TimelineLoad.HiddenHeaderPlural | share/www/static/timeline.js:31-32 | the header says "statuses" exactly when more than one is hidden |
| TimelineContainer.LoadMoreQuery | share/www/static/timeline.js:337-351 | loading more sends one request for 20 statuses of any ack state, starting at the last status in the container (displayed or not), or the newest when the container is empty; the result is exactly the page answered, and the load fails exactly when that request fails |
| TimelineContainer.ToggledToThreshold | share/www/static/timeline.js:150-174 | applying the plan's toggles leaves every status displayed exactly when its level reaches the threshold, and changes nothing outside the range |
| TimelineContainer.IncreasingOccursOnce | share/www/static/timeline.js:118-133 | no status is toggled twice, because each index occurs once |
| TimelineContainer.UnackedOutcome | share/www/static/timeline.js:319-336 | corrected chain: a failed load fails with its error; a load of at least one status fails with `AckFailed` exactly when the ack is refused; in every other case (nothing loaded, or the ack accepted) it fulfils with the loaded statuses and `maxReached`; it never throws a ReferenceError |
| TimelineContainer.UnackedOutcomeAsWritten | share/www/static/timeline.js:328-333 | as written the chain never fulfils: after a successful load and ack it throws a ReferenceError |
| TimelineContainer.UnackedAsWrittenLosesStatuses | share/www/static/timeline.js:331-333 | with one unacked status and a working server the corrected chain delivers it and the chain as written fails |
| TimelineContainer.StatusContainer.constructor | share/www/static/timeline.js:6-18 | the API base defaults to ""; no statuses; threshold 0; the invariant `Valid` (each status displayed exactly when its level reaches the threshold) holds |
| TimelineContainer.StatusContainer.GetThresholdLevel | share/www/static/timeline.js:316-318 | returns the threshold level |
| TimelineContainer.StatusContainer.ApplyPlan | share/www/static/timeline.js:157-174 | animated and immediate toggles, the latter in blocks of 100, flip exactly the listed statuses |
| TimelineContainer.StatusContainer.SetThresholdLevel | share/www/static/timeline.js:303-315 | the threshold is stored; afterwards each status is displayed exactly when its level reaches it; at most 15 toggles are animated and the plan meets `TogglesOk`; the container is left `Valid` whatever state it was in |
| TimelineContainer.StatusContainer.InsertHidden | share/www/static/timeline.js:278-290 | the blocks of 100 are inserted hidden, each after the previous one, so the added statuses land in order at the front or the back |
| TimelineContainer.StatusContainer.InsertBlock | share/www/static/timeline.js:279-289 | one block goes in hidden right after the last status of the previous block, or, for the first block, at the front (prepend) or the back (append); nothing else moves |
| TimelineContainer.StatusContainer.AddStatuses | share/www/static/timeline.js:273-302 | the children become the added statuses, each displayed exactly when its level reaches the threshold, in front of (prepend) or after (append) the old children; a `Valid` container stays `Valid` |
| TimelineContainer.StatusContainer.LoadMoreStatuses | share/www/static/timeline.js:337-359 | on success the deduplicated page is appended; on failure nothing changes; a `Valid` container stays `Valid` |
| TimelineContainer.StatusContainer.LoadUnackedStatuses | share/www/static/timeline.js:319-336 | corrected: the result is `UnackedOutcome`; on success the loaded statuses are prepended, on failure nothing changes; a `Valid` container stays `Valid` |
| TimelineContainer.StatusContainer.LoadUnackedStatusesAsWritten | share/www/static/timeline.js:319-336 | as written: the result is always an error and no status is prepended |
| TimelineContainer.StatusContainer.LoadInit | share/www/static/timeline.js:361-374 | the unacked load runs first; one more page is loaded exactly when it succeeded without reaching its page limit; it fulfils with the unacked result unless that extra load fails; a `Valid` container stays `Valid` |
| TimelineContainer.AddedAreShown | share/www/static/timeline.js:291-293 | inserting hidden and then applying the threshold to the added statuses gives the shown statuses in place |
| TimelineContainer.AddedKeepThreshold | share/www/static/timeline.js:273-293 | statuses added at the threshold in front of or after a list whose statuses are all at the threshold leave the whole list at the threshold |
| TimelineContainer.PlanReachesThreshold | share/www/static/timeline.js:303-315 | flipping every status the threshold plan toggles, animated or not, leaves each status displayed exactly when its level reaches the threshold |
| TimelineContainer.AddedPlanShows | share/www/static/timeline.js:291-293 | after the hidden insert, flipping the toggles planned for the added statuses gives them displayed exactly when their level reaches the threshold, in front of (prepend) or after (append) the old children, which are unchanged |
| TimelineList.ShownCount | share/www/static/timeline_list.js:47-50 | at most `level_num` level rows are rendered, all levels when there are fewer |
| TimelineList.CollectLevels | share/www/static/timeline_list.js:40-43 | one entry per level key, each with that level's count |
| TimelineList.SortedStrictlyDescends | share/www/static/timeline_list.js:44-46 | after the sort the levels strictly descend |
| TimelineList.RowSumsArePrefixSums | share/www/static/timeline_list.js:51-57 | the sum on each row is the total count of that row's level and all higher levels |
| TimelineList.RowsAreHighest | share/www/static/timeline_list.js:44-58 | every level above a rendered level is rendered before it |
| TimelineList.ComputeRows | share/www/static/timeline_list.js:36-61 | a zero total gives the single row "Total 0"; otherwise the rows are the highest levels in descending order with running sums and each count after the first, plus a total row with the remainder exactly when more levels exist than are shown |
| TimelineList.LevelsOf | share/www/static/timeline_list.js:40-43 | the level counts are exactly the non-total entries |
| TimelineList.UnackedCountsRenderer.constructor | share/www/static/timeline_list.js:6-10 | `levelNum` defaults to 2 |
| TimelineList.UnackedCountsRenderer.Show | share/www/static/timeline_list.js:28-62 | the rendered rows follow `ComputeRows`; the total entry is deleted from the counts exactly when the total is not 0 |
| Shaper.StatusesOfLevel | resources/httpd/static/shaper.js:60 | exactly the status boxes of one level, in page order |
| Shaper.StatusesUpToMembers | resources/httpd/static/shaper.js:57-64 | the merged list holds exactly the status boxes of levels 1 through the given level |
| Shaper.StatusesUpToOrdered | resources/httpd/static/shaper.js:57-64 | the merged list is ordered by level, then by page position |
| Shaper.GetStatusArrayForLevel | resources/httpd/static/shaper.js:57-64 | the loop builds the merged list |
| Shaper.NearestIsFirstMinimum | resources/httpd/static/shaper.js:45-54 | the chosen box is nearest to the anchor point, and the earliest among equally near ones |
| Shaper.NearestInList | resources/httpd/static/shaper.js:45-54 | the loop finds that box |
| Shaper.GetAnchorElement | resources/httpd/static/shaper.js:42-55 | the anchor is the nearest status of the lower of the current and target levels, or none when that list is empty |
| Shaper.AnchorIsSharedStatus | resources/httpd/static/shaper.js:42-44 | the anchor is a status of a level shown both before and after the change |
| Shaper.AnchorPoint2 | resources/httpd/static/shaper.js:77-82 | the anchor point comes from the window, or from the target box's middle; a missing box gives none |
| Shaper.DisplayRule | resources/httpd/static/shaper.js:86-98 | after a change to level L, status boxes of level ≤ L and the header of level L are displayed and all other level boxes are hidden |
| Shaper.FindSlideTarget | resources/httpd/static/shaper.js:108-116 | the cursor moves to the first displayed non-header box in the direction of travel; it stays when none exists before the end of the boxes |
| Shaper.Page.constructor | resources/httpd/static/shaper.js:1-4 | level 1, cursor 0 |
| Shaper.Page.ChangeCursor | resources/httpd/static/shaper.js:66-70 | the mark moves from the old cursor box to the new one, and the cursor becomes the new index |
| Shaper.Page.ShowLevels | resources/httpd/static/shaper.js:86-98 | the display becomes `DisplayAfter` for the target level |
| Shaper.Page.ChangeLevel | resources/httpd/static/shaper.js:72-106 | out-of-range levels change nothing; otherwise the display follows the target level, the level and its status count are updated, and the cursor moves to the anchor |
| Shaper.Page.CursorSlide | resources/httpd/static/shaper.js:108-129 | the cursor moves to the slide target, if any, and nothing else changes |
| Shaper.Page.KeyHandler | resources/httpd/static/shaper.js:17-33 | `h`/`l` change the level down/up anchored at the cursor box; `j`/`k` slide the cursor down/up; other keys change nothing |

## Left out

- Rendering is left out: the DOM, jQuery, CSS classes, the header and row HTML, and the list
  view's `_renderLevel` markup. The model keeps what they show, namely the count, the plural
  and the rows' values.
- Animation (`slideToggleElements`, its 400 ms duration) and its step callbacks are left out.
  Window adjustment (`_createWindowAdjuster`, `setWindowToElement`, `adjustPlaceHolder`, the
  scroll positions in `changeLevel` and `cursorSlide`) and `_updateHiddenStatusesHeaders`
  (placing the headers) are left out too. The model keeps the plan they carry out: the
  toggles, the hidden runs and the anchor.
- Positions are integers. Fractional pixel offsets are not modelled. The shaper works in
  half-pixels, so the anchor point `top + height/2` is `2·top + height`. `offsetTop` and
  `offset().top` are one given position per box.
- Q promises, `setTimeout` and `$.ajax` are left out. Promise chains become sequential steps.
  A rejected promise is an `Err`. A timer firing and a request answering are method calls on
  `AjaxRetry`.
- Inside the timeline loads, a request is one logical answer: `Some(page)` or a final `None`.
  The retries of `ajaxRetry` are modelled separately in `BusyBird.AjaxRetry`.
- The server is a fixed function of the query, so its contents do not change during a crawl.
  Whether the ack POST eventually succeeds is a parameter `acked`.
- The bodies of requests and answers are not parsed. A page is a list of statuses with id and
  level; JSON encoding, `cache`, `timeout` and content types are not modelled.
- Sort stability is not claimed: 2013 browsers sorted unstably. The model's sort happens to be
  stable, but no contract relies on that; the scan's contracts speak only of rank order and
  of the multiset of toggles.
- The constructors' thrown errors for a missing `selectorContainer` or `timeline`, and
  `setDisplayByThreshold`'s for missing `$statuses` or `threshold`, are not modelled. These
  arguments are always present in the model's types.
- `MessageBanner`, the third-party `Spinner` widget's drawing, and the `main.js` page scripts
  are not part of this model.
- `_setDisplayImmediately` passes `cursorIndex: null`, and `setThresholdLevel` also passes
  `null`. Both use cursor 0, as `_scanStatusesForDisplayActions` does for a missing cursor.
- `ajaxRetry` removing `tryMax` from the request parameters and the console messages are not
  modelled.
- BusyBird.BlockEach: requires a positive block size when the array is non-empty. With size 0
  the source computes an infinite block count and never finishes scheduling.
- TimelineList.UnackedCountsRenderer.Show: requires the counts to carry the `total` key. The
  server always sends it; without it the source renders "undefined" sums, which the model
  does not represent.
- Shaper.FindSlideTarget: requires a slide of ±1 and a cursor within the boxes. The key
  handler only slides by ±1, and the cursor always names a box or the initial 0.
- Shaper.Page.ChangeLevel: the source throws a TypeError when the target box is missing or no
  status is at the anchor level, and stops midway. The model treats those cases as "no
  change".

## Findings

| source | as written | input that shows it | evidently intended | confidence | as-written member | corrected member |
|---|---|---|---|---|---|---|
| share/www/static/timeline.js:331-333 | the third step of `loadUnackedStatuses` reads `result`, a parameter of the previous step, not in scope; under `"use strict"` this throws a ReferenceError, so the unacked statuses are acked but never prepended and `loadInit` fails | a server with one unacked status `1` that accepts the ack | prepend `load_result.statuses` and fulfil with the load result | high (not executed) | TimelineContainer.UnackedOutcomeAsWritten | TimelineContainer.UnackedOutcome |
