/** The paginated status loader of share/www/static/timeline.js
    (`StatusContainer.loadStatuses`), the acknowledgement payload built by
    `_ackStatuses`, and the text of a hidden-statuses header
    (`_formatHiddenStatusesHeader`). The HTTP server is an abstract function
    from a query to the page it answers, or to `None` when `ajaxRetry` gave up. */
module TimelineLoad {
  import opened Wrappers

  type Id = string

  /** A status as the loader sees it: the text of its `.bb-status-id` and its level. */
  datatype Status = Status(id: Id, level: int)

  const LOAD_STATUS_DEFAULT_COUNT_PER_PAGE := 100
  const LOAD_STATUS_DEFAULT_MAX_PAGE_NUM := 6
  const LOAD_STATUS_TRY_MAX := 3
  const ACK_TRY_MAX := 3

  /** One GET of the statuses API: its URL and its `ack_state`, `count` and `max_id` parameters. */
  datatype Query = Query(url: string, ackState: string, count: int, maxId: Option<Id>)

  /** The answer to a query after `ajaxRetry` with `LOAD_STATUS_TRY_MAX` tries: a page, or
      `None` when every try failed. */
  type Server = Query -> Option<seq<Status>>

  /** The arguments of `loadStatuses`; `None` stands for a missing (null or undefined) one. */
  datatype LoadArgs = LoadArgs(
    apiUrl: Option<string>,
    ackState: Option<string>,
    countPerPage: Option<int>,
    startMaxId: Option<Id>,
    maxPageNum: Option<int>)

  datatype LoadError = MissingApiUrl | NonPositiveMaxPageNum | NonPositiveCount | RequestFailed

  /** The object the promise of `loadStatuses` is fulfilled with. */
  datatype Loaded = Loaded(maxReached: bool, numRequests: nat, statuses: seq<Status>)

  /** The outcome of a load together with every query sent, in order. */
  datatype LoadOutcome = LoadOutcome(result: Result<Loaded, LoadError>, sent: seq<Query>)

  /** The first query and the page limit of a load whose arguments are acceptable. */
  datatype LoadPlan = LoadPlan(query: Query, maxPage: int)

  /** The argument checks of `loadStatuses`, in the order the code makes them, with the
      defaults for missing arguments. */
  function ValidateLoadArgs(args: LoadArgs): (r: Result<LoadPlan, LoadError>)
    ensures r.Err? <==> args.apiUrl.None? || args.maxPageNum.GetOr(LOAD_STATUS_DEFAULT_MAX_PAGE_NUM) <= 0
                        || args.countPerPage.GetOr(LOAD_STATUS_DEFAULT_COUNT_PER_PAGE) <= 0
    ensures r.Err? && args.apiUrl.None? ==> r.error == MissingApiUrl
    ensures r.Err? && args.apiUrl.Some? && args.maxPageNum.GetOr(LOAD_STATUS_DEFAULT_MAX_PAGE_NUM) <= 0 ==>
              r.error == NonPositiveMaxPageNum
    ensures r.Err? ==> r.error != RequestFailed
    ensures r.Err? && args.apiUrl.Some? && args.maxPageNum.GetOr(LOAD_STATUS_DEFAULT_MAX_PAGE_NUM) > 0 ==>
              r.error == NonPositiveCount
    ensures r.Ok? ==> r.value.maxPage >= 1 && r.value.query.count >= 1
    ensures r.Ok? ==> && r.value.maxPage == args.maxPageNum.GetOr(LOAD_STATUS_DEFAULT_MAX_PAGE_NUM)
                      && r.value.query.count == args.countPerPage.GetOr(LOAD_STATUS_DEFAULT_COUNT_PER_PAGE)
                      && r.value.query.ackState == args.ackState.GetOr("any")
    ensures r.Ok? ==> r.value.query.url == args.apiUrl.value && r.value.query.maxId == args.startMaxId
  {
    if args.apiUrl.None? then Err(MissingApiUrl)
    else
      var maxPage := args.maxPageNum.GetOr(LOAD_STATUS_DEFAULT_MAX_PAGE_NUM);
      if maxPage <= 0 then Err(NonPositiveMaxPageNum)
      else
        var count := args.countPerPage.GetOr(LOAD_STATUS_DEFAULT_COUNT_PER_PAGE);
        if count <= 0 then Err(NonPositiveCount)
        else Ok(LoadPlan(Query(args.apiUrl.value, args.ackState.GetOr("any"), count, args.startMaxId), maxPage))
  }

  /** Missing optional arguments default to `ack_state` "any", 100 statuses per page and
      6 pages, and no `max_id`. */
  lemma LoadDefaults(url: string)
    ensures ValidateLoadArgs(LoadArgs(Some(url), None, None, None, None))
            == Ok(LoadPlan(Query(url, "any", 100, None), 6))
  {
  }

  /** The page with its first status dropped when that status repeats the last one loaded. */
  function DropBoundaryDuplicate(lastId: Option<Id>, page: seq<Status>): (r: seq<Status>)
    ensures (lastId.Some? && page != [] && page[0].id == lastId.value) <==> |r| == |page| - 1
    ensures |r| == |page| || |r| == |page| - 1
    ensures r == page[|page| - |r|..]
  {
    if lastId.Some? && |page| > 0 && page[0].id == lastId.value then page[1..] else page
  }

  function PrependStatuses(ss: seq<Status>, r: Result<Loaded, LoadError>): Result<Loaded, LoadError> {
    match r
    case Ok(l) => Ok(l.(statuses := ss + l.statuses))
    case Err(e) => Err(e)
  }

  /** What the request loop does from the query `q` on, after `requestNum` pages were
      loaded and with `lastId` the last id seen so far. */
  function Crawl(server: Server, q: Query, maxPage: int, requestNum: nat, lastId: Option<Id>): LoadOutcome
    requires requestNum < maxPage
    decreases maxPage - requestNum
  {
    match server(q)
    case None => LoadOutcome(Err(RequestFailed), [q])
    case Some(page) =>
      var fullyLoaded := |page| < q.count;
      var n := requestNum + 1;
      var kept := DropBoundaryDuplicate(lastId, page);
      if fullyLoaded || n >= maxPage then
        LoadOutcome(Ok(Loaded(!fullyLoaded, n, kept)), [q])
      else
        var lastId' := NextLastId(lastId, kept);
        var rest := Crawl(server, NextQuery(q, lastId'), maxPage, n, lastId');
        LoadOutcome(PrependStatuses(kept, rest.result), [q] + rest.sent)
  }

  /** The last id seen after keeping `kept`. */
  function NextLastId(lastId: Option<Id>, kept: seq<Status>): Option<Id> {
    if |kept| > 0 then Some(kept[|kept| - 1].id) else lastId
  }

  /** The query for the next page: `max_id` moves to the last id seen, if any. */
  function NextQuery(q: Query, lastId: Option<Id>): Query {
    if lastId.Some? then q.(maxId := lastId) else q
  }

  /** The boundary status is dropped only when it repeats the last id, so the last id seen
      after a page is the last id of the raw page (or unchanged after an empty page). */
  lemma NextLastIdOfPage(lastId: Option<Id>, page: seq<Status>)
    ensures NextLastId(lastId, DropBoundaryDuplicate(lastId, page))
            == if page == [] then lastId else Some(page[|page| - 1].id)
  {
  }

  function LastQuery(o: LoadOutcome): Query
    requires o.sent != []
  {
    o.sent[|o.sent| - 1]
  }

  /** `loadStatuses`: the argument checks, then the request loop. */
  function LoadSpec(server: Server, args: LoadArgs): LoadOutcome {
    match ValidateLoadArgs(args)
    case Err(e) => LoadOutcome(Err(e), [])
    case Ok(plan) => Crawl(server, plan.query, plan.maxPage, 0, None)
  }

  lemma PrependNothing(r: Result<Loaded, LoadError>)
    ensures PrependStatuses([], r) == r
  {
    match r
    case Ok(l) => assert [] + l.statuses == l.statuses;
    case Err(_) =>
  }

  lemma PrependTwice(a: seq<Status>, b: seq<Status>, r: Result<Loaded, LoadError>)
    ensures PrependStatuses(a, PrependStatuses(b, r)) == PrependStatuses(a + b, r)
  {
    match r
    case Ok(l) => assert a + (b + l.statuses) == (a + b) + l.statuses;
    case Err(_) =>
  }

  function Join(sent: seq<Query>, loaded: seq<Status>, o: LoadOutcome): LoadOutcome {
    LoadOutcome(PrependStatuses(loaded, o.result), sent + o.sent)
  }

  /** One continued page of the loop, in terms of the outcome of the rest. */
  lemma CrawlContinues(server: Server, q: Query, maxPage: int, requestNum: nat, lastId: Option<Id>)
    requires requestNum < maxPage
    requires server(q).Some?
    requires !(|server(q).value| < q.count || requestNum + 1 >= maxPage)
    ensures var kept := DropBoundaryDuplicate(lastId, server(q).value);
            var lastId' := NextLastId(lastId, kept);
            var rest := Crawl(server, NextQuery(q, lastId'), maxPage, requestNum + 1, lastId');
            Crawl(server, q, maxPage, requestNum, lastId)
            == LoadOutcome(PrependStatuses(kept, rest.result), [q] + rest.sent)
  {
  }

  /** The loop ends with a query that went unanswered or a page that completes the load. */
  lemma CrawlStops(server: Server, q: Query, maxPage: int, requestNum: nat, lastId: Option<Id>)
    requires requestNum < maxPage
    ensures server(q).None? ==> Crawl(server, q, maxPage, requestNum, lastId) == LoadOutcome(Err(RequestFailed), [q])
    ensures server(q).Some? && (|server(q).value| < q.count || requestNum + 1 >= maxPage) ==>
              Crawl(server, q, maxPage, requestNum, lastId)
              == LoadOutcome(Ok(Loaded(|server(q).value| >= q.count, requestNum + 1,
                                       DropBoundaryDuplicate(lastId, server(q).value))), [q])
  {
  }

  lemma JoinContinues(server: Server, sent: seq<Query>, loaded: seq<Status>,
                      q: Query, maxPage: int, requestNum: nat, lastId: Option<Id>)
    requires requestNum < maxPage
    requires server(q).Some?
    requires !(|server(q).value| < q.count || requestNum + 1 >= maxPage)
    ensures var kept := DropBoundaryDuplicate(lastId, server(q).value);
            var lastId' := NextLastId(lastId, kept);
            Join(sent, loaded, Crawl(server, q, maxPage, requestNum, lastId))
            == Join(sent + [q], loaded + kept, Crawl(server, NextQuery(q, lastId'), maxPage, requestNum + 1, lastId'))
  {
    var kept := DropBoundaryDuplicate(lastId, server(q).value);
    var lastId' := NextLastId(lastId, kept);
    var rest := Crawl(server, NextQuery(q, lastId'), maxPage, requestNum + 1, lastId');
    CrawlContinues(server, q, maxPage, requestNum, lastId);
    PrependTwice(loaded, kept, rest.result);
    assert sent + ([q] + rest.sent) == (sent + [q]) + rest.sent;
  }

  /** `loadStatuses(args)`: the argument checks, then the requests. */
  method LoadStatuses(server: Server, args: LoadArgs) returns (outcome: LoadOutcome)
    ensures outcome == LoadSpec(server, args)
  {
    var v := ValidateLoadArgs(args);
    if v.Err? {
      return LoadOutcome(Err(v.error), []);
    }
    outcome := CrawlPages(server, v.value.query, v.value.maxPage);
  }

  /** `makeRequest` and `fulfill_handler`: one loop iteration per page, from the first query
      until a short page, the page limit or a failed request. */
  method CrawlPages(server: Server, q0: Query, maxPage: int) returns (outcome: LoadOutcome)
    requires maxPage >= 1
    ensures outcome == Crawl(server, q0, maxPage, 0, None)
  {
    var q := q0;
    var requestNum: nat := 0;
    var loaded: seq<Status> := [];
    var lastId: Option<Id> := None;
    var sent: seq<Query> := [];
    ghost var goal := Crawl(server, q, maxPage, 0, None);
    PrependNothing(goal.result);
    while true
      invariant requestNum < maxPage
      invariant goal == Join(sent, loaded, Crawl(server, q, maxPage, requestNum, lastId))
      decreases maxPage - requestNum
    {
      ghost var sentBefore, loadedBefore, lastIdBefore := sent, loaded, lastId;
      sent := sent + [q];
      var response := server(q);
      if response.None? {
        CrawlStops(server, q, maxPage, requestNum, lastId);
        return LoadOutcome(Err(RequestFailed), sent);
      }
      var page := response.value;
      var fullyLoaded := |page| < q.count;
      requestNum := requestNum + 1;
      var isCompleted := fullyLoaded || requestNum >= maxPage;
      var kept := DropBoundaryDuplicate(lastId, page);
      loaded := loaded + kept;
      if isCompleted {
        CrawlStops(server, q, maxPage, requestNum - 1, lastIdBefore);
        return LoadOutcome(Ok(Loaded(!fullyLoaded, requestNum, loaded)), sent);
      }
      JoinContinues(server, sentBefore, loadedBefore, q, maxPage, requestNum - 1, lastIdBefore);
      lastId := NextLastId(lastId, kept);
      q := NextQuery(q, lastId);
    }
  }

  // ------------------------------------------------------------ the pagination

  function PageOf(server: Server, q: Query): seq<Status> {
    server(q).GetOr([])
  }

  function PagesOf(server: Server, qs: seq<Query>): (pages: seq<seq<Status>>)
    ensures |pages| == |qs|
  {
    if qs == [] then [] else [PageOf(server, qs[0])] + PagesOf(server, qs[1..])
  }

  /** Reference definition of the merged result: every page with its first status dropped
      when it repeats the last status of the latest non-empty page before it. */
  function MergeFrom(prev: Option<Id>, pages: seq<seq<Status>>): seq<Status>
    decreases |pages|
  {
    if pages == [] then []
    else
      var next := if pages[0] == [] then prev else Some(pages[0][|pages[0]| - 1].id);
      DropBoundaryDuplicate(prev, pages[0]) + MergeFrom(next, pages[1..])
  }

  lemma PagesOfCons(server: Server, q: Query, qs: seq<Query>)
    ensures PagesOf(server, [q] + qs) == [PageOf(server, q)] + PagesOf(server, qs)
  {
    assert ([q] + qs)[1..] == qs;
  }

  lemma MergeFromCons(prev: Option<Id>, page: seq<Status>, pages: seq<seq<Status>>)
    ensures MergeFrom(prev, [page] + pages)
            == DropBoundaryDuplicate(prev, page)
               + MergeFrom(if page == [] then prev else Some(page[|page| - 1].id), pages)
  {
    assert ([page] + pages)[1..] == pages;
  }

  /** The queries the loop sends: at least one and at most the remaining page budget,
      starting with `q`; every page but the last was answered and full, and the next query
      asks for statuses up to the last id of that page. */
  lemma {:induction false} CrawlQueries(server: Server, q: Query, maxPage: int, requestNum: nat, lastId: Option<Id>)
    requires requestNum < maxPage
    requires q.count >= 1
    ensures var o := Crawl(server, q, maxPage, requestNum, lastId);
            && 1 <= |o.sent| <= maxPage - requestNum
            && o.sent[0] == q
            && forall i :: 0 <= i < |o.sent| - 1 ==>
                 && server(o.sent[i]).Some?
                 && |server(o.sent[i]).value| >= q.count
                 && o.sent[i + 1] == o.sent[i].(maxId := Some(PageOf(server, o.sent[i])[|PageOf(server, o.sent[i])| - 1].id))
    decreases maxPage - requestNum
  {
    match server(q)
    case None =>
    case Some(page) =>
      var n := requestNum + 1;
      var kept := DropBoundaryDuplicate(lastId, page);
      if !(|page| < q.count || n >= maxPage) {
        var lastId' := NextLastId(lastId, kept);
        var q' := NextQuery(q, lastId');
        NextLastIdOfPage(lastId, page);
        CrawlQueries(server, q', maxPage, n, lastId');
        var rest := Crawl(server, q', maxPage, n, lastId');
        var o := Crawl(server, q, maxPage, requestNum, lastId);
        assert o.sent == [q] + rest.sent;
        forall i | 0 <= i < |o.sent| - 1
          ensures server(o.sent[i]).Some? && |server(o.sent[i]).value| >= q.count
          ensures o.sent[i + 1] == o.sent[i].(maxId := Some(PageOf(server, o.sent[i])[|PageOf(server, o.sent[i])| - 1].id))
        {
          if i > 0 {
            assert o.sent[i] == rest.sent[i - 1];
            assert o.sent[i + 1] == rest.sent[i];
          }
        }
      }
  }

  /** The outcome of the loop: it fails exactly when the last query went unanswered;
      otherwise it reports one request per query, and `maxReached` exactly when the last
      page was full, in which case the page budget is used up. */
  lemma {:induction false} CrawlOutcome(server: Server, q: Query, maxPage: int, requestNum: nat, lastId: Option<Id>)
    requires requestNum < maxPage
    ensures var o := Crawl(server, q, maxPage, requestNum, lastId);
            && |o.sent| >= 1
            && (o.result.Err? <==> server(LastQuery(o)).None?)
            && (o.result.Err? ==> o.result.error == RequestFailed)
            && (o.result.Ok? ==>
                  && o.result.value.numRequests == requestNum + |o.sent|
                  && (o.result.value.maxReached <==> |server(LastQuery(o)).value| >= q.count)
                  && (o.result.value.maxReached ==> o.result.value.numRequests == maxPage))
    decreases maxPage - requestNum
  {
    match server(q)
    case None =>
    case Some(page) =>
      var n := requestNum + 1;
      var kept := DropBoundaryDuplicate(lastId, page);
      if !(|page| < q.count || n >= maxPage) {
        var lastId' := NextLastId(lastId, kept);
        var q' := NextQuery(q, lastId');
        CrawlOutcome(server, q', maxPage, n, lastId');
        var rest := Crawl(server, q', maxPage, n, lastId');
        var o := Crawl(server, q, maxPage, requestNum, lastId);
        assert o == LoadOutcome(PrependStatuses(kept, rest.result), [q] + rest.sent);
        assert LastQuery(o) == LastQuery(rest);
        assert q'.count == q.count;
        match rest.result
        case Ok(l) => assert o.result == Ok(l.(statuses := kept + l.statuses));
        case Err(e) => assert o.result == Err(e);
      }
  }

  /** The statuses of a successful load are all pages merged, each with its first status
      dropped when it repeats the last status loaded before it. */
  lemma {:induction false} CrawlMerge(server: Server, q: Query, maxPage: int, requestNum: nat, lastId: Option<Id>)
    requires requestNum < maxPage
    ensures var o := Crawl(server, q, maxPage, requestNum, lastId);
            o.result.Ok? ==> o.result.value.statuses == MergeFrom(lastId, PagesOf(server, o.sent))
    decreases maxPage - requestNum
  {
    match server(q)
    case None =>
    case Some(page) =>
      var n := requestNum + 1;
      var kept := DropBoundaryDuplicate(lastId, page);
      if |page| < q.count || n >= maxPage {
        PagesOfCons(server, q, []);
        MergeFromCons(lastId, page, []);
      } else {
        var lastId' := NextLastId(lastId, kept);
        var q' := NextQuery(q, lastId');
        NextLastIdOfPage(lastId, page);
        CrawlContinues(server, q, maxPage, requestNum, lastId);
        CrawlMerge(server, q', maxPage, n, lastId');
        var rest := Crawl(server, q', maxPage, n, lastId');
        PagesOfCons(server, q, rest.sent);
        MergeFromCons(lastId, page, PagesOf(server, rest.sent));
        PrependKeeps(kept, rest.result);
      }
  }

  lemma PrependKeeps(ss: seq<Status>, r: Result<Loaded, LoadError>)
    ensures PrependStatuses(ss, r).Ok? <==> r.Ok?
    ensures r.Ok? ==> PrependStatuses(ss, r).value.statuses == ss + r.value.statuses
  {
  }

  /** `loadStatuses` sends nothing exactly when its arguments are refused. */
  lemma LoadRefusedSendsNothing(server: Server, args: LoadArgs)
    ensures LoadSpec(server, args).sent == [] <==> ValidateLoadArgs(args).Err?
    ensures ValidateLoadArgs(args).Err? ==> LoadSpec(server, args).result == Err(ValidateLoadArgs(args).error)
  {
    if ValidateLoadArgs(args).Ok? {
      var plan := ValidateLoadArgs(args).value;
      CrawlOutcome(server, plan.query, plan.maxPage, 0, None);
    }
  }

  /** The pagination of an accepted load, end to end. */
  lemma LoadPagination(server: Server, args: LoadArgs)
    requires ValidateLoadArgs(args).Ok?
    ensures var plan := ValidateLoadArgs(args).value;
            var o := LoadSpec(server, args);
            && 1 <= |o.sent| <= plan.maxPage
            && o.sent[0] == plan.query
            && (forall i :: 0 <= i < |o.sent| - 1 ==>
                  && |PageOf(server, o.sent[i])| >= plan.query.count
                  && o.sent[i + 1] == o.sent[i].(maxId := Some(PageOf(server, o.sent[i])[|PageOf(server, o.sent[i])| - 1].id)))
            && (o.result.Ok? ==>
                  && o.result.value.numRequests == |o.sent|
                  && 1 <= o.result.value.numRequests <= plan.maxPage
                  && (o.result.value.maxReached <==> |PageOf(server, o.sent[|o.sent| - 1])| >= plan.query.count)
                  && (!o.result.value.maxReached || o.result.value.numRequests == plan.maxPage)
                  && o.result.value.statuses == MergeFrom(None, PagesOf(server, o.sent)))
  {
    var plan := ValidateLoadArgs(args).value;
    CrawlQueries(server, plan.query, plan.maxPage, 0, None);
    CrawlOutcome(server, plan.query, plan.maxPage, 0, None);
    CrawlMerge(server, plan.query, plan.maxPage, 0, None);
  }

  /** A one-page load (as `loadMoreStatuses` makes) sends the first query only and keeps
      the whole page: nothing is compared with a previous page. */
  lemma SinglePageLoad(server: Server, args: LoadArgs)
    requires ValidateLoadArgs(args).Ok? && ValidateLoadArgs(args).value.maxPage == 1
    ensures var o := LoadSpec(server, args);
            && o.sent == [ValidateLoadArgs(args).value.query]
            && (o.result.Ok? <==> server(o.sent[0]).Some?)
            && (o.result.Ok? ==> o.result.value.statuses == server(o.sent[0]).value)
  {
  }

  // ------------------------------------------------------------ acknowledgement

  /** The POST body of `_ackStatuses` and its retry limit. */
  datatype AckPost = AckPost(url: string, ids: seq<Id>, maxId: Id, tryMax: int)

  function AckUrl(apiBase: string, timeline: string): string {
    apiBase + "/timelines/" + timeline + "/ack.json"
  }

  /** `_ackStatuses(statuses)`: no request for an empty list; otherwise the ids in list order
      and the id of the last status as `max_id`, with 3 tries. */
  function AckRequest(apiBase: string, timeline: string, statuses: seq<Status>): (r: Option<AckPost>)
    ensures r.None? <==> statuses == []
    ensures r.Some? ==>
              && |r.value.ids| == |statuses|
              && (forall i :: 0 <= i < |statuses| ==> r.value.ids[i] == statuses[i].id)
              && r.value.maxId == r.value.ids[|r.value.ids| - 1]
              && r.value.tryMax == ACK_TRY_MAX
              && r.value.url == AckUrl(apiBase, timeline)
  {
    if |statuses| == 0 then None
    else
      var ids := seq(|statuses|, i requires 0 <= i < |statuses| => statuses[i].id);
      Some(AckPost(AckUrl(apiBase, timeline), ids, statuses[|statuses| - 1].id, ACK_TRY_MAX))
  }

  // ------------------------------------------------------- hidden-run header

  const HEADER_PREFIX: string := "<li class=\"bb-hidden-statuses-header\"><span class=\"bb-hidden-statuses-num\">"

  function DigitChar(d: nat): (c: char)
    requires d < 10
    ensures IsDigit(c) && DigitValue(c) == d
  {
    ('0' as int + d) as char
  }

  predicate IsDigit(c: char) {
    '0' <= c <= '9'
  }

  function DigitValue(c: char): nat
    requires IsDigit(c)
  {
    (c - '0') as nat
  }

  /** The decimal notation of `n`. */
  function NatToString(n: nat): (s: string)
    ensures |s| >= 1 && forall k :: 0 <= k < |s| ==> IsDigit(s[k])
  {
    if n < 10 then [DigitChar(n)] else NatToString(n / 10) + [DigitChar(n % 10)]
  }

  /** The number a string of decimal digits denotes. */
  function ParseDigits(s: string): nat
    requires forall k :: 0 <= k < |s| ==> IsDigit(s[k])
  {
    if s == [] then 0 else ParseDigits(s[..|s| - 1]) * 10 + DigitValue(s[|s| - 1])
  }

  /** The longest prefix of `s` made of digits. */
  function LeadingDigits(s: string): (d: string)
    ensures |d| <= |s| && d == s[..|d|]
    ensures forall k :: 0 <= k < |d| ==> IsDigit(d[k])
  {
    if s == [] || !IsDigit(s[0]) then [] else [s[0]] + LeadingDigits(s[1..])
  }

  lemma {:induction false} ParseNatToString(n: nat)
    ensures ParseDigits(NatToString(n)) == n
  {
    if n >= 10 {
      ParseNatToString(n / 10);
      var s := NatToString(n);
      assert s == NatToString(n / 10) + [DigitChar(n % 10)];
      assert s[..|s| - 1] == NatToString(n / 10);
      assert DigitValue(s[|s| - 1]) == n % 10;
    }
  }

  lemma {:induction false} LeadingDigitsOfAppend(d: string, rest: string)
    requires forall k :: 0 <= k < |d| ==> IsDigit(d[k])
    requires rest != [] && !IsDigit(rest[0])
    ensures LeadingDigits(d + rest) == d
  {
    if d != [] {
      assert (d + rest)[1..] == d[1..] + rest;
      LeadingDigitsOfAppend(d[1..], rest);
    }
  }

  /** `_formatHiddenStatusesHeader(n)`: "status" becomes "statuses" for more than one. */
  function FormatHiddenStatusesHeader(invisibleNum: nat): string {
    HEADER_PREFIX + NatToString(invisibleNum) + STATUS_WORD
    + (if invisibleNum > 1 then "es" else "") + HIDDEN_HERE
  }

  /** The count a header displays, read back from its text. */
  function HeaderCount(header: string): nat
    requires |header| >= |HEADER_PREFIX|
  {
    ParseDigits(LeadingDigits(header[|HEADER_PREFIX|..]))
  }

  /** A header shows the number it was made for. */
  lemma HiddenHeaderShowsCount(n: nat)
    ensures |FormatHiddenStatusesHeader(n)| >= |HEADER_PREFIX|
    ensures HeaderCount(FormatHiddenStatusesHeader(n)) == n
  {
    var rest := STATUS_WORD + (if n > 1 then "es" else "") + HIDDEN_HERE;
    var h := FormatHiddenStatusesHeader(n);
    assert h == HEADER_PREFIX + (NatToString(n) + rest);
    assert h[|HEADER_PREFIX|..] == NatToString(n) + rest;
    assert rest[0] == '<';
    LeadingDigitsOfAppend(NatToString(n), rest);
    ParseNatToString(n);
  }

  const STATUS_WORD: string := "</span> status"
  const HIDDEN_HERE: string := " hidden here.</li>"
  /** The ending of a header that names more than one status ("statuses hidden here."). */
  const PLURAL_ENDING: string := "es" + HIDDEN_HERE

  /** A header says "statuses" exactly when it stands for more than one status. */
  lemma HiddenHeaderPlural(n: nat)
    ensures var h := FormatHiddenStatusesHeader(n);
            (n > 1) <==> |h| >= |PLURAL_ENDING| && h[|h| - |PLURAL_ENDING|..] == PLURAL_ENDING
  {
    var h := FormatHiddenStatusesHeader(n);
    var front := HEADER_PREFIX + NatToString(n) + STATUS_WORD;
    if n > 1 {
      assert h == front + PLURAL_ENDING;
      SuffixOfAppend(front, PLURAL_ENDING, |PLURAL_ENDING|);
    } else {
      assert h == front + HIDDEN_HERE;
      assert |PLURAL_ENDING| == |HIDDEN_HERE| + 2;
      assert front[|front| - 2] == STATUS_WORD[|STATUS_WORD| - 2] == 'u';
      assert h[|h| - |PLURAL_ENDING|] == front[|front| - 2];
      assert PLURAL_ENDING[0] == 'e';
    }
  }

  lemma SuffixOfAppend(a: string, b: string, k: nat)
    requires k <= |b|
    ensures (a + b)[|a + b| - k..] == b[|b| - k..]
  {
  }}
