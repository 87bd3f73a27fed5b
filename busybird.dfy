/** The helpers of share/www/static/busybird.js: `defined`, the retrying
    request (`bb.ajaxRetry`), chunked iteration (`bb.blockEach`), the distance
    between two vertical ranges (`bb.distanceRanges`) and the reference-counted
    busy indicator (`bb.Spinner`). Network calls and timers are events that the
    environment delivers to the objects below. */
module BusyBird {
  import opened Wrappers

  function Min(a: int, b: int): int { if a <= b then a else b }

  // ---------------------------------------------------------------- defined

  /** The JavaScript values that the helpers tell apart. */
  datatype JsValue = Undefined | Null | Boolean(b: bool) | Number(n: int) | Str(s: string) | Object

  /** JavaScript truthiness, which the source uses instead of `defined` in a few places. */
  predicate Truthy(v: JsValue) {
    match v
    case Undefined => false
    case Null => false
    case Boolean(b) => b
    case Number(n) => n != 0
    case Str(s) => s != ""
    case Object => true
  }

  /** Perl's `defined`: false exactly for `null` and `undefined`; every truthy value is defined. */
  function Defined(v: JsValue): (r: bool)
    ensures !r <==> v == Null || v == Undefined
    ensures Truthy(v) ==> r
  {
    !(v == Null || v == Undefined)
  }

  /** Zero, the empty string and `false` are defined but not truthy, so
      `if(!x) x = d` and `defined(x) ? x : d` differ on them. */
  lemma DefinedButFalsy()
    ensures Defined(Number(0)) && !Truthy(Number(0))
    ensures Defined(Str("")) && !Truthy(Str(""))
    ensures Defined(Boolean(false)) && !Truthy(Boolean(false))
  {
  }

  // --------------------------------------------------------- distanceRanges

  /** How far range b = [bTop, bTop + bRange] sticks out of range a = [aTop, aTop + aRange]:
      the larger overhang above or below, or 0 when b lies inside a. */
  function DistanceRanges(aTop: int, aRange: int, bTop: int, bRange: int): (d: int)
    ensures d >= 0
    ensures d >= aTop - bTop && d >= (bTop + bRange) - (aTop + aRange)
    ensures d == 0 || d == aTop - bTop || d == (bTop + bRange) - (aTop + aRange)
    ensures d == 0 <==> aTop <= bTop && bTop + bRange <= aTop + aRange
  {
    var aBottom := aTop + aRange;
    var bBottom := bTop + bRange;
    var distTop := aTop - bTop;
    var distBottom := bBottom - aBottom;
    var signed := if distTop > distBottom then distTop else distBottom;
    if signed > 0 then signed else 0
  }

  // -------------------------------------------------------------- blockEach

  /** One call of the worker: the slice it receives and the slice's start index. */
  datatype Chunk<T> = Chunk(items: seq<T>, start: nat)

  /** `Math.ceil(n / d)` for a positive divisor. */
  function CeilDiv(n: nat, d: nat): nat
    requires d > 0
  {
    (n + d - 1) / d
  }

  function Flatten<T>(chunks: seq<Chunk<T>>): seq<T> {
    if chunks == [] then [] else Flatten(chunks[..|chunks| - 1]) + chunks[|chunks| - 1].items
  }

  lemma CeilDivBound(n: nat, d: nat, i: nat)
    requires d > 0
    ensures i < CeilDiv(n, d) <==> i * d < n
  {
    var q := CeilDiv(n, d);
    var r := (n + d - 1) % d;
    assert q * d + r == n + d - 1;
    if i < q {
      MulMonotone(i, q - 1, d);
      assert (q - 1) * d == q * d - d;
    } else {
      MulMonotone(q, i, d);
    }
  }

  lemma MulMonotone(a: nat, b: nat, d: nat)
    requires a <= b
    ensures a * d <= b * d
  {
  }

  /** Call number `i` receives `a.slice(i * size, i * size + size)`, a non-empty slice of at
      most `size` elements, with start index `i * size`. */
  ghost predicate IsChunk<T>(a: seq<T>, size: nat, i: nat, c: Chunk<T>) {
    && c.start == i * size && c.start < |a|
    && c.items == a[c.start .. Min(c.start + size, |a|)]
    && 0 < |c.items| <= size
  }

  /** The calls `bb.blockEach(a, blockSize, f)` makes to `f`, in the order it makes them.
      A block size of 0 is only harmless for an empty array (`Math.ceil(0 / 0)` is NaN, so no
      call is made; for a non-empty array the source loops forever). */
  method BlockEach<T>(a: seq<T>, blockSize: nat) returns (calls: seq<Chunk<T>>)
    requires blockSize > 0 || |a| == 0
    ensures |a| == 0 ==> calls == []
    ensures blockSize > 0 ==> |calls| == CeilDiv(|a|, blockSize)
    ensures forall i :: 0 <= i < |calls| ==> IsChunk(a, blockSize, i, calls[i])
    ensures Flatten(calls) == a
  {
    calls := [];
    if |a| == 0 {
      if blockSize > 0 {
        CeilDivBound(0, blockSize, 0);
      }
      return;
    }
    var blockNum := CeilDiv(|a|, blockSize);
    var i: nat, start: nat := 0, 0;
    while i < blockNum
      invariant 0 <= i <= blockNum
      invariant BlocksSoFar(a, blockSize, i, start, calls)
    {
      BlockStep(a, blockSize, i, start, calls);
      calls := calls + [Chunk(a[start .. Min(start + blockSize, |a|)], start)];
      i, start := i + 1, start + blockSize;
    }
    BlocksDone(a, blockSize, blockNum, start, calls);
  }

  lemma BlocksDone<T>(a: seq<T>, size: nat, n: nat, start: nat, calls: seq<Chunk<T>>)
    requires size > 0 && n == CeilDiv(|a|, size)
    requires BlocksSoFar(a, size, n, start, calls)
    ensures Flatten(calls) == a && |calls| == n
    ensures forall k :: 0 <= k < |calls| ==> IsChunk(a, size, k, calls[k])
  {
    CeilDivBound(|a|, size, n);
    assert a[..|a|] == a;
  }

  /** The loop invariant of `BlockEach`: `i` calls made, the next one starting at `start`. */
  ghost predicate BlocksSoFar<T>(a: seq<T>, size: nat, i: nat, start: nat, calls: seq<Chunk<T>>) {
    && start == i * size
    && |calls| == i
    && (forall k :: 0 <= k < i ==> IsChunk(a, size, k, calls[k]))
    && Flatten(calls) == a[..Min(start, |a|)]
  }

  lemma BlockStep<T>(a: seq<T>, size: nat, i: nat, start: nat, calls: seq<Chunk<T>>)
    requires size > 0 && i < CeilDiv(|a|, size)
    requires BlocksSoFar(a, size, i, start, calls)
    ensures start < |a|
    ensures BlocksSoFar(a, size, i + 1, start + size,
                        calls + [Chunk(a[start .. Min(start + size, |a|)], start)])
  {
    CeilDivBound(|a|, size, i);
    var chunk := Chunk(a[start .. Min(start + size, |a|)], start);
    FlattenSnoc(calls, chunk);
    assert a[..start] + chunk.items == a[..Min(start + size, |a|)];
    MulSucc(i, size);
  }

  lemma FlattenSnoc<T>(chunks: seq<Chunk<T>>, c: Chunk<T>)
    ensures Flatten(chunks + [c]) == Flatten(chunks) + c.items
  {
    assert (chunks + [c])[..|chunks|] == chunks;
  }

  lemma MulSucc(i: nat, d: nat)
    ensures (i + 1) * d == i * d + d
  {
  }

  // -------------------------------------------------------------- ajaxRetry

  const BACKOFF_INIT_MS := 500
  const BACKOFF_FACTOR := 2
  const BACKOFF_MAX_MS := 120000

  /** The retry delay after `k` consecutive failures: doubled each time, capped. */
  function Backoff(k: nat): (ms: int)
    ensures BACKOFF_INIT_MS <= ms <= BACKOFF_MAX_MS
  {
    if k == 0 then BACKOFF_INIT_MS else Min(Backoff(k - 1) * BACKOFF_FACTOR, BACKOFF_MAX_MS)
  }

  function Pow2(k: nat): nat {
    if k == 0 then 1 else 2 * Pow2(k - 1)
  }

  /** The doubling-with-cap recurrence equals the closed form min(500 * 2^k, 120000). */
  lemma {:induction false} BackoffClosedForm(k: nat)
    ensures Backoff(k) == Min(BACKOFF_INIT_MS * Pow2(k), BACKOFF_MAX_MS)
  {
    if k > 0 {
      BackoffClosedForm(k - 1);
    }
  }

  /** Delays never shrink, and every retry waits at least 1000 ms (the first one exactly). */
  lemma {:induction false} BackoffMonotone(i: nat, j: nat)
    requires i <= j
    ensures Backoff(i) <= Backoff(j)
    ensures j >= 1 ==> Backoff(j) >= 1000
    ensures Backoff(1) == 1000
  {
    if i < j {
      BackoffMonotone(i, j - 1);
    }
  }

  /** From the eighth retry on (500 * 2^8 > 120000) the delay stays at the cap. */
  lemma BackoffSaturates(k: nat)
    requires k >= 8
    ensures Backoff(k) == BACKOFF_MAX_MS
  {
    BackoffClosedForm(k);
    Pow2AtLeast(k);
  }

  lemma {:induction false} Pow2AtLeast(k: nat)
    requires k >= 8
    ensures Pow2(k) >= 256
  {
    if k > 8 {
      Pow2AtLeast(k - 1);
    }
  }

  /** The state of a Q deferred. */
  datatype Settlement = Pending | Resolved(data: string) | Rejected(textStatus: string, errorThrown: string)

  /** A deferred settles once: later `resolve`/`reject` calls are ignored. */
  function Settle(current: Settlement, next: Settlement): Settlement {
    if current.Pending? then next else current
  }

  /** One `bb.ajaxRetry` call: the closure state of busybird.js:18-67. The first request is
      issued by the constructor; `Fail`, `Done` and `TimerFires` are the callbacks the
      network and `setTimeout` deliver; `Cancel` is the returned canceller. */
  class AjaxRetry {
    const tryMax: int            // 0 (or absent) means unlimited
    var tryCount: nat            // failures seen so far
    var backoff: int             // the delay of the most recently scheduled retry
    var retryOk: bool            // false once cancelled
    var promise: Settlement
    var inFlight: bool           // a request was sent and its callback has not run yet
    var answered: bool           // a request succeeded
    var timer: Option<int>       // a scheduled retry and its delay
    var requests: nat            // requests sent ($.ajax calls)
    var delays: seq<int>         // delays of all retries scheduled, in order

    ghost predicate Valid()
      reads this
    {
      && (forall i :: 0 <= i < |delays| ==> delays[i] == Backoff(i + 1))
      && backoff == Backoff(|delays|)
      && |delays| <= tryCount
      && (timer.Some? ==> timer.value == backoff && !inFlight && !answered
                          && (tryMax > 0 ==> tryCount < tryMax))
      && (answered ==> !inFlight)
      && requests == tryCount + (if inFlight || answered then 1 else 0)
      && (tryMax > 0 ==> requests <= tryMax)
      && (!retryOk ==> !promise.Pending?)
    }

    /** Reads `tryMax` from the parameters and sends the first request. */
    constructor (tryMaxParam: Option<int>)
      ensures Valid()
      ensures tryMax == tryMaxParam.GetOr(0)
      ensures requests == 1 && inFlight && !answered && timer.None? && tryCount == 0
      ensures promise == Pending && retryOk && delays == [] && backoff == BACKOFF_INIT_MS
    {
      tryMax := tryMaxParam.GetOr(0);
      tryCount := 0;
      backoff := BACKOFF_INIT_MS;
      retryOk := true;
      promise := Pending;
      inFlight := true;
      answered := false;
      timer := None;
      requests := 1;
      delays := [];
    }

    /** The request failed: reject on the `tryMax`-th failure, otherwise double the backoff
        (capped) and schedule a retry. */
    method Fail(textStatus: string, errorThrown: string)
      requires Valid() && inFlight
      modifies this
      ensures Valid()
      ensures tryCount == old(tryCount) + 1 && !inFlight && requests == old(requests)
      ensures retryOk == old(retryOk) && answered == old(answered)
      ensures tryMax > 0 && tryCount >= tryMax ==>
                timer.None? && delays == old(delays)
                && promise == Settle(old(promise), Rejected(textStatus, errorThrown))
      ensures !(tryMax > 0 && tryCount >= tryMax) ==>
                delays == old(delays) + [Backoff(|old(delays)| + 1)]
                && timer == Some(Backoff(|delays|)) && promise == old(promise)
    {
      inFlight := false;
      tryCount := tryCount + 1;
      if tryMax > 0 && tryCount >= tryMax {
        promise := Settle(promise, Rejected(textStatus, errorThrown));
        return;
      }
      backoff := backoff * BACKOFF_FACTOR;
      if backoff > BACKOFF_MAX_MS {
        backoff := BACKOFF_MAX_MS;
      }
      delays := delays + [backoff];
      timer := Some(backoff);
    }

    /** The request succeeded: resolve with its data. */
    method Done(data: string)
      requires Valid() && inFlight
      modifies this
      ensures Valid()
      ensures answered && !inFlight && promise == Settle(old(promise), Resolved(data))
      ensures requests == old(requests) && tryCount == old(tryCount) && timer == old(timer)
      ensures retryOk == old(retryOk) && delays == old(delays)
    {
      inFlight := false;
      answered := true;
      promise := Settle(promise, Resolved(data));
    }

    /** The retry timer expires: resend unless cancelled meanwhile. */
    method TimerFires()
      requires Valid() && timer.Some?
      modifies this
      ensures Valid()
      ensures timer.None?
      ensures old(retryOk) ==> requests == old(requests) + 1 && inFlight
      ensures !old(retryOk) ==> requests == old(requests) && !inFlight
      ensures tryCount == old(tryCount) && promise == old(promise) && retryOk == old(retryOk)
      ensures delays == old(delays)
    {
      timer := None;
      if retryOk {
        requests := requests + 1;
        inFlight := true;
      }
    }

    /** The canceller: stop retrying and reject with "cancelled". Aborting the request in
        flight makes the network deliver `Fail` for it later, as jQuery does. */
    method Cancel()
      requires Valid()
      modifies this
      ensures Valid()
      ensures !retryOk && promise == Settle(old(promise), Rejected("cancelled", ""))
      ensures requests == old(requests) && tryCount == old(tryCount) && timer == old(timer)
      ensures inFlight == old(inFlight) && answered == old(answered) && delays == old(delays)
    {
      retryOk := false;
      promise := Settle(promise, Rejected("cancelled", ""));
    }
  }

  /** With `tryMax` 3, three failures reject the promise after three requests, with the
      retries scheduled 1000 ms and 2000 ms after the first two failures. */
  method ThreeFailuresScenario() returns (p: Settlement, sent: nat, scheduled: seq<int>, retryPending: bool)
    ensures p == Rejected("error", "") && sent == 3
    ensures scheduled == [1000, 2000] && !retryPending
  {
    var r := new AjaxRetry(Some(3));
    r.Fail("error", "");
    r.TimerFires();
    r.Fail("error", "");
    r.TimerFires();
    r.Fail("error", "");
    p, sent, scheduled, retryPending := r.promise, r.requests, r.delays, r.timer.Some?;
  }

  /** A retry scheduled before `cancel()` sends nothing when its timer fires, and the
      promise is rejected with "cancelled". */
  method CancelScenario() returns (p: Settlement, sent: nat)
    ensures p == Rejected("cancelled", "") && sent == 1
  {
    var r := new AjaxRetry(None);
    r.Fail("timeout", "");
    r.Cancel();
    r.TimerFires();
    p, sent := r.promise, r.requests;
  }

  // ---------------------------------------------------------------- Spinner

  /** What `Spinner.set` asks of the spinner widget. */
  datatype SpinnerCall = StartSpin | StopSpin | NoCall

  /** `set(val)` from count `count`: the new count is `val` clamped at 0; the widget is
      started only on a <=0 to >0 change and stopped only on a >0 to <=0 change. */
  function SpinnerSet(count: int, val: int): (r: (int, SpinnerCall))
    ensures r.0 >= 0 && (val >= 0 ==> r.0 == val) && (val < 0 ==> r.0 == 0)
    ensures r.1 == StartSpin <==> count <= 0 && r.0 > 0
    ensures r.1 == StopSpin <==> count > 0 && r.0 <= 0
  {
    var next := if val < 0 then 0 else val;
    if count > 0 && next <= 0 then (next, StopSpin)
    else if count <= 0 && next > 0 then (next, StartSpin)
    else (next, NoCall)
  }

  /** `bb.Spinner`: a counter of outstanding jobs driving a spinner widget. */
  class Spinner {
    var spinCount: int
    var running: bool        // the widget is spinning
    var startCalls: nat      // calls of the widget's spin()
    var stopCalls: nat       // calls of the widget's stop()

    /** The widget spins exactly while jobs are outstanding, and every start but the
        current one has been matched by a stop. */
    ghost predicate Valid()
      reads this
    {
      spinCount >= 0 && running == (spinCount > 0)
      && startCalls == stopCalls + (if running then 1 else 0)
    }

    constructor ()
      ensures Valid() && spinCount == 0 && !running && startCalls == 0 && stopCalls == 0
    {
      spinCount := 0;
      running := false;
      startCalls := 0;
      stopCalls := 0;
    }

    method Set(val: int)
      requires Valid()
      modifies this
      ensures Valid()
      ensures spinCount == (if val < 0 then 0 else val)
      ensures startCalls == old(startCalls) + (if old(spinCount) <= 0 && spinCount > 0 then 1 else 0)
      ensures stopCalls == old(stopCalls) + (if old(spinCount) > 0 && spinCount <= 0 then 1 else 0)
    {
      var call;
      spinCount, call := SpinnerSet(spinCount, val).0, SpinnerSet(spinCount, val).1;
      match call
      case StartSpin =>
        running := true;
        startCalls := startCalls + 1;
      case StopSpin =>
        running := false;
        stopCalls := stopCalls + 1;
      case NoCall =>
    }

    method Begin()
      requires Valid()
      modifies this
      ensures Valid() && spinCount == old(spinCount) + 1
      ensures startCalls == old(startCalls) + (if old(spinCount) == 0 then 1 else 0)
      ensures stopCalls == old(stopCalls)
    {
      Set(spinCount + 1);
    }

    /** One job finished; at 0 the count stays 0 and nothing is stopped twice. */
    method End()
      requires Valid()
      modifies this
      ensures Valid() && spinCount == (if old(spinCount) == 0 then 0 else old(spinCount) - 1)
      ensures stopCalls == old(stopCalls) + (if old(spinCount) == 1 then 1 else 0)
      ensures startCalls == old(startCalls)
    {
      Set(spinCount - 1);
    }
  }
}
