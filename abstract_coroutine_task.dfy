/**
 * The skeletal task runner: the status field updated by `run`, `cancel` and
 * the completion of the loop's job, and the loop itself, which pulls a batch,
 * handles each element with bounded retries and backoff, and waits between
 * elements and between pulls.
 *
 * Waiting and handling are observable only through a trace of events. The
 * handler is a function of the element and of the attempt counter at the time
 * of the call; the pulled batches are inputs.
 */
module AbstractCoroutineTask {
  import opened CoroutineTask

  // ---------------------------------------------------------------------------
  // Status transitions
  // ---------------------------------------------------------------------------

  /** A pending cancel callback: it resumes the suspended `cancel` caller and yields the cause that caller passed. */
  datatype Cancellation = Cancellation(cause: Option<Cause>)

  /** How the loop's job ended, as its completion handler sees the throwable. */
  datatype Completion = CompletedNormally | CompletedCancelled(cause: Cause) | CompletedExceptionally

  /** `cancellation?.invoke()`: the cause of the pending callback, or null when there is none. */
  function PendingCause(pending: Option<Cancellation>): Option<Cause> {
    match pending
    case None => None
    case Some(c) => c.cause
  }

  class Task {
    var status: Status
    var cancellation: Option<Cancellation>

    /** The `cancelled` getter applied to this task: `IsCancelled` of its status. */
    function Cancelled(): bool
      reads this
    {
      IsCancelled(status)
    }

    constructor ()
      ensures status == Status.Idle && cancellation == None
      ensures !Cancelled()
    {
      status := Status.Idle;
      cancellation := None;
    }

    /** `run`: launches the loop as a new job and records it as executing. */
    method Run() returns (job: Job)
      modifies this
      ensures fresh(job) && !job.cancelRequested
      ensures status == Status.Executing(job) && !Cancelled()
      ensures cancellation == old(cancellation)
    {
      job := new Job();
      status := Status.Executing(job);
    }

    /**
     * `cancel(cause)`: registers the callback that will supply `cause`, and
     * cancels the job only when the task is executing. The status itself
     * changes later, when the job completes.
     */
    method Cancel(cause: Option<Cause>)
      modifies this, if status.Executing? then {status.job} else {}
      ensures cancellation == Some(Cancellation(cause))
      ensures status == old(status)
      ensures old(status).Executing? ==> old(status).job.cancelRequested
    {
      cancellation := Some(Cancellation(cause));
      match status {
        case Executing(job) => job.Cancel();
        case _ =>
      }
    }

    /**
     * The completion handler registered by `run`: on a normal completion or a
     * cancellation the task becomes Cancelled with the pending callback's
     * cause (null when there is none) and the callback is consumed; any other
     * failure leaves the task as it is.
     */
    method OnJobCompletion(thrown: Completion)
      modifies this
      ensures thrown.CompletedExceptionally? ==> status == old(status) && cancellation == old(cancellation)
      ensures !thrown.CompletedExceptionally? ==>
        status == Status.Cancelled(PendingCause(old(cancellation))) && cancellation == None && Cancelled()
    {
      if !thrown.CompletedExceptionally? {
        status := Status.Cancelled(PendingCause(cancellation));
        cancellation := None;
      }
    }
  }

  // ---------------------------------------------------------------------------
  // Events of the loop
  // ---------------------------------------------------------------------------

  /** The three places the loop calls `delay`. */
  datatype Site = BeforeRetry | BetweenElements | BeforePull

  /** What the loop does, in order: pull a batch, call the handler (with the attempt counter), or wait. */
  datatype Event<E> = Pull | Handle(element: E, time: nat) | Delay(site: Site, duration: int)

  /** The constructor parameters `pullInterval` and `handleInterval`, in an unbounded integer time unit. */
  datatype Intervals = Intervals(pullInterval: int, handleInterval: int)

  /** The durations of the waits made at `site`, in order. */
  function Durations<E>(trace: seq<Event<E>>, site: Site): seq<int> {
    if trace == [] then []
    else
      var ev := trace[|trace| - 1];
      Durations(trace[..|trace| - 1], site) + (if ev.Delay? && ev.site == site then [ev.duration] else [])
  }

  /** The elements whose first `handle` call (attempt counter 0) occurs in the trace, in order. */
  function Starts<E>(trace: seq<Event<E>>): seq<E> {
    if trace == [] then []
    else
      var ev := trace[|trace| - 1];
      Starts(trace[..|trace| - 1]) + (if ev.Handle? && ev.time == 0 then [ev.element] else [])
  }

  /** The number of `handle` calls in the trace. */
  function Calls<E>(trace: seq<Event<E>>): nat {
    if trace == [] then 0
    else Calls(trace[..|trace| - 1]) + (if trace[|trace| - 1].Handle? then 1 else 0)
  }

  /** The number of pulls in the trace. */
  function Pulls<E>(trace: seq<Event<E>>): nat {
    if trace == [] then 0
    else Pulls(trace[..|trace| - 1]) + (if trace[|trace| - 1].Pull? then 1 else 0)
  }

  /** The counts of a trace made of one event. */
  lemma SingletonCounts<E>(ev: Event<E>)
    ensures Starts([ev]) == (if ev.Handle? && ev.time == 0 then [ev.element] else [])
    ensures Calls([ev]) == (if ev.Handle? then 1 else 0)
    ensures Pulls([ev]) == (if ev.Pull? then 1 else 0)
  {
    assert [ev][..0] == [];
  }

  /** The waits at `site` of a trace made of one event. */
  lemma SingletonDurations<E>(ev: Event<E>, site: Site)
    ensures Durations([ev], site) == (if ev.Delay? && ev.site == site then [ev.duration] else [])
  {
    assert [ev][..0] == [];
  }

  /** The waits at a site of two traces run one after the other. */
  lemma {:induction false} DurationsDistribute<E>(a: seq<Event<E>>, b: seq<Event<E>>, site: Site)
    ensures Durations(a + b, site) == Durations(a, site) + Durations(b, site)
    decreases |b|
  {
    if b == [] {
      assert a + b == a;
    } else {
      var b' := b[..|b| - 1];
      assert (a + b)[..|a + b| - 1] == a + b';
      assert (a + b)[|a + b| - 1] == b[|b| - 1];
      DurationsDistribute(a, b', site);
    }
  }

  /** The elements started, the calls and the pulls of two traces run one after the other. */
  lemma {:induction false} CountsDistribute<E>(a: seq<Event<E>>, b: seq<Event<E>>)
    ensures Starts(a + b) == Starts(a) + Starts(b)
    ensures Calls(a + b) == Calls(a) + Calls(b)
    ensures Pulls(a + b) == Pulls(a) + Pulls(b)
    decreases |b|
  {
    if b == [] {
      assert a + b == a;
    } else {
      var b' := b[..|b| - 1];
      assert (a + b)[..|a + b| - 1] == a + b';
      assert (a + b)[|a + b| - 1] == b[|b| - 1];
      CountsDistribute(a, b');
    }
  }

  // ---------------------------------------------------------------------------
  // The retry lineage of one element
  // ---------------------------------------------------------------------------

  /**
   * Every Retry the handler can return allows at most `bound` retries; the
   * retry loop, whose limit is re-read from each new result, terminates only
   * under such a bound.
   */
  ghost predicate LimitsBounded<E(!new)>(handle: (E, nat) -> Result, bound: nat) {
    forall e, time :: handle(e, time).Retry? ==> handle(e, time).limit <= bound
  }

  /** The retry loop's condition: the latest result is a Retry whose limit exceeds the attempt counter. */
  predicate Continues(r: Result, time: nat) {
    r.Retry? && time < r.limit
  }

  /** The extra wait before retry `time`: none for Stable, `increment * time` for LinearUniform. */
  function Extra(strategy: DelayStrategy, time: nat): int {
    match strategy
    case Stable => 0
    case LinearUniform(increment) => increment * time
  }

  /** The strategy of a Retry; other results are never retried, and Stable stands in for them. */
  function StrategyOf(r: Result): DelayStrategy {
    if r.Retry? then r.strategy else Stable
  }

  /** A Retry that outlives the loop becomes a Failure with RetryOutOfLimitException. */
  function Finalize(r: Result): Result {
    if r.Retry? then Failure(RetryOutOfLimitException) else r
  }

  /** The results seen for `e` from attempt `time` on, starting with `r`; every one of them came from one handler call. */
  function LineageFrom<E(!new)>(handle: (E, nat) -> Result, bound: nat, e: E, r: Result, time: nat): (rs: seq<Result>)
    requires LimitsBounded(handle, bound)
    requires time <= bound && (r.Retry? ==> r.limit <= bound)
    ensures 1 <= |rs| <= bound - time + 1 && rs[0] == r
    decreases bound - time
  {
    if Continues(r, time) then
      [r] + LineageFrom(handle, bound, e, handle(e, time + 1).Retried(time + 1), time + 1)
    else
      [r]
  }

  /** The results of every `handle` call made for `e`, in call order: at most `bound + 1` calls. */
  function Lineage<E(!new)>(handle: (E, nat) -> Result, bound: nat, e: E): (rs: seq<Result>)
    requires LimitsBounded(handle, bound)
    ensures 1 <= |rs| <= bound + 1 && rs[0] == handle(e, 0)
  {
    LineageFrom(handle, bound, e, handle(e, 0), 0)
  }

  /** The value `result` holds once the element is done: never a Retry; a surviving Retry is a RetryOutOfLimitException failure. */
  function Outcome<E(!new)>(handle: (E, nat) -> Result, bound: nat, e: E): (r: Result)
    requires LimitsBounded(handle, bound)
    ensures !r.Retry?
    ensures var rs := Lineage(handle, bound, e);
      r == (if rs[|rs| - 1].Retry? then Failure(RetryOutOfLimitException) else rs[|rs| - 1])
  {
    var rs := Lineage(handle, bound, e);
    Finalize(rs[|rs| - 1])
  }

  /**
   * The declarative reading of the retry loop from attempt `time` on: call
   * time + k, for k > 0, is made with attempt counter time + k and its result
   * is stamped with `.retry(time + k)`, the loop continues past every result
   * but the last, and stops at the last.
   */
  ghost predicate RetriesFrom<E(!new)>(handle: (E, nat) -> Result, e: E, rs: seq<Result>, time: nat) {
    && |rs| >= 1
    && (forall k :: 1 <= k < |rs| ==> rs[k] == handle(e, time + k).Retried(time + k))
    && (forall k :: 0 <= k < |rs| - 1 ==> Continues(rs[k], time + k))
    && !Continues(rs[|rs| - 1], time + |rs| - 1)
  }

  /** The declarative reading of the whole retry loop: the first call's result is kept as it is, and the retries follow from attempt 0. */
  ghost predicate IsLineage<E(!new)>(handle: (E, nat) -> Result, e: E, rs: seq<Result>) {
    |rs| >= 1 && rs[0] == handle(e, 0) && RetriesFrom(handle, e, rs, 0)
  }

  lemma {:induction false} LineageFromShape<E(!new)>(handle: (E, nat) -> Result, bound: nat, e: E, r: Result, time: nat)
    requires LimitsBounded(handle, bound)
    requires time <= bound && (r.Retry? ==> r.limit <= bound)
    ensures RetriesFrom(handle, e, LineageFrom(handle, bound, e, r, time), time)
    decreases bound - time
  {
    var rs := LineageFrom(handle, bound, e, r, time);
    if Continues(r, time) {
      var next := handle(e, time + 1).Retried(time + 1);
      LineageFromShape(handle, bound, e, next, time + 1);
      var tail := LineageFrom(handle, bound, e, next, time + 1);
      assert rs == [r] + tail;
      forall k | 1 <= k < |rs| ensures rs[k] == handle(e, time + k).Retried(time + k) {
        if k > 1 {
          assert rs[k] == tail[k - 1];
        }
      }
      forall k | 0 <= k < |rs| - 1 ensures Continues(rs[k], time + k) {
        if k > 0 {
          assert rs[k] == tail[k - 1];
        }
      }
    } else {
      assert rs == [r];
    }
  }

  /** Lineage is a lineage of the handler in the declarative sense. */
  lemma LineageIsLineage<E(!new)>(handle: (E, nat) -> Result, bound: nat, e: E)
    requires LimitsBounded(handle, bound)
    ensures IsLineage(handle, e, Lineage(handle, bound, e))
  {
    LineageFromShape(handle, bound, e, handle(e, 0), 0);
  }

  lemma {:induction false} SuffixIsLineageFrom<E(!new)>(handle: (E, nat) -> Result, bound: nat, e: E, rs: seq<Result>, t: nat)
    requires LimitsBounded(handle, bound) && IsLineage(handle, e, rs)
    requires t < |rs| && t <= bound && (rs[t].Retry? ==> rs[t].limit <= bound)
    ensures rs[t..] == LineageFrom(handle, bound, e, rs[t], t)
    decreases |rs| - t
  {
    if t < |rs| - 1 {
      assert Continues(rs[t], t);
      assert rs[t + 1] == handle(e, t + 1).Retried(t + 1);
      SuffixIsLineageFrom(handle, bound, e, rs, t + 1);
      assert rs[t..] == [rs[t]] + rs[t + 1..];
    } else {
      assert rs[t..] == [rs[t]];
    }
  }

  /** The declarative reading has exactly one solution: the lineage of an element is determined by the handler. */
  lemma LineageIsUnique<E(!new)>(handle: (E, nat) -> Result, bound: nat, e: E, rs: seq<Result>)
    requires LimitsBounded(handle, bound) && IsLineage(handle, e, rs)
    ensures rs == Lineage(handle, bound, e)
  {
    SuffixIsLineageFrom(handle, bound, e, rs, 0);
  }

  /**
   * Every retry is triggered by a Retry whose limit is at least the new
   * attempt counter, and the result it produces carries that counter.
   */
  lemma AttemptsWithinLimit<E(!new)>(handle: (E, nat) -> Result, bound: nat, e: E, k: nat)
    requires LimitsBounded(handle, bound)
    requires 1 <= k < |Lineage(handle, bound, e)|
    ensures var rs := Lineage(handle, bound, e);
      rs[k - 1].Retry? && k <= rs[k - 1].limit && (rs[k].Retry? ==> rs[k].attempt == k)
  {
    LineageIsLineage(handle, bound, e);
  }

  /** A first result that is not a Retry is the outcome, and the handler is called exactly once. */
  lemma FirstResultNotRetry<E(!new)>(handle: (E, nat) -> Result, bound: nat, e: E)
    requires LimitsBounded(handle, bound) && !handle(e, 0).Retry?
    ensures Lineage(handle, bound, e) == [handle(e, 0)]
    ensures Outcome(handle, bound, e) == handle(e, 0)
  {
  }

  // ---------------------------------------------------------------------------
  // The events of one element
  // ---------------------------------------------------------------------------

  /** The events of handling an element whose results are `rs`, up to its call `k`: the first call, then a backoff wait and a call per retry. */
  function ElementEvents<E>(e: E, handleInterval: int, rs: seq<Result>, k: nat): seq<Event<E>>
    requires k < |rs|
  {
    if k == 0 then [Handle(e, 0)]
    else ElementEvents(e, handleInterval, rs, k - 1)
         + [Delay(BeforeRetry, handleInterval + Extra(StrategyOf(rs[k - 1]), k)), Handle(e, k)]
  }

  /** The events of handling an element whose results are `rs`, to its last call. */
  function ElementTrace<E>(e: E, handleInterval: int, rs: seq<Result>): seq<Event<E>>
    requires |rs| >= 1
  {
    ElementEvents(e, handleInterval, rs, |rs| - 1)
  }

  lemma {:induction false} ElementEventsAt<E>(e: E, handleInterval: int, rs: seq<Result>, k: nat)
    requires k < |rs|
    ensures var events := ElementEvents(e, handleInterval, rs, k);
      && |events| == 2 * k + 1
      && forall i :: 0 <= i < |events| ==>
           events[i] == if i % 2 == 0 then Handle(e, i / 2)
                        else Delay(BeforeRetry, handleInterval + Extra(StrategyOf(rs[i / 2]), i / 2 + 1))
  {
    if k > 0 {
      ElementEventsAt(e, handleInterval, rs, k - 1);
    }
  }

  /**
   * The wait schedule of one element: calls sit at the even positions with
   * attempt counters 0, 1, 2, ...; the wait before retry k is
   * `handleInterval` plus the extra of the strategy of the result being retried.
   */
  lemma ElementTraceAt<E>(e: E, handleInterval: int, rs: seq<Result>)
    requires |rs| >= 1
    ensures var trace := ElementTrace(e, handleInterval, rs);
      && |trace| == 2 * |rs| - 1
      && forall i :: 0 <= i < |trace| ==>
           trace[i] == if i % 2 == 0 then Handle(e, i / 2)
                       else Delay(BeforeRetry, handleInterval + Extra(StrategyOf(rs[i / 2]), i / 2 + 1))
  {
    ElementEventsAt(e, handleInterval, rs, |rs| - 1);
  }

  /** The projections of the two events a retry adds: a backoff wait and a call that is not a first call. */
  lemma RetryStepProjections<E>(e: E, duration: int, time: nat)
    requires time >= 1
    ensures var step := [Delay(BeforeRetry, duration), Handle(e, time)];
      && Starts(step) == []
      && Calls(step) == 1
      && Durations(step, BeforeRetry) == [duration]
      && Durations(step, BetweenElements) == []
      && Durations(step, BeforePull) == []
      && Pulls(step) == 0
  {
    var step := [Delay(BeforeRetry, duration), Handle(e, time)];
    assert step[..1] == [step[0]];
    SingletonCounts(step[0]);
    SingletonDurations(step[0], BeforeRetry);
    SingletonDurations(step[0], BetweenElements);
    SingletonDurations(step[0], BeforePull);
  }

  /** The projections of an element's events up to call k: it is started once and makes k + 1 calls, with backoff waits only. */
  lemma {:induction false} ElementEventsProjections<E>(e: E, handleInterval: int, rs: seq<Result>, k: nat)
    requires k < |rs|
    ensures var events := ElementEvents(e, handleInterval, rs, k);
      && Starts(events) == [e]
      && Calls(events) == k + 1
      && Durations(events, BetweenElements) == []
      && Durations(events, BeforePull) == []
      && Pulls(events) == 0
  {
    if k == 0 {
      SingletonCounts(Handle(e, 0));
      SingletonDurations(Handle(e, 0), BetweenElements);
      SingletonDurations(Handle(e, 0), BeforePull);
    } else {
      var before := ElementEvents(e, handleInterval, rs, k - 1);
      var step := [Delay(BeforeRetry, handleInterval + Extra(StrategyOf(rs[k - 1]), k)), Handle(e, k)];
      ElementEventsProjections(e, handleInterval, rs, k - 1);
      RetryStepProjections(e, step[0].duration, k);
      CountsDistribute(before, step);
      DurationsDistribute(before, step, BetweenElements);
      DurationsDistribute(before, step, BeforePull);
      var events := ElementEvents(e, handleInterval, rs, k);
      var none: seq<int> := [];
      assert events == before + step;
      assert Starts(events) == [e] + [];
      assert Durations(events, BetweenElements) == none + none;
      assert Durations(events, BeforePull) == none + none;
    }
  }

  /** The projections of one element's events: it is started once, makes |rs| calls and waits only before retries. */
  lemma ElementTraceProjections<E>(e: E, handleInterval: int, rs: seq<Result>)
    requires |rs| >= 1
    ensures var trace := ElementTrace(e, handleInterval, rs);
      && Starts(trace) == [e]
      && Calls(trace) == |rs|
      && Durations(trace, BetweenElements) == []
      && Durations(trace, BeforePull) == []
      && Pulls(trace) == 0
  {
    ElementEventsProjections(e, handleInterval, rs, |rs| - 1);
  }

  /** The backoff waits up to call k, in order: one per retry, `handleInterval` plus the extra of the strategy of the result being retried. */
  lemma {:induction false} ElementEventsWaits<E>(e: E, handleInterval: int, rs: seq<Result>, k: nat)
    requires k < |rs|
    ensures var waits := Durations(ElementEvents(e, handleInterval, rs, k), BeforeRetry);
      && |waits| == k
      && forall j :: 0 <= j < k ==> waits[j] == handleInterval + Extra(StrategyOf(rs[j]), j + 1)
  {
    if k == 0 {
      SingletonDurations(Handle(e, 0), BeforeRetry);
    } else {
      var before := ElementEvents(e, handleInterval, rs, k - 1);
      var step := [Delay(BeforeRetry, handleInterval + Extra(StrategyOf(rs[k - 1]), k)), Handle(e, k)];
      ElementEventsWaits(e, handleInterval, rs, k - 1);
      RetryStepProjections(e, step[0].duration, k);
      DurationsDistribute(before, step, BeforeRetry);
      var earlier := Durations(before, BeforeRetry);
      var waits := Durations(ElementEvents(e, handleInterval, rs, k), BeforeRetry);
      assert waits == earlier + [step[0].duration];
      forall j | 0 <= j < k ensures waits[j] == handleInterval + Extra(StrategyOf(rs[j]), j + 1) {
        if j < k - 1 {
          assert waits[j] == earlier[j];
        }
      }
    }
  }

  /** The backoff waits of one element, in order: one per retry, `handleInterval` plus the strategy's extra. */
  lemma RetrySchedule<E>(e: E, handleInterval: int, rs: seq<Result>)
    requires |rs| >= 1
    ensures var waits := Durations(ElementTrace(e, handleInterval, rs), BeforeRetry);
      && |waits| == |rs| - 1
      && forall k :: 0 <= k < |waits| ==> waits[k] == handleInterval + Extra(StrategyOf(rs[k]), k + 1)
  {
    ElementEventsWaits(e, handleInterval, rs, |rs| - 1);
  }

  // ---------------------------------------------------------------------------
  // Handling one element
  // ---------------------------------------------------------------------------

  /** The events the loop produces for `e`. */
  function HandleTrace<E(!new)>(handle: (E, nat) -> Result, bound: nat, handleInterval: int, e: E): seq<Event<E>>
    requires LimitsBounded(handle, bound)
  {
    ElementTrace(e, handleInterval, Lineage(handle, bound, e))
  }

  /**
   * The body of the element loop: call the handler and, while the latest
   * result is a Retry under its limit, count the attempt, wait with backoff
   * and call again, stamping the result with the attempt; a Retry left at the
   * end becomes a Failure.
   */
  method HandleElement<E(!new)>(handle: (E, nat) -> Result, bound: nat, handleInterval: int, e: E)
    returns (result: Result, trace: seq<Event<E>>)
    requires LimitsBounded(handle, bound)
    ensures result == Outcome(handle, bound, e)
    ensures trace == HandleTrace(handle, bound, handleInterval, e)
  {
    ghost var lineage := Lineage(handle, bound, e);
    LineageIsLineage(handle, bound, e);
    result := handle(e, 0);
    trace := [Handle(e, 0)];
    if result.Retry? {
      var time := 0;
      while result.Retry? && time < result.limit
        invariant time < |lineage| && lineage[time] == result
        invariant trace == ElementEvents(e, handleInterval, lineage, time)
        decreases |lineage| - time
      {
        assert time + 1 < |lineage|;
        time := time + 1;
        var extraInterval := match result.strategy
          case Stable => 0
          case LinearUniform(increment) => increment * time;
        trace := trace + [Delay(BeforeRetry, handleInterval + extraInterval)];
        result := handle(e, time).Retried(time);
        trace := trace + [Handle(e, time)];
      }
      assert time == |lineage| - 1;
      if result.Retry? {
        result := Failure(RetryOutOfLimitException);
      }
    } else {
      assert |lineage| == 1;
    }
  }

  // ---------------------------------------------------------------------------
  // One cycle: pull, handle each element, wait
  // ---------------------------------------------------------------------------

  /** The events of handling a batch: each element's events, with a `handleInterval` wait between two elements. */
  function BatchTrace<E(!new)>(handle: (E, nat) -> Result, bound: nat, handleInterval: int, batch: seq<E>): seq<Event<E>>
    requires LimitsBounded(handle, bound)
    decreases |batch|
  {
    if batch == [] then []
    else
      HandleTrace(handle, bound, handleInterval, batch[0])
      + (if |batch| == 1 then []
         else [Delay(BetweenElements, handleInterval)] + BatchTrace(handle, bound, handleInterval, batch[1..]))
  }

  /** The events of one cycle of the loop: pull, the batch, and the `pullInterval` wait. */
  function CycleTrace<E(!new)>(handle: (E, nat) -> Result, bound: nat, intervals: Intervals, batch: seq<E>): seq<Event<E>>
    requires LimitsBounded(handle, bound)
  {
    [Pull] + BatchTrace(handle, bound, intervals.handleInterval, batch) + [Delay(BeforePull, intervals.pullInterval)]
  }

  /** The outcome of every element of the batch, in order. */
  function Outcomes<E(!new)>(handle: (E, nat) -> Result, bound: nat, batch: seq<E>): (rs: seq<Result>)
    requires LimitsBounded(handle, bound)
    ensures |rs| == |batch|
    ensures forall i :: 0 <= i < |batch| ==> rs[i] == Outcome(handle, bound, batch[i])
    decreases |batch|
  {
    if batch == [] then [] else [Outcome(handle, bound, batch[0])] + Outcomes(handle, bound, batch[1..])
  }

  /**
   * One iteration of the `while (true)` loop, with `batch` the list `pull()`
   * returned. The source computes each element's final result and drops it;
   * `outcomes` exposes those values.
   */
  method RunCycle<E(!new)>(handle: (E, nat) -> Result, bound: nat, intervals: Intervals, batch: seq<E>)
    returns (outcomes: seq<Result>, trace: seq<Event<E>>)
    requires LimitsBounded(handle, bound)
    ensures outcomes == Outcomes(handle, bound, batch)
    ensures trace == CycleTrace(handle, bound, intervals, batch)
  {
    trace := [Pull];
    outcomes := [];
    var i := 0;
    while i < |batch|
      invariant 0 <= i <= |batch|
      invariant outcomes == Outcomes(handle, bound, batch[..i])
      invariant trace + BatchTrace(handle, bound, intervals.handleInterval, batch[i..])
             == [Pull] + BatchTrace(handle, bound, intervals.handleInterval, batch)
    {
      var element := batch[i];
      var result, elementTrace := HandleElement(handle, bound, intervals.handleInterval, element);
      BatchStep(handle, bound, intervals.handleInterval, batch, i, trace);
      trace := trace + elementTrace;
      if i + 1 < |batch| {
        trace := trace + [Delay(BetweenElements, intervals.handleInterval)];
      }
      OutcomesSnoc(handle, bound, batch[..i], element);
      assert batch[..i + 1] == batch[..i] + [element];
      outcomes := outcomes + [result];
      i := i + 1;
    }
    assert batch[..i] == batch;
    trace := trace + [Delay(BeforePull, intervals.pullInterval)];
  }

  /** One element of RunCycle's loop: its events and, unless it is the last, the wait after it. */
  lemma BatchStep<E(!new)>(handle: (E, nat) -> Result, bound: nat, handleInterval: int, batch: seq<E>, i: nat, done: seq<Event<E>>)
    requires LimitsBounded(handle, bound) && i < |batch|
    ensures var head := HandleTrace(handle, bound, handleInterval, batch[i]);
      var gap := if i + 1 < |batch| then [Delay(BetweenElements, handleInterval)] else [];
      done + BatchTrace(handle, bound, handleInterval, batch[i..])
      == (done + head + gap) + BatchTrace(handle, bound, handleInterval, batch[i + 1..])
  {
    var head := HandleTrace(handle, bound, handleInterval, batch[i]);
    assert batch[i..][0] == batch[i];
    if i + 1 < |batch| {
      var gap := [Delay(BetweenElements, handleInterval)];
      var rest := BatchTrace(handle, bound, handleInterval, batch[i + 1..]);
      assert batch[i..][1..] == batch[i + 1..];
      assert BatchTrace(handle, bound, handleInterval, batch[i..]) == head + (gap + rest);
      assert done + (head + (gap + rest)) == (done + head + gap) + rest;
    } else {
      assert batch[i + 1..] == [];
      assert BatchTrace(handle, bound, handleInterval, batch[i..]) == head;
      assert done + head == (done + head + []) + [];
    }
  }

  lemma {:induction false} OutcomesSnoc<E(!new)>(handle: (E, nat) -> Result, bound: nat, batch: seq<E>, e: E)
    requires LimitsBounded(handle, bound)
    ensures Outcomes(handle, bound, batch + [e]) == Outcomes(handle, bound, batch) + [Outcome(handle, bound, e)]
  {
  }

  /** `n` waits of `duration` each. */
  function Repeat(duration: int, n: nat): (ds: seq<int>)
    ensures |ds| == n
  {
    if n == 0 then [] else [duration] + Repeat(duration, n - 1)
  }

  /** The projections of the wait between two elements. */
  lemma GapProjections<E>(handleInterval: int)
    ensures var gap: seq<Event<E>> := [Delay(BetweenElements, handleInterval)];
      && Starts(gap) == [] && Calls(gap) == 0
      && Durations(gap, BetweenElements) == [handleInterval]
      && Durations(gap, BeforePull) == []
      && Pulls(gap) == 0
  {
    var gap: Event<E> := Delay(BetweenElements, handleInterval);
    SingletonCounts(gap);
    SingletonDurations(gap, BetweenElements);
    SingletonDurations(gap, BeforePull);
  }

  /** The events the loop produces for one element: it is started once and handled between 1 and `bound + 1` times, with no pull and no wait of the other sites. */
  lemma HandleTraceProjections<E(!new)>(handle: (E, nat) -> Result, bound: nat, handleInterval: int, e: E)
    requires LimitsBounded(handle, bound)
    ensures var trace := HandleTrace(handle, bound, handleInterval, e);
      && Starts(trace) == [e]
      && 1 <= Calls(trace) <= bound + 1
      && Durations(trace, BetweenElements) == []
      && Durations(trace, BeforePull) == []
      && Pulls(trace) == 0
  {
    LineageIsLineage(handle, bound, e);
    ElementTraceProjections(e, handleInterval, Lineage(handle, bound, e));
  }

  lemma MulSucc(n: nat, m: nat)
    ensures (n + 1) * m == m + n * m
  {
  }

  /** The projections of one element's events, the wait after it, and the events of the elements after that. */
  lemma GlueProjections<E>(e: E, head: seq<Event<E>>, handleInterval: int, rest: seq<Event<E>>, later: seq<E>)
    requires Starts(head) == [e] && Durations(head, BetweenElements) == []
    requires Durations(head, BeforePull) == [] && Pulls(head) == 0
    requires Starts(rest) == later && |later| >= 1
    requires Durations(rest, BetweenElements) == Repeat(handleInterval, |later| - 1)
    requires Durations(rest, BeforePull) == [] && Pulls(rest) == 0
    ensures var trace := head + ([Delay(BetweenElements, handleInterval)] + rest);
      && Starts(trace) == [e] + later
      && Durations(trace, BetweenElements) == Repeat(handleInterval, |later|)
      && Durations(trace, BeforePull) == []
      && Pulls(trace) == 0
  {
    var gap: seq<Event<E>> := [Delay(BetweenElements, handleInterval)];
    GapProjections<E>(handleInterval);
    CountsDistribute(gap, rest);
    CountsDistribute(head, gap + rest);
    DurationsDistribute(gap, rest, BetweenElements);
    DurationsDistribute(head, gap + rest, BetweenElements);
    DurationsDistribute(gap, rest, BeforePull);
    DurationsDistribute(head, gap + rest, BeforePull);
    var trace := head + (gap + rest);
    var none: seq<int> := [];
    var gaps := Repeat(handleInterval, |later| - 1);
    assert Starts(trace) == [e] + ([] + later);
    assert [] + later == later;
    assert Durations(trace, BetweenElements) == none + ([handleInterval] + gaps);
    assert none + ([handleInterval] + gaps) == [handleInterval] + gaps;
    assert Durations(trace, BeforePull) == none + (none + none);
  }

  /** A batch's events: pull order of first calls, one wait between two elements, no pull and no pull wait. */
  lemma {:induction false} BatchTraceProjections<E(!new)>(handle: (E, nat) -> Result, bound: nat, handleInterval: int, batch: seq<E>)
    requires LimitsBounded(handle, bound)
    ensures var trace := BatchTrace(handle, bound, handleInterval, batch);
      && Starts(trace) == batch
      && Durations(trace, BetweenElements) == Repeat(handleInterval, if batch == [] then 0 else |batch| - 1)
      && Durations(trace, BeforePull) == []
      && Pulls(trace) == 0
    decreases |batch|
  {
    if batch != [] {
      var e := batch[0];
      var head := HandleTrace(handle, bound, handleInterval, e);
      HandleTraceProjections(handle, bound, handleInterval, e);
      if |batch| == 1 {
        assert BatchTrace(handle, bound, handleInterval, batch) == head;
      } else {
        var rest := BatchTrace(handle, bound, handleInterval, batch[1..]);
        BatchTraceProjections(handle, bound, handleInterval, batch[1..]);
        GlueProjections(e, head, handleInterval, rest, batch[1..]);
        assert BatchTrace(handle, bound, handleInterval, batch) == head + ([Delay(BetweenElements, handleInterval)] + rest);
        assert batch == [e] + batch[1..];
      }
    }
  }

  /** Every wait between elements is immediately followed by the first call of an element. */
  predicate GapsPrecedeStarts<E>(trace: seq<Event<E>>) {
    forall p :: 0 <= p < |trace| && trace[p].Delay? && trace[p].site == BetweenElements ==>
      p + 1 < |trace| && trace[p + 1].Handle? && trace[p + 1].time == 0
  }

  /** One element's events open with its first call, close with a call, and hold no wait between elements. */
  lemma HandleTraceEnds<E(!new)>(handle: (E, nat) -> Result, bound: nat, handleInterval: int, e: E)
    requires LimitsBounded(handle, bound)
    ensures var trace := HandleTrace(handle, bound, handleInterval, e);
      && |trace| >= 1 && trace[0] == Handle(e, 0) && trace[|trace| - 1].Handle?
      && forall p :: 0 <= p < |trace| ==> !(trace[p].Delay? && trace[p].site == BetweenElements)
  {
    var rs := Lineage(handle, bound, e);
    ElementTraceAt(e, handleInterval, rs);
    var trace := ElementTrace(e, handleInterval, rs);
    assert (|trace| - 1) % 2 == 0;
  }

  /** An element's events, a wait, and the events of later elements keep every wait between elements in front of a first call. */
  lemma GlueGaps<E>(head: seq<Event<E>>, handleInterval: int, rest: seq<Event<E>>, next: E)
    requires forall p :: 0 <= p < |head| ==> !(head[p].Delay? && head[p].site == BetweenElements)
    requires |rest| >= 1 && rest[0] == Handle(next, 0) && rest[|rest| - 1].Handle?
    requires GapsPrecedeStarts(rest)
    ensures var trace := head + ([Delay(BetweenElements, handleInterval)] + rest);
      GapsPrecedeStarts(trace) && trace[|trace| - 1].Handle?
  {
    var trace := head + ([Delay(BetweenElements, handleInterval)] + rest);
    forall p | 0 <= p < |trace| && trace[p].Delay? && trace[p].site == BetweenElements
      ensures p + 1 < |trace| && trace[p + 1].Handle? && trace[p + 1].time == 0
    {
      if p == |head| {
        assert trace[p + 1] == rest[0];
      } else if p > |head| {
        assert trace[p] == rest[p - |head| - 1];
        assert trace[p + 1] == rest[p - |head|];
      }
    }
    assert trace[|trace| - 1] == rest[|rest| - 1];
  }

  /**
   * Where the waits between elements fall: each one comes right before the
   * first call of the next element, and a batch's events end with a handler
   * call, so there is no such wait after the last element.
   */
  lemma {:induction false} BatchGaps<E(!new)>(handle: (E, nat) -> Result, bound: nat, handleInterval: int, batch: seq<E>)
    requires LimitsBounded(handle, bound)
    ensures var trace := BatchTrace(handle, bound, handleInterval, batch);
      && GapsPrecedeStarts(trace)
      && (batch != [] ==> |trace| >= 1 && trace[0] == Handle(batch[0], 0) && trace[|trace| - 1].Handle?)
    decreases |batch|
  {
    if batch != [] {
      var head := HandleTrace(handle, bound, handleInterval, batch[0]);
      HandleTraceEnds(handle, bound, handleInterval, batch[0]);
      if |batch| == 1 {
        assert BatchTrace(handle, bound, handleInterval, batch) == head;
      } else {
        var rest := BatchTrace(handle, bound, handleInterval, batch[1..]);
        BatchGaps(handle, bound, handleInterval, batch[1..]);
        GlueGaps(head, handleInterval, rest, batch[1..][0]);
        var trace := head + ([Delay(BetweenElements, handleInterval)] + rest);
        assert BatchTrace(handle, bound, handleInterval, batch) == trace;
        assert trace[0] == head[0];
      }
    }
  }

  /** In a cycle too, every wait between elements is followed by the first call of the next element. */
  lemma CycleGaps<E(!new)>(handle: (E, nat) -> Result, bound: nat, intervals: Intervals, batch: seq<E>)
    requires LimitsBounded(handle, bound)
    ensures GapsPrecedeStarts(CycleTrace(handle, bound, intervals, batch))
  {
    var body := BatchTrace(handle, bound, intervals.handleInterval, batch);
    BatchGaps(handle, bound, intervals.handleInterval, batch);
    var trace := CycleTrace(handle, bound, intervals, batch);
    assert trace == [Pull] + body + [Delay(BeforePull, intervals.pullInterval)];
    forall p | 0 <= p < |trace| && trace[p].Delay? && trace[p].site == BetweenElements
      ensures p + 1 < |trace| && trace[p + 1].Handle? && trace[p + 1].time == 0
    {
      assert 1 <= p < |trace| - 1;
      assert trace[p] == body[p - 1];
      assert trace[p + 1] == body[p];
    }
  }

  /** A batch of n elements costs between n and n * (bound + 1) handler calls. */
  lemma {:induction false} BatchTraceCalls<E(!new)>(handle: (E, nat) -> Result, bound: nat, handleInterval: int, batch: seq<E>)
    requires LimitsBounded(handle, bound)
    ensures |batch| <= Calls(BatchTrace(handle, bound, handleInterval, batch)) <= |batch| * (bound + 1)
    decreases |batch|
  {
    if batch != [] {
      var e := batch[0];
      var head := HandleTrace(handle, bound, handleInterval, e);
      HandleTraceProjections(handle, bound, handleInterval, e);
      if |batch| > 1 {
        var rest := BatchTrace(handle, bound, handleInterval, batch[1..]);
        BatchTraceCalls(handle, bound, handleInterval, batch[1..]);
        var gap: seq<Event<E>> := [Delay(BetweenElements, handleInterval)];
        GapProjections<E>(handleInterval);
        CountsDistribute(gap, rest);
        CountsDistribute(head, gap + rest);
        assert BatchTrace(handle, bound, handleInterval, batch) == head + (gap + rest);
        var n := |batch| - 1;
        MulSucc(n, bound + 1);
        assert Calls(BatchTrace(handle, bound, handleInterval, batch)) == Calls(head) + Calls(rest);
        assert Calls(rest) <= n * (bound + 1);
      } else {
        assert BatchTrace(handle, bound, handleInterval, batch) == head;
        MulSucc(0, bound + 1);
      }
    }
  }

  /** The projections of a pull, some events, and a wait of `pullInterval`. */
  lemma FrameProjections<E>(body: seq<Event<E>>, pullInterval: int)
    ensures var trace := [Pull] + body + [Delay(BeforePull, pullInterval)];
      && Pulls(trace) == 1 + Pulls(body)
      && Durations(trace, BeforePull) == Durations(body, BeforePull) + [pullInterval]
      && Calls(trace) == Calls(body)
      && Starts(trace) == Starts(body)
      && Durations(trace, BetweenElements) == Durations(body, BetweenElements)
  {
    var first: seq<Event<E>> := [Pull];
    var last: seq<Event<E>> := [Delay(BeforePull, pullInterval)];
    SingletonCounts(first[0]);
    SingletonCounts(last[0]);
    SingletonDurations(first[0], BeforePull);
    SingletonDurations(last[0], BeforePull);
    SingletonDurations(first[0], BetweenElements);
    SingletonDurations(last[0], BetweenElements);
    CountsDistribute(first, body);
    CountsDistribute(first + body, last);
    DurationsDistribute(first, body, BeforePull);
    DurationsDistribute(first + body, last, BeforePull);
    DurationsDistribute(first, body, BetweenElements);
    DurationsDistribute(first + body, last, BetweenElements);
    var none: seq<int> := [];
    var noElements: seq<E> := [];
    var starts := Starts(body);
    var pullWaits := Durations(body, BeforePull);
    var gaps := Durations(body, BetweenElements);
    assert Starts(first + body) == noElements + starts;
    assert noElements + starts == starts;
    assert starts + noElements == starts;
    assert Durations(first + body, BeforePull) == none + pullWaits;
    assert none + pullWaits == pullWaits;
    assert Durations(first + body, BetweenElements) == none + gaps;
    assert none + gaps == gaps;
    assert gaps + none == gaps;
  }

  /** One cycle starts with its single pull and ends with its single wait of `pullInterval`. */
  lemma CycleFrame<E(!new)>(handle: (E, nat) -> Result, bound: nat, intervals: Intervals, batch: seq<E>)
    requires LimitsBounded(handle, bound)
    ensures var trace := CycleTrace(handle, bound, intervals, batch);
      && trace[0] == Pull && Pulls(trace) == 1
      && trace[|trace| - 1] == Delay(BeforePull, intervals.pullInterval)
      && Durations(trace, BeforePull) == [intervals.pullInterval]
  {
    var body := BatchTrace(handle, bound, intervals.handleInterval, batch);
    BatchTraceProjections(handle, bound, intervals.handleInterval, batch);
    FrameProjections(body, intervals.pullInterval);
    assert [] + [intervals.pullInterval] == [intervals.pullInterval];
  }

  /**
   * Within one cycle every pulled element is started once and in pull
   * order, with between one and `bound + 1` calls per element, and the
   * `handleInterval` wait comes only between two elements (n - 1 times),
   * each right before the next element's first call.
   */
  lemma CycleWork<E(!new)>(handle: (E, nat) -> Result, bound: nat, intervals: Intervals, batch: seq<E>)
    requires LimitsBounded(handle, bound)
    ensures var trace := CycleTrace(handle, bound, intervals, batch);
      && Starts(trace) == batch
      && |batch| <= Calls(trace) <= |batch| * (bound + 1)
      && Durations(trace, BetweenElements) == Repeat(intervals.handleInterval, if batch == [] then 0 else |batch| - 1)
      && GapsPrecedeStarts(trace)
  {
    CycleGaps(handle, bound, intervals, batch);
    FrameProjections(BatchTrace(handle, bound, intervals.handleInterval, batch), intervals.pullInterval);
    BatchTraceProjections(handle, bound, intervals.handleInterval, batch);
    BatchTraceCalls(handle, bound, intervals.handleInterval, batch);
  }

  // ---------------------------------------------------------------------------
  // A bounded number of cycles
  // ---------------------------------------------------------------------------

  /** The events of the loop over successive pulls. */
  function RunTrace<E(!new)>(handle: (E, nat) -> Result, bound: nat, intervals: Intervals, batches: seq<seq<E>>): seq<Event<E>>
    requires LimitsBounded(handle, bound)
    decreases |batches|
  {
    if batches == [] then []
    else RunTrace(handle, bound, intervals, batches[..|batches| - 1])
         + CycleTrace(handle, bound, intervals, batches[|batches| - 1])
  }

  /** The pulled batches, concatenated. */
  function Flatten<E>(batches: seq<seq<E>>): seq<E> {
    if batches == [] then [] else Flatten(batches[..|batches| - 1]) + batches[|batches| - 1]
  }

  /**
   * The first |batches| cycles of the `while (true)` loop, with `batches[c]`
   * what the c-th `pull()` returned.
   */
  method RunCycles<E(!new)>(handle: (E, nat) -> Result, bound: nat, intervals: Intervals, batches: seq<seq<E>>)
    returns (outcomes: seq<seq<Result>>, trace: seq<Event<E>>)
    requires LimitsBounded(handle, bound)
    ensures |outcomes| == |batches|
    ensures forall c :: 0 <= c < |batches| ==> outcomes[c] == Outcomes(handle, bound, batches[c])
    ensures trace == RunTrace(handle, bound, intervals, batches)
  {
    outcomes := [];
    trace := [];
    var c := 0;
    while c < |batches|
      invariant 0 <= c <= |batches|
      invariant |outcomes| == c
      invariant forall d :: 0 <= d < c ==> outcomes[d] == Outcomes(handle, bound, batches[d])
      invariant trace == RunTrace(handle, bound, intervals, batches[..c])
    {
      var all := batches[c];
      var cycleOutcomes, cycleTrace := RunCycle(handle, bound, intervals, all);
      assert batches[..c + 1][..c] == batches[..c];
      outcomes := outcomes + [cycleOutcomes];
      trace := trace + cycleTrace;
      c := c + 1;
    }
    assert batches[..c] == batches;
  }

  /**
   * Over any number of cycles: one pull per cycle, each followed eventually by
   * exactly one `pullInterval` wait, and the elements are started in the
   * order they were pulled, cycle after cycle.
   */
  lemma {:induction false} RunProperties<E(!new)>(handle: (E, nat) -> Result, bound: nat, intervals: Intervals, batches: seq<seq<E>>)
    requires LimitsBounded(handle, bound)
    ensures var trace := RunTrace(handle, bound, intervals, batches);
      && Pulls(trace) == |batches|
      && |Durations(trace, BeforePull)| == |batches|
      && (forall k :: 0 <= k < |batches| ==> Durations(trace, BeforePull)[k] == intervals.pullInterval)
      && Starts(trace) == Flatten(batches)
    decreases |batches|
  {
    if batches != [] {
      var prefix := batches[..|batches| - 1];
      RunProperties(handle, bound, intervals, prefix);
      CycleFrame(handle, bound, intervals, batches[|batches| - 1]);
      CycleWork(handle, bound, intervals, batches[|batches| - 1]);
      CountsDistribute(RunTrace(handle, bound, intervals, prefix),
                       CycleTrace(handle, bound, intervals, batches[|batches| - 1]));
      DurationsDistribute(RunTrace(handle, bound, intervals, prefix),
                          CycleTrace(handle, bound, intervals, batches[|batches| - 1]), BeforePull);
    }
  }

  // ---------------------------------------------------------------------------
  // Scenarios
  // ---------------------------------------------------------------------------

  /** A handler that asks for up to three retries on its first two calls and succeeds on the third. */
  function RetryTwiceThenSucceed(file: string, time: nat): Result {
    if time < 2 then Retry(3) else Success
  }

  /** A handler that always asks for up to two retries. */
  function AlwaysRetry(file: string, time: nat): Result {
    Retry(2)
  }

  /** A handler that always asks for up to three retries with a linearly growing wait. */
  function AlwaysRetryLinear(increment: int): (string, nat) -> Result {
    (file: string, time: nat) => Retry(3, 0, LinearUniform(increment))
  }

  lemma RetryTwiceThenSucceedScenario(e: string, handleInterval: int)
    ensures LimitsBounded(RetryTwiceThenSucceed, 3)
    ensures |Lineage(RetryTwiceThenSucceed, 3, e)| == 3
    ensures Outcome(RetryTwiceThenSucceed, 3, e) == Success
    ensures Durations(HandleTrace(RetryTwiceThenSucceed, 3, handleInterval, e), BeforeRetry)
         == [handleInterval, handleInterval]
  {
    var h: (string, nat) -> Result := RetryTwiceThenSucceed;
    assert LineageFrom(h, 3, e, h(e, 2).Retried(2), 2) == [Success];
    assert LineageFrom(h, 3, e, h(e, 1).Retried(1), 1) == [Retry(3, 1, Stable), Success];
    var rs := Lineage(h, 3, e);
    assert rs == [Retry(3), Retry(3, 1, Stable), Success];
    RetrySchedule(e, handleInterval, rs);
  }

  lemma AlwaysRetryScenario(e: string, handleInterval: int)
    ensures LimitsBounded(AlwaysRetry, 2)
    ensures |Lineage(AlwaysRetry, 2, e)| == 3
    ensures Outcome(AlwaysRetry, 2, e) == Failure(RetryOutOfLimitException)
  {
    var h: (string, nat) -> Result := AlwaysRetry;
    assert LineageFrom(h, 2, e, h(e, 2).Retried(2), 2) == [Retry(2, 2, Stable)];
    assert LineageFrom(h, 2, e, h(e, 1).Retried(1), 1) == [Retry(2, 1, Stable), Retry(2, 2, Stable)];
  }

  lemma AlwaysRetryLinearScenario(e: string, handleInterval: int, increment: int)
    ensures LimitsBounded(AlwaysRetryLinear(increment), 3)
    ensures Durations(HandleTrace(AlwaysRetryLinear(increment), 3, handleInterval, e), BeforeRetry)
         == [handleInterval + increment, handleInterval + 2 * increment, handleInterval + 3 * increment]
  {
    var h := AlwaysRetryLinear(increment);
    var s := LinearUniform(increment);
    assert LineageFrom(h, 3, e, h(e, 3).Retried(3), 3) == [Retry(3, 3, s)];
    assert LineageFrom(h, 3, e, h(e, 2).Retried(2), 2) == [Retry(3, 2, s), Retry(3, 3, s)];
    assert LineageFrom(h, 3, e, h(e, 1).Retried(1), 1) == [Retry(3, 1, s), Retry(3, 2, s), Retry(3, 3, s)];
    var rs := Lineage(h, 3, e);
    assert rs == [Retry(3, 0, s), Retry(3, 1, s), Retry(3, 2, s), Retry(3, 3, s)];
    RetrySchedule(e, handleInterval, rs);
    var waits := Durations(HandleTrace(h, 3, handleInterval, e), BeforeRetry);
    assert |waits| == 3;
    assert waits[0] == handleInterval + increment * 1;
    assert waits[1] == handleInterval + increment * 2;
    assert waits[2] == handleInterval + increment * 3;
  }
}
