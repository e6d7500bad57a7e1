/**
 * The value types shared by every continuously running task: the outcome of
 * handling one element (Result), the lifecycle of the task (Status) and a
 * pulled element paired with its outcome (History).
 *
 * Kotlin's nullable references become Option; the kotlinx Job that runs the
 * task's loop is reduced to the one thing the task does with it, `cancel()`.
 */
module CoroutineTask {

  datatype Option<+T> = None | Some(value: T)

  /** A CancellationException; the task only passes it along, so identity is all it has. */
  datatype Cause = Cause(id: nat)

  /**
   * The exceptions a Failure carries: the one the retry loop synthesises when
   * a Retry outlives its limit, and whatever the handler reports itself.
   */
  datatype Exception = RetryOutOfLimitException | HandlerException(id: nat)

  /** How the wait before a retry grows with the attempt number. */
  datatype DelayStrategy = Stable | LinearUniform(increment: int)

  /**
   * The outcome of one `handle` call. Retry carries the number of retries
   * allowed, the attempt it belongs to and the backoff strategy; the demo
   * handlers build it with the limit alone.
   */
  datatype Result =
    | Idle
    | Success
    | Failure(e: Exception)
    | Retry(limit: int, attempt: int := 0, strategy: DelayStrategy := Stable)
  {
    /**
     * `.retry(time)`, applied by the retry loop to every re-invocation's
     * result: a Retry is stamped with the attempt number and keeps its limit
     * and strategy; any other result passes through unchanged.
     */
    function Retried(time: nat): Result {
      if Retry? then Retry(limit, time, strategy) else this
    }
  }

  /** The coroutine that runs a task's loop. */
  class Job {
    var cancelRequested: bool

    constructor ()
      ensures !cancelRequested
    {
      cancelRequested := false;
    }

    method Cancel()
      modifies this
      ensures cancelRequested
    {
      cancelRequested := true;
    }
  }

  /** The task lifecycle: Idle, then Executing its loop's job, then Cancelled with an optional cause. */
  datatype Status = Idle | Executing(job: Job) | Cancelled(cause: Option<Cause> := None)

  /** The `cancelled` getter: the task is cancelled exactly when its status is a Cancelled value, whatever the cause. */
  function IsCancelled(status: Status): (b: bool)
    ensures b <==> exists cause :: status == Status.Cancelled(cause)
  {
    match status
    case Cancelled(cause) =>
      assert status == Status.Cancelled(cause);
      true
    case _ => false
  }

  /** One pulled element and its latest outcome; a History made without a result records Idle. */
  datatype History<E> = History(value: E, result: Result := Result.Idle)

  lemma CancelledWithoutCause()
    ensures Status.Cancelled().cause == None
    ensures IsCancelled(Status.Cancelled())
  {
  }

  lemma HistoryDefaultsToIdle<E>(value: E)
    ensures History(value).result == Result.Idle
    ensures History(value) == History(value, Result.Idle)
  {
  }

  lemma IdleIsNotCancelled()
    ensures !IsCancelled(Status.Idle)
  {
  }

  /** `.retry(time)` never turns a result into or out of a Retry and keeps a Retry's limit and strategy. */
  lemma RetriedKeepsLimitAndStrategy(r: Result, time: nat)
    ensures r.Retried(time).Retry? <==> r.Retry?
    ensures r.Retry? ==> r.Retried(time).limit == r.limit && r.Retried(time).strategy == r.strategy
    ensures r.Retry? ==> r.Retried(time).attempt == time
  {
  }
}
