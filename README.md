# coroutine-task, modelled in Dafny

A model of the core of the Kotlin library `coroutine-task`. It covers three things:

- **The continuously running task.** It repeatedly pulls a list of elements and hands each element to a handler.
- **The retry engine.** A handler may answer `Retry(limit, attempt, strategy)`. The task then calls it again after a backoff wait, until it gets an answer that is not a Retry or runs out of attempts. A Retry still standing at that point becomes `Failure(RetryOutOfLimitException)`.
- **The priority overlay.** It keeps a list of promoted elements and reorders the handleable elements by membership in that list.

The model has one module per Kotlin file:

- `coroutine_task.dfy` (module `CoroutineTask`) holds the shared value types:
  - `Result` with its `.retry(time)` stamping (`Retried`);
  - the task `Status`;
  - `History`;
  - the `cancelled` getter (`IsCancelled`);
  - the coroutine `Job`, reduced to its cancel flag.
- `abstract_coroutine_task.dfy` (module `AbstractCoroutineTask`) holds the skeletal task:
  - **Status transitions.** The `Task` class has the `status` and `cancellation` fields. `run`, `cancel` and the job's completion handler update them in place.
  - **The loop itself.** Imperative methods model the three nested loops of `runImpl`:
    - `HandleElement` is the retry loop for one element;
    - `RunCycle` handles one pulled batch;
    - `RunCycles` runs a bounded number of cycles.

    Each method is proved against a specification function. Each returns the results the source computes and then drops: `HandleElement` the element's final result, `RunCycle` the results of one batch, `RunCycles` the results of every cycle. Each also returns the trace of events it produced: pulls, handler calls with their attempt counter, and waits tagged with the `delay` call that made them.
  - **The declarative meaning of one element's retries.** `Lineage` is the sequence of results seen for an element. `IsLineage` is the loop's meaning stated with quantifiers. `LineageIsLineage` and `LineageIsUnique` prove that the two agree.
  - **Properties of the traces.** Lemmas state the calls per element, the backoff schedule, the pull order of first calls, the waits between elements and the one pull and one pull wait per cycle.
- `prioritize_coroutine_task.dfy` (module `PrioritizeCoroutineTask`) holds the priority overlay. `sortedBy { it in priorities }` is modelled as a stable insertion sort (`SortedByMembership`), proved equal to a stable partition with the promoted elements last. `PrioritizeTask.FilterHandleable` returns that order, as the code does. The order a promotion is meant to give (`PromotedFirst`) is defined and proved beside it; see Findings.

The loop's environment is handled as follows:

- **`pull()`.** The batches it returns are inputs to the model.
- **`handle(element)`.** The handler is a function of the element and of the loop's attempt counter at the time of the call. The first call counts as attempt 0.
- **`delay`.** Waits are recorded as events, with durations as unbounded integers.

## Model

| member | source | states |
|---|---|---|
| CoroutineTask.IsCancelled | src/main/kotlin/com/oxy/coroutine/task/CoroutineTask.kt:30-31 | a status is cancelled exactly when it is a Cancelled value, whatever its cause |
| CoroutineTask.CancelledWithoutCause | src/main/kotlin/com/oxy/coroutine/task/CoroutineTask.kt:36 | `Cancelled()` made without a cause carries no cause and counts as cancelled |
| CoroutineTask.IdleIsNotCancelled | src/main/kotlin/com/oxy/coroutine/task/CoroutineTask.kt:29-31 | the initial Idle status is not cancelled |
| CoroutineTask.HistoryDefaultsToIdle | src/main/kotlin/com/oxy/coroutine/task/CoroutineTask.kt:46-49 | a History built without a result records Idle |
| CoroutineTask.RetriedKeepsLimitAndStrategy | src/main/kotlin/com/oxy/coroutine/task/AbstractCoroutineTask.kt:62 | `.retry(time)` keeps a result a Retry exactly when it was one; on a Retry it keeps limit and strategy and sets the attempt to `time` |
| CoroutineTask.Job.Cancel | src/main/kotlin/com/oxy/coroutine/task/AbstractCoroutineTask.kt:41 | cancelling a job marks it as asked to cancel |
| AbstractCoroutineTask.Task.constructor | src/main/kotlin/com/oxy/coroutine/task/CoroutineTask.kt:29 | a new task is Idle with no pending cancel callback, so it is not cancelled |
| AbstractCoroutineTask.Task.Run | src/main/kotlin/com/oxy/coroutine/task/AbstractCoroutineTask.kt:17-28 | `run` launches a fresh, uncancelled job and the status becomes Executing with that job; the pending callback is untouched |
| AbstractCoroutineTask.Task.Cancel | src/main/kotlin/com/oxy/coroutine/task/AbstractCoroutineTask.kt:35-44 | `cancel(cause)` stores a callback that yields `cause`, cancels the job exactly when the task is Executing and leaves the status unchanged |
| AbstractCoroutineTask.Task.OnJobCompletion | src/main/kotlin/com/oxy/coroutine/task/AbstractCoroutineTask.kt:20-24 | on a normal or cancelled completion the status becomes Cancelled with the pending callback's cause (none if no callback) and the callback is cleared; any other failure changes nothing |
| AbstractCoroutineTask.Lineage | src/main/kotlin/com/oxy/coroutine/task/AbstractCoroutineTask.kt:52-63 | the results seen for one element start with the first call's result and number between 1 and `bound + 1` |
| AbstractCoroutineTask.Outcome | src/main/kotlin/com/oxy/coroutine/task/AbstractCoroutineTask.kt:52-67 | an element's final result is never a Retry; it is the last result seen, with a surviving Retry replaced by `Failure(RetryOutOfLimitException)` |
| AbstractCoroutineTask.LineageIsLineage | src/main/kotlin/com/oxy/coroutine/task/AbstractCoroutineTask.kt:52-63 | the lineage meets the loop's meaning: first call with attempt 0, call k stamped with `.retry(k)`, the loop condition holds after every result but the last and fails after the last |
| AbstractCoroutineTask.LineageIsUnique | src/main/kotlin/com/oxy/coroutine/task/AbstractCoroutineTask.kt:52-63 | any sequence meeting the loop's meaning is the lineage, so the handler alone determines an element's results |
| AbstractCoroutineTask.AttemptsWithinLimit | src/main/kotlin/com/oxy/coroutine/task/AbstractCoroutineTask.kt:55-62 | every retry k follows a Retry whose limit is at least k, and a Retry it returns carries attempt k |
| AbstractCoroutineTask.FirstResultNotRetry | src/main/kotlin/com/oxy/coroutine/task/AbstractCoroutineTask.kt:52-53 | a first result that is not a Retry is the outcome, after exactly one call |
| AbstractCoroutineTask.ElementTraceAt | src/main/kotlin/com/oxy/coroutine/task/AbstractCoroutineTask.kt:52-62 | one element's events alternate: call k at position 2k with attempt counter k, and before it the backoff wait for retry k |
| AbstractCoroutineTask.ElementTraceProjections | src/main/kotlin/com/oxy/coroutine/task/AbstractCoroutineTask.kt:52-62 | one element is started once, makes one call per result, and makes no pull, no wait between elements and no pull wait |
| AbstractCoroutineTask.RetrySchedule | src/main/kotlin/com/oxy/coroutine/task/AbstractCoroutineTask.kt:57-61 | there is one backoff wait per retry; the wait before retry k is `handleInterval` plus nothing (Stable) or `increment * k` (LinearUniform) of the Retry being retried |
| AbstractCoroutineTask.HandleTraceProjections | src/main/kotlin/com/oxy/coroutine/task/AbstractCoroutineTask.kt:52-62 | the loop calls the handler between 1 and `bound + 1` times per element and starts it once |
| AbstractCoroutineTask.HandleElement | src/main/kotlin/com/oxy/coroutine/task/AbstractCoroutineTask.kt:51-67 | the retry loop's final `result` is the element's Outcome and its events are the element's trace |
| AbstractCoroutineTask.RunCycle | src/main/kotlin/com/oxy/coroutine/task/AbstractCoroutineTask.kt:48-74 | one cycle returns each element's Outcome in pull order and produces: pull, the batch's events, the pull wait |
| AbstractCoroutineTask.BatchTraceProjections | src/main/kotlin/com/oxy/coroutine/task/AbstractCoroutineTask.kt:49-73 | the elements of a batch are started in pull order, with exactly n - 1 waits of `handleInterval` and no pull; BatchGaps places those waits |
| AbstractCoroutineTask.HandleTraceEnds | src/main/kotlin/com/oxy/coroutine/task/AbstractCoroutineTask.kt:52-62 | one element's events begin with its first call, end with a call, and hold no wait between elements |
| AbstractCoroutineTask.BatchGaps | src/main/kotlin/com/oxy/coroutine/task/AbstractCoroutineTask.kt:50-72 | every wait between elements comes right before the next element's first call, and a batch's events start with the first element's first call and end with a call, so no such wait follows the last element |
| AbstractCoroutineTask.CycleGaps | src/main/kotlin/com/oxy/coroutine/task/AbstractCoroutineTask.kt:47-74 | within a cycle, every wait between elements comes right before the next element's first call |
| AbstractCoroutineTask.BatchTraceCalls | src/main/kotlin/com/oxy/coroutine/task/AbstractCoroutineTask.kt:49-63 | a batch of n elements costs between n and `n * (bound + 1)` handler calls |
| AbstractCoroutineTask.CycleFrame | src/main/kotlin/com/oxy/coroutine/task/AbstractCoroutineTask.kt:47-74 | a cycle begins with its only pull and ends with its only pull wait, of `pullInterval` |
| AbstractCoroutineTask.CycleWork | src/main/kotlin/com/oxy/coroutine/task/AbstractCoroutineTask.kt:49-73 | within a cycle the batch is started in pull order, with n to `n * (bound + 1)` calls and n - 1 waits of `handleInterval`, each right before the next element's first call |
| AbstractCoroutineTask.RunCycles | src/main/kotlin/com/oxy/coroutine/task/AbstractCoroutineTask.kt:46-76 | c cycles return the outcomes of each batch, cycle by cycle, and produce the concatenation of the c cycle traces |
| AbstractCoroutineTask.RunProperties | src/main/kotlin/com/oxy/coroutine/task/AbstractCoroutineTask.kt:47-75 | over c cycles there are c pulls and c pull waits of `pullInterval`, and elements are started in the order pulled, batch after batch |
| AbstractCoroutineTask.RetryTwiceThenSucceedScenario | src/main/kotlin/com/oxy/coroutine/task/AbstractCoroutineTask.kt:52-67 | a handler answering Retry(3) twice and then Success is called 3 times, ends in Success and waits `handleInterval` twice |
| AbstractCoroutineTask.AlwaysRetryScenario | src/main/kotlin/com/oxy/coroutine/task/AbstractCoroutineTask.kt:55-67 | a handler always answering Retry(2) is called 3 times and ends in `Failure(RetryOutOfLimitException)` |
| AbstractCoroutineTask.AlwaysRetryLinearScenario | src/main/kotlin/com/oxy/coroutine/task/AbstractCoroutineTask.kt:57-61 | with LinearUniform(i), the three waits are `handleInterval + i`, `+ 2i`, `+ 3i` |
| PrioritizeCoroutineTask.SortedByMembership | src/main/kotlin/com/oxy/coroutine/task/PrioritizeCoroutineTask.kt:26 | `sortedBy { it in priorities }` as a stable insertion sort on the Boolean key; its contract keeps the length, and SortedIsPartition gives its order |
| PrioritizeCoroutineTask.SortedIsPartition | src/main/kotlin/com/oxy/coroutine/task/PrioritizeCoroutineTask.kt:26 | the stable sort on `it in priorities` is exactly: the non-promoted elements, then the promoted ones, each in original order |
| PrioritizeCoroutineTask.PartitionProperties | src/main/kotlin/com/oxy/coroutine/task/PrioritizeCoroutineTask.kt:26 | that order is a permutation, stable within each group, with every non-promoted element before every promoted one |
| PrioritizeCoroutineTask.NothingPromotedKeepsOrder | src/main/kotlin/com/oxy/coroutine/task/PrioritizeCoroutineTask.kt:26 | when no element of the list is promoted (e.g. after `clear`), both orders leave the list unchanged |
| PrioritizeCoroutineTask.PromotedFirst | src/main/kotlin/com/oxy/coroutine/task/PrioritizeCoroutineTask.kt:26 | the intended order: a permutation, stable within each group, with every promoted element before every non-promoted one |
| PrioritizeCoroutineTask.OrdersSwapGroups | src/main/kotlin/com/oxy/coroutine/task/PrioritizeCoroutineTask.kt:26 | the code's order and the intended order have the same two groups, in opposite order |
| PrioritizeCoroutineTask.PromotedHandledLast | src/main/kotlin/com/oxy/coroutine/task/PrioritizeCoroutineTask.kt:26 | as written, with a, b, c handleable and b promoted, the order is a, c, b |
| PrioritizeCoroutineTask.PromotedHandledFirst | src/main/kotlin/com/oxy/coroutine/task/PrioritizeCoroutineTask.kt:26 | in the intended order, with a, b, c handleable and b promoted, the order is b, a, c |
| PrioritizeCoroutineTask.PrioritizeTask.constructor | src/main/kotlin/com/oxy/coroutine/task/PrioritizeCoroutineTask.kt:10 | the priority list starts empty |
| PrioritizeCoroutineTask.PrioritizeTask.Promote | src/main/kotlin/com/oxy/coroutine/task/PrioritizeCoroutineTask.kt:12-14 | `promote(e)` appends e to the list and keeps earlier entries, duplicates included |
| PrioritizeCoroutineTask.PrioritizeTask.Clear | src/main/kotlin/com/oxy/coroutine/task/PrioritizeCoroutineTask.kt:16-18 | `clear()` empties the list |
| PrioritizeCoroutineTask.PrioritizeTask.FilterHandleable | src/main/kotlin/com/oxy/coroutine/task/PrioritizeCoroutineTask.kt:20-27 | the handleable list is sorted by membership in `priorities`: a permutation, stable within each group, with every non-promoted element before every promoted one; with nothing promoted it is unchanged |

## Left out

- The coroutine machinery is left out: `coroutineScope`, `launch`, `suspendCoroutine` and the resumption of the `cancel` caller. `run`, `cancel` and the completion handler are separate methods, and the model does not capture how they interleave.
- The `synchronized(priorities)` blocks and all other concurrency are left out. Each class method is atomic in the model.
- The outer `while (true)` loop is modelled as a given, finite sequence of pulled batches (`RunCycles`), not as a loop that never ends.
- The constructor defaults `pullInterval = 1.seconds` and `handleInterval = 1.seconds` (AbstractCoroutineTask.kt:13-14) are left out. `Intervals` has no defaults, and both intervals are always given.
- Real time is left out. `delay` only records its duration, in an unbounded integer unit, so Kotlin `Duration` arithmetic (its saturation at the infinite duration, multiplication overflow) is not modelled.
- The result of handling an element is dropped by the loop in the source. The model returns it (`RunCycle`'s `outcomes`) so that it can be stated.
- `histories()` is abstract in `CoroutineTask.kt` (line 27) and has no implementation in the modelled code. The base `filterHandleable` and the `Histories` type are not part of this model. `runImpl` as written neither calls `filterHandleable` nor records histories, so the history store is not modelled. `FilterHandleable` takes the inherited filter's result as its input `base`.
- Result.Retried: `.retry(time)` is not defined in the model's source files. It is modelled as returning a copy of a Retry with the attempt set to `time`, and any other result unchanged.
- CoroutineTask.Result: `Retry` is declared in CoroutineTask.kt:43 as an object without fields, but the retry loop reads its `limit` and `strategy`. The model follows the loop: `Retry(limit, attempt, strategy)`, with `attempt` 0 and strategy Stable by default. The `DelayStrategy` type is taken from the loop's use of it.
- AbstractCoroutineTask.HandleElement: requires `LimitsBounded` (every Retry the handler can return has a limit of at most `bound`). Without it the loop can run forever, because the limit is re-read from every new result. The model does not cover such a handler.
- The handler is a function of the element and the attempt counter. Handlers with hidden state or side effects are modelled only through that counter. Exceptions thrown by the handler or by `pull()` (`AbstractCoroutineTask.kt`, line 48) are not modelled, because the loop does not catch them. Such an exception ends the loop part-way through a cycle and fails the job. The model cannot express that aborted cycle, because `RunCycles` takes the pulled batches as inputs. Only the status side is modelled: `Task.OnJobCompletion` with `CompletedExceptionally` leaves the status as it was.
- AbstractCoroutineTask.Task.Run: the source has no guard on `run`, so the model allows it from any status, including after cancellation.
- Declared in code that is not part of this model: `PriorityCoroutineTask.kt`, `CoroutineCancellable.kt`, and the example upload task, storage and data source.

## Findings

| source | as written | input that shows it | evidently intended | confidence | as-written member | corrected member |
|---|---|---|---|---|---|---|
| src/main/kotlin/com/oxy/coroutine/task/PrioritizeCoroutineTask.kt:26 | `sortedBy { it in priorities }` sorts on a Boolean key, where false comes before true, so promoted elements are handled last | handleable [a, b, c] after `promote(b)` gives [a, c, b] | promoted elements handled first: [b, a, c], others in pull order | medium, not executed | PrioritizeCoroutineTask.PromotedHandledLast | PrioritizeCoroutineTask.PromotedHandledFirst |

`SortedByMembership` models the code as written. `SortedIsPartition` and `PartitionProperties` state its order, and `OrdersSwapGroups` shows that it is the intended order with the two groups swapped. `PrioritizeTask.FilterHandleable` keeps the order of the code. `PromotedFirst` is the corrected order, with its permutation, stability and promoted-first properties proved.
