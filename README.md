# gojobs executor, modelled in Dafny

gojobs is an asynchronous job executor written in Go. A fixed pool of workers
shares a bounded jobs queue. A caller fires a payload, with callbacks or
synchronously. The executor hands the job to the queue. If no worker takes
the job before its expiry, the executor gives up and produces an `Expired`
result instead. Each worker runs a select loop over kill signals, jobs and
heartbeat timeouts. It writes each job's output to that job's own slot and
tears itself down once the loop ends.

This project models that core as sequential Dafny:

- `wrappers.dfy` holds `Option` and `Result`.
- `jobs.dfy` (module `Jobs`) holds durations and the `NeverExpires`
  sentinel, `min`, jobs, outputs, and callbacks with their nil-skipping
  dispatch.
- `worker.dfy` (module `Workers`) holds the worker and its status: Alive,
  then Zombie. It covers `newWorker`, `isAlive` and the guarded `die`. The
  `run` loop is a step function over the events its select observes.
- `executor.dfy` (module `Executors`) holds the worker uuids, `New`,
  `Destroy`, `fire` (dispatch or expire, on a logical clock),
  `processResult`, `FireJob`, `FireAndForgetJob` and `ExecuteJob`.

Every channel is replaced by the sequence of outcomes its loop observes:
- `Offer` for the send in `fire`;
- `SlotEvent` for a job's result slot;
- `ChannelEvent` for ExecuteJob's private channel;
- `Event` for a worker's select.

Each timed-out poll advances the logical clock by one poll interval. The
processor is a function from payload to value. The logger is reduced to
the error it may return when it is built.

Where one might expect something else of the code, the model follows the code:

- **Poll interval.** One might expect the last poll to be cut to the time
  left before expiry. The code always waits `min(heartbeat, expiresAfter)`
  (executor.go:121). So expiry is noticed at the first poll boundary at or
  after the deadline, and can overshoot it by up to one poll
  (`ExpiryLandsOnDeadline`, `ExpiryCanOvershoot`).
- **Expired result.** The `Expired` result of the expiry path never reaches
  a callback. `FireJob`, `FireAndForgetJob` and `ExecuteJob` are built on
  fire as written (`FireAsWritten`). So an expired job makes no callback
  call, and leaves `ExecuteJob`'s caller waiting. `Fire` is fire with the
  expiry path completed as evidently intended; the difference is the
  Findings row.

## Model

| member | source | states |
|---|---|---|
| Jobs.Min | executor.go:77-88 | the result is one of the two arguments; it is NeverExpires exactly when both are; it never exceeds an argument that is a real duration |
| Jobs.MinCommutes | executor.go:77-88 | the order of the arguments does not matter |
| Jobs.Invocations | executor.go:95-104 | running the callbacks for a result makes at most one call per callback, each with that same result |
| Jobs.InvocationsCount | executor.go:96-102 | exactly the non-nil callbacks are called: one call per callback minus the nil ones |
| Jobs.InvocationsNamed | executor.go:96-99 | every call is of a callback that was supplied |
| Jobs.InvocationsAppend | executor.go:96-103 | callbacks are run in list order: two lists in a row give the first list's calls, then the second's |
| Jobs.InvocationAt | executor.go:96-103 | the non-nil callback at position i is called right after the non-nil callbacks before it, with the result |
| Workers.Ends | worker.go:83-103 | the loop ends on the kill signal or the closed queue: never on a job, a heartbeat timeout or any other signal |
| Workers.Served | worker.go:80-108 | the loop processes at most one job per event it observes |
| Workers.ServedFromEvents | worker.go:94-98 | every job the loop processes was received by its select |
| Workers.OutputFor | worker.go:98-100 | the output for a job goes to that job's own slot under its correlation id, and a worker never writes Expired |
| Workers.Outputs | worker.go:94-100 | one output per job processed |
| Workers.Processing | worker.go:98 | one Process call per job processed |
| Workers.JobNumbers | worker.go:96-105 | one logged job number per job processed |
| Workers.ServedStopsAtEnd | worker.go:83-103 | no job after the kill signal or the closed queue is ever processed |
| Workers.NeutralEventIgnored | worker.go:89-107 | an unknown signal or a heartbeat timeout, at any point, changes neither the jobs processed nor whether the loop ends |
| Workers.ServedSnoc | worker.go:80-108 | while no event has ended the loop, one more event adds its job, if any, to the jobs processed |
| Workers.OutputsAt | worker.go:94-100 | the k-th job processed yields exactly one output, to that job's own slot, with its correlation id and the processor's value for its payload |
| Workers.ProcessingAt | worker.go:94-100 | the k-th processor call of the loop is Process on the k-th job's payload |
| Workers.JobNumbersAt | worker.go:94-105 | the counter is bumped twice per job, so the k-th job is logged as number 2k+1 (1, 3, 5, ...) |
| Workers.Step | worker.go:82-107 | one select round: the kill signal or the closed queue stops the loop; a job is processed, output to its slot and counted twice; anything else changes nothing |
| Workers.Serve | worker.go:80-108 | the loop of a live worker produces the outputs, processor calls and job numbers of exactly the jobs before the first ending event, with the counter at twice their number; it breaks exactly when such an event occurs |
| Workers.Worker.constructor | worker.go:34-42 | a new worker is Alive, with one-slot signal and done mailboxes and nothing on done |
| Workers.Worker.IsAlive | worker.go:47-49 | true exactly when the status is Alive, and then done is empty and open |
| Workers.Worker.Die | worker.go:60-70 | on an Alive worker: Zombie, exactly one `true` put on done, done closed, processor destroyed once; on a Zombie: nothing changes |
| Workers.Worker.Run | worker.go:72-111 | Initialize is called even if it fails; the loop's outputs and numbers are those of Serve; the worker dies exactly when the loop breaks (or it was already a Zombie), and then its processor calls end in Destroy; status only moves Alive to Zombie |
| Workers.NewWorker | worker.go:29-45 | fails with the logger's error and no worker; otherwise a fresh Alive worker under the uuid |
| Executors.NatToString | executor.go:34 | the `%d` of a worker index is a non-empty string of decimal digits, of two or more digits from 10 on |
| Executors.WorkerUuid | executor.go:34 | a worker's uuid starts with the executor's name and is longer than the name plus `-worker-` |
| Executors.NatToStringInjective | executor.go:34 | different worker indexes print differently |
| Executors.WorkerUuidInjective | executor.go:34 | the workers of one executor get distinct uuids |
| Executors.WorkerUuidsSnoc | executor.go:33-47 | each new worker adds a uuid not yet in the map |
| Executors.WorkerUuidsCount | executor.go:33-47 | N workers have N distinct uuids |
| Executors.FirstWorkerFailure | executor.go:36-44 | the error New fails with is the logger error of one of its workers 1 .. N |
| Executors.FirstWorkerFailureNone | executor.go:36-44 | New builds its workers exactly when every worker's logger can be built |
| Executors.FirstWorkerFailureStable | executor.go:42-44 | once a worker has failed, later workers' loggers do not change the error |
| Executors.FirstWorkerFailureIsFirst | executor.go:36-44 | the error comes from the first worker, in creation order, whose logger fails |
| Executors.PollBudgetMeetsDeadline | executor.go:115-121 | the number of polls until expiry is the least number whose total length reaches the expiry |
| Executors.PollInterval | executor.go:121 | the poll interval never exceeds the heartbeat or a real expiry, and is positive for a positive expiry |
| Executors.Schedule | executor.go:112-127 | fire never uses more send attempts than the outcomes observed |
| Executors.SentIsFirstAccept | executor.go:115-120 | a job is handed over at the first accepted offer, after that many timed-out polls, and only before its expiry polls are used up |
| Executors.NeverExpiringJobNeverExpires | executor.go:115 | a NeverExpires job is never given up on |
| Executors.NonPositiveExpiryExpiresAtOnce | executor.go:115-126 | a job whose expiry is not positive expires before any attempt to hand it over |
| Executors.ExpiryLandsOnDeadline | executor.go:115-126 | a job is found expired at the first poll boundary at or past its deadline, after every offer up to then timed out |
| Executors.ExpiryCanOvershoot | executor.go:121 | with heartbeat 100 and expiry 250, expiry is noticed after 3 polls, at 300 |
| Executors.ScheduleIsFinal | executor.go:115-126 | once fire has handed a job over or expired it, later outcomes do not change that |
| Executors.StillWaitingBeforeDeadline | executor.go:115-124 | a job is still waiting only while every offer has timed out and its expiry polls are not used up |
| Executors.FirstOutput | executor.go:91-93 | processResult has no output exactly when only heartbeat timeouts were seen on the slot; any output it takes arrived on the slot |
| Executors.FirstOutputIsFirst | executor.go:91-93 | processResult takes the first output to arrive on the slot, and has none only when nothing arrived |
| Executors.Notify | executor.go:93-105 | no result, no calls; never more calls than callbacks |
| Executors.RunCallbacks | executor.go:95-104 | the callback goroutine makes exactly the calls of Invocations: the non-nil callbacks in order, with the result |
| Executors.ClosedChannelError | executor.go:163 | the closed-channel error ends with the job's correlation id |
| Executors.ClosedChannelErrorNamesJob | executor.go:163 | different jobs get different closed-channel errors |
| Executors.AwaitOutcome | executor.go:157-164 | ExecuteJob keeps waiting exactly when only heartbeat timeouts were seen; a returned value was sent on the channel; a failure names the job and follows a close |
| Executors.AwaitOutcomeCases | executor.go:157-169 | the first value returns it; the first close fails naming the job; heartbeat timeouts alone leave the caller waiting |
| Executors.AwaitResult | executor.go:157-169 | ExecuteJob's receive loop ends as AwaitOutcome says |
| Executors.ForwardedChannel | executor.go:152-155 | the forwarding callback never closes the channel |
| Executors.Delivered | executor.go:112-127 | with fire fixed, the callbacks get a result exactly when the job expired, or was handed over and an output arrived on its slot; an expired job's result is Expired |
| Executors.DeliveredAsWritten | executor.go:112-127 | as written, the callbacks get a result exactly when the job was handed over and an output arrived on its slot |
| Executors.DeliveredDiffersOnlyOnExpiry | executor.go:117-126 | the fix changes nothing except on the expiry path, where Expired replaces no result at all |
| Executors.ExpiredResultLostAsWritten | executor.go:125-126 | as written, the callbacks of an expired job are never called; fixed, they get Expired |
| Executors.ExpiredResultLostExample | executor.go:125-126 | expiry 0 with one callback: no call as written, one call with Expired when fixed |
| Executors.Executor.constructor | executor.go:26-31 | a new executor has an open queue of worker-count capacity and no workers |
| Executors.Executor.KillWorkers | executor.go:55-65 | after the kill-and-wait of every registered worker, each of them is a Zombie with exactly one `true` on done and done closed; an Alive one has had its processor destroyed once, and a Zombie's processor calls are unchanged |
| Executors.Executor.UnregisterWorkers | executor.go:67-71 | each report of a worker gone removes it; afterwards the map is empty and the queue still open |
| Executors.Executor.Destroy | executor.go:51-75 | every worker dies (Zombie, one `true` on done, done closed, its processor destroyed once if it was Alive) and is removed, then the queue is closed: the shutdown steps are the unregistrations in report order followed by one JobsClosed; a second Destroy panics |
| Executors.Executor.Enqueue | executor.go:114-124 | fire's loop ends as Schedule says: sent at the first accepted offer before expiry, expired after the expiry polls, or still waiting |
| Executors.Executor.ProcessResult | executor.go:90-110 | takes the first output on the slot and runs the callbacks with its result; with no output yet, no calls |
| Executors.Executor.Fire | executor.go:112-127 | fire as intended: dispatch follows Schedule; the executor writes exactly one Expired output, with the job's correlation id, exactly on the expiry path; the callbacks get the result of Delivered |
| Executors.Executor.FireAsWritten | executor.go:112-127 | fire as written, used by FireJob and ExecuteJob: the same dispatch and Expired output, but callbacks only run on the hand-over path |
| Executors.Executor.FireJob | executor.go:130-137 | newJob's error is returned and nothing is fired; otherwise no error, and the callbacks run only for a handed-over job whose output arrived, with that output's result; an expired job makes no call |
| Executors.Executor.FireAndForgetJob | executor.go:140-144 | newJob's error is returned; otherwise the single dummy callback runs at most once, with a handed-over job's result, and never for an expired job |
| Executors.Executor.ExecuteJob | executor.go:147-170 | newJob's error is returned; otherwise a handed-over job's result is returned once it arrives; an expired job leaves the caller waiting forever; the closed-channel error cannot occur |
| Executors.New | executor.go:19-49 | fails with the executor logger's error or the first failing worker's, with no executor; otherwise exactly N fresh Alive workers keyed by the distinct uuids name-worker-1 .. name-worker-N, and an open queue of capacity N |

## Left out

- Goroutines, `select` fairness and channel blocking are left out. Each loop instead runs over a given sequence of observed outcomes, so races between tasks are not modelled.
- Wall-clock time is left out: `time.Now`, `time.Since`, `time.After` and the one-second grace sleep in `die`. The clock is logical, and timeouts are events.
- Logging and configuration validation (`conf.Check`) are left out. A logger is modelled only by the error its construction may return. The configuration is assumed valid: a positive worker count and a positive heartbeat.
- The Processor, `newJob`, `newOutput`, `Payload` and `Result` are defined in files that are not part of this model:
  - the processor is a function from payload to value;
  - `newJob`'s outcome is an input (`created`);
  - payloads and values are opaque types.
- NeverExpires is a constructor of its own, not a particular `time.Duration` value. Durations are unbounded integers, so int64 overflow is not modelled.
- Callbacks are known by name only, and their effects are left out. That processResult runs them on a separate goroutine is not modelled: the calls are returned in order.
- Workers.Worker.Run: the processor's Initialize error is accepted and ignored, as in the code, which only logs it.
- Executors.Executor.Destroy: `kill` and `wait` (worker.go:51-58) are folded into KillWorkers:
  - the kill signal makes the worker's loop break and the worker die;
  - `wait` returns once it is done.

  The contents of the signals mailbox and the handshake on `done` are not modelled separately.
- Executors.Executor.Destroy: the order in which workers report back is an input (`reported`), each worker once, as the per-worker goroutines send their uuids.
- Executors.Executor.FireJob: firing runs in the background in the code. The returned calls are what that background fire eventually makes. FireJob's immediate return is the error alone.
- Executors.Executor.ExecuteJob: the private channel is modelled from the forwarding callback's call, preceded by `waits` heartbeat timeouts. Any channel, including a closed one, is covered by AwaitResult.
- The jobs queue's contents are not modelled. Whether a send succeeds is the `Offer` outcome. Firing after Destroy, which would panic on the closed queue, is not modelled.

## Findings

| source | as written | input that shows it | evidently intended | confidence | as-written member | corrected member |
|---|---|---|---|---|---|---|
| executor.go:125-126 | On expiry, fire writes the Expired output to the job's slot and returns. Only the hand-over path calls processResult (executor.go:117-120), so nothing reads the slot again: no callback ever sees Expired, and ExecuteJob never returns for an expired job. FireJob, FireAndForgetJob and ExecuteJob are modelled on this as-written fire. | A job with expiry 0 and one callback, with no free worker. As written the callback is never called; fixed, it is called once with Expired (Executors.ExpiredResultLostExample). | The Expired output written to the slot is read back by processResult, so the callbacks, and through them ExecuteJob, get Expired. | not executed; medium, since the slot's buffering is defined in a file not part of this model | Executors.Executor.FireAsWritten | Executors.Executor.Fire |
