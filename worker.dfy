/** A worker of the pool: its status (Alive, then Zombie), the guarded
    teardown, and the run loop, seen as a step function over the events its
    select statement observes one after another. */
module Workers {
  import opened Wrappers
  import opened Jobs

  /** A worker is Alive from construction until its teardown makes it a Zombie. */
  datatype Status = Alive | Zombie

  /** Signals are plain integers; only KillSignal has a meaning. */
  type Signal = int

  const KillSignal: Signal := 9

  /** The calls a worker makes to its processor. */
  datatype ProcessorCall = Initialize | Process(payload: Payload) | Destroy

  /** What one round of the run loop's select observes. */
  datatype Event =
    | SignalReceived(signal: Signal)   // a value taken from the signals mailbox
    | JobReceived(job: Job)            // a job taken from the open jobs queue
    | QueueClosed                      // a receive that found the jobs queue closed
    | HeartbeatElapsed                 // the heartbeat timer fired first

  /** An output written by the worker to the slot of the job it belongs to. */
  datatype Delivery = Delivery(slot: Job, output: Output)

  /** The events that break the run loop: the kill signal and the closed
      queue. Neither brings a job, and a heartbeat timeout never ends it. */
  predicate Ends(e: Event): (ends: bool)
    ensures ends ==> !e.JobReceived? && !e.HeartbeatElapsed?
    ensures e.SignalReceived? && e.signal != KillSignal ==> !ends
  {
    e == SignalReceived(KillSignal) || e == QueueClosed
  }

  /** The job an event hands to the worker, if it is one. */
  function Taken(e: Event): (jobs: seq<Job>)
    ensures |jobs| <= 1
  {
    if e.JobReceived? then [e.job] else []
  }

  /** Some event among `events` ends the loop. */
  predicate Ended(events: seq<Event>)
  {
    exists k :: 0 <= k < |events| && Ends(events[k])
  }

  /** The jobs a live worker processes, in order, when its select observes
      `events`: every job received before the first event that ends the loop. */
  function Served(events: seq<Event>): (jobs: seq<Job>)
    ensures |jobs| <= |events|
  {
    if events == [] then []
    else match events[0]
      case SignalReceived(s) => if s == KillSignal then [] else Served(events[1..])
      case JobReceived(job) => [job] + Served(events[1..])
      case QueueClosed => []
      case HeartbeatElapsed => Served(events[1..])
  }

  /** Nothing after the event that ends the loop is ever processed. */
  lemma {:induction false} ServedStopsAtEnd(events: seq<Event>, k: nat)
    requires k < |events| && Ends(events[k])
    ensures Served(events) == Served(events[..k])
  {
    if k > 0 {
      assert events[1..][..k - 1] == events[..k][1..];
      ServedStopsAtEnd(events[1..], k - 1);
    }
  }

  /** An unknown signal or a heartbeat timeout, observed at any point,
      changes neither which jobs are processed nor whether the loop ends. */
  lemma {:induction false} NeutralEventIgnored(events: seq<Event>, k: nat, e: Event)
    requires k <= |events|
    requires e == HeartbeatElapsed || (e.SignalReceived? && e.signal != KillSignal)
    ensures Served(events[..k] + [e] + events[k..]) == Served(events)
    ensures !Ends(e)
  {
    var inserted := events[..k] + [e] + events[k..];
    if k == 0 {
      assert inserted[1..] == events;
    } else {
      assert inserted[0] == events[0];
      assert inserted[1..] == events[1..][..k - 1] + [e] + events[1..][k - 1..];
      NeutralEventIgnored(events[1..], k - 1, e);
    }
  }

  /** Every job the loop processes was received by its select. */
  lemma {:induction false} ServedFromEvents(events: seq<Event>)
    ensures forall k :: 0 <= k < |Served(events)| ==> JobReceived(Served(events)[k]) in events
  {
    if events != [] {
      ServedFromEvents(events[1..]);
      assert forall e :: e in events[1..] ==> e in events;
    }
  }

  /** Observing one more event, while none so far has ended the loop, adds
      that event's job if it is one, and nothing otherwise. */
  lemma {:induction false} ServedSnoc(events: seq<Event>, e: Event)
    requires forall k :: 0 <= k < |events| ==> !Ends(events[k])
    ensures Served(events + [e]) == Served(events) + Taken(e)
  {
    if events == [] {
      assert events + [e] == [e];
    } else {
      assert (events + [e])[0] == events[0];
      assert (events + [e])[1..] == events[1..] + [e];
      ServedSnoc(events[1..], e);
    }
  }

  /** The processor calls for a sequence of jobs: one Process per job, in order. */
  function Processing(jobs: seq<Job>): (calls: seq<ProcessorCall>)
    ensures |calls| == |jobs|
  {
    if jobs == [] then []
    else Processing(jobs[..|jobs| - 1]) + [Process(jobs[|jobs| - 1].payload)]
  }

  /** The output a worker writes for one job: to that job's own slot, with
      the job's correlation id and the processor's value for its payload. */
  function OutputFor(job: Job, process: Payload -> Value): (d: Delivery)
    ensures d.slot == job && d.output.correlationId == d.slot.correlationId
    ensures d.output.result != Expired
  {
    Delivery(job, Output(job.correlationId, Processed(process(job.payload))))
  }

  /** The outputs a worker writes for a sequence of jobs, in order. */
  function Outputs(jobs: seq<Job>, process: Payload -> Value): (out: seq<Delivery>)
    ensures |out| == |jobs|
  {
    if jobs == [] then []
    else Outputs(jobs[..|jobs| - 1], process) + [OutputFor(jobs[|jobs| - 1], process)]
  }

  /** The job numbers a worker logs for its first n jobs. */
  function JobNumbers(n: nat): (numbers: seq<nat>)
    ensures |numbers| == n
  {
    if n == 0 then [] else JobNumbers(n - 1) + [2 * (n - 1) + 1]
  }

  /** Every job yields exactly one output, at the job's own position, to the
      job's own slot, carrying its correlation id and the processor's value. */
  lemma {:induction false} OutputsAt(jobs: seq<Job>, process: Payload -> Value, k: nat)
    requires k < |jobs|
    ensures Outputs(jobs, process)[k] ==
      Delivery(jobs[k], Output(jobs[k].correlationId, Processed(process(jobs[k].payload))))
  {
    if k < |jobs| - 1 {
      OutputsAt(jobs[..|jobs| - 1], process, k);
    }
  }

  /** The k-th processor call of a run is Process on the k-th job's payload. */
  lemma {:induction false} ProcessingAt(jobs: seq<Job>, k: nat)
    requires k < |jobs|
    ensures Processing(jobs)[k] == Process(jobs[k].payload)
  {
    if k < |jobs| - 1 {
      ProcessingAt(jobs[..|jobs| - 1], k);
    }
  }

  /** The counter goes up by two per job, so the k-th job is logged as
      number 2k + 1: the logged numbers are 1, 3, 5, and so on. */
  lemma {:induction false} JobNumbersAt(n: nat, k: nat)
    requires k < n
    ensures JobNumbers(n)[k] == 2 * k + 1
  {
    if k < n - 1 {
      JobNumbersAt(n - 1, k);
    }
  }

  /** Processing one more job extends the outputs by one entry. */
  lemma OutputsSnoc(jobs: seq<Job>, job: Job, process: Payload -> Value)
    ensures Outputs(jobs + [job], process) == Outputs(jobs, process) + [OutputFor(job, process)]
  {
    var more := jobs + [job];
    assert more[..|more| - 1] == jobs && more[|more| - 1] == job;
  }

  /** Processing one more job extends the processor calls by one Process. */
  lemma ProcessingSnoc(jobs: seq<Job>, job: Job)
    ensures Processing(jobs + [job]) == Processing(jobs) + [Process(job.payload)]
  {
    var more := jobs + [job];
    assert more[..|more| - 1] == jobs && more[|more| - 1] == job;
  }

  /** One more job adds the next odd number to the log. */
  lemma JobNumbersSnoc(n: nat)
    ensures JobNumbers(n + 1) == JobNumbers(n) + [2 * n + 1]
  {
  }

  /** What a worker has done once it has processed `jobs`: one output per
      job to that job's slot, one Process call per job, the job numbers
      logged so far, and a counter at twice the number of jobs. */
  predicate Handled(jobs: seq<Job>, process: Payload -> Value,
                    deliveries: seq<Delivery>, calls: seq<ProcessorCall>, numbers: seq<nat>, counter: nat)
  {
    && deliveries == Outputs(jobs, process)
    && calls == Processing(jobs)
    && numbers == JobNumbers(|jobs|)
    && counter == 2 * |jobs|
  }

  /** One round of the run loop's select, for the event it observes, after
      the jobs `served` so far. A job from the open queue: the counter is
      bumped and the job logged under the new number, the processor
      processes the payload, the output goes to the job's own slot, and the
      counter is bumped a second time; the job is then one more served. The
      kill signal or the closed queue: the loop is to break. Any other
      signal is logged as unknown, and a heartbeat timeout only logs:
      nothing changes. */
  method Step(e: Event, process: Payload -> Value, ghost served: seq<Job>,
              deliveries: seq<Delivery>, calls: seq<ProcessorCall>, numbers: seq<nat>, counter: nat)
    returns (ghost served': seq<Job>,
             deliveries': seq<Delivery>, calls': seq<ProcessorCall>, numbers': seq<nat>, counter': nat, stop: bool)
    requires Handled(served, process, deliveries, calls, numbers, counter)
    ensures stop <==> Ends(e)
    ensures served' == served + Taken(e)
    ensures Handled(served', process, deliveries', calls', numbers', counter')
  {
    served', deliveries', calls', numbers', counter', stop := served, deliveries, calls, numbers, counter, false;
    match e {
      case SignalReceived(s) =>
        // any signal other than KillSignal is logged as unknown
        stop := s == KillSignal;
      case JobReceived(job) =>
        counter' := counter' + 1;
        numbers' := numbers' + [counter'];
        var value := process(job.payload);
        calls' := calls' + [Process(job.payload)];
        deliveries' := deliveries' + [Delivery(job, Output(job.correlationId, Processed(value)))];
        counter' := counter' + 1;
        OutputsSnoc(served, job, process);
        ProcessingSnoc(served, job);
        JobNumbersSnoc(|served|);
        served' := served + [job];
      case QueueClosed =>
        stop := true;
      case HeartbeatElapsed =>
    }
  }

  /** The run loop of a live worker over the events its select observes.
      Each job taken from the open queue is processed and its output
      written to that job's slot; the counter is bumped before the job is
      logged and again after its output is written, so the logged job
      numbers are 1, 3, 5, and so on. The kill signal or the closed queue
      breaks the loop; unknown signals and heartbeat timeouts change
      nothing. When the events run out before the loop breaks, the worker
      is still in the loop (broke is false). */
  method Serve(events: seq<Event>, process: Payload -> Value)
    returns (deliveries: seq<Delivery>, calls: seq<ProcessorCall>, numbers: seq<nat>, counter: nat, broke: bool)
    ensures Handled(Served(events), process, deliveries, calls, numbers, counter)
    ensures broke <==> Ended(events)
  {
    deliveries, calls, numbers, counter := [], [], [], 0;
    var i := 0;
    broke := false;
    ghost var jobs: seq<Job> := [];
    while i < |events|
      invariant 0 <= i <= |events|
      invariant forall k :: 0 <= k < i ==> !Ends(events[k])
      invariant Served(events[..i]) == jobs
      invariant Handled(jobs, process, deliveries, calls, numbers, counter)
    {
      assert events[..i + 1] == events[..i] + [events[i]];
      ServedSnoc(events[..i], events[i]);
      var stop;
      jobs, deliveries, calls, numbers, counter, stop := Step(events[i], process, jobs, deliveries, calls, numbers, counter);
      if stop {
        assert Taken(events[i]) == [] && jobs == Served(events[..i]);
        ServedStopsAtEnd(events, i);
        broke := true;
        return;
      }
      i := i + 1;
    }
    assert events[..i] == events;
  }

  class Worker {
    const uuid: string
    const heartbeat: Duration
    /** Capacities of the buffered signals and done channels. */
    const signalCapacity: nat
    const doneCapacity: nat
    var status: Status
    /** The values buffered in the done channel, and whether it is closed. */
    var done: seq<bool>
    var doneClosed: bool
    /** The calls this worker has made to its processor, in order. */
    var processorCalls: seq<ProcessorCall>

    /** A live worker has not reported done; a zombie has put exactly one
        `true` on done and closed it. */
    ghost predicate Valid()
      reads this
    {
      signalCapacity == 1 && doneCapacity == 1 &&
      (status == Alive ==> done == [] && !doneClosed) &&
      (status == Zombie ==> done == [true] && doneClosed)
    }

    /** A freshly built worker: Alive, with empty one-slot mailboxes. */
    constructor (uuid: string, heartbeat: Duration)
      ensures Valid()
      ensures this.uuid == uuid && this.heartbeat == heartbeat
      ensures signalCapacity == 1 && doneCapacity == 1
      ensures status == Alive && done == [] && !doneClosed && processorCalls == []
    {
      this.uuid := uuid;
      this.heartbeat := heartbeat;
      signalCapacity := 1;
      doneCapacity := 1;
      status := Alive;
      done := [];
      doneClosed := false;
      processorCalls := [];
    }

    /** Whether the worker may still take jobs; while it is alive it has not
        reported done. */
    function IsAlive(): (alive: bool)
      requires Valid()
      reads this
      ensures alive <==> status == Alive
      ensures alive ==> done == [] && !doneClosed
    {
      status == Alive
    }

    /** Teardown, guarded by the Alive check so that it takes effect once:
        an Alive worker becomes a Zombie, puts exactly one `true` on done,
        closes done and destroys its processor; a Zombie is left as it is. */
    method Die()
      requires Valid()
      modifies this
      ensures Valid()
      ensures status == Zombie
      ensures old(status) == Alive ==>
        done == old(done) + [true] && doneClosed &&
        processorCalls == old(processorCalls) + [Destroy]
      ensures old(status) == Zombie ==>
        done == old(done) && doneClosed == old(doneClosed) && processorCalls == old(processorCalls)
    {
      if IsAlive() {
        status := Zombie;
        done := done + [true];
        doneClosed := true;
        // the deferred processor.Destroy() runs as die returns
        processorCalls := processorCalls + [Destroy];
      }
    }

    /** run: the processor is initialised first, and a failure (initError)
        is only logged; then the loop runs, and once it has broken, teardown
        follows. When the events run out before the loop breaks, the worker
        is still alive and waiting (finished is false). */
    method Run(events: seq<Event>, process: Payload -> Value, initError: Option<Error>)
      returns (deliveries: seq<Delivery>, numbers: seq<nat>, counter: nat, finished: bool)
      requires Valid()
      modifies this
      ensures Valid()
      ensures var jobs := if old(status) == Alive then Served(events) else [];
        deliveries == Outputs(jobs, process) && numbers == JobNumbers(|jobs|) && counter == 2 * |jobs|
      ensures finished <==> old(status) == Zombie || Ended(events)
      ensures finished ==> status == Zombie
      ensures !finished ==> status == Alive && done == old(done) && doneClosed == old(doneClosed)
      ensures old(status) == Alive && finished ==>
        done == [true] && doneClosed &&
        processorCalls == old(processorCalls) + [Initialize] + Processing(Served(events)) + [Destroy]
      ensures !finished ==>
        processorCalls == old(processorCalls) + [Initialize] + Processing(Served(events))
      ensures old(status) == Zombie ==>
        done == old(done) && doneClosed == old(doneClosed) &&
        processorCalls == old(processorCalls) + [Initialize]
    {
      processorCalls := processorCalls + [Initialize];
      // an initialisation error (initError) is logged, and the loop runs regardless
      if IsAlive() {
        var broke, calls;
        deliveries, calls, numbers, counter, broke := Serve(events, process);
        processorCalls := processorCalls + calls;
        finished := broke;
      } else {
        // the loop condition fails at once
        deliveries, numbers, counter, finished := [], [], 0, true;
      }
      if finished {
        Die();
      }
    }
  }

  /** newWorker: fails with the error of the worker's logger, if any;
      otherwise returns a fresh Alive worker under the given uuid. */
  method NewWorker(uuid: string, heartbeat: Duration, loggerError: Option<Error>)
    returns (w: Worker?, err: Option<Error>)
    ensures err == loggerError
    ensures w == null <==> err.Some?
    ensures w != null ==>
      fresh(w) && w.Valid() && w.uuid == uuid && w.heartbeat == heartbeat &&
      w.status == Alive && w.processorCalls == []
  {
    if loggerError.Some? {
      return null, loggerError;
    }
    w := new Worker(uuid, heartbeat);
    err := None;
  }
}
