/** The executor: a pool of workers under derived names, the bounded jobs
    queue they share, and the firing of jobs, which either hands a job to
    the queue and waits for its output or gives up once the job's expiry
    has passed. Channels and clocks are replaced by the sequence of
    outcomes each receive or send loop observes. */
module Executors {
  import opened Wrappers
  import opened Jobs
  import opened Workers

  // ---------------------------------------------------------------------
  // Worker names: "<name>-worker-<i>" for i = 1 .. N

  /** The decimal digit for d. */
  function DigitChar(d: nat): (c: char)
    requires d < 10
    ensures '0' <= c <= '9'
  {
    (48 + d) as char
  }

  /** The decimal representation of n, as the %d verb prints it. */
  function NatToString(n: nat): (s: string)
    ensures |s| >= 1
    ensures n >= 10 ==> |s| >= 2
    ensures forall k :: 0 <= k < |s| ==> '0' <= s[k] <= '9'
  {
    if n < 10 then [DigitChar(n)]
    else NatToString(n / 10) + [DigitChar(n % 10)]
  }

  /** Different numbers print differently. */
  lemma {:induction false} NatToStringInjective(a: nat, b: nat)
    requires NatToString(a) == NatToString(b)
    ensures a == b
  {
    var s := NatToString(a);
    if a >= 10 && b >= 10 {
      assert s[..|s| - 1] == NatToString(a / 10) && s[..|s| - 1] == NatToString(b / 10);
      NatToStringInjective(a / 10, b / 10);
      assert s[|s| - 1] == DigitChar(a % 10) == DigitChar(b % 10);
    } else if a < 10 && b < 10 {
      assert s[0] == DigitChar(a) == DigitChar(b);
    }
  }

  /** The uuid of the index-th worker (counting from 1) of the executor `name`. */
  function WorkerUuid(name: string, index: nat): (uuid: string)
    ensures |uuid| > |name| + |"-worker-"|
    ensures uuid[..|name|] == name
  {
    name + "-worker-" + NatToString(index)
  }

  /** Workers of one executor get distinct uuids. */
  lemma WorkerUuidInjective(name: string, i: nat, j: nat)
    requires WorkerUuid(name, i) == WorkerUuid(name, j)
    ensures i == j
  {
    var prefix := name + "-worker-";
    assert WorkerUuid(name, i)[|prefix|..] == NatToString(i);
    assert WorkerUuid(name, j)[|prefix|..] == NatToString(j);
    NatToStringInjective(i, j);
  }

  /** The uuids of the first n workers of the executor `name`. */
  ghost function WorkerUuids(name: string, n: nat): set<string>
  {
    set i | 1 <= i <= n :: WorkerUuid(name, i)
  }

  /** The (n+1)-th worker adds its uuid, which is new, to those of the first n. */
  lemma WorkerUuidsSnoc(name: string, n: nat)
    ensures WorkerUuids(name, n + 1) == WorkerUuids(name, n) + {WorkerUuid(name, n + 1)}
    ensures WorkerUuid(name, n + 1) !in WorkerUuids(name, n)
  {
    if WorkerUuid(name, n + 1) in WorkerUuids(name, n) {
      var i :| 1 <= i <= n && WorkerUuid(name, i) == WorkerUuid(name, n + 1);
      WorkerUuidInjective(name, i, n + 1);
    }
  }

  /** A pool of n workers has n distinct uuids. */
  lemma {:induction false} WorkerUuidsCount(name: string, n: nat)
    ensures |WorkerUuids(name, n)| == n
  {
    if n == 0 {
      assert WorkerUuids(name, 0) == {};
    } else {
      WorkerUuidsCount(name, n - 1);
      WorkerUuidsSnoc(name, n - 1);
    }
  }

  /** The error New fails with when the logger of a worker cannot be built:
      that of the first of workers 1 .. n, in creation order, whose logger
      fails (loggerError gives the failure, if any, for each uuid). */
  function FirstWorkerFailure(name: string, n: nat, loggerError: string -> Option<Error>): (err: Option<Error>)
    ensures err.Some? ==> exists i :: 1 <= i <= n && loggerError(WorkerUuid(name, i)) == err
  {
    if n == 0 then None
    else
      var earlier := FirstWorkerFailure(name, n - 1, loggerError);
      if earlier.Some? then earlier else loggerError(WorkerUuid(name, n))
  }

  /** The pool is built exactly when every worker's logger is. */
  lemma {:induction false} FirstWorkerFailureNone(name: string, n: nat, loggerError: string -> Option<Error>)
    ensures FirstWorkerFailure(name, n, loggerError).None? <==>
      forall i :: 1 <= i <= n ==> loggerError(WorkerUuid(name, i)).None?
  {
    if n > 0 {
      FirstWorkerFailureNone(name, n - 1, loggerError);
    }
  }

  /** Once a worker has failed, later workers do not change the error. */
  lemma {:induction false} FirstWorkerFailureStable(name: string, m: nat, n: nat, loggerError: string -> Option<Error>)
    requires m <= n && FirstWorkerFailure(name, m, loggerError).Some?
    ensures FirstWorkerFailure(name, n, loggerError) == FirstWorkerFailure(name, m, loggerError)
    decreases n
  {
    if m < n {
      FirstWorkerFailureStable(name, m, n - 1, loggerError);
    }
  }

  /** A failure names the worker it came from: the first failing one. */
  lemma {:induction false} FirstWorkerFailureIsFirst(name: string, n: nat, loggerError: string -> Option<Error>)
    requires FirstWorkerFailure(name, n, loggerError).Some?
    ensures exists i ::
      && 1 <= i <= n
      && loggerError(WorkerUuid(name, i)) == FirstWorkerFailure(name, n, loggerError)
      && (forall j :: 1 <= j < i ==> loggerError(WorkerUuid(name, j)).None?)
  {
    var earlier := FirstWorkerFailure(name, n - 1, loggerError);
    if earlier.Some? {
      FirstWorkerFailureIsFirst(name, n - 1, loggerError);
    } else {
      FirstWorkerFailureNone(name, n - 1, loggerError);
      assert loggerError(WorkerUuid(name, n)) == FirstWorkerFailure(name, n, loggerError);
    }
  }

  // ---------------------------------------------------------------------
  // Firing: dispatch or expire

  /** The outcome of one round of fire's select: the job was handed to the
      jobs queue, or the poll interval elapsed first. */
  datatype Offer = Accepted | TimedOut

  predicate IsAccepted(o: Offer)
  {
    o == Accepted
  }

  /** How fire's loop ends, after how many timed-out polls: the job was
      handed to the queue, or the expiry was found to have passed, or the
      observed outcomes ran out while the job was still waiting. */
  datatype Dispatch = Sent(polls: nat) | ExpiredAfter(polls: nat) | StillWaiting(polls: nat)

  /** The number of polls of length `poll` after which at least `remaining`
      nanoseconds have elapsed: none when nothing remains. */
  function PollBudget(remaining: int, poll: int): (polls: nat)
    requires remaining > 0 ==> poll > 0
    decreases if remaining > 0 then remaining else 0
  {
    if remaining <= 0 then 0 else 1 + PollBudget(remaining - poll, poll)
  }

  /** The budget is the first number of polls that reaches the deadline:
      that many polls reach it, one fewer does not. */
  lemma {:induction false} PollBudgetMeetsDeadline(remaining: int, poll: int)
    requires remaining > 0 && poll > 0
    ensures PollBudget(remaining, poll) >= 1
    ensures PollBudget(remaining, poll) * poll >= remaining
    ensures (PollBudget(remaining, poll) - 1) * poll < remaining
  {
    var rest := PollBudget(remaining - poll, poll);
    if remaining - poll > 0 {
      PollBudgetMeetsDeadline(remaining - poll, poll);
      assert (rest + 1) * poll == rest * poll + poll;
      assert rest * poll == (rest - 1) * poll + poll;
    }
  }

  /** The poll interval of fire for a job: the smaller of the heartbeat and
      the job's expiry, with NeverExpires counting as absent. */
  function PollInterval(heartbeat: Duration, expiresAfter: Duration): (poll: Duration)
    requires heartbeat.Span?
    ensures poll.Span? && poll.nanos <= heartbeat.nanos
    ensures expiresAfter.Span? ==> poll.nanos <= expiresAfter.nanos
    ensures heartbeat.nanos > 0 && (expiresAfter.NeverExpires? || expiresAfter.nanos > 0) ==> poll.nanos > 0
  {
    Min(heartbeat, expiresAfter)
  }

  /** The number of timed-out polls after which a job that expires after
      `expiresAfter` nanoseconds is found expired. */
  function ExpiryPolls(heartbeat: Duration, expiresAfter: int): nat
    requires heartbeat.Span? && heartbeat.nanos > 0
  {
    PollBudget(expiresAfter, PollInterval(heartbeat, Span(expiresAfter)).nanos)
  }

  /** What fire's loop does with a job, given the outcomes of its select
      rounds: it hands the job over at the first accepted offer, unless the
      expiry has passed by then; a job that never expires waits for as long
      as it takes. */
  function Schedule(expiresAfter: Duration, heartbeat: Duration, offers: seq<Offer>): (d: Dispatch)
    requires heartbeat.Span? && heartbeat.nanos > 0
    ensures d.polls <= |offers|
  {
    var k := FirstIndex(offers, IsAccepted);
    match expiresAfter
    case NeverExpires =>
      if k < |offers| then Sent(k) else StillWaiting(|offers|)
    case Span(e) =>
      var b := ExpiryPolls(heartbeat, e);
      if k < b && k < |offers| then Sent(k)
      else if b <= |offers| then ExpiredAfter(b)
      else StillWaiting(|offers|)
  }

  /** A job is handed over at the first accepted offer, after that many
      timed-out polls, and only before its expiry has been found to pass. */
  lemma SentIsFirstAccept(expiresAfter: Duration, heartbeat: Duration, offers: seq<Offer>)
    requires heartbeat.Span? && heartbeat.nanos > 0
    requires Schedule(expiresAfter, heartbeat, offers).Sent?
    ensures var k := Schedule(expiresAfter, heartbeat, offers).polls;
      k < |offers| && offers[k] == Accepted &&
      (forall j :: 0 <= j < k ==> offers[j] == TimedOut) &&
      (expiresAfter.Span? ==> k < ExpiryPolls(heartbeat, expiresAfter.nanos))
  {
  }

  /** A job that never expires is never given up on. */
  lemma NeverExpiringJobNeverExpires(heartbeat: Duration, offers: seq<Offer>)
    requires heartbeat.Span? && heartbeat.nanos > 0
    ensures !Schedule(NeverExpires, heartbeat, offers).ExpiredAfter?
  {
  }

  /** A job whose expiry is not positive expires before any attempt to
      hand it over, even when a worker is free. */
  lemma NonPositiveExpiryExpiresAtOnce(e: int, heartbeat: Duration, offers: seq<Offer>)
    requires heartbeat.Span? && heartbeat.nanos > 0
    requires e <= 0
    ensures Schedule(Span(e), heartbeat, offers) == ExpiredAfter(0)
  {
  }

  /** A job with a positive expiry is found expired at the first poll
      boundary at or after its deadline: polls are min(heartbeat, expiry)
      long, the elapsed polls reach the expiry, and one fewer would not;
      every offer up to then timed out. */
  lemma {:induction false} ExpiryLandsOnDeadline(e: int, heartbeat: Duration, offers: seq<Offer>)
    requires heartbeat.Span? && heartbeat.nanos > 0
    requires e > 0 && Schedule(Span(e), heartbeat, offers).ExpiredAfter?
    ensures var b := Schedule(Span(e), heartbeat, offers).polls;
      var poll := PollInterval(heartbeat, Span(e)).nanos;
      b >= 1 && b * poll >= e && (b - 1) * poll < e &&
      forall j :: 0 <= j < b ==> offers[j] == TimedOut
  {
    var poll := PollInterval(heartbeat, Span(e)).nanos;
    PollBudgetMeetsDeadline(e, poll);
  }

  /** The poll interval is not shortened to the time left, so the deadline
      can be overshot by up to one poll: with a heartbeat of 100 and an
      expiry of 250, expiry is noticed after 3 polls, at 300. */
  lemma ExpiryCanOvershoot(offers: seq<Offer>)
    requires |offers| >= 3 && forall j :: 0 <= j < |offers| ==> offers[j] == TimedOut
    ensures Schedule(Span(250), Span(100), offers) == ExpiredAfter(3)
    ensures 3 * PollInterval(Span(100), Span(250)).nanos == 300
  {
    FirstIndexAt(offers, IsAccepted, |offers|);
    assert PollBudget(250, 100) == 3 by {
      assert PollBudget(-50, 100) == 0;
    }
  }

  /** Once fire has decided, later outcomes do not change the decision. */
  lemma ScheduleIsFinal(expiresAfter: Duration, heartbeat: Duration, offers: seq<Offer>, more: seq<Offer>)
    requires heartbeat.Span? && heartbeat.nanos > 0
    requires !Schedule(expiresAfter, heartbeat, offers).StillWaiting?
    ensures Schedule(expiresAfter, heartbeat, offers + more) == Schedule(expiresAfter, heartbeat, offers)
  {
    FirstIndexExtend(offers, more, IsAccepted);
  }

  /** Still waiting means every offer so far timed out and the expiry, if
      any, has not been reached. */
  lemma StillWaitingBeforeDeadline(expiresAfter: Duration, heartbeat: Duration, offers: seq<Offer>)
    requires heartbeat.Span? && heartbeat.nanos > 0
    requires Schedule(expiresAfter, heartbeat, offers).StillWaiting?
    ensures forall j :: 0 <= j < |offers| ==> offers[j] == TimedOut
    ensures expiresAfter.Span? ==> |offers| < ExpiryPolls(heartbeat, expiresAfter.nanos)
  {
  }

  // ---------------------------------------------------------------------
  // Results: the job's slot, the callbacks, and ExecuteJob's private channel

  /** What the receive loop on a job's slot observes in one round: an
      output, or the heartbeat timer firing first. */
  datatype SlotEvent = OutputArrived(output: Output) | SlotWaited

  predicate IsArrival(e: SlotEvent)
  {
    e.OutputArrived?
  }

  /** The output processResult takes from a job's slot: the first to arrive. */
  function FirstOutput(slot: seq<SlotEvent>): (out: Option<Output>)
    ensures out.None? <==> forall k :: 0 <= k < |slot| ==> slot[k] == SlotWaited
    ensures out.Some? ==> OutputArrived(out.value) in slot
  {
    var k := FirstIndex(slot, IsArrival);
    if k < |slot| then Some(slot[k].output) else None
  }

  /** The first output is the one at the first arrival; there is none only
      when nothing arrived. */
  lemma FirstOutputIsFirst(slot: seq<SlotEvent>)
    ensures FirstOutput(slot).None? <==> forall k :: 0 <= k < |slot| ==> slot[k] == SlotWaited
    ensures FirstOutput(slot).Some? ==> exists k ::
      && 0 <= k < |slot|
      && slot[k] == OutputArrived(FirstOutput(slot).value)
      && (forall j :: 0 <= j < k ==> slot[j] == SlotWaited)
  {
    var k := FirstIndex(slot, IsArrival);
    if k < |slot| {
      assert slot[k] == OutputArrived(FirstOutput(slot).value);
    }
  }

  /** The calls made once a result is known: those of the callbacks for it,
      or none while no result has come. */
  function Notify(callbacks: seq<Callback>, result: Option<JobResult>): (calls: seq<Invocation>)
    ensures result.None? ==> calls == []
    ensures |calls| <= |callbacks|
  {
    if result.Some? then Invocations(callbacks, result.value) else []
  }

  /** The goroutine processResult starts for an output: each callback in
      turn, the nil ones skipped. */
  method RunCallbacks(callbacks: seq<Callback>, result: JobResult) returns (calls: seq<Invocation>)
    ensures calls == Invocations(callbacks, result)
  {
    calls := [];
    for i := 0 to |callbacks|
      invariant calls == Invocations(callbacks[..i], result)
    {
      assert callbacks[..i + 1] == callbacks[..i] + [callbacks[i]];
      InvocationsAppend(callbacks[..i], [callbacks[i]], result);
      assert [callbacks[i]][1..] == [];
      if callbacks[i] != Nil {
        calls := calls + [Invocation(callbacks[i].name, result)];
      }
      // a nil callback is skipped
    }
    assert callbacks[..|callbacks|] == callbacks;
  }

  /** What ExecuteJob's receive loop on its private channel observes in one
      round: a value, the channel found closed, or the heartbeat timer. */
  datatype ChannelEvent = ChannelValue(result: JobResult) | ChannelClosed | ChannelWaited

  predicate IsReceipt(e: ChannelEvent)
  {
    !e.ChannelWaited?
  }

  /** Where ExecuteJob stands: returned a result, returned an error, or
      still blocked in its receive loop. */
  datatype Execution = Returned(result: JobResult) | Failed(error: Error) | Waiting

  /** The error for a channel closed without a value; it names the job. */
  function ClosedChannelError(correlationId: string): (err: Error)
    ensures |err| > |correlationId|
    ensures err[|err| - |correlationId|..] == correlationId
  {
    "Could not get a result of job " + correlationId
  }

  /** Different jobs are told apart by their closed-channel errors. */
  lemma ClosedChannelErrorNamesJob(a: string, b: string)
    requires ClosedChannelError(a) == ClosedChannelError(b)
    ensures a == b
  {
    var prefix := "Could not get a result of job ";
    assert ClosedChannelError(a)[|prefix|..] == a;
    assert ClosedChannelError(b)[|prefix|..] == b;
  }

  /** The outcome of ExecuteJob's receive loop: the first value or close it
      observes decides, heartbeat timeouts are skipped. */
  function AwaitOutcome(correlationId: string, channel: seq<ChannelEvent>): (x: Execution)
    ensures x == Waiting <==> forall j :: 0 <= j < |channel| ==> channel[j] == ChannelWaited
    ensures x.Returned? ==> ChannelValue(x.result) in channel
    ensures x.Failed? ==> x.error == ClosedChannelError(correlationId) && ChannelClosed in channel
  {
    var k := FirstIndex(channel, IsReceipt);
    if k == |channel| then Waiting
    else match channel[k]
      case ChannelValue(r) => Returned(r)
      case _ => Failed(ClosedChannelError(correlationId))
  }

  /** A closed channel makes ExecuteJob fail naming the job, a value makes
      it return that value, and the loop blocks only while nothing but
      heartbeat timeouts have been observed. */
  lemma AwaitOutcomeCases(correlationId: string, channel: seq<ChannelEvent>, k: nat)
    requires k < |channel| && forall j :: 0 <= j < k ==> channel[j] == ChannelWaited
    ensures channel[k] == ChannelClosed ==> AwaitOutcome(correlationId, channel) == Failed(ClosedChannelError(correlationId))
    ensures channel[k].ChannelValue? ==> AwaitOutcome(correlationId, channel) == Returned(channel[k].result)
    ensures channel[k] == ChannelWaited && k == |channel| - 1 ==> AwaitOutcome(correlationId, channel) == Waiting
  {
    FirstIndexAt(channel, IsReceipt, k);
    if channel[k] == ChannelWaited && k == |channel| - 1 {
      FirstIndexAt(channel, IsReceipt, |channel|);
    }
  }

  /** ExecuteJob's receive loop. */
  method AwaitResult(correlationId: string, channel: seq<ChannelEvent>) returns (x: Execution)
    ensures x == AwaitOutcome(correlationId, channel)
  {
    var i := 0;
    while i < |channel|
      invariant i <= |channel|
      invariant forall j :: 0 <= j < i ==> channel[j] == ChannelWaited
    {
      match channel[i]
      case ChannelValue(r) =>
        FirstIndexAt(channel, IsReceipt, i);
        return Returned(r);
      case ChannelClosed =>
        FirstIndexAt(channel, IsReceipt, i);
        return Failed(ClosedChannelError(correlationId));
      case ChannelWaited =>
        // the heartbeat only logs that the caller is still waiting
      i := i + 1;
    }
    FirstIndexAt(channel, IsReceipt, i);
    x := Waiting;
  }

  /** The name of the callback ExecuteJob attaches, which forwards the
      result to its private channel. */
  const Forward: string := "forward"

  /** The name of the empty callback FireAndForgetJob attaches. */
  const Dummy: string := "dummy"

  /** What ExecuteJob's private channel shows: heartbeat timeouts, then the
      result of the forwarding callback once it has run. */
  function ForwardedChannel(calls: seq<Invocation>, waits: nat): (channel: seq<ChannelEvent>)
    ensures forall j :: 0 <= j < |channel| ==> channel[j] != ChannelClosed
  {
    seq(waits, _ => ChannelWaited) + (if calls == [] then [] else [ChannelValue(calls[0].result)])
  }

  // ---------------------------------------------------------------------
  // The result fire hands to the callbacks

  /** The result the callbacks of a fired job receive: the first output on
      the job's slot once the job was handed over, the Expired marker once
      it expired, and none while it is still waiting. */
  function Delivered(expiresAfter: Duration, heartbeat: Duration, offers: seq<Offer>, slot: seq<SlotEvent>): (r: Option<JobResult>)
    requires heartbeat.Span? && heartbeat.nanos > 0
    ensures r.Some? <==>
      || Schedule(expiresAfter, heartbeat, offers).ExpiredAfter?
      || (Schedule(expiresAfter, heartbeat, offers).Sent? && exists k :: 0 <= k < |slot| && slot[k].OutputArrived?)
    ensures Schedule(expiresAfter, heartbeat, offers).ExpiredAfter? ==> r == Some(Expired)
  {
    match Schedule(expiresAfter, heartbeat, offers)
    case Sent(_) => if FirstOutput(slot).Some? then Some(FirstOutput(slot).value.result) else None
    case ExpiredAfter(_) => Some(Expired)
    case StillWaiting(_) => None
  }

  /** The result the callbacks receive as the code is written: the expiry
      path writes the Expired output to the slot but does not read it back,
      so only the hand-over path ever reaches the callbacks. */
  function DeliveredAsWritten(expiresAfter: Duration, heartbeat: Duration, offers: seq<Offer>, slot: seq<SlotEvent>): (r: Option<JobResult>)
    requires heartbeat.Span? && heartbeat.nanos > 0
    ensures r.Some? <==>
      Schedule(expiresAfter, heartbeat, offers).Sent? && exists k :: 0 <= k < |slot| && slot[k].OutputArrived?
  {
    match Schedule(expiresAfter, heartbeat, offers)
    case Sent(_) => if FirstOutput(slot).Some? then Some(FirstOutput(slot).value.result) else None
    case _ => None
  }

  /** The fix changes nothing but the expiry path: on every other outcome
      of the dispatch the callbacks receive the same result either way. */
  lemma DeliveredDiffersOnlyOnExpiry(expiresAfter: Duration, heartbeat: Duration, offers: seq<Offer>, slot: seq<SlotEvent>)
    requires heartbeat.Span? && heartbeat.nanos > 0
    ensures !Schedule(expiresAfter, heartbeat, offers).ExpiredAfter? ==>
      DeliveredAsWritten(expiresAfter, heartbeat, offers, slot) == Delivered(expiresAfter, heartbeat, offers, slot)
    ensures Delivered(expiresAfter, heartbeat, offers, slot) != DeliveredAsWritten(expiresAfter, heartbeat, offers, slot) ==>
      Delivered(expiresAfter, heartbeat, offers, slot) == Some(Expired) &&
      DeliveredAsWritten(expiresAfter, heartbeat, offers, slot) == None
  {
  }

  /** As written, the callbacks of an expired job are never called. */
  lemma ExpiredResultLostAsWritten(expiresAfter: Duration, heartbeat: Duration, offers: seq<Offer>, slot: seq<SlotEvent>, callbacks: seq<Callback>)
    requires heartbeat.Span? && heartbeat.nanos > 0
    requires Schedule(expiresAfter, heartbeat, offers).ExpiredAfter?
    ensures Notify(callbacks, DeliveredAsWritten(expiresAfter, heartbeat, offers, slot)) == []
    ensures Notify(callbacks, Delivered(expiresAfter, heartbeat, offers, slot)) == Invocations(callbacks, Expired)
  {
  }

  /** A concrete case: a job with expiry 0, fired with one callback and no
      free worker, never reaches its callback as written, while the fixed
      fire calls it once with Expired. */
  lemma ExpiredResultLostExample(heartbeat: Duration)
    requires heartbeat.Span? && heartbeat.nanos > 0
    ensures Notify([Func(Forward)], DeliveredAsWritten(Span(0), heartbeat, [], [])) == []
    ensures Notify([Func(Forward)], Delivered(Span(0), heartbeat, [], [])) == [Invocation(Forward, Expired)]
  {
    assert Schedule(Span(0), heartbeat, []) == ExpiredAfter(0);
    assert [Func(Forward)][1..] == [];
  }

  // ---------------------------------------------------------------------
  // The executor

  /** The steps of shutdown, in the order Destroy takes them. */
  datatype PoolEvent = Unregistered(uuid: string) | JobsClosed

  /** The unregistrations of the given workers, in order. */
  function Unregistrations(uuids: seq<string>): (events: seq<PoolEvent>)
    ensures |events| == |uuids|
    ensures forall k :: 0 <= k < |uuids| ==> events[k] == Unregistered(uuids[k])
  {
    seq(|uuids|, k requires 0 <= k < |uuids| => Unregistered(uuids[k]))
  }

  /** No uuid occurs twice. */
  predicate Distinct(uuids: seq<string>)
  {
    forall i, j :: 0 <= i < j < |uuids| ==> uuids[i] != uuids[j]
  }

  /** The map m with the keys in s removed. */
  ghost function Without<V>(m: map<string, V>, s: seq<string>): map<string, V>
  {
    map u | u in m && u !in s :: m[u]
  }

  /** Removing one more key. */
  lemma WithoutSnoc<V>(m: map<string, V>, s: seq<string>, x: string)
    ensures Without(m, s + [x]) == Without(m, s) - {x}
  {
  }

  /** Removing every key leaves nothing. */
  lemma WithoutAll<V>(m: map<string, V>, s: seq<string>)
    requires forall u :: u in m ==> u in s
    ensures Without(m, s) == map[]
  {
  }

  class Executor {
    const name: string
    /** The configured number of workers. */
    const workerCount: nat
    /** The configured heartbeat, also the longest poll interval. */
    const heartbeat: Duration
    /** Capacity of the jobs queue. */
    const jobsCapacity: nat
    /** The registered workers, by uuid. */
    var workers: map<string, Worker>
    /** Whether the jobs queue has been closed. */
    var jobsClosed: bool
    /** The shutdown steps taken so far. */
    ghost var shutdown: seq<PoolEvent>

    /** The configuration is valid (a positive worker count and heartbeat),
        the queue holds as many jobs as there are workers, each worker is
        registered under its own uuid, and once the queue is closed no
        worker is registered. */
    ghost predicate Valid()
      reads this
    {
      workerCount > 0 && heartbeat.Span? && heartbeat.nanos > 0 &&
      jobsCapacity == workerCount &&
      (forall u :: u in workers ==> workers[u].uuid == u) &&
      (jobsClosed ==> workers == map[])
    }

    /** An executor with an open, empty queue and no workers yet. */
    constructor (name: string, workerCount: nat, heartbeat: Duration)
      requires workerCount > 0 && heartbeat.Span? && heartbeat.nanos > 0
      ensures Valid()
      ensures this.name == name && this.workerCount == workerCount && this.heartbeat == heartbeat
      ensures workers == map[] && !jobsClosed && shutdown == []
    {
      this.name := name;
      this.workerCount := workerCount;
      this.heartbeat := heartbeat;
      jobsCapacity := workerCount;
      workers := map[];
      jobsClosed := false;
      shutdown := [];
    }

    /** The first half of Destroy: every registered worker is sent the
        kill signal and waited for; its run loop breaks on the signal and
        dies, and the wait returns once it has reported done. `reported` is
        the order in which they finish. */
    method KillWorkers(reported: seq<string>)
      requires forall u :: u in workers ==> workers[u].Valid()
      requires forall u :: u in workers <==> u in reported
      modifies workers.Values
      ensures forall u :: u in workers ==>
        && workers[u].Valid() && workers[u].status == Zombie
        && workers[u].done == [true] && workers[u].doneClosed
        && workers[u].processorCalls ==
             old(workers[u].processorCalls) + (if old(workers[u].status) == Alive then [ProcessorCall.Destroy] else [])
    {
      for i := 0 to |reported|
        invariant forall u :: u in workers ==> workers[u].Valid()
        invariant forall u :: u in workers ==>
          || (workers[u].status == Zombie &&
              workers[u].processorCalls ==
                old(workers[u].processorCalls) + (if old(workers[u].status) == Alive then [ProcessorCall.Destroy] else []))
          || (workers[u].status == old(workers[u].status) &&
              workers[u].processorCalls == old(workers[u].processorCalls))
        invariant forall k :: 0 <= k < i ==> workers[reported[k]].status == Zombie
      {
        workers[reported[i]].Die();
      }
      forall u | u in workers
        ensures workers[u].status == Zombie
      {
        var k :| 0 <= k < |reported| && reported[k] == u;
      }
    }

    /** The second half of Destroy: each report of a worker gone, in the
        order they come in, removes that worker from the map. */
    method UnregisterWorkers(reported: seq<string>)
      requires Valid() && !jobsClosed
      requires forall u :: u in workers ==> u in reported
      modifies this
      ensures Valid() && !jobsClosed && workers == map[]
      ensures shutdown == old(shutdown) + Unregistrations(reported)
      ensures unchanged(this`jobsClosed)
    {
      var i := 0;
      while i < |reported|
        invariant i <= |reported|
        invariant workers == Without(old(workers), reported[..i])
        invariant shutdown == old(shutdown) + Unregistrations(reported[..i])
        invariant Valid() && !jobsClosed
      {
        var uuid := reported[i];
        assert reported[..i + 1] == reported[..i] + [uuid];
        WithoutSnoc(old(workers), reported[..i], uuid);
        workers := workers - {uuid};
        shutdown := shutdown + [Unregistered(uuid)];
        i := i + 1;
      }
      assert reported[..i] == reported;
      WithoutAll(old(workers), reported);
    }

    /** Destroy: every registered worker is killed and waited for, each
        report of a worker gone (`reported`, in the order the reports come
        in, each worker once) removes that worker from the map, and only
        after the last removal is the jobs queue closed. Closing the queue a
        second time, on a second Destroy, panics. */
    method Destroy(reported: seq<string>) returns (panicked: bool)
      requires Valid()
      requires forall u :: u in workers ==> workers[u].Valid()
      requires Distinct(reported)
      requires forall u :: u in workers <==> u in reported
      modifies this, workers.Values
      ensures Valid()
      ensures panicked <==> old(jobsClosed)
      ensures workers == map[] && jobsClosed
      ensures forall u :: u in old(workers) ==>
        && old(workers)[u].Valid() && old(workers)[u].status == Zombie
        && old(workers)[u].done == [true] && old(workers)[u].doneClosed
        && old(workers)[u].processorCalls ==
             old(workers[u].processorCalls) + (if old(workers[u].status) == Alive then [ProcessorCall.Destroy] else [])
      ensures !panicked ==> shutdown == old(shutdown) + Unregistrations(reported) + [JobsClosed]
      ensures panicked ==> shutdown == old(shutdown)
    {
      if jobsClosed {
        return true;
      }
      KillWorkers(reported);
      UnregisterWorkers(reported);
      jobsClosed := true;
      shutdown := shutdown + [JobsClosed];
      panicked := false;
    }

    /** fire's loop: while the job never expires or its expiry has not yet
        elapsed, try to hand it to the jobs queue, waiting at most one poll
        interval, min(heartbeat, expiresAfter), per try; the logical clock
        advances by one poll interval per timed-out try. */
    method Enqueue(job: Job, offers: seq<Offer>) returns (d: Dispatch)
      requires heartbeat.Span? && heartbeat.nanos > 0
      ensures d == Schedule(job.expiresAfter, heartbeat, offers)
    {
      var poll := PollInterval(heartbeat, job.expiresAfter);
      var elapsed := 0;
      var polls := 0;
      while job.expiresAfter == NeverExpires || elapsed < job.expiresAfter.nanos
        invariant polls <= |offers| && elapsed >= 0
        invariant forall j :: 0 <= j < polls ==> offers[j] == TimedOut
        invariant job.expiresAfter.Span? && job.expiresAfter.nanos <= 0 ==> polls == 0
        invariant job.expiresAfter.Span? && job.expiresAfter.nanos > 0 ==>
          PollBudget(job.expiresAfter.nanos - elapsed, poll.nanos) + polls == ExpiryPolls(heartbeat, job.expiresAfter.nanos)
        decreases |offers| - polls
      {
        if polls == |offers| {
          FirstIndexAt(offers, IsAccepted, polls);
          return StillWaiting(polls);
        }
        if offers[polls] == Accepted {
          FirstIndexAt(offers, IsAccepted, polls);
          return Sent(polls);
        }
        elapsed := elapsed + poll.nanos;
        polls := polls + 1;
      }
      FirstIndexAt(offers, IsAccepted, polls);
      assert job.expiresAfter == Span(job.expiresAfter.nanos);
      if job.expiresAfter.nanos <= 0 {
        // the loop is not entered: an expiry that is not positive has already passed
        assert ExpiryPolls(heartbeat, job.expiresAfter.nanos) == PollBudget(job.expiresAfter.nanos, poll.nanos) == 0;
      } else {
        assert PollBudget(job.expiresAfter.nanos - elapsed, poll.nanos) == 0;
      }
      d := ExpiredAfter(polls);
    }

    /** processResult: wait on the job's slot until an output arrives, then
        run the callbacks with its result (heartbeat timeouts only log). */
    method ProcessResult(job: Job, callbacks: seq<Callback>, slot: seq<SlotEvent>)
      returns (received: Option<Output>, calls: seq<Invocation>)
      ensures received == FirstOutput(slot)
      ensures calls == Notify(callbacks, if received.Some? then Some(received.value.result) else None)
    {
      var i := 0;
      while i < |slot|
        invariant i <= |slot|
        invariant forall j :: 0 <= j < i ==> slot[j] == SlotWaited
      {
        match slot[i]
        case OutputArrived(out) =>
          FirstIndexAt(slot, IsArrival, i);
          calls := RunCallbacks(callbacks, out.result);
          return Some(out), calls;
        case SlotWaited =>
          // the heartbeat only logs that the output is still awaited
          i := i + 1;
      }
      FirstIndexAt(slot, IsArrival, i);
      received, calls := None, [];
    }

    /** fire, with the expiry path completed as intended: a job handed to
        the queue has its callbacks run on the first output of its slot; an
        expired job gets exactly one Expired output, with its correlation
        id, written to its slot, which is then read back so that the
        callbacks see Expired. The executor writes an output only on the
        expiry path, so a job never gets both a worker's output and an
        Expired one from the executor. */
    method Fire(job: Job, callbacks: seq<Callback>, offers: seq<Offer>, slot: seq<SlotEvent>)
      returns (d: Dispatch, written: Option<Output>, calls: seq<Invocation>)
      requires heartbeat.Span? && heartbeat.nanos > 0
      ensures d == Schedule(job.expiresAfter, heartbeat, offers)
      ensures written.Some? <==> d.ExpiredAfter?
      ensures written.Some? ==> written.value == Output(job.correlationId, Expired)
      ensures calls == Notify(callbacks, Delivered(job.expiresAfter, heartbeat, offers, slot))
    {
      d := Enqueue(job, offers);
      match d
      case Sent(_) =>
        written := None;
        var received;
        received, calls := ProcessResult(job, callbacks, slot);
      case ExpiredAfter(_) =>
        var out := Output(job.correlationId, Expired);
        written := Some(out);
        var received;
        received, calls := ProcessResult(job, callbacks, [OutputArrived(out)]);
        assert [OutputArrived(out)][0] == OutputArrived(out);
        FirstIndexAt([OutputArrived(out)], IsArrival, 0);
      case StillWaiting(_) =>
        written, calls := None, [];
    }

    /** fire as written: on expiry the Expired output is written to the
        job's slot and fire returns without reading it back, so the
        callbacks only ever run for a job handed to the queue. */
    method FireAsWritten(job: Job, callbacks: seq<Callback>, offers: seq<Offer>, slot: seq<SlotEvent>)
      returns (d: Dispatch, written: Option<Output>, calls: seq<Invocation>)
      requires heartbeat.Span? && heartbeat.nanos > 0
      ensures d == Schedule(job.expiresAfter, heartbeat, offers)
      ensures written.Some? <==> d.ExpiredAfter?
      ensures written.Some? ==> written.value == Output(job.correlationId, Expired)
      ensures calls == Notify(callbacks, DeliveredAsWritten(job.expiresAfter, heartbeat, offers, slot))
    {
      d := Enqueue(job, offers);
      match d
      case Sent(_) =>
        written := None;
        var received;
        received, calls := ProcessResult(job, callbacks, slot);
      case ExpiredAfter(_) =>
        written, calls := Some(Output(job.correlationId, Expired)), [];
      case StillWaiting(_) =>
        written, calls := None, [];
    }

    /** FireJob: a payload newJob rejects (created is a Failure) is reported
        with newJob's error and nothing is fired; otherwise the job is fired,
        as fire is written, in the background with the callbacks and no
        error is returned. `calls` are the calls the background fire makes;
        an expired job makes none. */
    method FireJob(created: Result<Job, Error>, callbacks: seq<Callback>, offers: seq<Offer>, slot: seq<SlotEvent>)
      returns (err: Option<Error>, calls: seq<Invocation>)
      requires heartbeat.Span? && heartbeat.nanos > 0
      ensures created.Failure? ==> err == Some(created.error) && calls == []
      ensures created.Success? ==>
        err == None && calls == Notify(callbacks, DeliveredAsWritten(created.value.expiresAfter, heartbeat, offers, slot))
      ensures created.Success? && Schedule(created.value.expiresAfter, heartbeat, offers).ExpiredAfter? ==> calls == []
    {
      if created.Failure? {
        return Some(created.error), [];
      }
      var d, written;
      d, written, calls := FireAsWritten(created.value, callbacks, offers, slot);
      err := None;
    }

    /** FireAndForgetJob: FireJob with a single callback that does nothing,
        which runs at most once, with the job's result, and never for an
        expired job. */
    method FireAndForgetJob(created: Result<Job, Error>, offers: seq<Offer>, slot: seq<SlotEvent>)
      returns (err: Option<Error>, calls: seq<Invocation>)
      requires heartbeat.Span? && heartbeat.nanos > 0
      ensures err == (if created.Failure? then Some(created.error) else None)
      ensures |calls| <= 1
      ensures created.Success? ==> match DeliveredAsWritten(created.value.expiresAfter, heartbeat, offers, slot)
        case Some(r) => calls == [Invocation(Dummy, r)]
        case None => calls == []
      ensures created.Failure? ==> calls == []
    {
      err, calls := FireJob(created, [Func(Dummy)], offers, slot);
      assert [Func(Dummy)][1..] == [];
    }

    /** ExecuteJob: a payload newJob rejects is reported with newJob's
        error; otherwise the job is fired, as fire is written, in the
        caller's own thread with a callback that forwards the result to a
        private channel, and the caller blocks on that channel (waiting
        `waits` heartbeats before the forwarded value shows) until a value
        arrives or the channel is closed. An expired job's result never
        reaches the channel, so the caller keeps waiting. */
    method ExecuteJob(created: Result<Job, Error>, offers: seq<Offer>, slot: seq<SlotEvent>, waits: nat)
      returns (x: Execution)
      requires heartbeat.Span? && heartbeat.nanos > 0
      ensures created.Failure? ==> x == Failed(created.error)
      ensures created.Success? ==> match DeliveredAsWritten(created.value.expiresAfter, heartbeat, offers, slot)
        case Some(r) => x == Returned(r)
        case None => x == Waiting
      ensures created.Success? && Schedule(created.value.expiresAfter, heartbeat, offers).ExpiredAfter? ==> x == Waiting
    {
      if created.Failure? {
        return Failed(created.error);
      }
      var job := created.value;
      var d, written, calls := FireAsWritten(job, [Func(Forward)], offers, slot);
      assert [Func(Forward)][1..] == [];
      var channel := ForwardedChannel(calls, waits);
      x := AwaitResult(job.correlationId, channel);
      if calls == [] {
        FirstIndexAt(channel, IsReceipt, |channel|);
      } else {
        AwaitOutcomeCases(job.correlationId, channel, waits);
      }
    }
  }

  /** New: fails with the executor logger's error, if any; otherwise builds
      an executor with an open jobs queue holding as many jobs as there are
      workers, then creates and registers workers 1 .. workerCount in turn
      under "<name>-worker-<i>", failing with the first worker whose logger
      cannot be built (loggerError and workerLoggerError give those
      failures). On success the map holds exactly workerCount fresh, Alive
      workers under distinct uuids. */
  method New(name: string, workerCount: nat, heartbeat: Duration,
             loggerError: Option<Error>, workerLoggerError: string -> Option<Error>)
    returns (e: Executor?, err: Option<Error>)
    requires workerCount > 0 && heartbeat.Span? && heartbeat.nanos > 0
    ensures err == if loggerError.Some? then loggerError else FirstWorkerFailure(name, workerCount, workerLoggerError)
    ensures e == null <==> err.Some?
    ensures e != null ==>
      && fresh(e) && e.Valid() && !e.jobsClosed && e.shutdown == []
      && e.name == name && e.workerCount == workerCount && e.heartbeat == heartbeat
      && e.jobsCapacity == workerCount
      && e.workers.Keys == WorkerUuids(name, workerCount) && |e.workers| == workerCount
      && (forall u :: u in e.workers ==>
            fresh(e.workers[u]) && e.workers[u].Valid() && e.workers[u].status == Alive &&
            e.workers[u].heartbeat == heartbeat)
  {
    if loggerError.Some? {
      return null, loggerError;
    }
    var executor := new Executor(name, workerCount, heartbeat);
    for index := 0 to workerCount
      invariant executor.Valid() && !executor.jobsClosed && executor.shutdown == []
      invariant executor.workers.Keys == WorkerUuids(name, index)
      invariant FirstWorkerFailure(name, index, workerLoggerError) == None
      invariant forall u :: u in executor.workers ==>
        fresh(executor.workers[u]) && executor.workers[u].Valid() && executor.workers[u].status == Alive &&
        executor.workers[u].heartbeat == heartbeat
    {
      var uuid := WorkerUuid(name, index + 1);
      var worker, werr := NewWorker(uuid, heartbeat, workerLoggerError(uuid));
      if werr.Some? {
        FirstWorkerFailureStable(name, index + 1, workerCount, workerLoggerError);
        return null, werr;
      }
      WorkerUuidsSnoc(name, index);
      executor.workers := executor.workers[worker.uuid := worker];
    }
    WorkerUuidsCount(name, workerCount);
    assert |executor.workers| == |executor.workers.Keys|;
    e, err := executor, None;
  }
}
