/** The values the executor and its workers exchange: durations with the
    "never expires" sentinel, jobs, their outputs, the callbacks a caller
    attaches to a job, and the scan for the first event of interest that
    every receive loop performs. */
module Jobs {

  /** A duration in nanoseconds, or the sentinel that marks "no expiry".
      The sentinel is one distinguished value of Go's time.Duration; here
      it is its own constructor, and Span covers every other duration. */
  datatype Duration = NeverExpires | Span(nanos: int)

  /** The smaller of two durations, where NeverExpires counts as absent:
      the result is NeverExpires only when both arguments are, it is always
      one of the two arguments, and it never exceeds an argument that is a
      real duration. This is the poll interval of a job waiting for a free
      worker. */
  function Min(first: Duration, second: Duration): (r: Duration)
    ensures r == first || r == second
    ensures r == NeverExpires <==> first == NeverExpires && second == NeverExpires
    ensures first.Span? ==> r.Span? && r.nanos <= first.nanos
    ensures second.Span? ==> r.Span? && r.nanos <= second.nanos
  {
    if first == NeverExpires then second
    else if second == NeverExpires then first
    else if first.nanos < second.nanos then first
    else second
  }

  /** Order of the arguments does not matter. */
  lemma MinCommutes(first: Duration, second: Duration)
    ensures Min(first, second) == Min(second, first)
  {
  }

  /** What a caller submits; what a processor does with it is outside this model. */
  type Payload(==)

  /** What a processor returns for a payload. */
  type Value(==)

  /** An error as Go's error interface carries it: a message. */
  type Error = string

  /** The result carried to a job's slot: the processor's value, or the
      marker for a job that waited past its expiry for a free worker. */
  datatype JobResult = Processed(value: Value) | Expired

  /** One unit of work. Its result slot is identified with the job itself. */
  datatype Job = Job(correlationId: string, payload: Payload, expiresAfter: Duration)

  /** What is written to a job's slot: the job's correlation id and its result. */
  datatype Output = Output(correlationId: string, result: JobResult)

  /** A callback slot of FireJob; Nil stands for a nil function value.
      Callbacks are known by name only: what they do is up to the caller. */
  datatype Callback = Nil | Func(name: string)

  /** One call of a callback with a result. */
  datatype Invocation = Invocation(callback: string, result: JobResult)

  /** The calls made for one result: each non-nil callback, in the order
      given, with that same result; nil callbacks are skipped. */
  function Invocations(callbacks: seq<Callback>, result: JobResult): (calls: seq<Invocation>)
    ensures |calls| <= |callbacks|
    ensures forall k :: 0 <= k < |calls| ==> calls[k].result == result
  {
    if callbacks == [] then []
    else
      var rest := Invocations(callbacks[1..], result);
      if callbacks[0].Nil? then rest else [Invocation(callbacks[0].name, result)] + rest
  }

  /** Exactly the non-nil callbacks are called: one call per callback that
      is not nil. */
  lemma {:induction false} InvocationsCount(callbacks: seq<Callback>, result: JobResult)
    ensures |Invocations(callbacks, result)| == |callbacks| - multiset(callbacks)[Nil]
  {
    if callbacks != [] {
      assert callbacks == [callbacks[0]] + callbacks[1..];
      assert multiset(callbacks) == multiset{callbacks[0]} + multiset(callbacks[1..]);
      InvocationsCount(callbacks[1..], result);
    }
  }

  /** Every call is of a callback that was supplied. */
  lemma {:induction false} InvocationsNamed(callbacks: seq<Callback>, result: JobResult)
    ensures forall k :: 0 <= k < |Invocations(callbacks, result)| ==>
      Func(Invocations(callbacks, result)[k].callback) in callbacks
  {
    if callbacks != [] {
      InvocationsNamed(callbacks[1..], result);
      assert forall c :: c in callbacks[1..] ==> c in callbacks;
    }
  }

  /** Running two lists of callbacks one after the other makes the calls
      of the first list, then those of the second. */
  lemma {:induction false} InvocationsAppend(a: seq<Callback>, b: seq<Callback>, result: JobResult)
    ensures Invocations(a + b, result) == Invocations(a, result) + Invocations(b, result)
  {
    if a == [] {
      assert a + b == b;
    } else {
      assert (a + b)[0] == a[0];
      assert (a + b)[1..] == a[1..] + b;
      InvocationsAppend(a[1..], b, result);
    }
  }

  /** A non-nil callback at position i is called, with the result, right
      after the calls of the non-nil callbacks before it: the order of the
      calls is the order of the list. */
  lemma InvocationAt(callbacks: seq<Callback>, i: nat, result: JobResult)
    requires i < |callbacks| && callbacks[i].Func?
    ensures var before := |callbacks[..i]| - multiset(callbacks[..i])[Nil];
      before < |Invocations(callbacks, result)| &&
      Invocations(callbacks, result)[before] == Invocation(callbacks[i].name, result)
  {
    assert callbacks == callbacks[..i] + [callbacks[i]] + callbacks[i + 1..];
    InvocationsAppend(callbacks[..i] + [callbacks[i]], callbacks[i + 1..], result);
    InvocationsAppend(callbacks[..i], [callbacks[i]], result);
    InvocationsCount(callbacks[..i], result);
  }

  /** The index of the first element of s that is ready, or |s| when none is:
      where a receive loop stops waiting. */
  function FirstIndex<T>(s: seq<T>, ready: T -> bool): (k: nat)
    ensures k <= |s|
    ensures forall j :: 0 <= j < k ==> !ready(s[j])
    ensures k < |s| ==> ready(s[k])
  {
    if s == [] then 0
    else if ready(s[0]) then 0
    else 1 + FirstIndex(s[1..], ready)
  }

  /** The first ready element is at i exactly when none before i is ready
      and the one at i is (or i is the end). */
  lemma FirstIndexAt<T>(s: seq<T>, ready: T -> bool, i: nat)
    requires i <= |s|
    requires forall j :: 0 <= j < i ==> !ready(s[j])
    ensures FirstIndex(s, ready) >= i
    ensures i < |s| && ready(s[i]) ==> FirstIndex(s, ready) == i
  {
  }

  /** Looking further into a longer sequence does not move a first index
      that was already found. */
  lemma {:induction false} FirstIndexExtend<T>(s: seq<T>, more: seq<T>, ready: T -> bool)
    ensures FirstIndex(s, ready) < |s| ==> FirstIndex(s + more, ready) == FirstIndex(s, ready)
    ensures FirstIndex(s + more, ready) >= FirstIndex(s, ready)
  {
    if s != [] {
      assert (s + more)[0] == s[0];
      assert (s + more)[1..] == s[1..] + more;
      FirstIndexExtend(s[1..], more, ready);
    }
  }
}
