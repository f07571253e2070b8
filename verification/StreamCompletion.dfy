/**
 DataStreamRequest: data is parsed by every stream handler on other queues, and a counter of parsers
 under way holds each handler's completion back until all data was delivered.
 */
module StreamCompletion {
  import opened Counting

  /** StreamMutableState; handlers are known by number, completion events by their handler. */
  datatype Streams = Streams(streams: seq<nat>, numberOfExecutingStreams: int, enqueuedCompletionEvents: seq<nat>)

  // ---- The sections as functions ----

  function AfterReceive(s: Streams): Streams {
    s.(numberOfExecutingStreams := s.numberOfExecutingStreams + |s.streams|)
  }

  /** The new state and the completion events to dispatch */
  function AfterUpdate(s: Streams): (Streams, seq<nat>) {
    var s' := s.(numberOfExecutingStreams := s.numberOfExecutingStreams - 1);
    if s'.numberOfExecutingStreams == 0 && s'.enqueuedCompletionEvents != [] then
      (s'.(enqueuedCompletionEvents := []), s'.enqueuedCompletionEvents)
    else (s', [])
  }

  /** The new state, and whether the completion can be delivered right away */
  function AfterCompletion(s: Streams, handler: nat): (Streams, bool) {
    if s.numberOfExecutingStreams == 0 then (s, true)
    else (s.(enqueuedCompletionEvents := s.enqueuedCompletionEvents + [handler]), false)
  }

  class DataStreamRequest {
    var streams: seq<nat>
    var numberOfExecutingStreams: int
    var enqueuedCompletionEvents: seq<nat>

    function State(): Streams
      reads this
    {
      Streams(streams, numberOfExecutingStreams, enqueuedCompletionEvents)
    }

    constructor ()
      ensures State() == Streams([], 0, [])
    {
      streams, numberOfExecutingStreams, enqueuedCompletionEvents := [], 0, [];
    }

    /** responseStream */
    method ResponseStream(handler: nat)
      modifies this
      ensures State() == old(State()).(streams := old(streams) + [handler])
    {
      streams := streams + [handler];
    }

    /** didReceive; the result is the copy of the handlers that gets the data. */
    method DidReceive() returns (localStreams: seq<nat>)
      modifies this
      ensures State() == AfterReceive(old(State())) && localStreams == streams == old(streams)
      ensures numberOfExecutingStreams == old(numberOfExecutingStreams) + |localStreams|
      ensures enqueuedCompletionEvents == old(enqueuedCompletionEvents)
    {
      numberOfExecutingStreams := numberOfExecutingStreams + |streams|;
      localStreams := streams;
    }

    /** The closure of appendStreamCompletion, run by the last serializer */
    method CompleteOrEnqueue(handler: nat) returns (complete: bool)
      modifies this
      ensures (State(), complete) == AfterCompletion(old(State()), handler)
      ensures complete <==> old(numberOfExecutingStreams) == 0
      ensures enqueuedCompletionEvents
           == if complete then old(enqueuedCompletionEvents) else old(enqueuedCompletionEvents) + [handler]
    {
      if numberOfExecutingStreams != 0 {
        enqueuedCompletionEvents := enqueuedCompletionEvents + [handler];
        return false;
      }
      return true;
    }

    /** updateAndCompleteIfPossible */
    method UpdateAndCompleteIfPossible() returns (completionEvents: seq<nat>)
      modifies this
      ensures (State(), completionEvents) == AfterUpdate(old(State()))
      ensures numberOfExecutingStreams == old(numberOfExecutingStreams) - 1 && streams == old(streams)
      ensures completionEvents == if numberOfExecutingStreams == 0 then old(enqueuedCompletionEvents) else []
      ensures enqueuedCompletionEvents == if numberOfExecutingStreams == 0 then [] else old(enqueuedCompletionEvents)
    {
      numberOfExecutingStreams := numberOfExecutingStreams - 1;
      if !(numberOfExecutingStreams == 0 && enqueuedCompletionEvents != []) {
        return [];
      }
      completionEvents := enqueuedCompletionEvents;
      enqueuedCompletionEvents := [];
    }
  }

  // ---- Every interleaving ----

  datatype Job =
    | Dispatch(handlers: seq<nat>, data: nat)       // the loop of didReceive over the handlers
    | Parse(handler: nat, data: nat, hops: nat)     // a parser, with the queues it still has to pass
    | Release(handlers: seq<nat>)                   // the loop over the completion events
    | Deliver(handler: nat)                         // a completion on its handler's queue

  datatype StreamEvent = Data(handler: nat, data: nat) | Complete(handler: nat)

  /**
   `expected` lists the data each handler must get, `requested` the completions asked for, `log` the handler calls.
   */
  datatype World = World(s: Streams, jobs: seq<Job>, expected: seq<StreamEvent>, requested: set<nat>,
                         finalizing: bool, log: seq<StreamEvent>)

  datatype Event =
    | Register(handler: nat)
    | Receive(data: nat)
    | Request(handler: nat)        // the pipeline calls the handler's completion
    | Run(i: nat, hops: nat)

  predicate Enabled(w: World, e: Event) {
    match e
    case Register(handler) => !w.finalizing && handler !in w.s.streams
    case Receive(_) => !w.finalizing
    case Request(handler) => handler in w.s.streams && handler !in w.requested
    case Run(i, _) => i < |w.jobs|
  }

  function DataFor(handlers: seq<nat>, data: nat): seq<StreamEvent> {
    if handlers == [] then [] else [Data(handlers[0], data)] + DataFor(handlers[1..], data)
  }

  function Spawn(w: World, job: Job): World {
    w.(jobs := w.jobs + [job])
  }

  function RunJob(w: World, job: Job, hops: nat): World {
    match job
    case Dispatch(handlers, data) =>
      if handlers == [] then w
      else Spawn(Spawn(w, Parse(handlers[0], data, hops)), Dispatch(handlers[1..], data))
    case Parse(handler, data, n) =>
      if n > 0 then Spawn(w, Parse(handler, data, n - 1))
      else
        var (s, events) := AfterUpdate(w.s);
        var w' := w.(s := s, log := w.log + [Data(handler, data)]);
        if events == [] then w' else Spawn(w', Release(events))
    case Release(handlers) =>
      if handlers == [] then w else Spawn(Spawn(w, Deliver(handlers[0])), Release(handlers[1..]))
    case Deliver(handler) => w.(log := w.log + [Complete(handler)])
  }

  function Step(w: World, e: Event): World
    requires Enabled(w, e)
  {
    match e
    case Register(handler) => w.(s := w.s.(streams := w.s.streams + [handler]))
    case Receive(data) =>
      Spawn(w.(s := AfterReceive(w.s), expected := w.expected + DataFor(w.s.streams, data)),
            Dispatch(w.s.streams, data))
    case Request(handler) =>
      var (s, complete) := AfterCompletion(w.s, handler);
      var w' := w.(s := s, finalizing := true, requested := w.requested + {handler});
      if complete then Spawn(w', Deliver(handler)) else w'
    case Run(i, hops) => RunJob(w.(jobs := w.jobs[..i] + w.jobs[i + 1..]), w.jobs[i], hops)
  }

  predicate IsRun(w: World, events: seq<Event>)
    decreases |events|
  {
    events == [] || (Enabled(w, events[0]) && IsRun(Step(w, events[0]), events[1..]))
  }

  function After(w: World, events: seq<Event>): World
    requires IsRun(w, events)
    decreases |events|
  {
    if events == [] then w else After(Step(w, events[0]), events[1..])
  }

  const START := World(Streams([], 0, []), [], [], {}, false, [])

  // ---- Counting ----

  /** How many parser invocations a job stands for */
  function Outstanding(job: Job): nat {
    match job
    case Dispatch(handlers, _) => |handlers|
    case Parse(_, _, _) => 1
    case Release(_) => 0
    case Deliver(_) => 0
  }

  /** How often a job will call a handler with this event */
  function Owed(job: Job, e: StreamEvent): nat {
    match job
    case Dispatch(handlers, data) => if e.Data? && e.data == data then Count(handlers, e.handler) else 0
    case Parse(handler, data, _) => if e == Data(handler, data) then 1 else 0
    case Release(handlers) => if e.Complete? then Count(handlers, e.handler) else 0
    case Deliver(handler) => if e == Complete(handler) then 1 else 0
  }

  function OutstandingIn(jobs: seq<Job>): nat {
    if jobs == [] then 0 else Outstanding(jobs[0]) + OutstandingIn(jobs[1..])
  }

  function OwedIn(jobs: seq<Job>, e: StreamEvent): nat {
    if jobs == [] then 0 else Owed(jobs[0], e) + OwedIn(jobs[1..], e)
  }

  function Calls(log: seq<StreamEvent>, e: StreamEvent): nat {
    if log == [] then 0 else (if log[0] == e then 1 else 0) + Calls(log[1..], e)
  }

  lemma {:induction false} JobsAppend(jobs: seq<Job>, job: Job, e: StreamEvent)
    ensures OutstandingIn(jobs + [job]) == OutstandingIn(jobs) + Outstanding(job)
    ensures OwedIn(jobs + [job], e) == OwedIn(jobs, e) + Owed(job, e)
  {
    if jobs != [] {
      assert (jobs + [job])[1..] == jobs[1..] + [job];
      JobsAppend(jobs[1..], job, e);
    }
  }

  lemma {:induction false} JobsRemove(jobs: seq<Job>, i: nat, e: StreamEvent)
    requires i < |jobs|
    ensures OutstandingIn(jobs) == OutstandingIn(jobs[..i] + jobs[i + 1..]) + Outstanding(jobs[i])
    ensures OwedIn(jobs, e) == OwedIn(jobs[..i] + jobs[i + 1..], e) + Owed(jobs[i], e)
  {
    if i == 0 {
      assert jobs[..i] + jobs[i + 1..] == jobs[1..];
    } else {
      assert (jobs[..i] + jobs[i + 1..])[1..] == jobs[1..][..i - 1] + jobs[1..][i..];
      JobsRemove(jobs[1..], i - 1, e);
    }
  }

  lemma {:induction false} CallsConcat(a: seq<StreamEvent>, b: seq<StreamEvent>, e: StreamEvent)
    ensures Calls(a + b, e) == Calls(a, e) + Calls(b, e)
  {
    if a == [] {
      assert a + b == b;
    } else {
      assert (a + b)[1..] == a[1..] + b;
      CallsConcat(a[1..], b, e);
    }
  }

  lemma {:induction false} DataForCalls(handlers: seq<nat>, data: nat, e: StreamEvent)
    ensures Calls(DataFor(handlers, data), e) == if e.Data? && e.data == data then Count(handlers, e.handler) else 0
  {
    if handlers != [] {
      DataForCalls(handlers[1..], data, e);
      CallsConcat([Data(handlers[0], data)], DataFor(handlers[1..], data), e);
    }
  }

  // ---- The invariant ----

  /** How often a handler must have been called with this event once everything has run */
  function Due(w: World, e: StreamEvent): nat {
    match e
    case Data(_, _) => Calls(w.expected, e)
    case Complete(h) => if h in w.requested then 1 else 0
  }

  function Waiting(s: Streams, e: StreamEvent): nat {
    if e.Complete? then Count(s.enqueuedCompletionEvents, e.handler) else 0
  }

  predicate Completes(job: Job) {
    job.Release? || job.Deliver?
  }

  /** The counter is the number of parser invocations, and it holds all completions back. */
  ghost predicate Counted(w: World) {
    && w.s.numberOfExecutingStreams == OutstandingIn(w.jobs)
    && (w.s.enqueuedCompletionEvents != [] ==> w.finalizing && w.s.numberOfExecutingStreams > 0)
    && ((exists i | 0 <= i < |w.jobs| :: Completes(w.jobs[i]))
        || (exists i | 0 <= i < |w.log| :: w.log[i].Complete?) ==>
          w.finalizing && w.s.numberOfExecutingStreams == 0)
  }

  /** No data event follows a completion. */
  ghost predicate Ordered(log: seq<StreamEvent>) {
    forall i, j | 0 <= i < j < |log| && log[i].Complete? :: log[j].Complete?
  }

  ghost predicate Inv(w: World, e: StreamEvent) {
    && Counted(w) && Ordered(w.log)
    && Calls(w.log, e) + OwedIn(w.jobs, e) + Waiting(w.s, e) == Due(w, e)
  }

  lemma ReceiveKeeps(w: World, data: nat, e: StreamEvent)
    requires Inv(w, e) && !w.finalizing
    ensures Inv(Step(w, Receive(data)), e)
  {
    JobsAppend(w.jobs, Dispatch(w.s.streams, data), e);
    CallsConcat(w.expected, DataFor(w.s.streams, data), e);
    DataForCalls(w.s.streams, data, e);
    var w' := Step(w, Receive(data));
    forall i | 0 <= i < |w'.jobs| ensures !Completes(w'.jobs[i]) {
      if i < |w.jobs| {
        assert w'.jobs[i] == w.jobs[i];
      }
    }
  }

  lemma RequestKeeps(w: World, h: nat, e: StreamEvent)
    requires Inv(w, e) && Enabled(w, Request(h))
    ensures Inv(Step(w, Request(h)), e)
  {
    JobsAppend(w.jobs, Deliver(h), e);
    CountAppend(w.s.enqueuedCompletionEvents, h, if e.Complete? then e.handler else 0);
  }

  /** The world while a job runs: its own calls and invocations are not counted anywhere else. */
  ghost predicate Between(w: World, job: Job, e: StreamEvent) {
    && w.s.numberOfExecutingStreams == OutstandingIn(w.jobs) + Outstanding(job)
    && (w.s.enqueuedCompletionEvents != [] ==> w.finalizing && w.s.numberOfExecutingStreams > 0)
    && (Completes(job)
        || (exists i | 0 <= i < |w.jobs| :: Completes(w.jobs[i]))
        || (exists i | 0 <= i < |w.log| :: w.log[i].Complete?) ==>
          w.finalizing && w.s.numberOfExecutingStreams == 0)
    && Ordered(w.log)
    && Calls(w.log, e) + OwedIn(w.jobs, e) + Owed(job, e) + Waiting(w.s, e) == Due(w, e)
  }

  lemma Removing(w: World, i: nat, e: StreamEvent)
    requires Inv(w, e) && i < |w.jobs|
    ensures Between(w.(jobs := w.jobs[..i] + w.jobs[i + 1..]), w.jobs[i], e)
  {
    JobsRemove(w.jobs, i, e);
    var rest := w.jobs[..i] + w.jobs[i + 1..];
    if exists k | 0 <= k < |rest| :: Completes(rest[k]) {
      var k :| 0 <= k < |rest| && Completes(rest[k]);
      assert Completes(w.jobs[if k < i then k else k + 1]);
    }
  }

  lemma ParseKeeps(w: World, job: Job, e: StreamEvent)
    requires job.Parse? && job.hops == 0 && Between(w, job, e)
    ensures Inv(RunJob(w, job, 0), e)
  {
    var (s, events) := AfterUpdate(w.s);
    var w' := RunJob(w, job, 0);
    CallsConcat(w.log, [Data(job.handler, job.data)], e);
    JobsAppend(w.jobs, Release(events), e);
    assert forall i | 0 <= i < |w'.log| :: !w'.log[i].Complete?;
  }

  lemma DeliverKeeps(w: World, job: Job, e: StreamEvent)
    requires job.Deliver? && Between(w, job, e)
    ensures Inv(RunJob(w, job, 0), e)
  {
    CallsConcat(w.log, [Complete(job.handler)], e);
  }

  lemma LoopKeeps(w: World, job: Job, hops: nat, e: StreamEvent)
    requires (job.Dispatch? || job.Release?) && Between(w, job, e)
    ensures Inv(RunJob(w, job, hops), e)
  {
    if job.handlers != [] {
      var first := if job.Dispatch? then Parse(job.handlers[0], job.data, hops) else Deliver(job.handlers[0]);
      var rest := if job.Dispatch? then Dispatch(job.handlers[1..], job.data) else Release(job.handlers[1..]);
      JobsAppend(w.jobs, first, e);
      JobsAppend(w.jobs + [first], rest, e);
      LoopCompletes(w, first, rest);
    }
  }

  lemma LoopCompletes(w: World, first: Job, rest: Job)
    requires Completes(first) <==> Completes(rest)
    ensures (exists i | 0 <= i < |w.jobs + [first] + [rest]| :: Completes((w.jobs + [first] + [rest])[i]))
       <==> Completes(first) || exists i | 0 <= i < |w.jobs| :: Completes(w.jobs[i])
  {
    var jobs := w.jobs + [first] + [rest];
    assert jobs[|w.jobs|] == first && jobs[|w.jobs| + 1] == rest;
    assert forall i | 0 <= i < |w.jobs| :: jobs[i] == w.jobs[i];
  }

  lemma HopKeeps(w: World, job: Job, hops: nat, e: StreamEvent)
    requires job.Parse? && job.hops > 0 && Between(w, job, e)
    ensures Inv(RunJob(w, job, hops), e)
  {
    JobsAppend(w.jobs, Parse(job.handler, job.data, job.hops - 1), e);
  }

  lemma StepKeeps(w: World, event: Event, e: StreamEvent)
    requires Inv(w, e) && Enabled(w, event)
    ensures Inv(Step(w, event), e)
  {
    match event
    case Register(_) =>
    case Receive(data) => ReceiveKeeps(w, data, e);
    case Request(h) => RequestKeeps(w, h, e);
    case Run(i, hops) =>
      var w', job := w.(jobs := w.jobs[..i] + w.jobs[i + 1..]), w.jobs[i];
      Removing(w, i, e);
      if job.Dispatch? || job.Release? {
        LoopKeeps(w', job, hops, e);
      } else if job.Deliver? {
        DeliverKeeps(w', job, e);
      } else if job.hops > 0 {
        HopKeeps(w', job, hops, e);
      } else {
        ParseKeeps(w', job, e);
      }
  }

  lemma {:induction false} RunKeeps(w: World, events: seq<Event>, e: StreamEvent)
    requires Inv(w, e) && IsRun(w, events)
    ensures Inv(After(w, events), e)
    decreases |events|
  {
    if events != [] {
      StepKeeps(w, events[0], e);
      RunKeeps(Step(w, events[0]), events[1..], e);
    }
  }

  /**
   Over every run without data after serialization starts: the counter equals the number of outstanding parser
   invocations, completion events wait only while it is positive, no data event follows a completion, and no
   handler is called more often than it must be.
   */
  lemma CompletionsComeLast(events: seq<Event>, e: StreamEvent)
    requires IsRun(START, events)
    ensures var w := After(START, events);
            && w.s.numberOfExecutingStreams == OutstandingIn(w.jobs)
            && (w.s.enqueuedCompletionEvents != [] ==> w.s.numberOfExecutingStreams > 0)
            && Ordered(w.log)
            && Calls(w.log, e) <= Due(w, e)
  {
    RunKeeps(START, events, e);
  }

  /** Once nothing is pending, every handler got all its data, and its completion exactly once if it was asked for. */
  lemma EverythingIsDelivered(events: seq<Event>, e: StreamEvent)
    requires IsRun(START, events) && After(START, events).jobs == []
    ensures Calls(After(START, events).log, e) == Due(After(START, events), e)
  {
    RunKeeps(START, events, e);
  }
}
