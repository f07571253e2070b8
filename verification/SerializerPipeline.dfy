/**
 The response serializers of a Request: run one at a time, restarted by retries, and completed together
 at the end. Every closure waiting on a queue is a job of the state machine; that there is never more
 than one is proved, not assumed.
 */
module SerializerPipeline {
  import opened Basics

  datatype RequestState = Initialized | Resumed | Suspended | Cancelled | Finished {

    predicate CanTransitionTo(state: RequestState) {
      if Initialized? then true
      else if state.Initialized? || Cancelled? || Finished? then false
      else if (Resumed? && state.Resumed?) || (Suspended? && state.Suspended?) then false
      else true
    }
  }

  /** The completion of a handler, with the response of one attempt. */
  datatype Handled = Handled(handler: nat, attempt: nat)

  /** The part of Request's mutable state the pipeline uses. */
  datatype Pipe = Pipe(state: RequestState, serializers: seq<nat>, completions: seq<Handled>,
                       processingFinished: bool, isFinishing: bool, retryCount: nat)

  /** What processNextResponseSerializer does after its locked section. */
  datatype Next = Serialize(index: nat) | CallAll(completions: seq<Handled>)

  // ---- The sections as functions ----

  function AfterAppend(p: Pipe, handler: nat): Pipe {
    p.(serializers := p.serializers + [handler], state := if p.state.Finished? then Resumed else p.state)
  }

  function AfterProcess(p: Pipe): (Pipe, Next) {
    if |p.completions| < |p.serializers| then (p, Serialize(|p.completions|))
    else
      (p.(serializers := [], completions := [], processingFinished := true, isFinishing := false,
          state := if p.state.CanTransitionTo(Finished) then Finished else p.state),
       CallAll(p.completions))
  }

  function AfterFinish(p: Pipe): (Pipe, Option<Next>) {
    if p.isFinishing then (p, None)
    else
      var (p', next) := AfterProcess(p.(isFinishing := true));
      (p', Some(next))
  }

  function AfterComplete(p: Pipe, c: Handled): (Pipe, Next) {
    AfterProcess(p.(completions := p.completions + [c]))
  }

  function AfterPrepareForRetry(p: Pipe): Pipe {
    p.(retryCount := p.retryCount + 1, isFinishing := false, completions := [])
  }

  // ---- The request ----

  class Request {
    var state: RequestState
    var responseSerializers: seq<nat>
    var responseSerializerCompletions: seq<Handled>
    var responseSerializerProcessingFinished: bool
    var isFinishing: bool
    var retryCount: nat

    function Contents(): Pipe
      reads this
    {
      Pipe(state, responseSerializers, responseSerializerCompletions, responseSerializerProcessingFinished,
           isFinishing, retryCount)
    }

    constructor ()
      ensures Contents() == Pipe(Initialized, [], [], false, false, 0)
    {
      state, responseSerializers, responseSerializerCompletions := Initialized, [], [];
      responseSerializerProcessingFinished, isFinishing, retryCount := false, false, 0;
    }

    /**
     appendResponseSerializer; `process` and `resume` tell that it also dispatches processNextResponseSerializer and,
     for a request that starts by itself, resume.
     */
    method AppendResponseSerializer(handler: nat) returns (process: bool, resume: bool)
      modifies this
      ensures Contents() == AfterAppend(old(Contents()), handler)
      ensures responseSerializers == old(responseSerializers) + [handler]
      ensures state == if old(state).Finished? then Resumed else old(state)
      ensures process == old(responseSerializerProcessingFinished)
      ensures resume <==> old(state).Initialized? || old(state).Suspended?
    {
      responseSerializers := responseSerializers + [handler];
      if state == Finished {
        state := Resumed;
      }
      process := responseSerializerProcessingFinished;
      resume := state.CanTransitionTo(Resumed);
    }

    method NextResponseSerializer() returns (index: Option<nat>)
      ensures index == if |responseSerializerCompletions| < |responseSerializers|
                       then Some(|responseSerializerCompletions|) else None
    {
      index := None;
      var i := |responseSerializerCompletions|;
      if i < |responseSerializers| {
        index := Some(i);
      }
    }

    method ProcessNextResponseSerializer() returns (next: Next)
      modifies this
      ensures (Contents(), next) == AfterProcess(old(Contents()))
      ensures |old(responseSerializerCompletions)| < |old(responseSerializers)| ==>
                next == Serialize(|old(responseSerializerCompletions)|) && Contents() == old(Contents())
      ensures |old(responseSerializerCompletions)| >= |old(responseSerializers)| ==>
                next == CallAll(old(responseSerializerCompletions))
                && responseSerializers == [] && responseSerializerCompletions == []
                && responseSerializerProcessingFinished && !isFinishing && retryCount == old(retryCount)
                && state == if old(state).Cancelled? then Cancelled else Finished
    {
      var index := NextResponseSerializer();
      if index.None? {
        var completions := responseSerializerCompletions;
        responseSerializers := [];
        responseSerializerCompletions := [];
        if state.CanTransitionTo(Finished) {
          state := Finished;
        }
        responseSerializerProcessingFinished := true;
        isFinishing := false;
        return CallAll(completions);
      }
      return Serialize(index.value);
    }

    method Finish() returns (next: Option<Next>)
      modifies this
      ensures (Contents(), next) == AfterFinish(old(Contents()))
      ensures old(isFinishing) ==> next == None && Contents() == old(Contents())
      ensures !old(isFinishing) ==> next.Some?
      ensures !old(isFinishing) && |old(responseSerializerCompletions)| < |old(responseSerializers)| ==> isFinishing
    {
      if isFinishing {
        return None;
      }
      isFinishing := true;
      var n := ProcessNextResponseSerializer();
      return Some(n);
    }

    method ResponseSerializerDidComplete(completion: Handled) returns (next: Next)
      modifies this
      ensures (Contents(), next) == AfterComplete(old(Contents()), completion)
      ensures |old(responseSerializerCompletions)| + 1 < |old(responseSerializers)| ==>
                responseSerializerCompletions == old(responseSerializerCompletions) + [completion]
                && next == Serialize(|responseSerializerCompletions|)
      ensures |old(responseSerializerCompletions)| + 1 >= |old(responseSerializers)| ==>
                next == CallAll(old(responseSerializerCompletions) + [completion])
    {
      responseSerializerCompletions := responseSerializerCompletions + [completion];
      next := ProcessNextResponseSerializer();
    }

    method PrepareForRetry()
      modifies this
      ensures Contents() == AfterPrepareForRetry(old(Contents()))
      ensures retryCount == old(retryCount) + 1 && !isFinishing && responseSerializerCompletions == []
      ensures responseSerializers == old(responseSerializers) && state == old(state)
    {
      retryCount := retryCount + 1;
      Reset();
    }

    method Reset()
      modifies this
      ensures Contents() == old(Contents()).(isFinishing := false, completions := [])
    {
      isFinishing := false;
      responseSerializerCompletions := [];
    }
  }

  /** The pairs of states that canTransitionTo allows */
  const TRANSITIONS: set<(RequestState, RequestState)> := {
    (Initialized, Initialized), (Initialized, Resumed), (Initialized, Suspended), (Initialized, Cancelled),
    (Initialized, Finished),
    (Resumed, Suspended), (Resumed, Cancelled), (Resumed, Finished),
    (Suspended, Resumed), (Suspended, Cancelled), (Suspended, Finished)
  }

  /**
   The whole table of transitions. States that admit none are exactly the final ones, and a state never repeats except
   the initial one.
   */
  lemma FinalStates(s: RequestState)
    ensures forall t: RequestState :: s.CanTransitionTo(t) <==> (s, t) in TRANSITIONS
    ensures (forall t: RequestState :: !s.CanTransitionTo(t)) <==> s.Cancelled? || s.Finished?
    ensures s.CanTransitionTo(s) <==> s.Initialized?
    ensures !s.Initialized? ==> !s.CanTransitionTo(Initialized)
    ensures s.CanTransitionTo(Finished) <==> !s.Cancelled? && !s.Finished?
  {
    forall t: RequestState ensures s.CanTransitionTo(t) <==> (s, t) in TRANSITIONS {
      match t
      case Initialized =>
      case Resumed =>
      case Suspended =>
      case Cancelled =>
      case Finished =>
    }
    if !s.Cancelled? && !s.Finished? {
      assert s.CanTransitionTo(Finished);
    }
  }

  // ---- Every interleaving ----

  /**
   A closure or callback that some queue or the network still owes. A serializer closure works on the response of the
   attempt in which it was dispatched.
   */
  datatype Job =
    | Performing                            // the task of the current attempt
    | Deciding                              // the retry decision of retryOrFinish
    | Retrying                              // Session.retryRequest
    | Serializing(index: nat, attempt: nat) // the serializer closure, on the serialization queue
    | Parsed(index: nat, attempt: nat)      // its continuation, on the underlying queue
    | DecidingOn(index: nat, attempt: nat)  // the retry decision for a serializer error

  datatype World = World(p: Pipe, jobs: seq<Job>, called: seq<Handled>, registered: seq<nat>,
                         started: bool, finishReached: bool, done: bool)

  /** What the outside contributes: whether there was an error, and whether a retrier wants a retry. */
  datatype Event =
    | Append(handler: nat)
    | Begin
    | Change(state: RequestState)                     // resume or suspend
    | Run(i: nat, failed: bool, retry: bool)

  predicate Enabled(w: World, e: Event) {
    match e
    case Append(_) => !w.finishReached
    case Begin => !w.started
    case Change(state) => (state.Resumed? || state.Suspended?) && w.p.state.CanTransitionTo(state)
    case Run(i, _, _) => i < |w.jobs|
  }

  function Spawn(w: World, job: Job): World {
    w.(jobs := w.jobs + [job])
  }

  function Continue(w: World, next: Next): World {
    match next
    case Serialize(index) => Spawn(w, Serializing(index, w.p.retryCount))
    case CallAll(completions) => w.(called := w.called + completions, done := true)
  }

  function Finishing(w: World): World {
    var (p, next) := AfterFinish(w.p);
    var w' := w.(p := p, finishReached := true);
    if next.None? then w' else Continue(w', next.value)
  }

  /** A completion stands for the handler at this index and the response that its closure was dispatched for. */
  function Completing(w: World, index: nat, attempt: nat): World {
    var handler := if index < |w.p.serializers| then w.p.serializers[index] else 0;
    var (p, next) := AfterComplete(w.p, Handled(handler, attempt));
    Continue(w.(p := p), next)
  }

  function RunJob(w: World, job: Job, failed: bool, retry: bool): World {
    match job
    case Performing => if failed then Spawn(w, Deciding) else Finishing(w)
    case Deciding => if retry then Spawn(w, Retrying) else Finishing(w)
    case Retrying => Spawn(w.(p := AfterPrepareForRetry(w.p)), Performing)
    case Serializing(index, attempt) => Spawn(w, Parsed(index, attempt))
    case Parsed(index, attempt) =>
      if failed then Spawn(w, DecidingOn(index, attempt)) else Completing(w, index, attempt)
    case DecidingOn(index, attempt) => if retry then Spawn(w, Retrying) else Completing(w, index, attempt)
  }

  function Step(w: World, e: Event): World
    requires Enabled(w, e)
  {
    match e
    case Append(handler) => w.(p := AfterAppend(w.p, handler), registered := w.registered + [handler])
    case Begin => Spawn(w, Performing).(started := true)
    case Change(state) => w.(p := w.p.(state := state))
    case Run(i, failed, retry) => RunJob(w.(jobs := w.jobs[..i] + w.jobs[i + 1..]), w.jobs[i], failed, retry)
  }

  predicate IsRun(w: World, events: seq<Event>)
    decreases |events|
  {
    events == [] || (Enabled(w, events[0]) && IsRun(Step(w, events[0]), events[1..]))
  }

  function After(w: World, events: seq<Event>): World
    requires IsRun(w, events)
    decreases |events|
  {
    if events == [] then w else After(Step(w, events[0]), events[1..])
  }

  const START := World(Pipe(Initialized, [], [], false, false, 0), [], [], [], false, false, false)

  // ---- The invariant ----

  /** The completions of the first n handlers, all from one attempt. */
  function FirstOf(handlers: seq<nat>, n: nat, attempt: nat): (c: seq<Handled>)
    requires n <= |handlers|
    ensures |c| == n
  {
    seq(n, k requires 0 <= k < n => Handled(handlers[k], attempt))
  }

  /** The serializer a job belongs to, if any */
  predicate InFlight(job: Job) {
    job.Serializing? || job.Parsed? || job.DecidingOn?
  }

  ghost predicate JobInv(w: World, job: Job) {
    && w.started && w.called == [] && w.p.serializers == w.registered && !w.p.state.Finished?
    && (InFlight(job) ==>
          && w.p.isFinishing && w.finishReached
          && job.index == |w.p.completions| < |w.p.serializers| && job.attempt == w.p.retryCount
          && w.p.completions == FirstOf(w.registered, job.index, w.p.retryCount))
    && (job.Performing? || job.Deciding? ==> !w.p.isFinishing && w.p.completions == [])
  }

  ghost predicate Inv(w: World) {
    && !w.p.state.Cancelled?
    && |w.jobs| == (if w.started && !w.done then 1 else 0)
    && (|w.jobs| == 1 ==> JobInv(w, w.jobs[0]))
    && (w.done ==>
          && w.started && w.finishReached && w.p.state.Finished?
          && w.p.serializers == [] && w.p.completions == [] && !w.p.isFinishing
          && w.called == FirstOf(w.registered, |w.registered|, w.p.retryCount))
    && (!w.started ==>
          !w.finishReached && !w.p.isFinishing && !w.p.state.Finished?
          && w.called == [] && w.p.completions == [] && w.p.serializers == w.registered)
  }

  /** The world while its only job runs: the job is gone and nothing has taken its place. */
  ghost predicate Between(w: World, job: Job) {
    w.jobs == [] && !w.done && !w.p.state.Cancelled? && JobInv(w, job)
  }

  lemma FinishingKeeps(w: World, job: Job)
    requires Between(w, job) && (job.Performing? || job.Deciding?)
    ensures Inv(Finishing(w))
  {
    var (p, next) := AfterFinish(w.p);
    if next.value.CallAll? {
      assert w.registered == [] && FirstOf(w.registered, 0, w.p.retryCount) == [];
    }
  }

  lemma CompletingKeeps(w: World, job: Job)
    requires Between(w, job) && InFlight(job)
    ensures Inv(Completing(w, job.index, job.attempt))
  {
    var c := Handled(w.registered[job.index], w.p.retryCount);
    assert w.p.completions + [c] == FirstOf(w.registered, job.index + 1, w.p.retryCount);
    assert w.called + FirstOf(w.registered, job.index + 1, w.p.retryCount)
           == FirstOf(w.registered, job.index + 1, w.p.retryCount);
  }

  lemma RunJobKeeps(w: World, job: Job, failed: bool, retry: bool)
    requires Between(w, job)
    ensures Inv(RunJob(w, job, failed, retry))
  {
    if (job.Performing? && !failed) || (job.Deciding? && !retry) {
      FinishingKeeps(w, job);
    } else if (job.Parsed? && !failed) || (job.DecidingOn? && !retry) {
      CompletingKeeps(w, job);
    } else {
      assert |RunJob(w, job, failed, retry).jobs| == 1;
    }
  }

  lemma {:induction false} StepKeeps(w: World, e: Event)
    requires Inv(w) && Enabled(w, e)
    ensures Inv(Step(w, e))
  {
    if e.Run? {
      assert w.jobs[..e.i] + w.jobs[e.i + 1..] == [];
      RunJobKeeps(w.(jobs := []), w.jobs[0], e.failed, e.retry);
    }
  }

  lemma {:induction false} RunKeeps(w: World, events: seq<Event>)
    requires Inv(w) && IsRun(w, events)
    ensures Inv(After(w, events))
    decreases |events|
  {
    if events != [] {
      StepKeeps(w, events[0]);
      RunKeeps(Step(w, events[0]), events[1..]);
    }
  }

  /**
   Over every uncancelled run, with any number of retries: at most one closure is pending, a serializer in flight has
   the number of completions for its index and belongs to the current attempt, so that no closure of an earlier attempt
   survives a retry, and completions are called all at once, one per registered handler in registration order, each with
   the response of the last attempt.
   */
  lemma SinglePipeline(events: seq<Event>)
    requires IsRun(START, events)
    ensures var w := After(START, events);
            && |w.jobs| <= 1
            && (|w.jobs| == 1 && InFlight(w.jobs[0]) ==>
                  w.jobs[0].index == |w.p.completions| && w.jobs[0].attempt == w.p.retryCount)
            && (if w.done then w.called == FirstOf(w.registered, |w.registered|, w.p.retryCount) else w.called == [])
  {
    RunKeeps(START, events);
  }

  /** A begun run that owes nothing any more has finished: the completions were called and the state is final. */
  lemma NothingStalls(events: seq<Event>)
    requires IsRun(START, events)
    requires After(START, events).started && After(START, events).jobs == []
    ensures After(START, events).done && After(START, events).p.state.Finished?
  {
    RunKeeps(START, events);
  }

  /**
   A serializer added to a finished request reopens it: processing, which the request then dispatches, starts with that
   serializer, and completing it calls its handler alone and finishes the request again.
   */
  lemma LateSerializer(p: Pipe, handler: nat, attempt: nat)
    requires p.state.Finished? && p.serializers == [] && p.completions == []
    ensures var (p1, next) := AfterProcess(AfterAppend(p, handler));
            && p1.state.Resumed? && next == Serialize(0)
            && AfterComplete(p1, Handled(handler, attempt)).1 == CallAll([Handled(handler, attempt)])
            && AfterComplete(p1, Handled(handler, attempt)).0.state.Finished?
            && AfterComplete(p1, Handled(handler, attempt)).0.serializers == []
  {
    var p1 := AfterAppend(p, handler);
    assert p1.completions + [Handled(handler, attempt)] == [Handled(handler, attempt)];
  }

  // ---- Failures and retries ----

  /** A failed attempt or a serializer error is first put to the retrier; nothing else changes. */
  lemma FailuresAreOffered(w: World, retry: bool)
    requires Inv(w) && |w.jobs| == 1
    ensures var w', job := Step(w, Run(0, true, retry)), w.jobs[0];
            && (job.Performing? ==> w' == w.(jobs := [Deciding]))
            && (job.Parsed? ==> w' == w.(jobs := [DecidingOn(job.index, job.attempt)]))
  {
    assert w.jobs[..0] + w.jobs[1..] == [];
  }

  /** Without a failure the request goes on to its next serializer, or is done. */
  lemma SuccessesGoOn(w: World, retry: bool)
    requires Inv(w) && |w.jobs| == 1
    ensures var w', job := Step(w, Run(0, false, retry)), w.jobs[0];
            && (job.Performing? ==>
                  w'.finishReached && (w'.done || w'.jobs == [Serializing(0, w.p.retryCount)]))
            && (job.Serializing? ==> w' == w.(jobs := [Parsed(job.index, job.attempt)]))
            && (job.Parsed? ==> w'.done || w'.jobs == [Serializing(job.index + 1, job.attempt)])
  {
    assert w.jobs[..0] + w.jobs[1..] == [];
  }

  predicate GrantsRetry(w: World, e: Event) {
    e.Run? && e.i < |w.jobs| && (w.jobs[e.i].Deciding? || w.jobs[e.i].DecidingOn?) && e.retry
  }

  /** How many retries the retrier grants in a run */
  function Granted(w: World, events: seq<Event>): nat
    requires IsRun(w, events)
    decreases |events|
  {
    if events == [] then 0 else (if GrantsRetry(w, events[0]) then 1 else 0) + Granted(Step(w, events[0]), events[1..])
  }

  /** Retries counted by the request, and one that is about to be */
  function Counted(w: World): nat {
    w.p.retryCount + if |w.jobs| == 1 && w.jobs[0].Retrying? then 1 else 0
  }

  lemma StepGrants(w: World, e: Event)
    requires Inv(w) && Enabled(w, e)
    ensures Counted(Step(w, e)) == Counted(w) + if GrantsRetry(w, e) then 1 else 0
  {
    if e.Run? {
      assert w.jobs[..e.i] + w.jobs[e.i + 1..] == [];
    }
  }

  lemma {:induction false} RunGrants(w: World, events: seq<Event>)
    requires Inv(w) && IsRun(w, events)
    ensures Counted(After(w, events)) == Counted(w) + Granted(w, events)
    decreases |events|
  {
    if events != [] {
      StepKeeps(w, events[0]);
      StepGrants(w, events[0]);
      RunGrants(Step(w, events[0]), events[1..]);
    }
  }

  /** Over every run, the retry count is the number of retries that were granted, but for one that is about to start. */
  lemma RetriesAreGranted(events: seq<Event>)
    requires IsRun(START, events)
    ensures var w := After(START, events);
            w.p.retryCount == Granted(START, events) - if |w.jobs| == 1 && w.jobs[0].Retrying? then 1 else 0
  {
    RunGrants(START, events);
  }
}
