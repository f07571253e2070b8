/**
 The two machines together: every request runs its pipeline of attempts, each attempt creates its URL session task,
 and the completion of that task, which the session runs after completion and metrics, ends the attempt. A retry then
 starts the next one. What TaskMap asks of its environment, that a request given a task has none, is proved here.
 */
module RetryTasks {
  import opened Basics
  import T = TaskMap
  import P = SerializerPipeline

  /** `current` holds the task of the running attempt; `attempts` the attempt every task was created in. */
  datatype World = World(session: T.World, pipes: map<T.Request, P.World>, current: map<T.Request, T.Task>,
                         attempts: map<T.Task, nat>)

  /** `failed` and `retry` are what the outside decides about an attempt that ends. */
  datatype Event =
    | New(r: T.Request)
    | Own(r: T.Request, e: P.Event)                  // anything of a request but the end of its attempt
    | Create(r: T.Request, t: T.Task)                // didCreateURLRequest
    | NoTask(r: T.Request, retry: bool)              // the attempt fails before it has a task
    | Metrics(t: T.Task, failed: bool, retry: bool)
    | Complete(t: T.Task, failed: bool, retry: bool)

  predicate Performing(w: P.World) {
    w.jobs == [P.Performing]
  }

  predicate EndsAttempt(w: P.World, e: P.Event) {
    e.Run? && e.i < |w.jobs| && w.jobs[e.i].Performing?
  }

  /** The attempt runs and has no task yet. */
  predicate Taskless(w: World, r: T.Request) {
    r in w.pipes && Performing(w.pipes[r]) && r !in w.current
  }

  predicate Enabled(w: World, e: Event) {
    match e
    case New(r) => r !in w.pipes
    case Own(r, e) => r in w.pipes && P.Enabled(w.pipes[r], e) && !EndsAttempt(w.pipes[r], e)
    case Create(r, t) => Taskless(w, r) && t !in w.session.owner
    case NoTask(r, _) => Taskless(w, r)
    case Metrics(t, _, _) => T.Enabled(w.session, T.Metrics(t))
    case Complete(t, _, _) => T.Enabled(w.session, T.Complete(t))
  }

  function End(w: P.World, failed: bool, retry: bool): P.World {
    P.RunJob(w.(jobs := []), P.Performing, failed, retry)
  }

  /** A session event; if it runs the completion of a task, the attempt of its request ends. */
  function SessionStep(w: World, e: T.Event, failed: bool, retry: bool): Option<World>
    requires T.Enabled(w.session, e) && !e.Create?
  {
    match T.Step(w.session, e)
    case None => None
    case Some(session) =>
      var r := w.session.owner[e.t];
      if |session.s.ran| == |w.session.s.ran| then Some(w.(session := session))
      else if r !in w.pipes || !Performing(w.pipes[r]) then None
      else
        Some(w.(session := session, pipes := w.pipes[r := End(w.pipes[r], failed, retry)], current := w.current - {r}))
  }

  /** None where the program stops, or would complete a request that is not performing. */
  function Step(w: World, e: Event): Option<World>
    requires Enabled(w, e)
  {
    match e
    case New(r) => Some(w.(pipes := w.pipes[r := P.START]))
    case Own(r, e) => Some(w.(pipes := w.pipes[r := P.Step(w.pipes[r], e)]))
    case NoTask(r, retry) => Some(w.(pipes := w.pipes[r := End(w.pipes[r], true, retry)]))
    case Metrics(t, failed, retry) => SessionStep(w, T.Metrics(t), failed, retry)
    case Complete(t, failed, retry) => SessionStep(w, T.Complete(t), failed, retry)
    case Create(r, t) =>
      match T.Step(w.session, T.Create(r, t))
      case None => None
      case Some(session) =>
        Some(World(session, w.pipes, w.current[r := t], w.attempts[t := w.pipes[r].p.retryCount]))
  }

  predicate IsRun(w: World, events: seq<Event>)
    decreases |events|
  {
    || events == []
    || (Enabled(w, events[0]) && (Step(w, events[0]).Some? ==> IsRun(Step(w, events[0]).value, events[1..])))
  }

  /** The world after the run; None if some step stopped the program. */
  function After(w: World, events: seq<Event>): Option<World>
    requires IsRun(w, events)
    decreases |events|
  {
    if events == [] then Some(w)
    else if Step(w, events[0]).None? then None
    else After(Step(w, events[0]).value, events[1..])
  }

  const START := World(T.START, map[], map[], map[])

  // ---- The invariant ----

  /** A request has a task in the session's map exactly while its attempt has one. */
  ghost predicate RequestInv(w: World, r: T.Request) {
    && (r in w.pipes ==> P.Inv(w.pipes[r]))
    && (r in w.current <==> r in w.session.s.maps.requestsToTasks)
    && (r in w.current ==>
          r in w.pipes && Performing(w.pipes[r]) && w.session.s.maps.requestsToTasks[r] == w.current[r])
  }

  /** The attempts of tasks lie in the past, or in the present if that attempt has its task. */
  predicate TaskInv(w: World, t: T.Task) {
    t in w.session.owner ==>
      var r := w.session.owner[t];
      && t in w.attempts && r in w.pipes && w.pipes[r].started && w.attempts[t] <= w.pipes[r].p.retryCount
      && (Taskless(w, r) ==> w.attempts[t] < w.pipes[r].p.retryCount)
  }

  predicate DifferentAttempts(w: World, t: T.Task, t': T.Task) {
    t in w.session.owner && t' in w.session.owner && t != t' && w.session.owner[t] == w.session.owner[t'] ==>
      t in w.attempts && t' in w.attempts && w.attempts[t] != w.attempts[t']
  }

  ghost predicate Inv(w: World) {
    && T.Inv(w.session)
    && (forall r :: RequestInv(w, r))
    && (forall t :: TaskInv(w, t))
    && (forall t, t' :: DifferentAttempts(w, t, t'))
  }

  /** What a step of a request other than the end of an attempt does to its attempt */
  lemma OwnStep(w: P.World, e: P.Event)
    requires P.Inv(w) && P.Enabled(w, e) && !EndsAttempt(w, e)
    ensures var w' := P.Step(w, e);
            && P.Inv(w') && w'.p.retryCount >= w.p.retryCount && (w.started ==> w'.started)
            && (Performing(w) ==> Performing(w') && w'.p.retryCount == w.p.retryCount)
            && (Performing(w') && !Performing(w) && w.started ==> w'.p.retryCount > w.p.retryCount)
  {
    P.StepKeeps(w, e);
    if e.Run? {
      assert e.i == 0 && w.jobs[..0] + w.jobs[1..] == [];
    }
  }

  lemma EndStep(w: P.World, failed: bool, retry: bool)
    requires P.Inv(w) && Performing(w)
    ensures var w' := End(w, failed, retry);
            P.Inv(w') && w'.p.retryCount == w.p.retryCount && !Performing(w') && w'.started
  {
    P.RunJobKeeps(w.(jobs := []), P.Performing, failed, retry);
  }

  /** Changing the pipeline of one request in a way that its tasks allow */
  lemma PipeChange(w: World, w': World, r: T.Request)
    requires Inv(w) && w'.session == w.session && w'.attempts == w.attempts && w'.current == w.current
    requires r in w.pipes && r in w'.pipes && w'.pipes == w.pipes[r := w'.pipes[r]]
    requires P.Inv(w'.pipes[r]) && w'.pipes[r].p.retryCount >= w.pipes[r].p.retryCount
    requires w.pipes[r].started ==> w'.pipes[r].started
    requires r in w.current ==> Performing(w'.pipes[r])
    requires Performing(w'.pipes[r]) && !Performing(w.pipes[r]) && w.pipes[r].started ==>
               w'.pipes[r].p.retryCount > w.pipes[r].p.retryCount
    ensures Inv(w')
  {
    forall q ensures RequestInv(w', q) {
      assert RequestInv(w, q);
    }
    forall t ensures TaskInv(w', t) {
      assert TaskInv(w, t);
    }
    forall t, t' ensures DifferentAttempts(w', t, t') {
      assert DifferentAttempts(w, t, t');
    }
  }

  lemma NewKeeps(w: World, r: T.Request)
    requires Inv(w) && r !in w.pipes
    ensures Inv(w.(pipes := w.pipes[r := P.START]))
  {
    var w' := w.(pipes := w.pipes[r := P.START]);
    forall q ensures RequestInv(w', q) {
      assert RequestInv(w, q);
    }
    forall t ensures TaskInv(w', t) {
      assert TaskInv(w, t);
    }
    forall t, t' ensures DifferentAttempts(w', t, t') {
      assert DifferentAttempts(w, t, t');
    }
  }

  lemma OwnKeeps(w: World, r: T.Request, e: P.Event)
    requires Inv(w) && Enabled(w, Own(r, e))
    ensures Inv(Step(w, Own(r, e)).value)
  {
    assert RequestInv(w, r);
    OwnStep(w.pipes[r], e);
    PipeChange(w, Step(w, Own(r, e)).value, r);
  }

  lemma NoTaskKeeps(w: World, r: T.Request, retry: bool)
    requires Inv(w) && Taskless(w, r)
    ensures Inv(Step(w, NoTask(r, retry)).value)
  {
    assert RequestInv(w, r);
    EndStep(w.pipes[r], true, retry);
    PipeChange(w, Step(w, NoTask(r, retry)).value, r);
  }

  /** The attempt that wants a task finds its request without one. */
  lemma TasklessIsFree(w: World, r: T.Request, t: T.Task)
    requires Inv(w) && Taskless(w, r) && t !in w.session.owner
    ensures T.Enabled(w.session, T.Create(r, t))
  {
    assert RequestInv(w, r);
  }

  lemma CreateKeeps(w: World, r: T.Request, t: T.Task)
    requires Inv(w) && Enabled(w, Create(r, t))
    ensures Step(w, Create(r, t)).Some? && Inv(Step(w, Create(r, t)).value)
  {
    var w' := Step(w, Create(r, t)).value;
    TasklessIsFree(w, r, t);
    T.CreateKeeps(w.session, r, t);
    forall q ensures RequestInv(w', q) {
      assert RequestInv(w, q);
    }
    forall u ensures TaskInv(w', u) {
      assert TaskInv(w, u) && RequestInv(w, r);
    }
    forall u, u' ensures DifferentAttempts(w', u, u') {
      assert DifferentAttempts(w, u, u') && TaskInv(w, u) && TaskInv(w, u');
    }
  }

  /** What a session event does to the map between requests and tasks */
  lemma SessionEffect(s: T.World, e: T.Event)
    requires T.Inv(s) && T.Enabled(s, e) && !e.Create?
    ensures T.Step(s, e).Some? && T.Inv(T.Step(s, e).value) && T.Step(s, e).value.owner == s.owner
    ensures var s' := T.Step(s, e).value;
            if |s'.s.ran| == |s.s.ran| then s'.s.maps.requestsToTasks == s.s.maps.requestsToTasks
            else var r := s.owner[e.t];
                 r in s.s.maps.requestsToTasks && s'.s.maps.requestsToTasks == s.s.maps.requestsToTasks - {r}
  {
    T.StepKeeps(s, e);
    assert T.Open(s, e.t);
  }

  lemma QuietKeeps(w: World, session: T.World)
    requires Inv(w) && T.Inv(session) && session.owner == w.session.owner
    requires session.s.maps.requestsToTasks == w.session.s.maps.requestsToTasks
    ensures Inv(w.(session := session))
  {
    var w' := w.(session := session);
    forall q ensures RequestInv(w', q) {
      assert RequestInv(w, q);
    }
    forall t ensures TaskInv(w', t) {
      assert TaskInv(w, t);
    }
    forall t, t' ensures DifferentAttempts(w', t, t') {
      assert DifferentAttempts(w, t, t');
    }
  }

  lemma EndKeeps(w: World, session: T.World, r: T.Request, pipe: P.World)
    requires Inv(w) && T.Inv(session) && session.owner == w.session.owner
    requires session.s.maps.requestsToTasks == w.session.s.maps.requestsToTasks - {r}
    requires r in w.pipes && P.Inv(pipe) && pipe.p.retryCount == w.pipes[r].p.retryCount && !Performing(pipe)
             && pipe.started
    ensures Inv(w.(session := session, pipes := w.pipes[r := pipe], current := w.current - {r}))
  {
    var w' := w.(session := session, pipes := w.pipes[r := pipe], current := w.current - {r});
    forall q ensures RequestInv(w', q) {
      assert RequestInv(w, q);
    }
    forall t ensures TaskInv(w', t) {
      assert TaskInv(w, t);
    }
    forall t, t' ensures DifferentAttempts(w', t, t') {
      assert DifferentAttempts(w, t, t');
    }
  }

  lemma SessionKeeps(w: World, e: T.Event, failed: bool, retry: bool)
    requires Inv(w) && T.Enabled(w.session, e) && !e.Create?
    ensures SessionStep(w, e, failed, retry).Some? && Inv(SessionStep(w, e, failed, retry).value)
  {
    SessionEffect(w.session, e);
    var session, r := T.Step(w.session, e).value, w.session.owner[e.t];
    if |session.s.ran| == |w.session.s.ran| {
      QuietKeeps(w, session);
    } else {
      assert RequestInv(w, r);
      EndStep(w.pipes[r], failed, retry);
      EndKeeps(w, session, r, End(w.pipes[r], failed, retry));
    }
  }

  lemma StepKeeps(w: World, e: Event)
    requires Inv(w) && Enabled(w, e)
    ensures Step(w, e).Some? && Inv(Step(w, e).value)
  {
    match e {
      case New(r) => NewKeeps(w, r);
      case Own(r, e) => OwnKeeps(w, r, e);
      case Create(r, t) => CreateKeeps(w, r, t);
      case NoTask(r, retry) => NoTaskKeeps(w, r, retry);
      case Metrics(t, failed, retry) => SessionKeeps(w, T.Metrics(t), failed, retry);
      case Complete(t, failed, retry) => SessionKeeps(w, T.Complete(t), failed, retry);
    }
  }

  lemma {:induction false} RunKeeps(w: World, events: seq<Event>)
    requires Inv(w) && IsRun(w, events)
    ensures After(w, events).Some? && Inv(After(w, events).value)
    decreases |events|
  {
    if events != [] {
      StepKeeps(w, events[0]);
      RunKeeps(Step(w, events[0]).value, events[1..]);
    }
  }

  lemma StartInv()
    ensures Inv(START)
  {
  }

  /**
   Over every run of any number of requests, with any retries: no fatalError is reached, every completion finds its
   request performing, and whenever an attempt, first or retried, creates its task, the request has none, so that the
   maps stay mutually inverse.
   */
  lemma RetriesFindNoTask(events: seq<Event>, r: T.Request, t: T.Task)
    requires IsRun(START, events)
    ensures After(START, events).Some?
    ensures var w := After(START, events).value;
            && T.Consistent(w.session.s.maps)
            && (Enabled(w, Create(r, t)) ==>
                  T.Enabled(w.session, T.Create(r, t)) && T.Consistent(T.Associated(w.session.s.maps, r, t)))
  {
    StartInv();
    RunKeeps(START, events);
    var w := After(START, events).value;
    if Enabled(w, Create(r, t)) {
      TasklessIsFree(w, r, t);
      T.AssociationCondition(w.session.s.maps, r, t);
      assert !T.Open(w.session, t);
    }
  }

  /** Two tasks of one request belong to different attempts: there are never more tasks than retries and one. */
  lemma OneTaskPerAttempt(events: seq<Event>, t: T.Task, t': T.Task)
    requires IsRun(START, events) && After(START, events).Some?
    requires var w := After(START, events).value;
             t in w.session.owner && t' in w.session.owner && t != t' && w.session.owner[t] == w.session.owner[t']
    ensures var w := After(START, events).value;
            && t in w.attempts && t' in w.attempts && w.attempts[t] != w.attempts[t']
            && w.session.owner[t] in w.pipes && w.attempts[t] <= w.pipes[w.session.owner[t]].p.retryCount
  {
    StartInv();
    RunKeeps(START, events);
    var w := After(START, events).value;
    assert DifferentAttempts(w, t, t') && TaskInv(w, t);
  }
}
