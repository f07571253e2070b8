/**
 RequestTaskMap and the session's waiting completions: for every task, completion and metrics arrive in
 either order, and the task's completion runs once, after both.
 */
module TaskMap {
  import opened Basics
  import opened Counting

  type Task = nat
  type Request = nat

  datatype Events = Events(completed: bool, metricsGathered: bool)

  datatype Maps = Maps(tasksToRequests: map<Task, Request>, requestsToTasks: map<Request, Task>,
                       taskEvents: map<Task, Events>)

  const EMPTY := Maps(map[], map[], map[])

  /** A two way, one to one map, with events for exactly its tasks. */
  predicate Consistent(m: Maps) {
    && (forall t | t in m.tasksToRequests ::
          m.tasksToRequests[t] in m.requestsToTasks && m.requestsToTasks[m.tasksToRequests[t]] == t)
    && (forall r | r in m.requestsToTasks ::
          m.requestsToTasks[r] in m.tasksToRequests && m.tasksToRequests[m.requestsToTasks[r]] == r)
    && m.taskEvents.Keys == m.tasksToRequests.Keys
  }

  // ---- The mutations as functions; None is a fatalError ----

  function Associated(m: Maps, r: Request, t: Task): Maps {
    Maps(m.tasksToRequests[t := r], m.requestsToTasks[r := t], m.taskEvents[t := Events(false, false)])
  }

  function Removed(m: Maps, r: Request, t: Task): Maps {
    Maps(m.tasksToRequests - {t}, m.requestsToTasks - {r}, m.taskEvents - {t})
  }

  function SetForRequest(m: Maps, r: Request, task: Option<Task>): Option<Maps> {
    if task.Some? then Some(Associated(m, r, task.value))
    else if r !in m.requestsToTasks then None
    else Some(Removed(m, r, m.requestsToTasks[r]))
  }

  function SetForTask(m: Maps, t: Task, request: Option<Request>): Option<Maps> {
    if request.Some? then Some(Associated(m, request.value, t))
    else if t !in m.tasksToRequests then None
    else Some(Removed(m, m.tasksToRequests[t], t))
  }

  /** The new maps, and whether the task was disassociated */
  function AfterMetrics(m: Maps, t: Task): Option<(Maps, bool)> {
    if t !in m.taskEvents || m.taskEvents[t].metricsGathered then None
    else if !m.taskEvents[t].completed then Some((m.(taskEvents := m.taskEvents[t := Events(false, true)]), false))
    else
      match SetForTask(m, t, None)
      case None => None
      case Some(m') => Some((m', true))
  }

  function AfterCompletion(m: Maps, t: Task): Option<(Maps, bool)> {
    if t !in m.taskEvents || m.taskEvents[t].completed then None
    else if !m.taskEvents[t].metricsGathered then
      Some((m.(taskEvents := m.taskEvents[t := Events(true, false)]), false))
    else
      match SetForTask(m, t, None)
      case None => None
      case Some(m') => Some((m', true))
  }

  class RequestTaskMap {
    var tasksToRequests: map<Task, Request>
    var requestsToTasks: map<Request, Task>
    var taskEvents: map<Task, Events>

    function Contents(): Maps
      reads this
    {
      Maps(tasksToRequests, requestsToTasks, taskEvents)
    }

    constructor ()
      ensures Contents() == EMPTY
    {
      tasksToRequests, requestsToTasks, taskEvents := map[], map[], map[];
    }

    /** The subscript by request; `ok` is false where the source stops with a fatalError. */
    method UpdateRequest(r: Request, task: Option<Task>) returns (ok: bool)
      modifies this
      ensures SetForRequest(old(Contents()), r, task) == if ok then Some(Contents()) else None
      ensures ok <==> task.Some? || r in old(requestsToTasks)
      ensures task.Some? ==>
                requestsToTasks == old(requestsToTasks)[r := task.value]
                && tasksToRequests == old(tasksToRequests)[task.value := r]
                && taskEvents == old(taskEvents)[task.value := Events(false, false)]
      ensures ok && task.None? ==>
                requestsToTasks == old(requestsToTasks) - {r}
                && tasksToRequests == old(tasksToRequests) - {old(requestsToTasks)[r]}
                && taskEvents == old(taskEvents) - {old(requestsToTasks)[r]}
      ensures !ok ==> Contents() == old(Contents())
    {
      if task.None? {
        if r !in requestsToTasks {
          return false;
        }
        var t := requestsToTasks[r];
        requestsToTasks := requestsToTasks - {r};
        tasksToRequests := tasksToRequests - {t};
        taskEvents := taskEvents - {t};
        return true;
      }
      requestsToTasks := requestsToTasks[r := task.value];
      tasksToRequests := tasksToRequests[task.value := r];
      taskEvents := taskEvents[task.value := Events(false, false)];
      return true;
    }

    /** The subscript by task */
    method UpdateTask(t: Task, request: Option<Request>) returns (ok: bool)
      modifies this
      ensures SetForTask(old(Contents()), t, request) == if ok then Some(Contents()) else None
      ensures ok <==> request.Some? || t in old(tasksToRequests)
      ensures request.Some? ==>
                tasksToRequests == old(tasksToRequests)[t := request.value]
                && requestsToTasks == old(requestsToTasks)[request.value := t]
                && taskEvents == old(taskEvents)[t := Events(false, false)]
      ensures ok && request.None? ==>
                tasksToRequests == old(tasksToRequests) - {t}
                && requestsToTasks == old(requestsToTasks) - {old(tasksToRequests)[t]}
                && taskEvents == old(taskEvents) - {t}
      ensures !ok ==> Contents() == old(Contents())
    {
      if request.None? {
        if t !in tasksToRequests {
          return false;
        }
        var r := tasksToRequests[t];
        tasksToRequests := tasksToRequests - {t};
        requestsToTasks := requestsToTasks - {r};
        taskEvents := taskEvents - {t};
        return true;
      }
      tasksToRequests := tasksToRequests[t := request.value];
      requestsToTasks := requestsToTasks[request.value := t];
      taskEvents := taskEvents[t := Events(false, false)];
      return true;
    }

    method DisassociateIfNecessaryAfterGatheringMetrics(t: Task) returns (ok: bool, disassociated: bool)
      modifies this
      ensures AfterMetrics(old(Contents()), t) == if ok then Some((Contents(), disassociated)) else None
      ensures t !in old(taskEvents) ==> !ok
      ensures ok ==> !old(taskEvents)[t].metricsGathered && (disassociated <==> old(taskEvents)[t].completed)
      ensures ok ==> (t in taskEvents <==> !disassociated)
      ensures ok && !disassociated ==> taskEvents[t] == Events(false, true)
      ensures t in old(taskEvents) && t in old(tasksToRequests) && !old(taskEvents)[t].metricsGathered ==> ok
    {
      disassociated := false;
      if t !in taskEvents || taskEvents[t].metricsGathered {
        return false, false;
      }
      if !taskEvents[t].completed {
        taskEvents := taskEvents[t := Events(false, true)];
        return true, false;
      }
      ok := UpdateTask(t, None);
      disassociated := true;
    }

    method DisassociateIfNecessaryAfterCompleting(t: Task) returns (ok: bool, disassociated: bool)
      modifies this
      ensures AfterCompletion(old(Contents()), t) == if ok then Some((Contents(), disassociated)) else None
      ensures t !in old(taskEvents) ==> !ok
      ensures ok ==> !old(taskEvents)[t].completed && (disassociated <==> old(taskEvents)[t].metricsGathered)
      ensures ok ==> (t in taskEvents <==> !disassociated)
      ensures ok && !disassociated ==> taskEvents[t] == Events(true, false)
      ensures t in old(taskEvents) && t in old(tasksToRequests) && !old(taskEvents)[t].completed ==> ok
    {
      disassociated := false;
      if t !in taskEvents || taskEvents[t].completed {
        return false, false;
      }
      if !taskEvents[t].metricsGathered {
        taskEvents := taskEvents[t := Events(true, false)];
        return true, false;
      }
      ok := UpdateTask(t, None);
      disassociated := true;
    }

    /** count; its check that both maps have the same size can fail only on an inconsistent map. */
    method Count() returns (ok: bool, count: nat)
      ensures Consistent(Contents()) ==> ok && count == |tasksToRequests| == |requestsToTasks| == |taskEvents|
    {
      ok := |tasksToRequests| == |requestsToTasks|;
      count := |tasksToRequests|;
      if Consistent(Contents()) {
        SameSize(Contents());
      }
    }
  }

  // ---- Consistency ----

  /**
   Associating keeps the map consistent exactly when the request has no other task and the task no other request:
   the setter does not remove a previous partner.
   */
  lemma AssociationCondition(m: Maps, r: Request, t: Task)
    requires Consistent(m)
    ensures Consistent(Associated(m, r, t))
       <==> (r in m.requestsToTasks ==> m.requestsToTasks[r] == t)
            && (t in m.tasksToRequests ==> m.tasksToRequests[t] == r)
  {
    var m' := Associated(m, r, t);
    if r in m.requestsToTasks && m.requestsToTasks[r] != t {
      var t0 := m.requestsToTasks[r];
      assert t0 in m'.tasksToRequests && m'.tasksToRequests[t0] == r;
    }
    if t in m.tasksToRequests && m.tasksToRequests[t] != r {
      var r0 := m.tasksToRequests[t];
      assert r0 in m'.requestsToTasks && m'.requestsToTasks[r0] == t;
    }
  }

  /** Giving a request a second task breaks the map: the first task still points to the request. */
  lemma SecondTaskBreaks()
    ensures Consistent(Associated(EMPTY, 1, 10))
    ensures !Consistent(Associated(Associated(EMPTY, 1, 10), 1, 11))
  {
    var m := Associated(Associated(EMPTY, 1, 10), 1, 11);
    assert m.tasksToRequests[10] == 1 && m.requestsToTasks[1] == 11;
  }

  lemma RemovalKeeps(m: Maps, t: Task)
    requires Consistent(m) && t in m.tasksToRequests
    ensures Consistent(Removed(m, m.tasksToRequests[t], t))
  {
  }

  /** The three dictionaries of a consistent map have the same size, so the count checks never fail. */
  lemma {:induction false} SameSize(m: Maps)
    requires Consistent(m)
    ensures |m.tasksToRequests| == |m.requestsToTasks| == |m.taskEvents|
    decreases |m.tasksToRequests|
  {
    assert |m.taskEvents.Keys| == |m.tasksToRequests.Keys|;
    if m.tasksToRequests.Keys != {} {
      var t :| t in m.tasksToRequests;
      var r := m.tasksToRequests[t];
      var m' := Removed(m, r, t);
      RemovalKeeps(m, t);
      assert m'.tasksToRequests.Keys == m.tasksToRequests.Keys - {t};
      assert m'.requestsToTasks.Keys == m.requestsToTasks.Keys - {r};
      SameSize(m');
    } else {
      assert m.requestsToTasks.Keys == {};
    }
  }

  /** On a consistent map, an event stops the program exactly when its task is unknown or the event came before. */
  lemma StopsExactlyWhen(m: Maps, t: Task)
    requires Consistent(m)
    ensures AfterMetrics(m, t).None? <==> t !in m.tasksToRequests || m.taskEvents[t].metricsGathered
    ensures AfterCompletion(m, t).None? <==> t !in m.tasksToRequests || m.taskEvents[t].completed
    ensures SetForTask(m, t, None).None? <==> t !in m.tasksToRequests
    ensures forall r :: SetForRequest(m, r, None).None? <==> r !in m.requestsToTasks
  {
    assert t in m.taskEvents <==> t in m.taskEvents.Keys;
  }

  // ---- The session ----

  /** The session's part of the state; `ran` lists the completions that were called, by task. */
  datatype Session = Session(maps: Maps, waitingCompletions: set<Task>, ran: seq<Task>)

  class SessionTasks {
    const requestTaskMap: RequestTaskMap
    var waitingCompletions: set<Task>
    var ran: seq<Task>

    function State(): Session
      reads this, requestTaskMap
    {
      Session(requestTaskMap.Contents(), waitingCompletions, ran)
    }

    constructor ()
      ensures State() == Session(EMPTY, {}, [])
    {
      requestTaskMap := new RequestTaskMap();
      waitingCompletions, ran := {}, [];
    }

    /** didCreateURLRequest, for a request that is not cancelled */
    method DidCreateTask(r: Request, t: Task)
      modifies this, requestTaskMap
      ensures State() == Created(old(State()), r, t)
    {
      var ok := requestTaskMap.UpdateRequest(r, Some(t));
    }

    method DidGatherMetricsForTask(t: Task) returns (ok: bool)
      modifies this, requestTaskMap
      ensures Gathered(old(State()), t) == if ok then Some(State()) else None
    {
      var didDisassociate;
      ok, didDisassociate := requestTaskMap.DisassociateIfNecessaryAfterGatheringMetrics(t);
      if ok && didDisassociate {
        if t in waitingCompletions {
          ran := ran + [t];
        }
        waitingCompletions := waitingCompletions - {t};
      }
    }

    method DidCompleteTask(t: Task) returns (ok: bool)
      modifies this, requestTaskMap
      ensures Completed(old(State()), t) == if ok then Some(State()) else None
    {
      var didDisassociate;
      ok, didDisassociate := requestTaskMap.DisassociateIfNecessaryAfterCompleting(t);
      if ok {
        if didDisassociate {
          ran := ran + [t];
        } else {
          waitingCompletions := waitingCompletions + {t};
        }
      }
    }
  }

  function Created(s: Session, r: Request, t: Task): Session {
    s.(maps := Associated(s.maps, r, t))
  }

  function Gathered(s: Session, t: Task): Option<Session> {
    match AfterMetrics(s.maps, t)
    case None => None
    case Some((m, didDisassociate)) =>
      if didDisassociate then
        Some(Session(m, s.waitingCompletions - {t}, if t in s.waitingCompletions then s.ran + [t] else s.ran))
      else Some(s.(maps := m))
  }

  function Completed(s: Session, t: Task): Option<Session> {
    match AfterCompletion(s.maps, t)
    case None => None
    case Some((m, didDisassociate)) =>
      if didDisassociate then Some(s.(maps := m, ran := s.ran + [t]))
      else Some(s.(maps := m, waitingCompletions := s.waitingCompletions + {t}))
  }

  // ---- Every interleaving ----

  /** The session and what the outside world did so far: tasks are new, and each event comes once per task. */
  datatype World = World(s: Session, owner: map<Task, Request>, metrics: set<Task>, completed: set<Task>)

  datatype Event = Create(r: Request, t: Task) | Metrics(t: Task) | Complete(t: Task)

  predicate Enabled(w: World, e: Event) {
    match e
    case Create(r, t) => t !in w.owner && r !in w.s.maps.requestsToTasks
    case Metrics(t) => t in w.owner && t !in w.metrics
    case Complete(t) => t in w.owner && t !in w.completed
  }

  /** The session after the event; None when it stops with a fatalError. */
  function Step(w: World, e: Event): Option<World> {
    match e
    case Create(r, t) => Some(w.(s := Created(w.s, r, t), owner := w.owner[t := r]))
    case Metrics(t) =>
      (match Gathered(w.s, t)
       case None => None
       case Some(s) => Some(w.(s := s, metrics := w.metrics + {t})))
    case Complete(t) =>
      match Completed(w.s, t)
      case None => None
      case Some(s) => Some(w.(s := s, completed := w.completed + {t}))
  }

  predicate Open(w: World, t: Task) {
    t in w.owner && !(t in w.metrics && t in w.completed)
  }

  ghost predicate Inv(w: World) {
    && Consistent(w.s.maps)
    && w.metrics <= w.owner.Keys && w.completed <= w.owner.Keys
    && (forall t :: t in w.s.maps.tasksToRequests <==> Open(w, t))
    && (forall t | Open(w, t) ::
          w.s.maps.tasksToRequests[t] == w.owner[t]
          && w.s.maps.taskEvents[t] == Events(t in w.completed, t in w.metrics))
    && w.s.waitingCompletions == w.completed - w.metrics
    && (forall t :: Count(w.s.ran, t) == if t in w.completed && t in w.metrics then 1 else 0)
  }

  lemma AllCounts(ran: seq<Task>, x: Task)
    ensures forall t :: Count(ran + [x], t) == Count(ran, t) + if x == t then 1 else 0
  {
    forall t ensures Count(ran + [x], t) == Count(ran, t) + if x == t then 1 else 0 {
      CountAppend(ran, x, t);
    }
  }

  lemma CreateKeeps(w: World, r: Request, t: Task)
    requires Inv(w) && Enabled(w, Create(r, t))
    ensures Inv(Step(w, Create(r, t)).value)
  {
    var m, w' := w.s.maps, Step(w, Create(r, t)).value;
    assert !Open(w, t);
    AssociationCondition(m, r, t);
    forall t' ensures t' in w'.s.maps.tasksToRequests <==> Open(w', t') {
      assert t' in m.tasksToRequests <==> Open(w, t');
    }
  }

  lemma MetricsKeeps(w: World, t: Task)
    requires Inv(w) && Enabled(w, Metrics(t))
    ensures Step(w, Metrics(t)).Some? && Inv(Step(w, Metrics(t)).value)
  {
    assert Open(w, t);
    RemovalKeeps(w.s.maps, t);
    AllCounts(w.s.ran, t);
    forall t' ensures t' in Step(w, Metrics(t)).value.s.maps.tasksToRequests <==> Open(Step(w, Metrics(t)).value, t') {
      assert t' in w.s.maps.tasksToRequests <==> Open(w, t');
    }
  }

  lemma CompleteKeeps(w: World, t: Task)
    requires Inv(w) && Enabled(w, Complete(t))
    ensures Step(w, Complete(t)).Some? && Inv(Step(w, Complete(t)).value)
  {
    assert Open(w, t);
    RemovalKeeps(w.s.maps, t);
    AllCounts(w.s.ran, t);
    forall t'
      ensures t' in Step(w, Complete(t)).value.s.maps.tasksToRequests <==> Open(Step(w, Complete(t)).value, t')
    {
      assert t' in w.s.maps.tasksToRequests <==> Open(w, t');
    }
  }

  /** No event that may come stops the program, and each keeps the invariant. */
  lemma StepKeeps(w: World, e: Event)
    requires Inv(w) && Enabled(w, e)
    ensures Step(w, e).Some? && Inv(Step(w, e).value)
  {
    match e
    case Create(r, t) => CreateKeeps(w, r, t);
    case Metrics(t) => MetricsKeeps(w, t);
    case Complete(t) => CompleteKeeps(w, t);
  }

  /** A finite interleaving; a step that is enabled is taken even if it stops the program. */
  predicate IsRun(w: World, events: seq<Event>)
    decreases |events|
  {
    || events == []
    || (Enabled(w, events[0]) && (Step(w, events[0]).Some? ==> IsRun(Step(w, events[0]).value, events[1..])))
  }

  /** The world after the run; None if some step stopped the program. */
  function After(w: World, events: seq<Event>): Option<World>
    decreases |events|
  {
    if events == [] then Some(w)
    else if Step(w, events[0]).None? then None
    else After(Step(w, events[0]).value, events[1..])
  }

  const START := World(Session(EMPTY, {}, []), map[], {}, {})

  lemma {:induction false} RunKeeps(w: World, events: seq<Event>)
    requires Inv(w) && IsRun(w, events)
    ensures After(w, events).Some? && Inv(After(w, events).value)
    decreases |events|
  {
    if events != [] {
      StepKeeps(w, events[0]);
      RunKeeps(Step(w, events[0]).value, events[1..]);
    }
  }

  /**
   Rendezvous, over every interleaving: no fatalError is reached, the maps stay mutually inverse with the same
   tasks as taskEvents, the waiting completions are those of completed tasks without metrics, and a task's
   completion has run exactly once if both events came, and not at all before.
   */
  lemma Rendezvous(events: seq<Event>, t: Task)
    requires IsRun(START, events)
    ensures After(START, events).Some?
    ensures var w := After(START, events).value;
            && Consistent(w.s.maps)
            && (t in w.s.waitingCompletions <==> t in w.completed && t !in w.metrics)
            && Count(w.s.ran, t) == (if t in w.completed && t in w.metrics then 1 else 0)
  {
    RunKeeps(START, events);
  }

  /** When a completion runs, its request has no task any more: the retry it may start can associate a new one. */
  lemma CompletionRunsUnassociated(w: World, e: Event)
    requires Inv(w) && Enabled(w, e) && !e.Create?
    requires |Step(w, e).value.s.ran| > |w.s.ran|
    ensures Step(w, e).value.s.ran == w.s.ran + [e.t]
    ensures w.owner[e.t] !in Step(w, e).value.s.maps.requestsToTasks
  {
    assert Open(w, e.t);
    StepKeeps(w, e);
  }
}
