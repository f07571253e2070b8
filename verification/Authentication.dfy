/**
 AuthenticationInterceptor: one credential refresh at a time, with adapt and retry operations queued
 behind it. The interceptor is a class; its lock-protected sections are proved against functions on its
 state, and every interleaving of those sections is a run of a state machine.
 */
module Authentication {
  import opened Basics
  import opened Counting

  type Credential = nat
  type Time = real

  datatype Error = MissingCredential | ExcessiveRefresh | RefreshError(code: nat)

  datatype RefreshWindow = RefreshWindow(interval: Time, maximumAttempts: int)

  datatype AdaptResult = Adapt(credential: Credential) | DoNotAdapt(error: Error) | AdaptDeferred

  datatype RefreshResult = Success(credential: Credential) | Failure(error: Error)

  /** Closures on the dispatch queue. Completions are known by number. */
  datatype Closure =
    | StartRefresh(credential: Credential)
    | Succeeded(adapts: seq<nat>, retries: seq<nat>)
    | Failed(adapts: seq<nat>, retries: seq<nat>, error: Error)

  /** The lock-protected state and the queue its sections dispatch to. */
  datatype Shared = Shared(
    credential: Option<Credential>, isRefreshing: bool, refreshTimestamps: seq<Time>,
        refreshWindow: Option<RefreshWindow>,
    adaptOperations: seq<nat>, requestsToRetry: seq<nat>, queue: seq<Closure>)

  // ---- The sections as functions ----

  /** The refreshes at or after `since`. */
  function CountSince(timestamps: seq<Time>, since: Time): (n: nat)
    ensures n <= |timestamps|
  {
    if timestamps == [] then 0
    else CountSince(timestamps[..|timestamps| - 1], since) + if since <= timestamps[|timestamps| - 1] then 1 else 0
  }

  predicate Excessive(s: Shared, now: Time) {
    s.refreshWindow.Some?
    && CountSince(s.refreshTimestamps, now - s.refreshWindow.value.interval) >= s.refreshWindow.value.maximumAttempts
  }

  function AfterSuccess(s: Shared, credential: Credential): Shared {
    s.(credential := Some(credential), adaptOperations := [], requestsToRetry := [], isRefreshing := false,
       queue := s.queue + [Succeeded(s.adaptOperations, s.requestsToRetry)])
  }

  function AfterFailure(s: Shared, error: Error): Shared {
    s.(adaptOperations := [], requestsToRetry := [], isRefreshing := false,
       queue := s.queue + [Failed(s.adaptOperations, s.requestsToRetry, error)])
  }

  /** refresh: the clock is read once for the check and once for the timestamp. */
  function AfterRefresh(s: Shared, credential: Credential, checked: Time, appended: Time): Shared {
    if Excessive(s, checked) then AfterFailure(s, ExcessiveRefresh)
    else
      s.(refreshTimestamps := s.refreshTimestamps + [appended], isRefreshing := true,
         queue := s.queue + [StartRefresh(credential)])
  }

  function AfterAdapt(s: Shared, id: nat, requiresRefresh: bool, checked: Time, appended: Time): (Shared, AdaptResult) {
    var queued := s.(adaptOperations := s.adaptOperations + [id]);
    if s.isRefreshing then (queued, AdaptDeferred)
    else if s.credential.None? then (s, DoNotAdapt(MissingCredential))
    else if requiresRefresh then (AfterRefresh(queued, s.credential.value, checked, appended), AdaptDeferred)
    else (s, Adapt(s.credential.value))
  }

  function AfterRetry(s: Shared, id: nat, credential: Credential, checked: Time, appended: Time): Shared {
    var queued := s.(requestsToRetry := s.requestsToRetry + [id]);
    if s.isRefreshing then queued else AfterRefresh(queued, credential, checked, appended)
  }

  // ---- The interceptor ----

  class AuthenticationInterceptor {
    var credential: Option<Credential>
    var isRefreshing: bool
    var refreshTimestamps: seq<Time>
    var refreshWindow: Option<RefreshWindow>
    var adaptOperations: seq<nat>
    var requestsToRetry: seq<nat>
    var queue: seq<Closure>

    function State(): Shared
      reads this
    {
      Shared(credential, isRefreshing, refreshTimestamps, refreshWindow, adaptOperations, requestsToRetry, queue)
    }

    constructor (credential: Option<Credential>, refreshWindow: Option<RefreshWindow>)
      ensures State() == Initial(credential, refreshWindow)
      ensures this.credential == credential && this.refreshWindow == refreshWindow && !isRefreshing
      ensures refreshTimestamps == [] && adaptOperations == [] && requestsToRetry == [] && queue == []
    {
      this.credential := credential;
      this.refreshWindow := refreshWindow;
      isRefreshing, refreshTimestamps, adaptOperations, requestsToRetry, queue := false, [], [], [], [];
    }

    method IsRefreshExcessive(now: Time) returns (excessive: bool)
      ensures excessive <==> Excessive(State(), now)
    {
      if refreshWindow.None? {
        return false;
      }
      var refreshWindowMin := now - refreshWindow.value.interval;
      var attempts := CountSince(refreshTimestamps, refreshWindowMin);
      return attempts >= refreshWindow.value.maximumAttempts;
    }

    method HandleRefreshSuccess(credential: Credential)
      modifies this
      ensures State() == AfterSuccess(old(State()), credential)
      ensures this.credential == Some(credential) && adaptOperations == [] && requestsToRetry == [] && !isRefreshing
      ensures queue == old(queue) + [Succeeded(old(adaptOperations), old(requestsToRetry))]
      ensures refreshTimestamps == old(refreshTimestamps) && refreshWindow == old(refreshWindow)
    {
      this.credential := Some(credential);
      var adapts, retries := adaptOperations, requestsToRetry;
      adaptOperations := [];
      requestsToRetry := [];
      isRefreshing := false;
      queue := queue + [Succeeded(adapts, retries)];
    }

    method HandleRefreshFailure(error: Error)
      modifies this
      ensures State() == AfterFailure(old(State()), error)
      ensures credential == old(credential) && adaptOperations == [] && requestsToRetry == [] && !isRefreshing
      ensures queue == old(queue) + [Failed(old(adaptOperations), old(requestsToRetry), error)]
      ensures refreshTimestamps == old(refreshTimestamps) && refreshWindow == old(refreshWindow)
    {
      var adapts, retries := adaptOperations, requestsToRetry;
      adaptOperations := [];
      requestsToRetry := [];
      isRefreshing := false;
      queue := queue + [Failed(adapts, retries, error)];
    }

    method Refresh(credential: Credential, checked: Time, appended: Time)
      modifies this
      ensures State() == AfterRefresh(old(State()), credential, checked, appended)
      ensures Excessive(old(State()), checked) ==>
                !isRefreshing && refreshTimestamps == old(refreshTimestamps)
                && queue == old(queue) + [Failed(old(adaptOperations), old(requestsToRetry), ExcessiveRefresh)]
      ensures !Excessive(old(State()), checked) ==>
                isRefreshing && refreshTimestamps == old(refreshTimestamps) + [appended]
                && queue == old(queue) + [StartRefresh(credential)]
                && adaptOperations == old(adaptOperations) && requestsToRetry == old(requestsToRetry)
    {
      var excessive := IsRefreshExcessive(checked);
      if excessive {
        HandleRefreshFailure(ExcessiveRefresh);
        return;
      }
      refreshTimestamps := refreshTimestamps + [appended];
      isRefreshing := true;
      queue := queue + [StartRefresh(credential)];
    }

    /** The locked section of adapt */
    method Adapt(id: nat, requiresRefresh: bool, checked: Time, appended: Time) returns (result: AdaptResult)
      modifies this
      ensures (State(), result) == AfterAdapt(old(State()), id, requiresRefresh, checked, appended)
      ensures old(isRefreshing) ==>
                result == AdaptDeferred
                && State() == old(State()).(adaptOperations := old(adaptOperations) + [id])
      ensures !old(isRefreshing) && old(credential).None? ==>
                result == DoNotAdapt(MissingCredential) && State() == old(State())
      ensures !old(isRefreshing) && old(credential).Some? && !requiresRefresh ==>
                result == AdaptResult.Adapt(old(credential).value) && State() == old(State())
      ensures !old(isRefreshing) && old(credential).Some? && requiresRefresh ==>
                result == AdaptDeferred && |queue| == |old(queue)| + 1
    {
      if isRefreshing {
        adaptOperations := adaptOperations + [id];
        return AdaptDeferred;
      }
      if credential.None? {
        return DoNotAdapt(MissingCredential);
      }
      if requiresRefresh {
        adaptOperations := adaptOperations + [id];
        Refresh(credential.value, checked, appended);
        return AdaptDeferred;
      }
      return AdaptResult.Adapt(credential.value);
    }

    /** The locked section of retry, with the credential read before */
    method Retry(id: nat, credential: Credential, checked: Time, appended: Time)
      modifies this
      ensures State() == AfterRetry(old(State()), id, credential, checked, appended)
    {
      requestsToRetry := requestsToRetry + [id];
      if isRefreshing {
        return;
      }
      Refresh(credential, checked, appended);
    }
  }

  function Initial(credential: Option<Credential>, window: Option<RefreshWindow>): Shared {
    Shared(credential, false, [], window, [], [], [])
  }

  // ---- Every interleaving ----

  /** A call between its locked section and its completion. */
  datatype Pending =
    | Adapting(id: nat, credential: Credential)
    | Refusing(id: nat, error: Error)
    | Deciding(id: nat, credential: Credential)    // retry has read the credential, but not yet locked again

  datatype Outcome = Adapted(credential: Credential) | AdaptFailed(error: Error)
                   | RetryNow | DoNotRetry | DoNotRetryWithError(error: Error)

  datatype Call = Call(id: nat, outcome: Outcome)

  /**
   `outstanding` counts authenticator.refresh calls not yet answered, `begun` all that were made; `called` lists the
   completions called.
   */
  datatype World = World(shared: Shared, outstanding: nat, begun: nat, local: seq<Pending>, called: seq<Call>,
                         submitted: seq<nat>)

  /** What one locked section depends on besides the state. */
  datatype Reading = Reading(requiresRefresh: bool, isCurrent: bool, checked: Time, appended: Time)

  datatype Event =
    | AdaptCall(id: nat, r: Reading)
    | RetryCall(id: nat, eligible: bool)   // whether the response failed due to an authentication error
    | Proceed(i: nat, r: Reading)          // a pending call takes its next step
    | RunQueue(r: Reading)                 // the closure at the head of the serial queue takes its next step
    | Answer(result: RefreshResult)        // the authenticator answers a refresh
    | SetCredential(credential: Option<Credential>)

  predicate Enabled(w: World, e: Event) {
    match e
    case AdaptCall(_, r) => r.checked <= r.appended
    case RetryCall(_, _) => true
    case Proceed(i, r) => i < |w.local| && r.checked <= r.appended
    case RunQueue(r) => w.shared.queue != [] && r.checked <= r.appended
    case Answer(_) => w.outstanding > 0
    case SetCredential(_) => true
  }

  /** The locked section of adapt, and what is left to do after it. */
  function AdaptSection(w: World, id: nat, r: Reading): World {
    var (shared, result) := AfterAdapt(w.shared, id, r.requiresRefresh, r.checked, r.appended);
    var w' := w.(shared := shared);
    match result
    case Adapt(c) => w'.(local := w.local + [Adapting(id, c)])
    case DoNotAdapt(error) => w'.(local := w.local + [Refusing(id, error)])
    case AdaptDeferred => w'
  }

  function Calling(w: World, id: nat, outcome: Outcome): World {
    w.(called := w.called + [Call(id, outcome)])
  }

  function ProceedWith(w: World, p: Pending, r: Reading): World {
    match p
    case Adapting(id, c) => Calling(w, id, Adapted(c))
    case Refusing(id, error) => Calling(w, id, AdaptFailed(error))
    case Deciding(id, c) =>
      if !r.isCurrent then Calling(w, id, RetryNow)
      else w.(shared := AfterRetry(w.shared, id, c, r.checked, r.appended))
  }

  function WithHead(w: World, head: Closure): World
    requires w.shared.queue != []
  {
    w.(shared := w.shared.(queue := [head] + w.shared.queue[1..]))
  }

  function WithoutHead(w: World): World
    requires w.shared.queue != []
  {
    w.(shared := w.shared.(queue := w.shared.queue[1..]))
  }

  function RunHead(w: World, r: Reading): World
    requires w.shared.queue != []
  {
    match w.shared.queue[0]
    case StartRefresh(_) => WithoutHead(w).(outstanding := w.outstanding + 1, begun := w.begun + 1)
    case Succeeded(adapts, retries) =>
      if adapts != [] then AdaptSection(WithHead(w, Succeeded(adapts[1..], retries)), adapts[0], r)
      else if retries != [] then Calling(WithHead(w, Succeeded([], retries[1..])), retries[0], RetryNow)
      else WithoutHead(w)
    case Failed(adapts, retries, error) =>
      if adapts != [] then Calling(WithHead(w, Failed(adapts[1..], retries, error)), adapts[0], AdaptFailed(error))
      else if retries != [] then Calling(WithHead(w, Failed([], retries[1..], error)), retries[0],
                                         DoNotRetryWithError(error))
      else WithoutHead(w)
  }

  function Step(w: World, e: Event): World
    requires Enabled(w, e)
  {
    match e
    case AdaptCall(id, r) => AdaptSection(w.(submitted := w.submitted + [id]), id, r)
    case RetryCall(id, eligible) =>
      var w' := w.(submitted := w.submitted + [id]);
      if !eligible then Calling(w', id, DoNotRetry)
      else if w.shared.credential.None? then Calling(w', id, DoNotRetryWithError(MissingCredential))
      else w'.(local := w.local + [Deciding(id, w.shared.credential.value)])
    case Proceed(i, r) => ProceedWith(w.(local := w.local[..i] + w.local[i + 1..]), w.local[i], r)
    case RunQueue(r) => RunHead(w, r)
    case Answer(result) =>
      w.(outstanding := w.outstanding - 1,
         shared := match result
                   case Success(c) => AfterSuccess(w.shared, c)
                   case Failure(error) => AfterFailure(w.shared, error))
    case SetCredential(c) => w.(shared := w.shared.(credential := c))
  }

  predicate IsRun(w: World, events: seq<Event>)
    decreases |events|
  {
    events == [] || (Enabled(w, events[0]) && IsRun(Step(w, events[0]), events[1..]))
  }

  function After(w: World, events: seq<Event>): World
    requires IsRun(w, events)
    decreases |events|
  {
    if events == [] then w else After(Step(w, events[0]), events[1..])
  }

  function Start(credential: Option<Credential>, window: Option<RefreshWindow>): World {
    World(Initial(credential, window), 0, 0, [], [], [])
  }

  // ---- Where the completions are ----

  function InClosure(c: Closure, id: nat): nat {
    if c.StartRefresh? then 0 else Count(c.adapts, id) + Count(c.retries, id)
  }

  function InQueue(queue: seq<Closure>, id: nat): nat {
    if queue == [] then 0 else InClosure(queue[0], id) + InQueue(queue[1..], id)
  }

  function InLocal(local: seq<Pending>, id: nat): nat {
    if local == [] then 0 else (if local[0].id == id then 1 else 0) + InLocal(local[1..], id)
  }

  function InCalls(called: seq<Call>, id: nat): nat {
    if called == [] then 0 else (if called[0].id == id then 1 else 0) + InCalls(called[1..], id)
  }

  function StartsIn(queue: seq<Closure>): nat {
    if queue == [] then 0 else (if queue[0].StartRefresh? then 1 else 0) + StartsIn(queue[1..])
  }

  /** How often the sections hold a completion: in the two queues or in dispatched closures. */
  function Held(s: Shared, id: nat): nat {
    Count(s.adaptOperations, id) + Count(s.requestsToRetry, id) + InQueue(s.queue, id)
  }

  /** In how many places a completion is: queued, dispatched, locally pending, or called. */
  function Places(w: World, id: nat): nat {
    Held(w.shared, id) + InLocal(w.local, id) + InCalls(w.called, id)
  }

  /** Single flight: a refresh is dispatched or in flight exactly when isRefreshing; otherwise both queues are empty. */
  predicate SingleFlight(s: Shared, outstanding: nat) {
    && StartsIn(s.queue) + outstanding == (if s.isRefreshing then 1 else 0)
    && (!s.isRefreshing ==> s.adaptOperations == [] && s.requestsToRetry == [])
  }

  /** The inductive invariant, for one completion */
  predicate Inv(w: World, id: nat) {
    SingleFlight(w.shared, w.outstanding) && Places(w, id) == Count(w.submitted, id)
  }

  lemma {:induction false} QueueAppend(queue: seq<Closure>, c: Closure, id: nat)
    ensures InQueue(queue + [c], id) == InQueue(queue, id) + InClosure(c, id)
    ensures StartsIn(queue + [c]) == StartsIn(queue) + if c.StartRefresh? then 1 else 0
  {
    if queue != [] {
      assert (queue + [c])[1..] == queue[1..] + [c];
      QueueAppend(queue[1..], c, id);
    }
  }

  lemma {:induction false} LocalAppend(local: seq<Pending>, p: Pending, id: nat)
    ensures InLocal(local + [p], id) == InLocal(local, id) + if p.id == id then 1 else 0
  {
    if local != [] {
      assert (local + [p])[1..] == local[1..] + [p];
      LocalAppend(local[1..], p, id);
    }
  }

  lemma {:induction false} LocalRemove(local: seq<Pending>, i: nat, id: nat)
    requires i < |local|
    ensures InLocal(local, id) == InLocal(local[..i] + local[i + 1..], id) + if local[i].id == id then 1 else 0
  {
    if i == 0 {
      assert local[..i] + local[i + 1..] == local[1..];
    } else {
      assert (local[..i] + local[i + 1..])[1..] == local[1..][..i - 1] + local[1..][i..];
      LocalRemove(local[1..], i - 1, id);
    }
  }

  lemma {:induction false} CallsAppend(called: seq<Call>, c: Call, id: nat)
    ensures InCalls(called + [c], id) == InCalls(called, id) + if c.id == id then 1 else 0
  {
    if called != [] {
      assert (called + [c])[1..] == called[1..] + [c];
      CallsAppend(called[1..], c, id);
    }
  }

  // ---- The sections keep single flight and lose nothing ----

  lemma FailureKeeps(s: Shared, outstanding: nat, error: Error, id: nat)
    requires StartsIn(s.queue) + outstanding == 0
    ensures SingleFlight(AfterFailure(s, error), outstanding) && Held(AfterFailure(s, error), id) == Held(s, id)
  {
    QueueAppend(s.queue, Failed(s.adaptOperations, s.requestsToRetry, error), id);
  }

  lemma SuccessKeeps(s: Shared, outstanding: nat, c: Credential, id: nat)
    requires StartsIn(s.queue) + outstanding == 0
    ensures SingleFlight(AfterSuccess(s, c), outstanding) && Held(AfterSuccess(s, c), id) == Held(s, id)
  {
    QueueAppend(s.queue, Succeeded(s.adaptOperations, s.requestsToRetry), id);
  }

  lemma RefreshKeeps(s: Shared, outstanding: nat, c: Credential, checked: Time, appended: Time, id: nat)
    requires StartsIn(s.queue) + outstanding == 0
    ensures SingleFlight(AfterRefresh(s, c, checked, appended), outstanding)
    ensures Held(AfterRefresh(s, c, checked, appended), id) == Held(s, id)
  {
    FailureKeeps(s, outstanding, ExcessiveRefresh, id);
    QueueAppend(s.queue, StartRefresh(c), id);
  }

  lemma AdaptKeeps(s: Shared, outstanding: nat, x: nat, r: Reading, id: nat)
    requires SingleFlight(s, outstanding)
    ensures SingleFlight(AfterAdapt(s, x, r.requiresRefresh, r.checked, r.appended).0, outstanding)
    ensures Held(AfterAdapt(s, x, r.requiresRefresh, r.checked, r.appended).0, id)
         == Held(s, id) +
            if AfterAdapt(s, x, r.requiresRefresh, r.checked, r.appended).1.AdaptDeferred? && x == id then 1 else 0
  {
    var queued := s.(adaptOperations := s.adaptOperations + [x]);
    CountAppend(s.adaptOperations, x, id);
    if !s.isRefreshing && s.credential.Some? {
      RefreshKeeps(queued, outstanding, s.credential.value, r.checked, r.appended, id);
    }
  }

  lemma RetryKeeps(s: Shared, outstanding: nat, x: nat, c: Credential, r: Reading, id: nat)
    requires SingleFlight(s, outstanding)
    ensures SingleFlight(AfterRetry(s, x, c, r.checked, r.appended), outstanding)
    ensures Held(AfterRetry(s, x, c, r.checked, r.appended), id) == Held(s, id) + if x == id then 1 else 0
  {
    CountAppend(s.requestsToRetry, x, id);
    if !s.isRefreshing {
      RefreshKeeps(s.(requestsToRetry := s.requestsToRetry + [x]), outstanding, c, r.checked, r.appended, id);
    }
  }

  // ---- The steps keep the invariant ----

  /** All of x's places but one are accounted for; the step under way puts it somewhere. */
  predicate Missing(w: World, x: nat, id: nat) {
    SingleFlight(w.shared, w.outstanding) && Places(w, id) + (if x == id then 1 else 0) == Count(w.submitted, id)
  }

  lemma AdaptSectionKeeps(w: World, x: nat, r: Reading, id: nat)
    requires Missing(w, x, id)
    ensures Inv(AdaptSection(w, x, r), id)
  {
    AdaptKeeps(w.shared, w.outstanding, x, r, id);
    var result := AfterAdapt(w.shared, x, r.requiresRefresh, r.checked, r.appended).1;
    if result.Adapt? {
      LocalAppend(w.local, Adapting(x, result.credential), id);
    } else if result.DoNotAdapt? {
      LocalAppend(w.local, Refusing(x, result.error), id);
    }
  }

  lemma CallingKeeps(w: World, x: nat, outcome: Outcome, id: nat)
    requires Missing(w, x, id)
    ensures Inv(Calling(w, x, outcome), id)
  {
    CallsAppend(w.called, Call(x, outcome), id);
  }

  lemma ProceedKeeps(w: World, p: Pending, r: Reading, id: nat)
    requires Missing(w, p.id, id)
    ensures Inv(ProceedWith(w, p, r), id)
  {
    match p
    case Adapting(x, c) => CallingKeeps(w, x, Adapted(c), id);
    case Refusing(x, error) => CallingKeeps(w, x, AdaptFailed(error), id);
    case Deciding(x, c) =>
      CallingKeeps(w, x, RetryNow, id);
      RetryKeeps(w.shared, w.outstanding, x, c, r, id);
  }

  /** Taking one completion out of the closure at the head of the queue. */
  lemma HeadMissing(w: World, head: Closure, x: nat, id: nat)
    requires Inv(w, id) && w.shared.queue != [] && !w.shared.queue[0].StartRefresh? && !head.StartRefresh?
    requires InClosure(w.shared.queue[0], id) == InClosure(head, id) + if x == id then 1 else 0
    ensures Missing(WithHead(w, head), x, id)
  {
    assert ([head] + w.shared.queue[1..])[1..] == w.shared.queue[1..];
  }

  lemma RunHeadKeeps(w: World, r: Reading, id: nat)
    requires Inv(w, id) && w.shared.queue != []
    ensures Inv(RunHead(w, r), id)
  {
    match w.shared.queue[0]
    case StartRefresh(_) =>
    case Succeeded(adapts, retries) =>
      if adapts != [] {
        var head := Succeeded(adapts[1..], retries);
        HeadMissing(w, head, adapts[0], id);
        AdaptSectionKeeps(WithHead(w, head), adapts[0], r, id);
      } else if retries != [] {
        var head := Succeeded([], retries[1..]);
        HeadMissing(w, head, retries[0], id);
        CallingKeeps(WithHead(w, head), retries[0], RetryNow, id);
      }
    case Failed(adapts, retries, error) =>
      if adapts != [] {
        var head := Failed(adapts[1..], retries, error);
        HeadMissing(w, head, adapts[0], id);
        CallingKeeps(WithHead(w, head), adapts[0], AdaptFailed(error), id);
      } else if retries != [] {
        var head := Failed([], retries[1..], error);
        HeadMissing(w, head, retries[0], id);
        CallingKeeps(WithHead(w, head), retries[0], DoNotRetryWithError(error), id);
      }
  }

  lemma RetryCallKeeps(w: World, x: nat, eligible: bool, id: nat)
    requires Inv(w, id)
    ensures Inv(Step(w, RetryCall(x, eligible)), id)
  {
    var w' := w.(submitted := w.submitted + [x]);
    CountAppend(w.submitted, x, id);
    if !eligible {
      CallingKeeps(w', x, DoNotRetry, id);
    } else if w.shared.credential.None? {
      CallingKeeps(w', x, DoNotRetryWithError(MissingCredential), id);
    } else {
      LocalAppend(w.local, Deciding(x, w.shared.credential.value), id);
    }
  }

  /** Every step keeps the invariant. */
  lemma StepKeeps(w: World, e: Event, id: nat)
    requires Inv(w, id) && Enabled(w, e)
    ensures Inv(Step(w, e), id)
  {
    match e
    case AdaptCall(x, r) =>
      CountAppend(w.submitted, x, id);
      AdaptSectionKeeps(w.(submitted := w.submitted + [x]), x, r, id);
    case RetryCall(x, eligible) => RetryCallKeeps(w, x, eligible, id);
    case Proceed(i, r) =>
      LocalRemove(w.local, i, id);
      ProceedKeeps(w.(local := w.local[..i] + w.local[i + 1..]), w.local[i], r, id);
    case RunQueue(r) => RunHeadKeeps(w, r, id);
    case Answer(result) =>
      if result.Success? {
        SuccessKeeps(w.shared, w.outstanding - 1, result.credential, id);
      } else {
        FailureKeeps(w.shared, w.outstanding - 1, result.error, id);
      }
    case SetCredential(_) =>
  }

  lemma {:induction false} RunKeeps(w: World, events: seq<Event>, id: nat)
    requires Inv(w, id) && IsRun(w, events)
    ensures Inv(After(w, events), id)
    decreases |events|
  {
    if events != [] {
      StepKeeps(w, events[0], id);
      RunKeeps(Step(w, events[0]), events[1..], id);
    }
  }

  /**
   Over every interleaving: at most one refresh is dispatched or in flight, exactly when isRefreshing; otherwise
   both queues are empty; and every completion is in exactly as many places as it was submitted.
   */
  lemma RunsAreSingleFlight(credential: Option<Credential>, window: Option<RefreshWindow>, events: seq<Event>, id: nat)
    requires IsRun(Start(credential, window), events)
    ensures var w := After(Start(credential, window), events);
            && (w.shared.isRefreshing <==> StartsIn(w.shared.queue) + w.outstanding == 1)
            && StartsIn(w.shared.queue) + w.outstanding <= 1
            && (!w.shared.isRefreshing ==> w.shared.adaptOperations == [] && w.shared.requestsToRetry == [])
            && Places(w, id) == Count(w.submitted, id)
  {
    RunKeeps(Start(credential, window), events, id);
  }

  /** When nothing is left to run, every completion was called, as often as it was submitted. */
  lemma NothingIsLost(credential: Option<Credential>, window: Option<RefreshWindow>, events: seq<Event>, id: nat)
    requires IsRun(Start(credential, window), events)
    requires var w := After(Start(credential, window), events);
             w.shared.queue == [] && w.local == [] && w.outstanding == 0
    ensures var w := After(Start(credential, window), events);
            InCalls(w.called, id) == Count(w.submitted, id)
  {
    RunKeeps(Start(credential, window), events, id);
  }

  // ---- Every refresh has its timestamp ----

  /** Timestamps of refreshes whose closure has left the queue */
  function Spent(s: Shared): int {
    |s.refreshTimestamps| - StartsIn(s.queue)
  }

  lemma RefreshSpends(s: Shared, c: Credential, checked: Time, appended: Time)
    ensures Spent(AfterRefresh(s, c, checked, appended)) == Spent(s)
  {
    QueueAppend(s.queue, Failed(s.adaptOperations, s.requestsToRetry, ExcessiveRefresh), 0);
    QueueAppend(s.queue, StartRefresh(c), 0);
  }

  lemma AdaptSpends(s: Shared, x: nat, r: Reading)
    ensures Spent(AfterAdapt(s, x, r.requiresRefresh, r.checked, r.appended).0) == Spent(s)
  {
    if s.credential.Some? {
      RefreshSpends(s.(adaptOperations := s.adaptOperations + [x]), s.credential.value, r.checked, r.appended);
    }
  }

  lemma RetrySpends(s: Shared, x: nat, c: Credential, r: Reading)
    ensures Spent(AfterRetry(s, x, c, r.checked, r.appended)) == Spent(s)
  {
    RefreshSpends(s.(requestsToRetry := s.requestsToRetry + [x]), c, r.checked, r.appended);
  }

  /** A head other than the start of a refresh leaves the count when it is replaced or dropped. */
  lemma HeadSpends(w: World, head: Closure)
    requires w.shared.queue != [] && !head.StartRefresh?
    ensures Spent(WithoutHead(w).shared) == Spent(w.shared) + if w.shared.queue[0].StartRefresh? then 1 else 0
    ensures !w.shared.queue[0].StartRefresh? ==> Spent(WithHead(w, head).shared) == Spent(w.shared)
  {
    assert ([head] + w.shared.queue[1..])[1..] == w.shared.queue[1..];
  }

  lemma RunHeadSpends(w: World, r: Reading)
    requires w.shared.queue != []
    ensures Spent(RunHead(w, r).shared) - RunHead(w, r).begun == Spent(w.shared) - w.begun
  {
    match w.shared.queue[0] {
      case StartRefresh(_) =>
        HeadSpends(w, Succeeded([], []));
      case Succeeded(adapts, retries) =>
        if adapts != [] {
          var head := Succeeded(adapts[1..], retries);
          HeadSpends(w, head);
          AdaptSpends(WithHead(w, head).shared, adapts[0], r);
        } else {
          HeadSpends(w, Succeeded([], if retries != [] then retries[1..] else []));
        }
      case Failed(adapts, retries, error) =>
        if adapts != [] {
          HeadSpends(w, Failed(adapts[1..], retries, error));
        } else {
          HeadSpends(w, Failed([], if retries != [] then retries[1..] else [], error));
        }
    }
  }

  lemma StepSpends(w: World, e: Event)
    requires Enabled(w, e)
    ensures Spent(Step(w, e).shared) - Step(w, e).begun == Spent(w.shared) - w.begun
  {
    match e {
      case AdaptCall(x, r) => AdaptSpends(w.shared, x, r);
      case RetryCall(_, _) =>
      case Proceed(i, r) =>
        if w.local[i].Deciding? {
          RetrySpends(w.shared, w.local[i].id, w.local[i].credential, r);
        }
      case RunQueue(r) => RunHeadSpends(w, r);
      case Answer(result) =>
        QueueAppend(w.shared.queue, Succeeded(w.shared.adaptOperations, w.shared.requestsToRetry), 0);
        if result.Failure? {
          QueueAppend(w.shared.queue, Failed(w.shared.adaptOperations, w.shared.requestsToRetry, result.error), 0);
        }
      case SetCredential(_) =>
    }
  }

  lemma {:induction false} RunSpends(w: World, events: seq<Event>)
    requires IsRun(w, events)
    ensures Spent(After(w, events).shared) - After(w, events).begun == Spent(w.shared) - w.begun
    decreases |events|
  {
    if events != [] {
      StepSpends(w, events[0]);
      RunSpends(Step(w, events[0]), events[1..]);
    }
  }

  // ---- The sliding window ----

  /** The refreshes in the closed window of this length from `from`. */
  function CountWithin(timestamps: seq<Time>, from: Time, length: Time): nat {
    if timestamps == [] then 0
    else
      var last := timestamps[|timestamps| - 1];
      CountWithin(timestamps[..|timestamps| - 1], from, length) + if from <= last <= from + length then 1 else 0
  }

  /** The most refreshes a window may hold; a negative maximum allows none, like zero. */
  function Allowed(window: RefreshWindow): nat {
    if window.maximumAttempts < 0 then 0 else window.maximumAttempts
  }

  ghost predicate Bounded(timestamps: seq<Time>, window: RefreshWindow) {
    forall from: Time :: CountWithin(timestamps, from, window.interval) <= Allowed(window)
  }

  lemma {:induction false} WithinSince(timestamps: seq<Time>, from: Time, length: Time, since: Time)
    requires since <= from
    ensures CountWithin(timestamps, from, length) <= CountSince(timestamps, since)
  {
    if timestamps != [] {
      WithinSince(timestamps[..|timestamps| - 1], from, length, since);
    }
  }

  lemma CountWithinAppend(timestamps: seq<Time>, t: Time, from: Time, length: Time)
    ensures CountWithin(timestamps + [t], from, length)
         == CountWithin(timestamps, from, length) + if from <= t <= from + length then 1 else 0
  {
    assert (timestamps + [t])[..|timestamps + [t]| - 1] == timestamps;
  }

  /** A refresh allowed at `checked` keeps every window bounded. */
  lemma AppendBounded(timestamps: seq<Time>, window: RefreshWindow, checked: Time, appended: Time)
    requires Bounded(timestamps, window) && checked <= appended
    requires CountSince(timestamps, checked - window.interval) < window.maximumAttempts
    ensures Bounded(timestamps + [appended], window)
  {
    forall from: Time ensures CountWithin(timestamps + [appended], from, window.interval) <= Allowed(window) {
      CountWithinAppend(timestamps, appended, from, window.interval);
      assert CountWithin(timestamps, from, window.interval) <= Allowed(window);
      if from <= appended <= from + window.interval {
        WithinSince(timestamps, from, window.interval, checked - window.interval);
      }
    }
  }

  ghost predicate WindowInv(s: Shared, window: RefreshWindow) {
    s.refreshWindow == Some(window) && Bounded(s.refreshTimestamps, window)
  }

  lemma RefreshBounded(s: Shared, window: RefreshWindow, c: Credential, checked: Time, appended: Time)
    requires WindowInv(s, window) && checked <= appended
    ensures WindowInv(AfterRefresh(s, c, checked, appended), window)
  {
    if !Excessive(s, checked) {
      AppendBounded(s.refreshTimestamps, window, checked, appended);
    }
  }

  lemma StepBounded(w: World, e: Event, window: RefreshWindow)
    requires WindowInv(w.shared, window) && Enabled(w, e)
    ensures WindowInv(Step(w, e).shared, window)
  {
    var s := w.shared;
    if e.AdaptCall? && s.credential.Some? {
      RefreshBounded(s.(adaptOperations := s.adaptOperations + [e.id]), window, s.credential.value, e.r.checked,
                     e.r.appended);
    } else if e.Proceed? && w.local[e.i].Deciding? {
      var p := w.local[e.i];
      RefreshBounded(s.(requestsToRetry := s.requestsToRetry + [p.id]), window, p.credential, e.r.checked,
                     e.r.appended);
    } else if e.RunQueue? && s.queue[0].Succeeded? && s.queue[0].adapts != [] && s.credential.Some? {
      var head := s.queue[0];
      var s' := WithHead(w, Succeeded(head.adapts[1..], head.retries)).shared;
      RefreshBounded(s'.(adaptOperations := s.adaptOperations + [head.adapts[0]]), window, s.credential.value,
                     e.r.checked, e.r.appended);
    }
  }

  lemma {:induction false} RunBounded(w: World, events: seq<Event>, window: RefreshWindow)
    requires WindowInv(w.shared, window) && IsRun(w, events)
    ensures WindowInv(After(w, events).shared, window)
    decreases |events|
  {
    if events != [] {
      StepBounded(w, events[0], window);
      RunBounded(Step(w, events[0]), events[1..], window);
    }
  }

  /**
   In no run does a closed time window of length `interval` hold more than `maximumAttempts` refreshes: the timestamps
   are one for every call of authenticator.refresh and one for every such call still waiting in the queue, of which
   there is at most one.
   */
  lemma SlidingWindow(credential: Option<Credential>, window: RefreshWindow, events: seq<Event>, from: Time)
    requires IsRun(Start(credential, Some(window)), events)
    ensures CountWithin(After(Start(credential, Some(window)), events).shared.refreshTimestamps, from, window.interval)
            <= Allowed(window)
    ensures var w := After(Start(credential, Some(window)), events);
            |w.shared.refreshTimestamps| == w.begun + StartsIn(w.shared.queue) && StartsIn(w.shared.queue) <= 1
  {
    RunBounded(Start(credential, Some(window)), events, window);
    RunSpends(Start(credential, Some(window)), events);
    RunKeeps(Start(credential, Some(window)), events, 0);
  }
}
