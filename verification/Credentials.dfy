/**
 Which credential the interceptor holds, and where every result it hands out comes from: a completion is called with
 a credential, an error or a retry only because of an earlier event of the run.
 */
module Credentials {
  import opened Basics
  import opened Authentication

  // ---- Which credential is held ----

  /** The credential that the constructor, a SetCredential or a successful answer installed last */
  function LastInstalled(initial: Option<Credential>, events: seq<Event>): Option<Credential> {
    if events == [] then initial
    else
      match events[|events| - 1]
      case SetCredential(c) => c
      case Answer(Success(c)) => Some(c)
      case _ => LastInstalled(initial, events[..|events| - 1])
  }

  lemma {:induction false} RunSplit(w: World, init: seq<Event>, e: Event)
    requires IsRun(w, init + [e])
    ensures IsRun(w, init) && Enabled(After(w, init), e)
    ensures After(w, init + [e]) == Step(After(w, init), e)
    decreases |init|
  {
    var events := init + [e];
    if init == [] {
      assert events[1..] == [];
    } else {
      assert events[1..] == init[1..] + [e];
      RunSplit(Step(w, init[0]), init[1..], e);
    }
  }

  lemma StepInstalls(w: World, e: Event)
    requires Enabled(w, e)
    ensures Step(w, e).shared.credential
         == match e
            case SetCredential(c) => c
            case Answer(Success(c)) => Some(c)
            case _ => w.shared.credential
  {
  }

  lemma {:induction false} HeldFrom(start: World, events: seq<Event>)
    requires IsRun(start, events)
    ensures After(start, events).shared.credential == LastInstalled(start.shared.credential, events)
    decreases |events|
  {
    if events != [] {
      var init, e := events[..|events| - 1], events[|events| - 1];
      assert events == init + [e];
      RunSplit(start, init, e);
      HeldFrom(start, init);
      StepInstalls(After(start, init), e);
    }
  }

  /** Over every run, the credential held is the one installed last. */
  lemma LastInstalledIsHeld(credential: Option<Credential>, window: Option<RefreshWindow>, events: seq<Event>)
    requires IsRun(Start(credential, window), events)
    ensures After(Start(credential, window), events).shared.credential == LastInstalled(credential, events)
  {
    HeldFrom(Start(credential, window), events);
    assert Start(credential, window).shared.credential == credential;
  }

  // ---- What is excessive ----

  /** The positions of the refreshes at or after `since` */
  function Recent(timestamps: seq<Time>, since: Time): set<nat> {
    set i: nat | i < |timestamps| && since <= timestamps[i]
  }

  lemma {:induction false} CountIsRecent(timestamps: seq<Time>, since: Time)
    ensures CountSince(timestamps, since) == |Recent(timestamps, since)|
    decreases |timestamps|
  {
    if timestamps != [] {
      var n := |timestamps| - 1;
      CountIsRecent(timestamps[..n], since);
      assert Recent(timestamps, since)
          == Recent(timestamps[..n], since) + if since <= timestamps[n] then {n} else {};
    }
  }

  /** Refreshing is excessive when a window is set and at least the maximum of refreshes lies in the past interval. */
  predicate TooMany(s: Shared, now: Time) {
    s.refreshWindow.Some?
    && |Recent(s.refreshTimestamps, now - s.refreshWindow.value.interval)| >= s.refreshWindow.value.maximumAttempts
  }

  lemma ExcessiveIsTooMany(s: Shared, now: Time)
    ensures Excessive(s, now) <==> TooMany(s, now)
  {
    if s.refreshWindow.Some? {
      CountIsRecent(s.refreshTimestamps, now - s.refreshWindow.value.interval);
    }
  }

  // ---- What justifies a result ----

  /** Event k runs the locked section of adapt for x, in a call or when a refresh has succeeded. */
  predicate RunsAdapt(w: World, e: Event, x: nat) {
    match e
    case AdaptCall(id, _) => id == x
    case RunQueue(_) =>
      w.shared.queue != [] && w.shared.queue[0].Succeeded?
      && w.shared.queue[0].adapts != [] && w.shared.queue[0].adapts[0] == x
    case _ => false
  }

  /** At event k, with no refresh under way, adapt looks for x at the credential installed last. */
  predicate AdaptSees(start: World, events: seq<Event>, k: nat, x: nat, held: Option<Credential>) {
    && k < |events| && IsRun(start, events[..k])
    && RunsAdapt(After(start, events[..k]), events[k], x)
    && !After(start, events[..k]).shared.isRefreshing
    && LastInstalled(start.shared.credential, events[..k]) == held
  }

  predicate NeedsNoRefresh(e: Event) {
    (e.AdaptCall? || e.RunQueue?) && !e.r.requiresRefresh
  }

  /** At event k, retry reads the credential installed last for x. */
  predicate RetrySees(start: World, events: seq<Event>, k: nat, x: nat, held: Option<Credential>) {
    k < |events| && events[k] == RetryCall(x, true) && LastInstalled(start.shared.credential, events[..k]) == held
  }

  /** At event k, the request that x retries turns out to carry an older credential. */
  predicate FoundStale(start: World, events: seq<Event>, k: nat, x: nat) {
    && k < |events| && IsRun(start, events[..k])
    && events[k].Proceed? && !events[k].r.isCurrent && events[k].i < |After(start, events[..k]).local|
    && After(start, events[..k]).local[events[k].i].Deciding?
    && After(start, events[..k]).local[events[k].i].id == x
  }

  predicate HasReading(e: Event) {
    e.AdaptCall? || e.Proceed? || e.RunQueue?
  }

  /** At event k, the window holds too many refreshes. */
  predicate FoundExcessive(start: World, events: seq<Event>, k: nat) {
    && k < |events| && IsRun(start, events[..k]) && HasReading(events[k])
    && TooMany(After(start, events[..k]).shared, events[k].r.checked)
  }

  /** Event k finds that the request being retried was authenticated with this credential, the one retry has read. */
  predicate FoundCurrent(w: World, e: Event, c: Credential) {
    && e.Proceed? && e.r.isCurrent
    && e.i < |w.local| && w.local[e.i].Deciding? && w.local[e.i].credential == c
  }

  /**
   At event k, with no refresh under way and not too many before, this credential has to be refreshed: adapt finds it
   installed and expired, or retry finds that a request failed with it.
   */
  predicate MustRefresh(start: World, events: seq<Event>, k: nat, x: nat, c: Credential) {
    && k < |events| && IsRun(start, events[..k]) && HasReading(events[k])
    && !After(start, events[..k]).shared.isRefreshing
    && !TooMany(After(start, events[..k]).shared, events[k].r.checked)
    && ((AdaptSees(start, events, k, x, Some(c)) && events[k].r.requiresRefresh)
        || FoundCurrent(After(start, events[..k]), events[k], c))
  }

  /** A refresh failed with this error, or was not attempted for being one too many. */
  ghost predicate RefreshFailed(start: World, events: seq<Event>, error: Error) {
    || Answer(Failure(error)) in events
    || (error == ExcessiveRefresh && exists k: nat :: FoundExcessive(start, events, k))
  }

  ghost predicate RefreshSucceeded(events: seq<Event>) {
    exists c :: Answer(Success(c)) in events
  }

  ghost predicate Adaptable(start: World, events: seq<Event>, x: nat, c: Credential) {
    exists k: nat :: AdaptSees(start, events, k, x, Some(c)) && NeedsNoRefresh(events[k])
  }

  ghost predicate NothingToApply(start: World, events: seq<Event>, x: nat) {
    exists k: nat :: AdaptSees(start, events, k, x, None)
  }

  ghost predicate Read(start: World, events: seq<Event>, x: nat, held: Option<Credential>) {
    exists k: nat :: RetrySees(start, events, k, x, held)
  }

  ghost predicate RefreshNeeded(start: World, events: seq<Event>, c: Credential) {
    exists k: nat, x: nat :: MustRefresh(start, events, k, x, c)
  }

  ghost predicate Stale(start: World, events: seq<Event>, x: nat) {
    exists k: nat :: FoundStale(start, events, k, x)
  }

  ghost predicate Justified(start: World, events: seq<Event>, c: Call) {
    match c.outcome
    case Adapted(credential) => Adaptable(start, events, c.id, credential)
    case AdaptFailed(error) =>
      (error == MissingCredential && NothingToApply(start, events, c.id)) || RefreshFailed(start, events, error)
    case RetryNow => RefreshSucceeded(events) || Stale(start, events, c.id)
    case DoNotRetry => RetryCall(c.id, false) in events
    case DoNotRetryWithError(error) =>
      (error == MissingCredential && Read(start, events, c.id, None)) || RefreshFailed(start, events, error)
  }

  // ---- What pending calls and dispatched closures will be justified by ----

  ghost predicate PendingTraced(start: World, events: seq<Event>, p: Pending) {
    match p
    case Adapting(x, c) => Adaptable(start, events, x, c)
    case Refusing(x, error) => error == MissingCredential && NothingToApply(start, events, x)
    case Deciding(x, c) => Read(start, events, x, Some(c))
  }

  ghost predicate ClosureTraced(start: World, events: seq<Event>, c: Closure) {
    match c
    case StartRefresh(credential) => RefreshNeeded(start, events, credential)
    case Succeeded(_, _) => RefreshSucceeded(events)
    case Failed(_, _, error) => RefreshFailed(start, events, error)
  }

  ghost predicate Traced(start: World, events: seq<Event>, w: World) {
    && (forall c | c in w.called :: Justified(start, events, c))
    && (forall p | p in w.local :: PendingTraced(start, events, p))
    && (forall c | c in w.shared.queue :: ClosureTraced(start, events, c))
  }

  // ---- One more event keeps every justification ----

  lemma AdaptableGrows(start: World, init: seq<Event>, e: Event, x: nat, c: Credential)
    requires Adaptable(start, init, x, c)
    ensures Adaptable(start, init + [e], x, c)
  {
    var k: nat :| AdaptSees(start, init, k, x, Some(c)) && NeedsNoRefresh(init[k]);
    assert (init + [e])[..k] == init[..k];
    assert AdaptSees(start, init + [e], k, x, Some(c)) && NeedsNoRefresh((init + [e])[k]);
  }

  lemma NothingToApplyGrows(start: World, init: seq<Event>, e: Event, x: nat)
    requires NothingToApply(start, init, x)
    ensures NothingToApply(start, init + [e], x)
  {
    var k: nat :| AdaptSees(start, init, k, x, None);
    assert (init + [e])[..k] == init[..k];
    assert AdaptSees(start, init + [e], k, x, None);
  }

  lemma ReadGrows(start: World, init: seq<Event>, e: Event, x: nat, held: Option<Credential>)
    requires Read(start, init, x, held)
    ensures Read(start, init + [e], x, held)
  {
    var k: nat :| RetrySees(start, init, k, x, held);
    assert (init + [e])[..k] == init[..k];
    assert RetrySees(start, init + [e], k, x, held);
  }

  lemma StaleGrows(start: World, init: seq<Event>, e: Event, x: nat)
    requires Stale(start, init, x)
    ensures Stale(start, init + [e], x)
  {
    var k: nat :| FoundStale(start, init, k, x);
    assert (init + [e])[..k] == init[..k];
    assert FoundStale(start, init + [e], k, x);
  }

  lemma NeedGrows(start: World, init: seq<Event>, e: Event, c: Credential)
    requires RefreshNeeded(start, init, c)
    ensures RefreshNeeded(start, init + [e], c)
  {
    var k: nat, x: nat :| MustRefresh(start, init, k, x, c);
    assert (init + [e])[..k] == init[..k];
    assert MustRefresh(start, init + [e], k, x, c);
  }

  lemma FailureGrows(start: World, init: seq<Event>, e: Event, error: Error)
    requires RefreshFailed(start, init, error)
    ensures RefreshFailed(start, init + [e], error)
  {
    if Answer(Failure(error)) !in init {
      var k: nat :| FoundExcessive(start, init, k);
      assert (init + [e])[..k] == init[..k];
      assert FoundExcessive(start, init + [e], k);
    }
  }

  lemma SuccessGrows(init: seq<Event>, e: Event)
    requires RefreshSucceeded(init)
    ensures RefreshSucceeded(init + [e])
  {
    var c :| Answer(Success(c)) in init;
    assert Answer(Success(c)) in init + [e];
  }

  lemma CallGrows(start: World, init: seq<Event>, e: Event, c: Call)
    requires Justified(start, init, c)
    ensures Justified(start, init + [e], c)
  {
    match c.outcome
    case Adapted(credential) => AdaptableGrows(start, init, e, c.id, credential);
    case AdaptFailed(error) =>
      if RefreshFailed(start, init, error) {
        FailureGrows(start, init, e, error);
      } else {
        NothingToApplyGrows(start, init, e, c.id);
      }
    case RetryNow =>
      if RefreshSucceeded(init) {
        SuccessGrows(init, e);
      } else {
        StaleGrows(start, init, e, c.id);
      }
    case DoNotRetry =>
    case DoNotRetryWithError(error) =>
      if RefreshFailed(start, init, error) {
        FailureGrows(start, init, e, error);
      } else {
        ReadGrows(start, init, e, c.id, None);
      }
  }

  lemma PendingGrows(start: World, init: seq<Event>, e: Event, p: Pending)
    requires PendingTraced(start, init, p)
    ensures PendingTraced(start, init + [e], p)
  {
    match p
    case Adapting(x, c) => AdaptableGrows(start, init, e, x, c);
    case Refusing(x, _) => NothingToApplyGrows(start, init, e, x);
    case Deciding(x, c) => ReadGrows(start, init, e, x, Some(c));
  }

  lemma ClosureGrows(start: World, init: seq<Event>, e: Event, c: Closure)
    requires ClosureTraced(start, init, c)
    ensures ClosureTraced(start, init + [e], c)
  {
    match c
    case StartRefresh(credential) => NeedGrows(start, init, e, credential);
    case Succeeded(_, _) => SuccessGrows(init, e);
    case Failed(_, _, error) => FailureGrows(start, init, e, error);
  }

  lemma TracedGrows(start: World, init: seq<Event>, e: Event, w: World)
    requires Traced(start, init, w)
    ensures Traced(start, init + [e], w)
  {
    forall c | c in w.called ensures Justified(start, init + [e], c) {
      CallGrows(start, init, e, c);
    }
    forall p | p in w.local ensures PendingTraced(start, init + [e], p) {
      PendingGrows(start, init, e, p);
    }
    forall c | c in w.shared.queue ensures ClosureTraced(start, init + [e], c) {
      ClosureGrows(start, init, e, c);
    }
  }

  // ---- The new event justifies what its step adds ----

  lemma CallingTraced(start: World, events: seq<Event>, w: World, x: nat, outcome: Outcome)
    requires Traced(start, events, w) && Justified(start, events, Call(x, outcome))
    ensures Traced(start, events, Calling(w, x, outcome))
  {
  }

  lemma WaitingTraced(start: World, events: seq<Event>, w: World, p: Pending)
    requires Traced(start, events, w) && PendingTraced(start, events, p)
    ensures Traced(start, events, w.(local := w.local + [p]))
  {
  }

  /** A refresh adds a closure that starts it, or one that fails everybody. */
  lemma RefreshTraced(start: World, events: seq<Event>, w: World, s: Shared, c: Credential, checked: Time,
                      appended: Time)
    requires Traced(start, events, w) && s.queue == w.shared.queue
    requires if Excessive(s, checked) then exists k: nat :: FoundExcessive(start, events, k)
             else RefreshNeeded(start, events, c)
    ensures Traced(start, events, w.(shared := AfterRefresh(s, c, checked, appended)))
  {
  }

  /** The run so far, and the event that may come next */
  predicate Next(start: World, init: seq<Event>, e: Event) {
    && IsRun(start, init) && Enabled(After(start, init), e)
    && After(start, init).shared.credential == LastInstalled(start.shared.credential, init)
  }

  /** The world in the middle of a step: only its queue's head and its lists may have changed. */
  predicate Midway(start: World, init: seq<Event>, w: World) {
    IsRun(start, init) && w.shared == After(start, init).shared.(queue := w.shared.queue)
  }

  /** The same window and timestamps give the same answer. */
  lemma ExcessNow(start: World, init: seq<Event>, e: Event, s: Shared)
    requires Next(start, init, e) && HasReading(e) && Excessive(s, e.r.checked)
    requires s.refreshWindow == After(start, init).shared.refreshWindow
    requires s.refreshTimestamps == After(start, init).shared.refreshTimestamps
    ensures exists k: nat :: FoundExcessive(start, init + [e], k)
  {
    ExcessiveIsTooMany(s, e.r.checked);
    assert (init + [e])[..|init|] == init;
    assert FoundExcessive(start, init + [e], |init|);
  }

  lemma NeedNow(start: World, init: seq<Event>, e: Event, s: Shared, x: nat, c: Credential)
    requires Next(start, init, e) && HasReading(e) && !Excessive(s, e.r.checked)
    requires s.refreshWindow == After(start, init).shared.refreshWindow
    requires s.refreshTimestamps == After(start, init).shared.refreshTimestamps
    requires !After(start, init).shared.isRefreshing
    requires (RunsAdapt(After(start, init), e, x) && After(start, init).shared.credential == Some(c)
              && e.r.requiresRefresh)
             || FoundCurrent(After(start, init), e, c)
    ensures RefreshNeeded(start, init + [e], c)
  {
    ExcessiveIsTooMany(s, e.r.checked);
    assert (init + [e])[..|init|] == init;
    assert MustRefresh(start, init + [e], |init|, x, c);
  }

  lemma AdaptNow(start: World, init: seq<Event>, e: Event, x: nat)
    requires Next(start, init, e) && RunsAdapt(After(start, init), e, x) && !After(start, init).shared.isRefreshing
    ensures After(start, init).shared.credential.None? ==> NothingToApply(start, init + [e], x)
    ensures After(start, init).shared.credential.Some? && NeedsNoRefresh(e)
            ==> Adaptable(start, init + [e], x, After(start, init).shared.credential.value)
  {
    var held := After(start, init).shared.credential;
    assert (init + [e])[..|init|] == init;
    assert AdaptSees(start, init + [e], |init|, x, held);
  }

  lemma SectionTraced(start: World, init: seq<Event>, e: Event, w: World, x: nat, r: Reading)
    requires Next(start, init, e) && RunsAdapt(After(start, init), e, x) && e.r == r
    requires Midway(start, init, w) && Traced(start, init + [e], w)
    ensures Traced(start, init + [e], AdaptSection(w, x, r))
  {
    var events, s := init + [e], w.shared;
    if !s.isRefreshing {
      AdaptNow(start, init, e, x);
      if s.credential.None? {
        WaitingTraced(start, events, w, Refusing(x, MissingCredential));
      } else if r.requiresRefresh {
        var queued := s.(adaptOperations := s.adaptOperations + [x]);
        if Excessive(queued, r.checked) {
          ExcessNow(start, init, e, queued);
        } else {
          NeedNow(start, init, e, queued, x, s.credential.value);
        }
        RefreshTraced(start, events, w, queued, s.credential.value, r.checked, r.appended);
      } else {
        WaitingTraced(start, events, w, Adapting(x, s.credential.value));
      }
    }
  }

  lemma RetryTraced(start: World, init: seq<Event>, e: Event, w: World, x: nat, c: Credential)
    requires Next(start, init, e) && FoundCurrent(After(start, init), e, c)
    requires Midway(start, init, w) && Traced(start, init + [e], w)
    ensures Traced(start, init + [e], w.(shared := AfterRetry(w.shared, x, c, e.r.checked, e.r.appended)))
  {
    if !w.shared.isRefreshing {
      var queued := w.shared.(requestsToRetry := w.shared.requestsToRetry + [x]);
      if Excessive(queued, e.r.checked) {
        ExcessNow(start, init, e, queued);
      } else {
        NeedNow(start, init, e, queued, x, c);
      }
      RefreshTraced(start, init + [e], w, queued, c, e.r.checked, e.r.appended);
    }
  }

  lemma ProceedTraced(start: World, init: seq<Event>, e: Event, w: World)
    requires Next(start, init, e) && e.Proceed?
    requires var w0 := After(start, init); w == w0.(local := w0.local[..e.i] + w0.local[e.i + 1..])
    requires Traced(start, init + [e], After(start, init)) && Traced(start, init + [e], w)
    ensures Traced(start, init + [e], ProceedWith(w, After(start, init).local[e.i], e.r))
  {
    var events, p := init + [e], After(start, init).local[e.i];
    assert p in After(start, init).local && PendingTraced(start, events, p);
    match p
    case Adapting(x, c) => CallingTraced(start, events, w, x, Adapted(c));
    case Refusing(x, error) => CallingTraced(start, events, w, x, AdaptFailed(error));
    case Deciding(x, c) =>
      if !e.r.isCurrent {
        assert events[..|init|] == init;
        assert FoundStale(start, events, |init|, x);
        CallingTraced(start, events, w, x, RetryNow);
      } else {
        RetryTraced(start, init, e, w, x, c);
      }
  }

  /** The head of the queue with some of its completions taken out has the justification it had. */
  lemma HeadTraced(start: World, events: seq<Event>, w: World, head: Closure)
    requires Traced(start, events, w) && w.shared.queue != []
    requires ClosureTraced(start, events, head)
    ensures Traced(start, events, WithHead(w, head)) && Traced(start, events, WithoutHead(w))
  {
  }

  lemma RunHeadTraced(start: World, init: seq<Event>, e: Event)
    requires Next(start, init, e) && e.RunQueue? && Traced(start, init + [e], After(start, init))
    ensures Traced(start, init + [e], RunHead(After(start, init), e.r))
  {
    var events, w := init + [e], After(start, init);
    var first := w.shared.queue[0];
    assert ClosureTraced(start, events, first);
    match first
    case StartRefresh(_) => HeadTraced(start, events, w, first);
    case Succeeded(adapts, retries) =>
      if adapts != [] {
        var head := Succeeded(adapts[1..], retries);
        HeadTraced(start, events, w, head);
        SectionTraced(start, init, e, WithHead(w, head), adapts[0], e.r);
      } else {
        var head := Succeeded([], if retries != [] then retries[1..] else []);
        HeadTraced(start, events, w, head);
        if retries != [] {
          CallingTraced(start, events, WithHead(w, head), retries[0], RetryNow);
        }
      }
    case Failed(adapts, retries, error) =>
      if adapts != [] {
        var head := Failed(adapts[1..], retries, error);
        HeadTraced(start, events, w, head);
        CallingTraced(start, events, WithHead(w, head), adapts[0], AdaptFailed(error));
      } else {
        var head := Failed([], if retries != [] then retries[1..] else [], error);
        HeadTraced(start, events, w, head);
        if retries != [] {
          CallingTraced(start, events, WithHead(w, head), retries[0], DoNotRetryWithError(error));
        }
      }
  }

  lemma RetryCallTraced(start: World, init: seq<Event>, e: Event)
    requires Next(start, init, e) && e.RetryCall? && Traced(start, init + [e], After(start, init))
    ensures Traced(start, init + [e], Step(After(start, init), e))
  {
    var events, w := init + [e], After(start, init).(submitted := After(start, init).submitted + [e.id]);
    assert events[..|init|] == init && events[|init|] == e;
    if !e.eligible {
      CallingTraced(start, events, w, e.id, DoNotRetry);
    } else {
      assert RetrySees(start, events, |init|, e.id, w.shared.credential);
      if w.shared.credential.None? {
        CallingTraced(start, events, w, e.id, DoNotRetryWithError(MissingCredential));
      } else {
        WaitingTraced(start, events, w, Deciding(e.id, w.shared.credential.value));
      }
    }
  }

  lemma AnswerTraced(start: World, init: seq<Event>, e: Event)
    requires Next(start, init, e) && e.Answer? && Traced(start, init + [e], After(start, init))
    ensures Traced(start, init + [e], Step(After(start, init), e))
  {
    var events := init + [e];
    assert events[|init|] == e && e in events;
    if e.result.Success? {
      assert Answer(Success(e.result.credential)) in events;
    } else {
      assert Answer(Failure(e.result.error)) in events;
    }
  }

  lemma StepTraced(start: World, init: seq<Event>, e: Event)
    requires Next(start, init, e) && Traced(start, init + [e], After(start, init))
    ensures Traced(start, init + [e], Step(After(start, init), e))
  {
    var w := After(start, init);
    match e
    case AdaptCall(x, r) => SectionTraced(start, init, e, w.(submitted := w.submitted + [x]), x, r);
    case RetryCall(_, _) => RetryCallTraced(start, init, e);
    case Proceed(i, _) => ProceedTraced(start, init, e, w.(local := w.local[..i] + w.local[i + 1..]));
    case RunQueue(_) => RunHeadTraced(start, init, e);
    case Answer(_) => AnswerTraced(start, init, e);
    case SetCredential(_) =>
  }

  lemma {:induction false} RunTraced(credential: Option<Credential>, window: Option<RefreshWindow>, events: seq<Event>)
    requires IsRun(Start(credential, window), events)
    ensures Traced(Start(credential, window), events, After(Start(credential, window), events))
    decreases |events|
  {
    if events != [] {
      var start, init, e := Start(credential, window), events[..|events| - 1], events[|events| - 1];
      assert events == init + [e];
      RunSplit(start, init, e);
      RunTraced(credential, window, init);
      HeldFrom(start, init);
      TracedGrows(start, init, e, After(start, init));
      StepTraced(start, init, e);
    }
  }

  /**
   Over every run, each completion called has its reason in an earlier event. A request is adapted with the credential
   that was installed last when adapt's locked section ran for it, outside a refresh; it fails to adapt because none
   was installed then, or with the error of a refresh that failed or was one too many; it is retried after a successful
   refresh or because it carried an older credential.
   */
  lemma EveryResultIsJustified(credential: Option<Credential>, window: Option<RefreshWindow>, events: seq<Event>,
                               i: nat)
    requires IsRun(Start(credential, window), events)
    requires i < |After(Start(credential, window), events).called|
    ensures Justified(Start(credential, window), events, After(Start(credential, window), events).called[i])
  {
    RunTraced(credential, window, events);
  }

  /** Over every run, a refresh is dispatched only for a credential that has to be refreshed. */
  lemma EveryRefreshIsNeeded(credential: Option<Credential>, window: Option<RefreshWindow>, events: seq<Event>,
                             c: Credential)
    requires IsRun(Start(credential, window), events)
    requires StartRefresh(c) in After(Start(credential, window), events).shared.queue
    ensures RefreshNeeded(Start(credential, window), events, c)
  {
    RunTraced(credential, window, events);
    assert ClosureTraced(Start(credential, window), events, StartRefresh(c));
  }

  /** What is decided without waiting for a refresh, whether or not one is under way. */
  lemma DecidedAtOnce(w: World, e: Event)
    requires Enabled(w, e)
    ensures e.RetryCall? && !e.eligible ==> Step(w, e).called == w.called + [Call(e.id, DoNotRetry)]
    ensures e.RetryCall? && e.eligible && w.shared.credential.None? ==>
              Step(w, e).called == w.called + [Call(e.id, DoNotRetryWithError(MissingCredential))]
    ensures e.RetryCall? && e.eligible && w.shared.credential.Some? ==>
              Step(w, e).local == w.local + [Deciding(e.id, w.shared.credential.value)]
    ensures e.Proceed? && w.local[e.i].Deciding? && !e.r.isCurrent ==>
              Step(w, e).called == w.called + [Call(w.local[e.i].id, RetryNow)]
    ensures e.RetryCall? || (e.Proceed? && w.local[e.i].Deciding? && !e.r.isCurrent) ==>
              Step(w, e).shared == w.shared
    ensures e.AdaptCall? && !w.shared.isRefreshing && w.shared.credential.Some? && !e.r.requiresRefresh ==>
              Step(w, e).local == w.local + [Adapting(e.id, w.shared.credential.value)]
              && Step(w, e).shared == w.shared
  {
  }
}
