/**
 * The content script's orchestration (entrypoints/content.ts): one
 * injection attempt as a decision over `detectPage`'s result, the bounded
 * retry chain, the remove-then-reinject sequence run on navigation, and
 * the order of the two steps of `main`.
 *
 * `waitForNavigation` is summarised by how it settled (`Waited`): whether
 * it resolved with a container, and the document at that moment.
 */
module Content {
  import opened Wrappers
  import opened UrlTransformer
  import opened GithubDetector
  import opened ButtonInjector
  import NavigationHandler
  import NavigationRuntime

  const MAX_RETRIES: nat := 3
  const RETRY_DELAYS: seq<nat> := [100, 500, 1000]
  const WAIT_TIMEOUT: nat := 5000

  /** The two conditions that throw inside `injectButtonIfNeeded`. */
  datatype Failure = NoContainerAfterTimeout | InjectionFailed

  /** How one attempt ended. Every failure is caught: an attempt never
      rejects. */
  datatype Outcome = NotRepository | AlreadyPresent | Injected | Failed(failure: Failure)

  /** How `waitForNavigation` settled: with a container (`found`) or with
      null on timeout, and the document at that moment. */
  datatype Waited = Waited(found: bool, doc: DocState)

  /** A wait resolves with a container only when the document has one. A
      wait can time out with a container in the document that its observer
      never saw (an attribute change, a replaced `document.body`). */
  predicate WaitWellFormed(w: Waited) {
    WellFormed(w.doc) && (w.found ==> NavigationContainer(w.doc.dom).Some?)
  }

  /** The case analysis `injectButtonIfNeeded` runs over a detection
      result, starting from document `d`; `wait` is how the wait settled,
      used only if the detection saw no container. Yields the outcome and
      the document afterwards. */
  function Resolve(detection: PageDetectionResult, d: DocState, wait: Waited): (r: (Outcome, DocState))
    requires WellFormed(d) && WaitWellFormed(wait)
    ensures WellFormed(r.1)
    ensures r.0 == NotRepository <==> !detection.isRepoPage || detection.repoInfo.None?
    ensures r.0 == Failed(InjectionFailed) ==> detection.hasNavigation && NavigationContainer(d.dom).None?
  {
    if !detection.isRepoPage || detection.repoInfo.None? then (NotRepository, d)
    else if !detection.hasNavigation && !wait.found then
      (Failed(NoContainerAfterTimeout), wait.doc)
    else
      var current := if detection.hasNavigation then d else wait.doc;
      if ButtonExists(current) then (AlreadyPresent, current)
      else
        var (next, ok) := Inject(current, detection.repoInfo.value.owner, detection.repoInfo.value.repo);
        if ok then (Injected, next) else (Failed(InjectionFailed), next)
  }

  /** One run of `injectButtonIfNeeded`'s body on the page at `pathname`:
      detect, then decide. Every path ends in an outcome, and injection
      never fails once a container has been seen. */
  function Attempt(pathname: string, parse: string -> Option<string>, d: DocState, wait: Waited): (r: (Outcome, DocState))
    requires WellFormed(d) && WaitWellFormed(wait)
    ensures WellFormed(r.1)
    ensures r.0 != Failed(InjectionFailed)
  {
    Resolve(DetectPage(pathname, d.dom, parse), d, wait)
  }

  /** Off a repository page, or where no owner and repo can be read, the
      attempt does nothing and schedules nothing. */
  lemma AttemptSkips(pathname: string, parse: string -> Option<string>, d: DocState, wait: Waited)
    requires WellFormed(d) && WaitWellFormed(wait)
    ensures var (outcome, d') := Attempt(pathname, parse, d, wait);
            && (outcome == NotRepository <==> !IsRepositoryPage(pathname) || ExtractRepoInfo(pathname, parse).None?)
            && (outcome == NotRepository ==> d' == d && ScheduledRetry(outcome, 0) == [])
  {
  }

  /** The only failure is a container missing at detection and a wait
      that timed out; the document is then the one the wait ended on. */
  lemma AttemptFails(pathname: string, parse: string -> Option<string>, d: DocState, wait: Waited)
    requires WellFormed(d) && WaitWellFormed(wait)
    ensures var (outcome, d') := Attempt(pathname, parse, d, wait);
            outcome.Failed? ==>
              && outcome.failure == NoContainerAfterTimeout
              && NavigationContainer(d.dom).None? && !wait.found
              && d' == wait.doc
  {
  }

  /** An existing control ends the attempt: nothing is injected and no
      retry is scheduled. */
  lemma AttemptFindsControl(pathname: string, parse: string -> Option<string>, d: DocState, wait: Waited)
    requires WellFormed(d) && WaitWellFormed(wait)
    ensures var (outcome, d') := Attempt(pathname, parse, d, wait);
            outcome == AlreadyPresent ==>
              && ButtonExists(d') && (d' == d || d' == wait.doc)
              && ScheduledRetry(outcome, 0) == []
    ensures IsRepositoryPage(pathname) && ExtractRepoInfo(pathname, parse).Some? ==>
              && (NavigationContainer(d.dom).Some? && ButtonExists(d) ==>
                    Attempt(pathname, parse, d, wait) == (AlreadyPresent, d))
              && (NavigationContainer(d.dom).None? && wait.found && ButtonExists(wait.doc) ==>
                    Attempt(pathname, parse, d, wait) == (AlreadyPresent, wait.doc))
  {
    var detection := DetectPage(pathname, d.dom, parse);
    if IsRepositoryPage(pathname) && ExtractRepoInfo(pathname, parse).Some? {
      assert detection.isRepoPage && detection.repoInfo.Some?;
      assert detection.hasNavigation <==> NavigationContainer(d.dom).Some?;
    }
  }

  /** A successful attempt leaves exactly one control, first under the
      anchor, linking to the repository the pathname names. */
  lemma AttemptInjects(pathname: string, parse: string -> Option<string>, d: DocState, wait: Waited)
    requires WellFormed(d) && WaitWellFormed(wait)
    ensures var r := Attempt(pathname, parse, d, wait);
            r.0 == Injected ==>
              && ExtractRepoInfo(pathname, parse).Some?
              && ControlCount(r.1) == 1
              && |r.1.anchorChildren| > 0
              && r.1.anchorChildren[0] == Control(ButtonHref(ExtractRepoInfo(pathname, parse).value.owner,
                                                             ExtractRepoInfo(pathname, parse).value.repo))
  {
    var detection := DetectPage(pathname, d.dom, parse);
    if detection.isRepoPage && detection.repoInfo.Some? {
      assert detection.repoInfo == ExtractRepoInfo(pathname, parse);
    }
  }

  /** A timed-out wait fails the attempt even when the document has a
      container by then: only the wait's own result counts. */
  lemma AttemptTimesOut(pathname: string, parse: string -> Option<string>, d: DocState, wait: Waited)
    requires WellFormed(d) && WaitWellFormed(wait)
    requires IsRepositoryPage(pathname) && ExtractRepoInfo(pathname, parse).Some?
    requires NavigationContainer(d.dom).None? && !wait.found
    ensures Attempt(pathname, parse, d, wait) == (Failed(NoContainerAfterTimeout), wait.doc)
  {
    var detection := DetectPage(pathname, d.dom, parse);
    assert detection.isRepoPage && !detection.hasNavigation && detection.repoInfo.Some?;
  }

  /** The delay before retry number `retryCount + 1`, when there is one. */
  function RetryDelay(retryCount: nat): (r: Option<nat>)
    ensures r.Some? <==> retryCount < MAX_RETRIES
    ensures r.Some? ==> 100 <= r.value <= 1000 && r.value in RETRY_DELAYS
  {
    if retryCount < MAX_RETRIES then Some(RETRY_DELAYS[retryCount]) else None
  }

  /** A scheduled `setTimeout(() => injectButtonIfNeeded(retryCount), delay)`. */
  datatype RetryTimer = RetryTimer(delay: nat, retryCount: nat)

  /** The retry an attempt with this outcome schedules. */
  function ScheduledRetry(outcome: Outcome, retryCount: nat): (r: seq<RetryTimer>)
    ensures |r| <= 1
    ensures |r| == 1 <==> outcome.Failed? && retryCount < MAX_RETRIES
    ensures |r| == 1 ==> r[0].retryCount == retryCount + 1 && r[0].retryCount <= MAX_RETRIES
    ensures |r| == 1 ==> r[0].delay == RETRY_DELAYS[retryCount]
  {
    if outcome.Failed? then
      match RetryDelay(retryCount)
      case None => []
      case Some(delay) => [RetryTimer(delay, retryCount + 1)]
    else []
  }

  /** The delays of the retries a chain schedules when its attempts, from
      retry count `retryCount` on, end as `outcomes` says. The chain stops
      at the first attempt that schedules no retry. */
  function ChainDelays(retryCount: nat, outcomes: seq<Outcome>): seq<nat>
    decreases |outcomes|
  {
    if outcomes == [] then []
    else
      var next := ScheduledRetry(outcomes[0], retryCount);
      if next == [] then []
      else [next[0].delay] + ChainDelays(next[0].retryCount, outcomes[1..])
  }

  /** A chain schedules at most `MAX_RETRIES - retryCount` retries, with
      the delays of `RETRY_DELAYS` in order from position `retryCount`. */
  lemma {:induction false} ChainBounded(retryCount: nat, outcomes: seq<Outcome>)
    requires retryCount <= MAX_RETRIES
    ensures |ChainDelays(retryCount, outcomes)| <= MAX_RETRIES - retryCount
    ensures ChainDelays(retryCount, outcomes) == RETRY_DELAYS[retryCount..retryCount + |ChainDelays(retryCount, outcomes)|]
    decreases |outcomes|
  {
    if outcomes != [] && outcomes[0].Failed? && retryCount < MAX_RETRIES {
      ChainBounded(retryCount + 1, outcomes[1..]);
    }
  }

  /** A chain started by `main` or `handleNavigation` makes at most four
      attempts, whatever fails. */
  lemma {:induction false} AtMostFourAttempts(outcomes: seq<Outcome>)
    ensures 1 + |ChainDelays(0, outcomes)| <= 1 + MAX_RETRIES
    ensures ChainDelays(0, outcomes) <= RETRY_DELAYS
  {
    ChainBounded(0, outcomes);
  }

  /** When every attempt fails, the chain uses every delay, in order. */
  lemma {:induction false} ChainAllFailing(retryCount: nat, outcomes: seq<Outcome>)
    requires retryCount <= MAX_RETRIES
    requires |outcomes| > MAX_RETRIES - retryCount
    requires forall k :: 0 <= k < |outcomes| ==> outcomes[k].Failed?
    ensures ChainDelays(retryCount, outcomes) == RETRY_DELAYS[retryCount..]
    decreases |outcomes|
  {
    if retryCount < MAX_RETRIES {
      ChainAllFailing(retryCount + 1, outcomes[1..]);
    }
  }

  /** An attempt changes the document only by injecting: whatever it does,
      "at most one control" still holds. */
  lemma AttemptKeepsOneControl(pathname: string, parse: string -> Option<string>, d: DocState, wait: Waited)
    requires WellFormed(d) && WaitWellFormed(wait)
    requires ControlCount(d) <= 1 && ControlCount(wait.doc) <= 1
    ensures ControlCount(Attempt(pathname, parse, d, wait).1) <= 1
  {
  }

  /** On a repository page with an identifier, a container and no
      control, the attempt injects. */
  lemma AttemptInjectsWhenPossible(pathname: string, parse: string -> Option<string>, d: DocState, wait: Waited)
    requires WellFormed(d) && WaitWellFormed(wait)
    requires IsRepositoryPage(pathname) && ExtractRepoInfo(pathname, parse).Some?
    requires NavigationContainer(d.dom).Some? && !ButtonExists(d)
    ensures Attempt(pathname, parse, d, wait).0 == Injected
  {
    var detection := DetectPage(pathname, d.dom, parse);
    assert detection.isRepoPage && detection.hasNavigation && detection.repoInfo.Some?;
  }

  /** `handleNavigation` on a page with a control and a container replaces
      the old control with one for the new repository. */
  lemma NavigationReplacesControl(pathname: string, parse: string -> Option<string>, d: DocState, wait: Waited)
    requires WellFormed(d) && WaitWellFormed(wait)
    requires ControlCount(d) == 1 && NavigationContainer(d.dom).Some?
    requires IsRepositoryPage(pathname) && ExtractRepoInfo(pathname, parse).Some?
    ensures var r := Attempt(pathname, parse, Remove(d), wait);
            && r.0 == Injected
            && ControlCount(r.1) == 1
            && |r.1.anchorChildren| > 0
            && r.1.anchorChildren[0] == Control(ButtonHref(ExtractRepoInfo(pathname, parse).value.owner,
                                                           ExtractRepoInfo(pathname, parse).value.repo))
  {
    var removed := Remove(d);
    assert !ButtonExists(removed) && removed.dom == d.dom;
    AttemptInjectsWhenPossible(pathname, parse, removed, wait);
    AttemptInjects(pathname, parse, removed, wait);
  }

  /** The identity of `handleNavigation`, the only callback the script
      registers with the monitor. */
  const HANDLE_NAVIGATION: NavigationHandler.CallbackId := 0

  /** The monitor knows no callback but `handleNavigation`: its observer,
      its pending timers and its intervals all carry that one. */
  predicate Dedicated(m: NavigationHandler.MonitorState) {
    && (m.mutationObserver.Some? ==> m.mutationObserver.value.callback == HANDLE_NAVIGATION)
    && (forall k :: 0 <= k < |m.timers| ==> m.timers[k].callback == HANDLE_NAVIGATION)
    && (forall id :: id in m.intervals ==> m.intervals[id] == HANDLE_NAVIGATION)
  }

  /** Every event keeps the monitor dedicated, as long as whatever is
      registered is `handleNavigation`. */
  lemma DedicatedStep(m: NavigationHandler.MonitorState, e: NavigationHandler.Event)
    requires Dedicated(m)
    requires e.SetupObserver? ==> e.callback == HANDLE_NAVIGATION
    requires e.SetupPolling? ==> e.pollCallback == HANDLE_NAVIGATION
    ensures Dedicated(NavigationHandler.Step(m, e))
  {
    var cleared := NavigationHandler.ClearPending(m);
    assert forall k :: 0 <= k < |cleared| ==> cleared[k].callback == HANDLE_NAVIGATION;
  }

  /** In a dedicated monitor, every call a timer starts is a call of
      `handleNavigation` with the href the timer captured. */
  lemma DedicatedFireCallsHandler(m: NavigationHandler.MonitorState)
    requires Dedicated(m) && m.timers != [] && !m.isProcessing
    ensures NavigationHandler.OnTimerFire(m).log
              == m.log + [NavigationHandler.Invocation(HANDLE_NAVIGATION, m.timers[0].url)]
  {
  }

  /** What the script did, in order. */
  datatype Action = Attempted(retryCount: nat, outcome: Outcome) | Removed | ObserverConnected

  /**
   * The running content script: the document it edits, the navigation
   * monitor, and the retry timers it has scheduled and not yet run.
   */
  class ContentScript {
    const doc: Document
    const monitor: NavigationRuntime.NavigationMonitor
    const parsePathname: string -> Option<string>
    var retries: seq<RetryTimer>
    ghost var actions: seq<Action>

    ghost predicate Valid()
      reads this, doc, monitor
    {
      doc.Valid() && Dedicated(monitor.State())
    }

    constructor (doc: Document, monitor: NavigationRuntime.NavigationMonitor, parsePathname: string -> Option<string>)
      requires doc.Valid() && Dedicated(monitor.State())
      ensures Valid() && this.doc == doc && this.monitor == monitor && this.parsePathname == parsePathname
      ensures retries == [] && actions == []
    {
      this.doc := doc;
      this.monitor := monitor;
      this.parsePathname := parsePathname;
      retries := [];
      actions := [];
    }

    /** `injectButtonIfNeeded(retryCount)` on the page at `pathname`. */
    method InjectButtonIfNeeded(retryCount: nat, pathname: string, wait: Waited) returns (outcome: Outcome)
      requires Valid() && WaitWellFormed(wait)
      modifies this, doc
      ensures Valid()
      ensures (outcome, doc.State()) == Attempt(pathname, parsePathname, old(doc.State()), wait)
      ensures retries == old(retries) + ScheduledRetry(outcome, retryCount)
      ensures actions == old(actions) + [Attempted(retryCount, outcome)]
    {
      ghost var start := doc.State();
      var detection := DetectPage(pathname, doc.dom, parsePathname);
      if !detection.isRepoPage || detection.repoInfo.None? {
        outcome := NotRepository;
      } else {
        outcome := ResolveOnRepository(detection, wait);
      }
      assert (outcome, doc.State()) == Resolve(detection, start, wait);
      if outcome.Failed? && retryCount < MAX_RETRIES {
        retries := retries + [RetryTimer(RETRY_DELAYS[retryCount], retryCount + 1)];
      }
      actions := actions + [Attempted(retryCount, outcome)];
    }

    /** The part of `injectButtonIfNeeded` after a repository page with an
        owner and a name has been detected: wait for a container if the
        detection saw none, then skip or inject. */
    method ResolveOnRepository(detection: PageDetectionResult, wait: Waited) returns (outcome: Outcome)
      requires Valid() && WaitWellFormed(wait)
      requires detection.isRepoPage && detection.repoInfo.Some?
      modifies doc
      ensures Valid()
      ensures (outcome, doc.State()) == Resolve(detection, old(doc.State()), wait)
    {
      if !detection.hasNavigation {
        doc.HostUpdate(wait.doc);
        if !wait.found {
          return Failed(NoContainerAfterTimeout);
        }
      }
      var present := doc.ZreadButtonExists();
      if present {
        outcome := AlreadyPresent;
      } else {
        var ok := doc.InjectZreadButton(detection.repoInfo.value.owner, detection.repoInfo.value.repo);
        outcome := if ok then Injected else Failed(InjectionFailed);
      }
    }

    /** `handleNavigation(url)`: remove the control, then attempt from retry
        count 0. The url is only logged; `pathname` is the page's. */
    method HandleNavigation(pathname: string, wait: Waited) returns (outcome: Outcome)
      requires Valid() && WaitWellFormed(wait)
      modifies this, doc
      ensures Valid()
      ensures (outcome, doc.State()) == Attempt(pathname, parsePathname, Remove(old(doc.State())), wait)
      ensures retries == old(retries) + ScheduledRetry(outcome, 0)
      ensures actions == old(actions) + [Removed, Attempted(0, outcome)]
    {
      ghost var d0, actions0, retries0 := doc.State(), actions, retries;
      doc.RemoveZreadButton();
      ghost var d1 := doc.State();
      actions := actions + [Removed];
      outcome := InjectButtonIfNeeded(0, pathname, wait);
      assert (outcome, doc.State()) == Attempt(pathname, parsePathname, d1, wait);
      assert d1 == Remove(d0);
      assert retries == retries0 + ScheduledRetry(outcome, 0);
      assert actions == actions0 + [Removed] + [Attempted(0, outcome)];
      assert actions0 + [Removed] + [Attempted(0, outcome)] == actions0 + [Removed, Attempted(0, outcome)];
    }

    /** `main()`: the initial attempt, then the navigation observer. */
    method Start(pathname: string, wait: Waited) returns (outcome: Outcome)
      requires Valid() && WaitWellFormed(wait)
      modifies this, doc, monitor
      ensures Valid()
      ensures (outcome, doc.State()) == Attempt(pathname, parsePathname, old(doc.State()), wait)
      ensures monitor.State() == NavigationHandler.SetupNavigationObserver(old(monitor.State()), HANDLE_NAVIGATION)
      ensures retries == old(retries) + ScheduledRetry(outcome, 0)
      ensures actions == old(actions) + [Attempted(0, outcome), ObserverConnected]
    {
      outcome := InjectButtonIfNeeded(0, pathname, wait);
      var _ := monitor.SetupNavigationObserver(HANDLE_NAVIGATION);
      actions := actions + [ObserverConnected];
    }

    /** Retry timer `i` fires. A retry runs outside the monitor's in-flight
        window: it leaves the monitor, and so `isProcessing`, alone. */
    method RunRetry(i: nat, pathname: string, wait: Waited) returns (outcome: Outcome)
      requires Valid() && WaitWellFormed(wait) && i < |retries|
      modifies this, doc
      ensures Valid()
      ensures (outcome, doc.State()) == Attempt(pathname, parsePathname, old(doc.State()), wait)
      ensures retries == old(retries[..i] + retries[i + 1..]) + ScheduledRetry(outcome, old(retries[i].retryCount))
      ensures actions == old(actions) + [Attempted(old(retries[i].retryCount), outcome)]
      ensures monitor.State() == old(monitor.State())
    {
      var timer := retries[i];
      retries := retries[..i] + retries[i + 1..];
      outcome := InjectButtonIfNeeded(timer.retryCount, pathname, wait);
    }

    /** The monitor's debounce timer fires. If its closure starts a call,
        that call is `handleNavigation`, and its promise settles once the
        first attempt is over; retries it schedules run later. */
    method OnNavigationTimer(pathname: string, wait: Waited) returns (outcome: Option<Outcome>)
      requires Valid() && WaitWellFormed(wait)
      modifies this, doc, monitor
      ensures Valid()
      ensures var fired := NavigationHandler.OnTimerFire(old(monitor.State()));
              if old(monitor.timers) != [] && !old(monitor.isProcessing) then
                && outcome.Some?
                && (outcome.value, doc.State()) == Attempt(pathname, parsePathname, Remove(old(doc.State())), wait)
                && monitor.State() == NavigationHandler.OnCallbackSettled(fired, |old(monitor.running)|)
                && monitor.log == old(monitor.log) + [NavigationHandler.Invocation(HANDLE_NAVIGATION, old(monitor.timers[0].url))]
                && !monitor.isProcessing
                && retries == old(retries) + ScheduledRetry(outcome.value, 0)
                && actions == old(actions) + [Removed, Attempted(0, outcome.value)]
              else
                && outcome.None?
                && monitor.State() == fired
                && doc.State() == old(doc.State())
                && retries == old(retries) && actions == old(actions)
    {
      var callsBefore := |monitor.running|;
      var idle := monitor.timers != [] && !monitor.isProcessing;
      monitor.OnTimerFire();
      if idle {
        var result := HandleNavigation(pathname, wait);
        monitor.OnCallbackSettled(callsBefore);
        outcome := Some(result);
      } else {
        outcome := None;
      }
    }
  }
}
