/**
 * The navigation monitor (utils/navigation-handler.ts): a module-wide state
 * of `currentUrl`, `isProcessing`, `debounceTimer` and `mutationObserver`,
 * driven by explicit events in place of the browser's MutationObserver
 * deliveries, timers and promise settlements.
 *
 * `MonitorState` and its transition functions say what each event does;
 * the class `NavigationMonitor` performs the same steps in place and is
 * proved against them.
 */
module NavigationHandler {
  import opened Wrappers

  /** Identity of a registered `NavigationCallback`. */
  type CallbackId = nat

  const DEBOUNCE_DELAY: nat := 500
  const POLL_INTERVAL: nat := 1000

  /** A scheduled debounce timer: its handle, and the href and callback its
      closure captured. */
  datatype Timer = Timer(handle: nat, url: string, callback: CallbackId)

  /** The connected MutationObserver and the callback its closure captured. */
  datatype Observer = Observer(handle: nat, callback: CallbackId)

  /** One call `callback(url)`. */
  datatype Invocation = Invocation(callback: CallbackId, url: string)

  datatype MonitorState = MonitorState(
    // the module's own variables
    currentUrl: string,
    isProcessing: bool,
    debounceTimer: Option<nat>,
    mutationObserver: Option<Observer>,
    // the event loop's view: timers not yet fired or cleared (oldest first),
    // running `setupUrlChangeDetection` intervals, callback invocations not
    // yet settled, every invocation ever started, the next free handle
    timers: seq<Timer>,
    intervals: map<nat, CallbackId>,
    running: seq<Invocation>,
    log: seq<Invocation>,
    nextHandle: nat)

  /** `clearTimeout(handle)`. */
  function ClearTimeout(timers: seq<Timer>, handle: nat): (r: seq<Timer>)
    ensures |r| <= |timers|
    ensures forall k :: 0 <= k < |r| ==> r[k].handle != handle && r[k] in timers
    ensures (forall k :: 0 <= k < |timers| ==> timers[k].handle == handle) ==> r == []
    ensures forall k :: 0 <= k < |timers| && timers[k].handle != handle ==> timers[k] in r
  {
    if timers == [] then []
    else if timers[0].handle == handle then ClearTimeout(timers[1..], handle)
    else [timers[0]] + ClearTimeout(timers[1..], handle)
  }

  /** The state when the module is loaded on a page at `href`. */
  function Init(href: string): (r: MonitorState)
    ensures Valid(r) && SingleFlight(r) && r.currentUrl == href
    ensures !r.isProcessing && r.running == [] && r.timers == [] && r.debounceTimer.None?
    ensures r.mutationObserver.None? && r.intervals == map[] && r.log == []
  {
    MonitorState(href, false, None, None, [], map[], [], [], 0)
  }

  /** At most one debounce timer is ever pending, and `debounceTimer` holds
      its handle. */
  predicate Valid(m: MonitorState) {
    && |m.timers| <= 1
    && (forall k :: 0 <= k < |m.timers| ==> m.debounceTimer == Some(m.timers[k].handle))
    && (forall k :: 0 <= k < |m.timers| ==> m.timers[k].handle < m.nextHandle)
  }

  /** `clearTimeout(debounceTimer)` when `debounceTimer` is set: the
      pending timers that survive. In a valid state none does. */
  function ClearPending(m: MonitorState): (r: seq<Timer>)
    ensures Valid(m) ==> r == []
    ensures forall k :: 0 <= k < |r| ==> r[k] in m.timers
  {
    if m.debounceTimer.Some? then ClearTimeout(m.timers, m.debounceTimer.value)
    else if m.timers == [] then []
    else
      assert !Valid(m) by { assert m.debounceTimer != Some(m.timers[0].handle); }
      m.timers
  }

  /** The URL comparison both the observer and the poller run (the
      observer's callback and `checkUrlChange`): on a new href, record it,
      cancel the pending timer and schedule one that will call `callback`
      with that href. */
  function CheckUrlChange(m: MonitorState, href: string, callback: CallbackId): (r: MonitorState)
    ensures r.currentUrl == href
    ensures Valid(m) ==> Valid(r)
    ensures && r.isProcessing == m.isProcessing && r.running == m.running && r.log == m.log
            && r.mutationObserver == m.mutationObserver && r.intervals == m.intervals
    ensures href != m.currentUrl ==>
              && r.debounceTimer == Some(m.nextHandle)
              && r.timers != [] && r.timers[|r.timers| - 1] == Timer(m.nextHandle, href, callback)
  {
    if href == m.currentUrl then m
    else
      var cleared := ClearPending(m);
      var handle := m.nextHandle;
      m.(currentUrl := href, debounceTimer := Some(handle),
         timers := cleared + [Timer(handle, href, callback)], nextHandle := handle + 1)
  }

  /** `setupNavigationObserver(callback)`: disconnect the previous observer
      and connect a new one. Nothing else is reset. */
  function SetupNavigationObserver(m: MonitorState, callback: CallbackId): (r: MonitorState)
    ensures r.mutationObserver == Some(Observer(m.nextHandle, callback)) && r.nextHandle > m.nextHandle
    ensures r.(mutationObserver := m.mutationObserver, nextHandle := m.nextHandle) == m
    ensures Valid(m) ==> Valid(r)
  {
    m.(mutationObserver := Some(Observer(m.nextHandle, callback)), nextHandle := m.nextHandle + 1)
  }

  /** A child-list mutation under `document.body` while the location is
      `href`; only the connected observer is told. */
  function OnMutation(m: MonitorState, href: string): (r: MonitorState)
    ensures m.mutationObserver.None? ==> r == m
    ensures && r.isProcessing == m.isProcessing && r.running == m.running && r.log == m.log
            && r.mutationObserver == m.mutationObserver
    ensures m.mutationObserver.Some? && href != m.currentUrl ==>
              && r.currentUrl == href && r.timers != []
              && r.timers[|r.timers| - 1] == Timer(m.nextHandle, href, m.mutationObserver.value.callback)
    ensures Valid(m) ==> Valid(r)
  {
    match m.mutationObserver
    case None => m
    case Some(observer) => CheckUrlChange(m, href, observer.callback)
  }

  /** `setupUrlChangeDetection(callback)` on a page at `href`: take `href`
      as the current URL and start a 1000 ms interval. The interval's handle
      stands for the cleanup function returned. */
  function SetupUrlChangeDetection(m: MonitorState, callback: CallbackId, href: string): (r: MonitorState)
    ensures r.currentUrl == href && m.nextHandle in r.intervals && r.intervals[m.nextHandle] == callback
    ensures forall id :: id in m.intervals && id != m.nextHandle ==> id in r.intervals && r.intervals[id] == m.intervals[id]
    ensures r.timers == m.timers && r.log == m.log && r.mutationObserver == m.mutationObserver
    ensures Valid(m) ==> Valid(r)
  {
    m.(currentUrl := href, intervals := m.intervals[m.nextHandle := callback], nextHandle := m.nextHandle + 1)
  }

  /** A tick of interval `id` while the location is `href`. */
  function OnPollTick(m: MonitorState, id: nat, href: string): (r: MonitorState)
    ensures id !in m.intervals ==> r == m
    ensures r.isProcessing == m.isProcessing && r.running == m.running && r.log == m.log
    ensures id in m.intervals && href != m.currentUrl ==>
              && r.currentUrl == href && r.timers != []
              && r.timers[|r.timers| - 1] == Timer(m.nextHandle, href, m.intervals[id])
    ensures Valid(m) ==> Valid(r)
  {
    if id in m.intervals then CheckUrlChange(m, href, m.intervals[id]) else m
  }

  /** The cleanup function of interval `id`: stop it and clear the pending
      timer, leaving `debounceTimer` as it is. */
  function StopUrlChangeDetection(m: MonitorState, id: nat): (r: MonitorState)
    ensures id !in r.intervals && r.debounceTimer == m.debounceTimer
    ensures r.currentUrl == m.currentUrl && r.log == m.log && r.running == m.running
    ensures Valid(m) ==> r.timers == []
  {
    m.(intervals := m.intervals - {id},
       timers := ClearPending(m))
  }

  /** The oldest pending timer fires. Its closure calls the callback only
      when no call is in flight; otherwise the notification is dropped.
      `debounceTimer` keeps the fired handle. */
  function OnTimerFire(m: MonitorState): (r: MonitorState)
    ensures m.timers == [] ==> r == m
    ensures m.timers != [] ==>
              && r.timers == m.timers[1..] && r.isProcessing
              && r.log == (if m.isProcessing then m.log
                           else m.log + [Invocation(m.timers[0].callback, m.timers[0].url)])
    ensures Valid(m) ==> Valid(r)
  {
    if m.timers == [] then m
    else
      var t := m.timers[0];
      var m' := m.(timers := m.timers[1..]);
      if m.isProcessing then m'
      else
        var call := Invocation(t.callback, t.url);
        m'.(isProcessing := true, running := m.running + [call], log := m.log + [call])
  }

  /** The `i`-th running callback resolves or throws; either way the
      `finally` block clears `isProcessing`. */
  function OnCallbackSettled(m: MonitorState, i: nat): (r: MonitorState)
    ensures i < |m.running| ==>
              && !r.isProcessing
              && multiset(r.running) + multiset{m.running[i]} == multiset(m.running)
    ensures i < |m.running| ==> r == m.(running := r.running, isProcessing := false)
    ensures i >= |m.running| ==> r == m
    ensures r.log == m.log && r.timers == m.timers && r.mutationObserver == m.mutationObserver
  {
    if i < |m.running| then
      assert m.running == m.running[..i] + [m.running[i]] + m.running[i + 1..];
      m.(running := m.running[..i] + m.running[i + 1..], isProcessing := false)
    else m
  }

  /** `cleanupObservers()`: disconnect, clear and forget the timer, and clear
      `isProcessing` even if a callback is still running. */
  function CleanupObservers(m: MonitorState): (r: MonitorState)
    ensures r.mutationObserver.None? && r.debounceTimer.None? && !r.isProcessing
    ensures r.log == m.log && r.running == m.running && r.currentUrl == m.currentUrl
    ensures Valid(m) ==> r.timers == [] && Valid(r)
  {
    m.(mutationObserver := None, timers := ClearPending(m), debounceTimer := None, isProcessing := false)
  }

  /** `isProcessingNavigation()`. */
  function IsProcessingNavigation(m: MonitorState): bool {
    m.isProcessing
  }

  datatype Event =
    | SetupObserver(callback: CallbackId)
    | Mutation(href: string)
    | SetupPolling(pollCallback: CallbackId, startHref: string)
    | PollTick(id: nat, tickHref: string)
    | StopPolling(stopId: nat)
    | TimerFire
    | CallbackSettled(index: nat)
    | Cleanup

  function Step(m: MonitorState, e: Event): MonitorState {
    match e
    case SetupObserver(cb) => SetupNavigationObserver(m, cb)
    case Mutation(href) => OnMutation(m, href)
    case SetupPolling(cb, href) => SetupUrlChangeDetection(m, cb, href)
    case PollTick(id, href) => OnPollTick(m, id, href)
    case StopPolling(id) => StopUrlChangeDetection(m, id)
    case TimerFire => OnTimerFire(m)
    case CallbackSettled(i) => OnCallbackSettled(m, i)
    case Cleanup => CleanupObservers(m)
  }

  function Run(m: MonitorState, events: seq<Event>): MonitorState
    decreases |events|
  {
    if events == [] then m else Run(Step(m, events[0]), events[1..])
  }

  // ---------------------------------------------------------------------
  // One pending timer at most

  /** Every event keeps at most one pending timer, owned by `debounceTimer`. */
  lemma StepValid(m: MonitorState, e: Event)
    requires Valid(m)
    ensures Valid(Step(m, e))
  {
  }

  lemma {:induction false} RunValid(m: MonitorState, events: seq<Event>)
    requires Valid(m)
    ensures Valid(Run(m, events))
    decreases |events|
  {
    if events != [] {
      StepValid(m, events[0]);
      RunValid(Step(m, events[0]), events[1..]);
    }
  }

  // ---------------------------------------------------------------------
  // The mutation handler

  /** A mutation that leaves the href as it was changes nothing. */
  lemma MutationSameUrl(m: MonitorState, href: string)
    requires href == m.currentUrl
    ensures OnMutation(m, href) == m
  {
  }

  /** A mutation with a new href records it, cancels the earlier timer and
      leaves exactly one pending timer, which carries the new href and the
      observer's callback. */
  lemma MutationNewUrl(m: MonitorState, href: string)
    requires Valid(m) && m.mutationObserver.Some? && href != m.currentUrl
    ensures var m' := OnMutation(m, href);
            && m'.currentUrl == href
            && m'.timers == [Timer(m.nextHandle, href, m.mutationObserver.value.callback)]
            && m'.debounceTimer == Some(m.nextHandle)
            && m'.isProcessing == m.isProcessing && m'.running == m.running && m'.log == m.log
            && m'.mutationObserver == m.mutationObserver
  {
  }

  function Mutations(hrefs: seq<string>): (events: seq<Event>)
    ensures |events| == |hrefs|
    ensures forall k :: 0 <= k < |hrefs| ==> events[k] == Mutation(hrefs[k])
  {
    if hrefs == [] then [] else [Mutation(hrefs[0])] + Mutations(hrefs[1..])
  }

  /** The state a burst leaves behind: one timer pending, carrying `last`
      and the observer's callback, and no call made since `m0`. */
  predicate Debouncing(m: MonitorState, m0: MonitorState, last: string) {
    && Valid(m)
    && m0.mutationObserver.Some? && m.mutationObserver == m0.mutationObserver
    && m.currentUrl == last
    && |m.timers| == 1
    && m.timers[0].url == last && m.timers[0].callback == m0.mutationObserver.value.callback
    && m.isProcessing == m0.isProcessing && m.running == m0.running && m.log == m0.log
  }

  lemma RunMutationsCons(m: MonitorState, hrefs: seq<string>)
    requires hrefs != []
    ensures Run(m, Mutations(hrefs)) == Run(OnMutation(m, hrefs[0]), Mutations(hrefs[1..]))
  {
    assert Mutations(hrefs)[1..] == Mutations(hrefs[1..]);
  }

  /** While debouncing, a mutation keeps one timer pending, now carrying
      the href it saw. */
  lemma MutationKeepsDebouncing(m: MonitorState, m0: MonitorState, last: string, href: string)
    requires Debouncing(m, m0, last)
    ensures Debouncing(OnMutation(m, href), m0, href)
  {
    if href != m.currentUrl {
      MutationNewUrl(m, href);
    }
  }

  /** Further mutations keep one timer pending with the latest href. */
  lemma {:induction false} BurstAfterChange(m: MonitorState, m0: MonitorState, last: string, hrefs: seq<string>)
    requires Debouncing(m, m0, last)
    ensures Debouncing(Run(m, Mutations(hrefs)), m0, if hrefs == [] then last else hrefs[|hrefs| - 1])
    decreases |hrefs|
  {
    if hrefs != [] {
      RunMutationsCons(m, hrefs);
      MutationKeepsDebouncing(m, m0, last, hrefs[0]);
      BurstAfterChange(OnMutation(m, hrefs[0]), m0, hrefs[0], hrefs[1..]);
    }
  }

  /** After a burst of mutations whose first href is new, exactly one timer
      is pending; it carries the last href and the observer's callback, and
      nothing has been called yet. */
  lemma BurstLeavesOneTimer(m: MonitorState, hrefs: seq<string>)
    requires Valid(m) && m.mutationObserver.Some?
    requires |hrefs| > 0 && hrefs[0] != m.currentUrl
    ensures Debouncing(Run(m, Mutations(hrefs)), m, hrefs[|hrefs| - 1])
  {
    RunMutationsCons(m, hrefs);
    MutationNewUrl(m, hrefs[0]);
    BurstAfterChange(OnMutation(m, hrefs[0]), m, hrefs[0], hrefs[1..]);
  }

  /** N changes before the timer fires make exactly one call, with the last
      href, when no call is in flight. */
  lemma BurstThenFire(m: MonitorState, hrefs: seq<string>)
    requires Valid(m) && m.mutationObserver.Some? && !m.isProcessing
    requires |hrefs| > 0 && hrefs[0] != m.currentUrl
    ensures var m' := OnTimerFire(Run(m, Mutations(hrefs)));
            && m'.log == m.log + [Invocation(m.mutationObserver.value.callback, hrefs[|hrefs| - 1])]
            && m'.timers == []
            && m'.isProcessing
  {
    BurstLeavesOneTimer(m, hrefs);
  }

  // ---------------------------------------------------------------------
  // The timer closure

  /** A timer firing while a call is in flight calls nothing: the
      notification is dropped, not queued. */
  lemma FireWhileProcessing(m: MonitorState)
    requires m.isProcessing && m.timers != []
    ensures var m' := OnTimerFire(m);
            && m'.log == m.log && m'.running == m.running && m'.isProcessing
            && m'.timers == m.timers[1..]
  {
  }

  /** A timer firing while idle sets `isProcessing` and calls the callback
      once with the href it captured. */
  lemma FireWhileIdle(m: MonitorState)
    requires !m.isProcessing && m.timers != []
    ensures var m' := OnTimerFire(m);
            var t := m.timers[0];
            && m'.isProcessing
            && m'.log == m.log + [Invocation(t.callback, t.url)]
            && m'.running == m.running + [Invocation(t.callback, t.url)]
            && m'.timers == m.timers[1..]
  {
  }

  /** Whether the callback resolves or throws, `isProcessing` is false after. */
  lemma SettledClearsFlag(m: MonitorState, i: nat)
    requires i < |m.running|
    ensures var m' := OnCallbackSettled(m, i);
            && !m'.isProcessing && |m'.running| == |m.running| - 1 && m'.log == m.log
  {
  }

  // ---------------------------------------------------------------------
  // Single flight

  /** At most one call is outstanding, and `isProcessing` says whether one is. */
  predicate SingleFlight(m: MonitorState) {
    |m.running| <= 1 && (m.isProcessing <==> |m.running| == 1)
  }

  /** Every event but `cleanupObservers` keeps single flight. */
  lemma StepSingleFlight(m: MonitorState, e: Event)
    requires SingleFlight(m) && e != Cleanup
    ensures SingleFlight(Step(m, e))
  {
  }

  /** With no `cleanupObservers` in between, at most one callback call is
      outstanding at any time. */
  lemma {:induction false} RunSingleFlight(m: MonitorState, events: seq<Event>)
    requires SingleFlight(m)
    requires forall k :: 0 <= k < |events| ==> events[k] != Cleanup
    ensures SingleFlight(Run(m, events))
    decreases |events|
  {
    if events != [] {
      StepSingleFlight(m, events[0]);
      RunSingleFlight(Step(m, events[0]), events[1..]);
    }
  }

  /** Because `cleanupObservers` clears `isProcessing` while a call is still
      running, a later timer can start a second, overlapping call. */
  lemma CleanupAllowsOverlap(href: string, href': string, href'': string, cb: CallbackId, cb': CallbackId)
    requires href' != href && href'' != href'
    ensures var first := OnTimerFire(OnMutation(SetupNavigationObserver(Init(href), cb), href'));
            var second := OnTimerFire(OnMutation(SetupNavigationObserver(CleanupObservers(first), cb'), href''));
            |second.running| == 2
  {
  }

  // ---------------------------------------------------------------------
  // Lifecycle

  /** After `cleanupObservers` there is no observer, no pending timer and no
      in-flight flag, and a second call changes nothing. */
  lemma CleanupResets(m: MonitorState)
    requires Valid(m)
    ensures var m' := CleanupObservers(m);
            && m'.mutationObserver.None? && m'.timers == [] && m'.debounceTimer.None? && !m'.isProcessing
            && m'.currentUrl == m.currentUrl
            && CleanupObservers(m') == m'
  {
  }

  /** After cleanup, mutations and timer events call nothing. */
  lemma {:induction false} NothingAfterCleanup(m: MonitorState, hrefs: seq<string>)
    requires Valid(m)
    ensures var m' := CleanupObservers(m);
            OnTimerFire(Run(m', Mutations(hrefs))).log == m.log
  {
    CleanupResets(m);
    var m' := CleanupObservers(m);
    QuietWithoutObserver(m', hrefs);
  }

  lemma {:induction false} QuietWithoutObserver(m: MonitorState, hrefs: seq<string>)
    requires m.mutationObserver.None? && m.timers == []
    ensures Run(m, Mutations(hrefs)) == m
    decreases |hrefs|
  {
    if hrefs != [] {
      RunMutationsCons(m, hrefs);
      QuietWithoutObserver(m, hrefs[1..]);
    }
  }

  /** `setupNavigationObserver` replaces the observer and touches nothing
      else: not the current URL, not a pending timer, not `isProcessing`. */
  lemma SetupKeepsState(m: MonitorState, cb: CallbackId)
    ensures var m' := SetupNavigationObserver(m, cb);
            && m'.mutationObserver.Some? && m'.mutationObserver.value.callback == cb
            && m'.currentUrl == m.currentUrl && m'.timers == m.timers
            && m'.debounceTimer == m.debounceTimer && m'.isProcessing == m.isProcessing
            && m'.running == m.running && m'.log == m.log
  {
  }

  /** Only the latest observer receives mutations: a change after a second
      `setupNavigationObserver` schedules the second callback. */
  lemma LatestObserverWins(m: MonitorState, cb: CallbackId, cb': CallbackId, href: string)
    requires Valid(m) && href != m.currentUrl
    ensures var m' := OnMutation(SetupNavigationObserver(SetupNavigationObserver(m, cb), cb'), href);
            m'.timers == [Timer(m.nextHandle + 2, href, cb')]
  {
    var m1 := SetupNavigationObserver(m, cb);
    var m2 := SetupNavigationObserver(m1, cb');
    assert Valid(m2) && m2.currentUrl == m.currentUrl && m2.nextHandle == m.nextHandle + 2;
    MutationNewUrl(m2, href);
  }

  /** A timer the old observer scheduled survives `setupNavigationObserver`
      and still calls the old callback. */
  lemma StaleTimerCallsOldCallback(m: MonitorState, cb: CallbackId, cb': CallbackId, href: string)
    requires Valid(m) && m.mutationObserver.Some? && m.mutationObserver.value.callback == cb
    requires href != m.currentUrl && !m.isProcessing
    ensures var m' := OnTimerFire(SetupNavigationObserver(OnMutation(m, href), cb'));
            m'.log == m.log + [Invocation(cb, href)]
  {
    MutationNewUrl(m, href);
  }
}

/**
 * The same state kept in place, one method per event, each proved to do
 * what the matching transition of `NavigationHandler` says.
 */
module NavigationRuntime {
  import opened Wrappers
  import opened NavigationHandler

  /**
   * The module's state, updated in place by each event.
   */
  class NavigationMonitor {
    var currentUrl: string
    var isProcessing: bool
    var debounceTimer: Option<nat>
    var mutationObserver: Option<Observer>
    var timers: seq<Timer>
    var intervals: map<nat, CallbackId>
    var running: seq<Invocation>
    ghost var log: seq<Invocation>
    var nextHandle: nat

    ghost function State(): MonitorState
      reads this
    {
      MonitorState(currentUrl, isProcessing, debounceTimer, mutationObserver,
                   timers, intervals, running, log, nextHandle)
    }

    /** Module load on a page at `href`. */
    constructor (href: string)
      ensures State() == Init(href)
    {
      currentUrl := href;
      isProcessing := false;
      debounceTimer := None;
      mutationObserver := None;
      timers, intervals, running, log, nextHandle := [], map[], [], [], 0;
    }

    method SetTimeout(url: string, callback: CallbackId) returns (handle: nat)
      modifies this
      ensures handle == old(nextHandle) && nextHandle == handle + 1
      ensures timers == old(timers) + [Timer(handle, url, callback)]
      ensures currentUrl == old(currentUrl) && isProcessing == old(isProcessing)
      ensures debounceTimer == old(debounceTimer) && mutationObserver == old(mutationObserver)
      ensures intervals == old(intervals) && running == old(running) && log == old(log)
    {
      handle := nextHandle;
      nextHandle := nextHandle + 1;
      timers := timers + [Timer(handle, url, callback)];
    }

    method CheckUrlChange(href: string, callback: CallbackId)
      modifies this
      ensures State() == NavigationHandler.CheckUrlChange(old(State()), href, callback)
    {
      if href != currentUrl {
        currentUrl := href;
        if debounceTimer.Some? {
          timers := ClearTimeout(timers, debounceTimer.value);
        }
        var handle := SetTimeout(href, callback);
        debounceTimer := Some(handle);
      }
    }

    /** `setupNavigationObserver(callback)`; returns the new observer's handle. */
    method SetupNavigationObserver(callback: CallbackId) returns (handle: nat)
      modifies this
      ensures State() == NavigationHandler.SetupNavigationObserver(old(State()), callback)
      ensures mutationObserver == Some(Observer(handle, callback))
    {
      if mutationObserver.Some? {
        mutationObserver := None;
      }
      handle := nextHandle;
      nextHandle := nextHandle + 1;
      mutationObserver := Some(Observer(handle, callback));
    }

    method OnMutation(href: string)
      modifies this
      ensures State() == NavigationHandler.OnMutation(old(State()), href)
    {
      if mutationObserver.Some? {
        CheckUrlChange(href, mutationObserver.value.callback);
      }
    }

    /** `setupUrlChangeDetection(callback)`; returns the interval handle its
        cleanup function clears. */
    method SetupUrlChangeDetection(callback: CallbackId, href: string) returns (id: nat)
      modifies this
      ensures State() == NavigationHandler.SetupUrlChangeDetection(old(State()), callback, href)
      ensures id == old(nextHandle)
    {
      currentUrl := href;
      id := nextHandle;
      nextHandle := nextHandle + 1;
      intervals := intervals[id := callback];
    }

    method OnPollTick(id: nat, href: string)
      modifies this
      ensures State() == NavigationHandler.OnPollTick(old(State()), id, href)
    {
      if id in intervals {
        CheckUrlChange(href, intervals[id]);
      }
    }

    method StopUrlChangeDetection(id: nat)
      modifies this
      ensures State() == NavigationHandler.StopUrlChangeDetection(old(State()), id)
    {
      intervals := intervals - {id};
      if debounceTimer.Some? {
        timers := ClearTimeout(timers, debounceTimer.value);
      }
    }

    method OnTimerFire()
      modifies this
      ensures State() == NavigationHandler.OnTimerFire(old(State()))
    {
      if timers != [] {
        var t := timers[0];
        timers := timers[1..];
        if !isProcessing {
          isProcessing := true;
          var call := Invocation(t.callback, t.url);
          running := running + [call];
          log := log + [call];
        }
      }
    }

    method OnCallbackSettled(i: nat)
      modifies this
      ensures State() == NavigationHandler.OnCallbackSettled(old(State()), i)
    {
      if i < |running| {
        running := running[..i] + running[i + 1..];
        isProcessing := false;
      }
    }

    /** `cleanupObservers()`. */
    method CleanupObservers()
      modifies this
      ensures State() == NavigationHandler.CleanupObservers(old(State()))
    {
      if mutationObserver.Some? {
        mutationObserver := None;
      }
      if debounceTimer.Some? {
        timers := ClearTimeout(timers, debounceTimer.value);
        debounceTimer := None;
      }
      isProcessing := false;
    }

    /** `isProcessingNavigation()`. */
    method IsProcessingNavigation() returns (b: bool)
      ensures b == NavigationHandler.IsProcessingNavigation(State())
    {
      b := isProcessing;
    }
  }
}
