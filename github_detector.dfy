/**
 * Page detection and anchor lookup (utils/github-detector.ts).
 *
 * The document is an oracle: for each CSS selector the script uses, the
 * element `querySelector` returns, if any, plus the document's
 * `readyState`. Selector matching itself is the browser's.
 */
module GithubDetector {
  import opened Wrappers
  import opened UrlTransformer
  import JsString

  /** Identity of a DOM element. */
  type Elem = nat

  datatype ReadyState = Loading | Interactive | Complete

  datatype Dom = Dom(matches: map<string, Elem>, readyState: ReadyState)

  /** `document.querySelector(selector)`. */
  function QuerySelector(dom: Dom, selector: string): Option<Elem> {
    if selector in dom.matches then Some(dom.matches[selector]) else None
  }

  const PRIMARY_SELECTOR: string := "ul.pagehead-actions"

  /** Layouts of older GitHub pages, tried in this order. */
  const FALLBACK_SELECTORS: seq<string> := ["nav.UnderlineNav ul", ".reponav-wrapper ul", ".BorderGrid-row .d-flex ul"]

  /** Every selector `findNavigationContainer` tries, in order. */
  const NAVIGATION_SELECTORS: seq<string> := [PRIMARY_SELECTOR] + FALLBACK_SELECTORS

  /** Index of the first selector in `selectors` that matches, or `|selectors|`. */
  function FirstMatchIndex(dom: Dom, selectors: seq<string>): (i: nat)
    ensures i <= |selectors|
    ensures forall k :: 0 <= k < i ==> QuerySelector(dom, selectors[k]).None?
    ensures i < |selectors| ==> QuerySelector(dom, selectors[i]).Some?
  {
    if selectors == [] || QuerySelector(dom, selectors[0]).Some? then 0
    else 1 + FirstMatchIndex(dom, selectors[1..])
  }

  /** The anchor `findNavigationContainer` returns: the match of the first
      selector of `NAVIGATION_SELECTORS` that matches. */
  function NavigationContainer(dom: Dom): (r: Option<Elem>)
    ensures QuerySelector(dom, PRIMARY_SELECTOR).Some? ==> r == QuerySelector(dom, PRIMARY_SELECTOR)
    ensures r.None? <==> forall k :: 0 <= k < |NAVIGATION_SELECTORS| ==> QuerySelector(dom, NAVIGATION_SELECTORS[k]).None?
  {
    var i := FirstMatchIndex(dom, NAVIGATION_SELECTORS);
    if i < |NAVIGATION_SELECTORS| then QuerySelector(dom, NAVIGATION_SELECTORS[i]) else None
  }

  /** When the primary selector does not match, the anchor is the match of
      the first fallback, in list order, that matches. */
  lemma FallbackOrder(dom: Dom, k: nat)
    requires QuerySelector(dom, PRIMARY_SELECTOR).None?
    requires k < |FALLBACK_SELECTORS|
    requires QuerySelector(dom, FALLBACK_SELECTORS[k]).Some?
    requires forall j :: 0 <= j < k ==> QuerySelector(dom, FALLBACK_SELECTORS[j]).None?
    ensures NavigationContainer(dom) == QuerySelector(dom, FALLBACK_SELECTORS[k])
  {
    assert forall j :: 1 <= j < |NAVIGATION_SELECTORS| ==> NAVIGATION_SELECTORS[j] == FALLBACK_SELECTORS[j - 1];
  }

  /** `findNavigationContainer()`: the primary selector, then each fallback
      in turn, returning the first match. */
  method FindNavigationContainer(dom: Dom) returns (r: Option<Elem>)
    ensures r == NavigationContainer(dom)
  {
    var primary := QuerySelector(dom, PRIMARY_SELECTOR);
    if primary.Some? {
      return primary;
    }
    for i := 0 to |FALLBACK_SELECTORS|
      invariant forall j :: 0 <= j < i ==> QuerySelector(dom, FALLBACK_SELECTORS[j]).None?
    {
      var element := QuerySelector(dom, FALLBACK_SELECTORS[i]);
      if element.Some? {
        FallbackOrder(dom, i);
        return element;
      }
    }
    assert forall k :: 1 <= k < |NAVIGATION_SELECTORS| ==> NAVIGATION_SELECTORS[k] == FALLBACK_SELECTORS[k - 1];
    return None;
  }

  /** `isRepoPage()`: the current pathname is a repository main page. */
  function IsRepoPage(pathname: string): (b: bool)
    ensures b <==> SegmentCount(JsString.CutQueryAndFragment(pathname)) == 2
  {
    IsRepositoryPage(pathname)
  }

  /** `isPageReady()`: the document is past loading and one of the
      navigation selectors matches. */
  predicate IsPageReady(dom: Dom)
    ensures IsPageReady(dom) <==>
              && dom.readyState != Loading
              && exists k :: 0 <= k < |NAVIGATION_SELECTORS| && QuerySelector(dom, NAVIGATION_SELECTORS[k]).Some?
  {
    (dom.readyState == Complete || dom.readyState == Interactive) && NavigationContainer(dom).Some?
  }

  datatype PageDetectionResult = PageDetectionResult(isRepoPage: bool, repoInfo: Option<RepoInfo>, hasNavigation: bool)

  /** `detectPage()` on the page at `pathname` (the location parser is passed
      along to `extractRepoInfo`). */
  function DetectPage(pathname: string, dom: Dom, parsePathname: string -> Option<string>): (r: PageDetectionResult)
    ensures r.isRepoPage <==> SegmentCount(JsString.CutQueryAndFragment(pathname)) == 2
    ensures r.repoInfo.Some? ==> r.isRepoPage
    ensures r.isRepoPage ==> r.repoInfo == ExtractRepoInfo(pathname, parsePathname)
    ensures r.hasNavigation <==> exists k :: 0 <= k < |NAVIGATION_SELECTORS| && QuerySelector(dom, NAVIGATION_SELECTORS[k]).Some?
  {
    var isRepo := IsRepoPage(pathname);
    var repoInfo := if isRepo then ExtractRepoInfo(pathname, parsePathname) else None;
    var hasNavigation := NavigationContainer(dom).Some?;
    PageDetectionResult(isRepo, repoInfo, hasNavigation)
  }

  /**
   * One call of `waitForNavigation(timeout)`: a promise settled by whichever
   * comes first of a DOM mutation after which the anchor is found and the
   * timer. The observer and the timer are the only resources it holds.
   */
  class NavigationWaiter {
    const timeout: nat
    /** The MutationObserver is connected. */
    var observing: bool
    /** The timeout timer is scheduled. */
    var timerPending: bool
    /** What the promise resolved to; `None` while it is pending. */
    var result: Option<Option<Elem>>
    /** How many times `resolve` has been called. */
    ghost var resolutions: nat

    ghost predicate Valid()
      reads this
    {
      && observing == timerPending
      && (result.None? <==> observing)
      && resolutions == (if result.Some? then 1 else 0)
    }

    /** Checks for the anchor at once; only when it is missing does it
        connect an observer and schedule the timer. */
    constructor (dom: Dom, timeout: nat)
      ensures Valid() && this.timeout == timeout
      ensures NavigationContainer(dom).Some? ==> result == Some(NavigationContainer(dom)) && !observing && !timerPending
      ensures NavigationContainer(dom).None? ==> result.None? && observing && timerPending
    {
      this.timeout := timeout;
      var existing := FindNavigationContainer(dom);
      if existing.Some? {
        result := Some(existing);
        resolutions := 1;
        observing, timerPending := false, false;
      } else {
        result := None;
        resolutions := 0;
        observing := true;
        timerPending := true;
      }
    }

    /** The observer's callback after a change to the DOM, which is now `dom`.
        A disconnected observer receives nothing. */
    method OnMutation(dom: Dom)
      requires Valid()
      modifies this
      ensures Valid()
      ensures old(observing) && NavigationContainer(dom).Some? ==>
                result == Some(NavigationContainer(dom)) && !observing && !timerPending
      ensures !old(observing) || NavigationContainer(dom).None? ==>
                result == old(result) && observing == old(observing) && timerPending == old(timerPending)
    {
      if observing {
        var container := FindNavigationContainer(dom);
        if container.Some? {
          observing := false;
          timerPending := false;
          result := Some(container);
          resolutions := resolutions + 1;
        }
      }
    }

    /** The timer fires: disconnect and resolve with `null`, whatever the DOM
        holds now. A cleared timer never fires. */
    method OnTimeout()
      requires Valid()
      modifies this
      ensures Valid()
      ensures old(timerPending) ==> result == Some(None) && !observing && !timerPending
      ensures !old(timerPending) ==>
                result == old(result) && observing == old(observing) && timerPending == old(timerPending)
    {
      if timerPending {
        timerPending := false;
        observing := false;
        result := Some(None);
        resolutions := resolutions + 1;
      }
    }
  }
}
