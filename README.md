# Zread button for GitHub — a Dafny model

The browser extension adds one "Zread" link to the action bar of a GitHub
repository page and keeps it right as GitHub swaps pages without reloading.
This project models its logic in Dafny and proves properties of it:

- `JsString` (js_string.dfy): the ECMAScript string operations the code relies on:
  `trim`, `toLowerCase` as far as the reserved-name check can see it, `split`, and
  cutting at the first `?` or `#`.
- `UriComponent` (uri_component.dfy): ECMAScript `encodeURIComponent`. It
  percent-encodes the UTF-8 bytes of every character outside the unreserved set of
  section 2.3 of RFC 2396 as `%XX` with upper-case hex digits (section 2.1 of RFC 3986).
  A reference decoder is proved to invert it.
- `UrlTransformer` (url_transformer.dfy): `extractRepoInfo`, `generateZreadUrl`,
  `isRepositoryPage` and the 24 reserved first segments.
- `GithubDetector` (github_detector.dfy): the selector lookup, page detection and
  `waitForNavigation`. The DOM is an oracle from selector to first matching element.
  `waitForNavigation` is a class `NavigationWaiter` driven by a mutation event and a
  timeout event.
- `ButtonInjector` (button_injector.dfy): `sanitizeInput`, the link's href, and the
  control's presence check, injection and removal. The pure functions over `DocState`
  describe the effects. The class `Document` performs them in place.
- `NavigationHandler` and `NavigationRuntime` (navigation_handler.dfy): the module-wide
  monitor state (`currentUrl`, `isProcessing`, `debounceTimer`, `mutationObserver`) and
  the browser's pending timers, intervals and running callback calls.
  - Mutations, ticks, timer firings and callback settlements are explicit events.
  - `NavigationHandler` gives each event as a transition function and proves the
    monitor's properties over runs of events.
  - The class `NavigationRuntime.NavigationMonitor` updates the same variables in
    place and is proved against those transitions.
- `Content` (content.dfy): `injectButtonIfNeeded`'s decision and retry rule,
  `handleNavigation`'s remove-then-reinject sequence, and `main`'s order.
  - The class `ContentScript` runs them against a `Document` and a `NavigationMonitor`.
  - `waitForNavigation` is summarised by its result, a container or null, and the
    document as it stands when the wait settles.

## Behaviour worth knowing

- `setupNavigationObserver` only disconnects the old observer
  (utils/navigation-handler.ts:80-83). A timer the old observer scheduled still
  fires and calls the old callback (`StaleTimerCallsOldCallback`). The current URL
  and `isProcessing` are kept.
- `cleanupObservers` clears `isProcessing` while a call may still be running
  (utils/navigation-handler.ts:140). A later timer can then start a second call that
  overlaps the first (`CleanupAllowsOverlap`).
- After its timer fires, `debounceTimer` still holds that timer's handle
  (utils/navigation-handler.ts:99-111).
- `extractRepoInfo` can return an empty repo (`RepoMayBeEmpty`) or an empty trimmed
  owner (utils/url-transformer.ts:66-71).
- The pattern of utils/url-transformer.ts:54 needs a segment right after the first
  `/` and another right after the next `/`. So `//a//b` gives no identifier, although
  `isRepositoryPage` accepts it (`DoubledSlashRepositoryPage`).
- `injectButtonIfNeeded` makes one attempt plus up to three retries
  (entrypoints/content.ts:42-43, 81-87; `AtMostFourAttempts`).
- The attempt fails whenever `waitForNavigation` times out, even if a container is in
  the document by then (utils/github-detector.ts:104-107; `AttemptTimesOut`).

## Model

| member | source | states |
|---|---|---|
| JsString.Trim | utils/url-transformer.ts:69-70 | the result has no leading or trailing ECMAScript whitespace and is no longer than the input |
| JsString.TrimOfTrimmed | utils/button-injector.ts:17 | trimming a string with no surrounding whitespace returns it unchanged |
| JsString.TrimIsInfix | utils/url-transformer.ts:69-70 | the trimmed string is a contiguous slice of the input |
| JsString.LeadingWhitespace | utils/button-injector.ts:17 | counts exactly the whitespace run at the start |
| JsString.TrailingWhitespace | utils/button-injector.ts:17 | counts exactly the whitespace run at the end |
| JsString.ToLower | utils/url-transformer.ts:61 | lower-cases character by character, keeping the length |
| JsString.LowerChar | utils/url-transformer.ts:61 | a character lower-cases to an ASCII letter exactly when it is an ASCII letter or the Kelvin sign |
| JsString.FirstIndexIn | utils/url-transformer.ts:66 | the index of the first character from the stop set, or the length when there is none |
| JsString.CutQueryAndFragment | utils/url-transformer.ts:95 | the longest prefix without `?` or `#`, which is followed by `?` or `#` when shorter than the input |
| JsString.Split | utils/url-transformer.ts:101 | at least one piece, and no piece contains the separator |
| JsString.SplitAtFirst | utils/url-transformer.ts:101 | at the first separator, the split is the piece before it followed by the split of the rest |
| JsString.JoinSplit | utils/url-transformer.ts:101 | joining the pieces of a split with the separator gives back the input |
| JsString.NonEmpty | utils/url-transformer.ts:101 | keeps only non-empty pieces, never more than there were |
| UriComponent.EncodeURIComponent | utils/url-transformer.ts:85 | every output character is unreserved, `%` or an upper-case hex digit, so no `/` survives; the output is never shorter |
| UriComponent.DecodeEncode | utils/url-transformer.ts:85 | decoding the encoding gives back the input, for every string |
| UriComponent.EncodeInjective | utils/url-transformer.ts:85 | two different strings never encode to the same text |
| UriComponent.EncodeUnescaped | utils/url-transformer.ts:85 | a string of unreserved characters is left as it is |
| UriComponent.Utf8 | utils/url-transformer.ts:85 | a character is one to four bytes |
| UriComponent.DecodeEncodedChar | utils/url-transformer.ts:85 | the escapes of one character's UTF-8 bytes decode to that character and consume all of them |
| UriComponent.HexRoundTrip | utils/url-transformer.ts:85 | each hex digit reads back as its value |
| UrlTransformer.MatchOwnerRepo | utils/url-transformer.ts:54 | a match gives two non-empty slash-free segments that the path starts with |
| UrlTransformer.MatchOwnerRepoComplete | utils/url-transformer.ts:54 | `/owner/repo` followed by nothing or by `/...` matches those two segments: only the first two count |
| UrlTransformer.IsReserved | utils/url-transformer.ts:61 | reserved exactly when the owner spells one of the 24 reserved names in any letter case, with nothing around it |
| UrlTransformer.RepoInfoFromPathname | utils/url-transformer.ts:54-71 | a result has trimmed, slash-free owner and repo, and the repo has no `?` or `#` |
| UrlTransformer.ExtractRepoInfo | utils/url-transformer.ts:46-76 | a result has trimmed, slash-free owner and repo, and the repo has no `?` or `#` |
| UrlTransformer.ExtractFromPath | utils/url-transformer.ts:54-71 | on `/owner/repo...` the result is null exactly when the lower-cased untrimmed owner is reserved, and otherwise the trimmed owner and the repo cut at `?`/`#` and trimmed |
| UrlTransformer.ExtractNeedsTwoSegments | utils/url-transformer.ts:54-56 | a path the pattern does not match gives null |
| UrlTransformer.ReservedOwnerRejected | utils/url-transformer.ts:14-39 | an owner whose lower-case form is one of the 24 reserved names gives null, whatever follows |
| UrlTransformer.RepoMayBeEmpty | utils/url-transformer.ts:66-71 | `/owner/?query` gives the owner and an empty repo |
| UrlTransformer.GenerateZreadUrl | utils/url-transformer.ts:84-86 | the address starts with `https://zread.ai/` |
| UrlTransformer.ZreadUrlRoundTrip | utils/url-transformer.ts:84-86 | splitting the address after the origin at its one `/` and decoding both parts gives back owner and repo |
| UrlTransformer.StripTrailingSlashes | utils/url-transformer.ts:98 | removes exactly the run of trailing slashes |
| UrlTransformer.SplitCountsSegments | utils/url-transformer.ts:101 | the non-empty pieces of a split on `/` are as many as the segments |
| UrlTransformer.StripKeepsSegments | utils/url-transformer.ts:98 | removing trailing slashes keeps the segment count |
| UrlTransformer.IsRepositoryPage | utils/url-transformer.ts:93-103 | a repository page is exactly a path whose text before `?`/`#` has two non-empty segments, counted independently of the split |
| UrlTransformer.IsRepositoryPageIgnoresSuffixes | utils/url-transformer.ts:95-98 | a trailing slash, query or fragment does not change the answer |
| UrlTransformer.SegmentCountOfTwo | utils/url-transformer.ts:101-102 | `/a/b` with non-empty slash-free `a`, `b` has two segments |
| UrlTransformer.RepositoryPageOfTwo | utils/url-transformer.ts:93-103 | such a path is a repository page |
| UrlTransformer.PlainRepositoryPath | utils/url-transformer.ts:54-71 | for `/a/b` with unreserved `a`: a repository page, and the identifier is trimmed `a` and `b` |
| UrlTransformer.ReservedRepositoryPage | utils/url-transformer.ts:93-103 | the page test ignores reserved names: `/settings/x` is a repository page with no identifier |
| UrlTransformer.DoubledSlashRepositoryPage | utils/url-transformer.ts:54 | `//a//b` is a repository page with no identifier |
| UrlTransformer.DoubledSlashNoMatch | utils/url-transformer.ts:54 | a path starting with `//` never matches the owner/repo pattern |
| GithubDetector.FirstMatchIndex | utils/github-detector.ts:36-39 | the first selector in list order with a match, or the list length |
| GithubDetector.NavigationContainer | utils/github-detector.ts:24-42 | the primary match whenever there is one; null exactly when no selector matches |
| GithubDetector.FallbackOrder | utils/github-detector.ts:30-39 | without a primary match, the first matching fallback in list order wins |
| GithubDetector.FindNavigationContainer | utils/github-detector.ts:24-42 | the lookup loop returns the container the first-match rule names |
| GithubDetector.IsPageReady | utils/github-detector.ts:48-53 | ready exactly when the document is past loading and some selector matches |
| GithubDetector.IsRepoPage | utils/github-detector.ts:16-18 | the current pathname has exactly two non-empty segments before `?`/`#` |
| GithubDetector.DetectPage | utils/github-detector.ts:59-69 | `isRepoPage` is the two-segment test; `repoInfo` is null off repository pages and is `extractRepoInfo(pathname)` on them; `hasNavigation` is whether some selector matches |
| GithubDetector.NavigationWaiter.constructor | utils/github-detector.ts:80-86 | resolves at once with an existing container and starts nothing; otherwise starts an observer and a timer |
| GithubDetector.NavigationWaiter.OnMutation | utils/github-detector.ts:89-96 | once a container exists, disconnects, clears the timer and resolves with it, once |
| GithubDetector.NavigationWaiter.OnTimeout | utils/github-detector.ts:104-107 | disconnects and resolves with null, once; a cleared timer does nothing |
| ButtonInjector.StripMarkup | utils/button-injector.ts:16 | removes `<`, `>`, `'` and `"` and keeps the other characters |
| ButtonInjector.StripMarkupChar | utils/button-injector.ts:16 | one character is dropped exactly when it is `<`, `>`, `'` or `"`, and kept otherwise |
| ButtonInjector.StripMarkupAppend | utils/button-injector.ts:16 | stripping a concatenation strips each part and keeps their order, so every other character survives in order |
| ButtonInjector.SanitizeInput | utils/button-injector.ts:14-19 | no markup character, at most 100 characters, no leading whitespace |
| ButtonInjector.SanitizeClean | utils/button-injector.ts:14-19 | input without markup, surrounding whitespace or excess length is returned unchanged |
| ButtonInjector.SanitizeIdempotentWhenShort | utils/button-injector.ts:14-19 | when the stripped and trimmed text fits in 100 characters, a second pass changes nothing |
| ButtonInjector.SanitizeNotIdempotent | utils/button-injector.ts:15-18 | for 99 letters, a space and a letter, the cut at 100 exposes the space and a second pass changes the result |
| ButtonInjector.ButtonHref | utils/button-injector.ts:37-38 | the link is a Zread address that decodes back to exactly the sanitized owner and repo |
| ButtonInjector.CountControls | utils/button-injector.ts:25-27 | counts the controls among the anchor's children; zero exactly when there is none |
| ButtonInjector.ButtonExists | utils/button-injector.ts:25-27 | true exactly when some anchor child is a control or a control sits elsewhere |
| ButtonInjector.HostNodes | utils/button-injector.ts:121-123 | the host's own nodes, as many as the nodes that are not controls |
| ButtonInjector.Inject | utils/button-injector.ts:87-114 | succeeds exactly when no control exists and an anchor is found; on failure nothing changes; on success the control is child 0, the old children follow in order, and there is one control |
| ButtonInjector.RemoveFirstControl | utils/button-injector.ts:121-123 | one node fewer, and it is a control: the host's nodes stay, in order |
| ButtonInjector.Remove | utils/button-injector.ts:120-126 | no-op without a control; otherwise exactly one control fewer, the host's nodes under the anchor kept in order, and the other part of the document unchanged |
| ButtonInjector.InjectTwice | utils/button-injector.ts:90-93 | a second injection fails and changes nothing |
| ButtonInjector.InjectThenRemove | utils/button-injector.ts:120-126 | after inject then remove no control exists |
| ButtonInjector.AtMostOneControl | utils/button-injector.ts:90-93 | inject and remove both keep "at most one control" |
| ButtonInjector.Document.constructor | utils/button-injector.ts:25-27 | the document as given |
| ButtonInjector.Document.ZreadButtonExists | utils/button-injector.ts:25-27 | true exactly when some control is in the document |
| ButtonInjector.Document.InjectZreadButton | utils/button-injector.ts:87-114 | the new document and result are those of `Inject` |
| ButtonInjector.Document.RemoveZreadButton | utils/button-injector.ts:120-126 | the new document is that of `Remove` |
| NavigationHandler.ClearTimeout | utils/navigation-handler.ts:95-97 | removes exactly the timers with that handle: every other timer stays |
| NavigationHandler.ClearPending | utils/navigation-handler.ts:95-97 | in a valid state, clearing `debounceTimer` leaves no timer pending |
| NavigationHandler.Init | utils/navigation-handler.ts:14-17 | the state at module load carries the page's href and is idle: not processing, no call running, no timer pending, `debounceTimer` null, no observer |
| NavigationHandler.CheckUrlChange | utils/navigation-handler.ts:88-112 | records the href and calls nothing; on a change, the newest timer has a fresh handle, the href and the callback, and `debounceTimer` names it; validity is kept |
| NavigationHandler.SetupNavigationObserver | utils/navigation-handler.ts:76-124 | a new observer with the callback, and nothing else changes |
| NavigationHandler.OnMutation | utils/navigation-handler.ts:86-113 | inert without an observer; never calls; on a change schedules the observer's callback with the href; validity is kept |
| NavigationHandler.SetupUrlChangeDetection | utils/navigation-handler.ts:26-61 | takes the href, adds an interval for the callback, keeps the others and the timers |
| NavigationHandler.OnPollTick | utils/navigation-handler.ts:32-58 | inert for a stopped interval; never calls; on a change schedules the interval's callback |
| NavigationHandler.StopUrlChangeDetection | utils/navigation-handler.ts:63-68 | the interval is gone, `debounceTimer` is kept, and in a valid state no timer is pending |
| NavigationHandler.OnTimerFire | utils/navigation-handler.ts:99-111 | the oldest timer goes; it calls its callback with its href only when idle, and the flag is then set |
| NavigationHandler.OnCallbackSettled | utils/navigation-handler.ts:104-109 | the call leaves the running set and `isProcessing` is cleared; every other part of the state is unchanged |
| NavigationHandler.CleanupObservers | utils/navigation-handler.ts:129-143 | no observer, no `debounceTimer`, not processing, and in a valid state no timer pending |
| NavigationHandler.StepValid | utils/navigation-handler.ts:92-99 | every event keeps at most one pending timer, the one `debounceTimer` names, with a handle below the next free one |
| NavigationHandler.RunValid | utils/navigation-handler.ts:92-99 | so does every run of events |
| NavigationHandler.MutationSameUrl | utils/navigation-handler.ts:88-90 | a mutation with an unchanged href changes nothing |
| NavigationHandler.MutationNewUrl | utils/navigation-handler.ts:90-99 | a changed href is recorded, the old timer is cancelled, and exactly one timer is pending with that href and the observer's callback |
| NavigationHandler.BurstLeavesOneTimer | utils/navigation-handler.ts:86-112 | after a burst of mutations starting with a change, one timer is pending with the last href, and nothing was called |
| NavigationHandler.BurstAfterChange | utils/navigation-handler.ts:86-112 | further mutations keep one timer pending, carrying the latest href |
| NavigationHandler.MutationKeepsDebouncing | utils/navigation-handler.ts:88-99 | while one timer is pending, a further mutation keeps exactly one pending, for the latest href and the same callback, and calls nothing |
| NavigationHandler.BurstThenFire | utils/navigation-handler.ts:94-111 | a burst and then the timer make exactly one call, with the last href |
| NavigationHandler.FireWhileProcessing | utils/navigation-handler.ts:100 | a timer firing during a call calls nothing; the notice is dropped |
| NavigationHandler.FireWhileIdle | utils/navigation-handler.ts:100-103 | a timer firing when idle sets `isProcessing` and calls the callback once with the href it captured |
| NavigationHandler.SettledClearsFlag | utils/navigation-handler.ts:104-109 | after the call resolves or throws, `isProcessing` is false |
| NavigationHandler.StepSingleFlight | utils/navigation-handler.ts:100-108 | every event except cleanup keeps "at most one call outstanding, and `isProcessing` says whether one is" |
| NavigationHandler.RunSingleFlight | utils/navigation-handler.ts:100-108 | so does every run without a cleanup |
| NavigationHandler.CleanupAllowsOverlap | utils/navigation-handler.ts:140 | cleanup during a call lets a later timer start a second, overlapping call |
| NavigationHandler.CleanupResets | utils/navigation-handler.ts:129-143 | after cleanup there is no observer, no timer and no in-flight flag; a second cleanup changes nothing |
| NavigationHandler.NothingAfterCleanup | utils/navigation-handler.ts:129-143 | after cleanup, mutations and a timer firing call nothing |
| NavigationHandler.QuietWithoutObserver | utils/navigation-handler.ts:86 | with no observer connected, mutations change nothing |
| NavigationHandler.SetupKeepsState | utils/navigation-handler.ts:76-124 | a new observer replaces the old one and leaves the URL, the pending timer and `isProcessing` as they were |
| NavigationHandler.LatestObserverWins | utils/navigation-handler.ts:80-83 | after two setups, a change schedules the second callback |
| NavigationHandler.StaleTimerCallsOldCallback | utils/navigation-handler.ts:80-83 | a timer scheduled before a new setup still calls the old callback |
| NavigationRuntime.NavigationMonitor.constructor | utils/navigation-handler.ts:14-17 | the state at module load |
| NavigationRuntime.NavigationMonitor.SetTimeout | utils/navigation-handler.ts:99 | schedules one timer with a fresh handle and changes nothing else |
| NavigationRuntime.NavigationMonitor.CheckUrlChange | utils/navigation-handler.ts:88-112 | the state after the URL comparison of the observer and the poller |
| NavigationRuntime.NavigationMonitor.SetupNavigationObserver | utils/navigation-handler.ts:76-124 | the state after `setupNavigationObserver` |
| NavigationRuntime.NavigationMonitor.OnMutation | utils/navigation-handler.ts:86-113 | the state after a mutation |
| NavigationRuntime.NavigationMonitor.SetupUrlChangeDetection | utils/navigation-handler.ts:26-61 | the state after `setupUrlChangeDetection` |
| NavigationRuntime.NavigationMonitor.OnPollTick | utils/navigation-handler.ts:32-58 | the state after an interval tick |
| NavigationRuntime.NavigationMonitor.StopUrlChangeDetection | utils/navigation-handler.ts:63-68 | the state after the returned cleanup function |
| NavigationRuntime.NavigationMonitor.OnTimerFire | utils/navigation-handler.ts:99-111 | the state after the timer closure starts |
| NavigationRuntime.NavigationMonitor.OnCallbackSettled | utils/navigation-handler.ts:104-109 | the state after the call settles |
| NavigationRuntime.NavigationMonitor.CleanupObservers | utils/navigation-handler.ts:129-143 | the state after `cleanupObservers` |
| NavigationRuntime.NavigationMonitor.IsProcessingNavigation | utils/navigation-handler.ts:149-151 | returns `isProcessing` |
| Content.Attempt | entrypoints/content.ts:47-77 | keeps the document well formed; injection never fails once a container was found |
| Content.Resolve | entrypoints/content.ts:49-77 | stops as not a repository page exactly when the detection says so or found no identifier; injection can fail only when a container was reported but is absent |
| Content.AttemptSkips | entrypoints/content.ts:47-52 | the attempt stops at once exactly when the page is not a repository page or has no identifier, changing nothing and scheduling no retry |
| Content.AttemptFails | entrypoints/content.ts:55-61 | the only failure is no container at detection and a wait that timed out |
| Content.AttemptTimesOut | entrypoints/content.ts:55-61 | a timed-out wait fails the attempt even if the document has a container by then |
| Content.AttemptFindsControl | entrypoints/content.ts:64-67 | on a repository page with an identifier, an existing control (seen at detection, or after a wait that found a container) ends the attempt as already present, unchanged; already present always means a control exists, and no retry follows |
| Content.AttemptInjects | entrypoints/content.ts:70-77 | success leaves one control, first under the anchor, linking to the page's repository |
| Content.AttemptKeepsOneControl | entrypoints/content.ts:45-77 | an attempt keeps "at most one control" |
| Content.NavigationReplacesControl | entrypoints/content.ts:94-102 | on a repository page with a container, remove-then-inject replaces the control with one for the new repository |
| Content.AttemptInjectsWhenPossible | entrypoints/content.ts:49-77 | on a repository page with an identifier, a container and no control, the attempt injects |
| Content.RetryDelay | entrypoints/content.ts:81-82 | a delay exactly while fewer than three retries were made, taken from `[100, 500, 1000]` |
| Content.ScheduledRetry | entrypoints/content.ts:78-88 | at most one retry, exactly after a failure with fewer than three retries, with the count one higher |
| Content.ChainBounded | entrypoints/content.ts:81-87 | a chain schedules at most `3 - retryCount` retries, using the delays in order |
| Content.AtMostFourAttempts | entrypoints/content.ts:42-43 | a chain makes at most four attempts, with delays a prefix of `[100, 500, 1000]` |
| Content.ChainAllFailing | entrypoints/content.ts:81-87 | when every attempt fails, all three delays are used, in order |
| Content.DedicatedStep | entrypoints/content.ts:29-30 | every event keeps the monitor knowing only `handleNavigation`, while only it is registered |
| Content.DedicatedFireCallsHandler | entrypoints/content.ts:94-102 | in such a monitor, a timer that starts a call calls `handleNavigation` with its captured href |
| Content.ContentScript.constructor | entrypoints/content.ts:23 | the script with nothing scheduled, over a monitor that knows only `handleNavigation` |
| Content.ContentScript.InjectButtonIfNeeded | entrypoints/content.ts:41-89 | the outcome and document are those of `Attempt`, and the retry queue gains what `ScheduledRetry` says |
| Content.ContentScript.ResolveOnRepository | entrypoints/content.ts:55-77 | on a detected repository page, the wait, the presence check and the injection give the outcome and document of `Resolve` |
| Content.ContentScript.HandleNavigation | entrypoints/content.ts:94-102 | removes the control, then attempts from retry count 0 |
| Content.ContentScript.Start | entrypoints/content.ts:23-30 | attempts the injection first, then connects the navigation observer |
| Content.ContentScript.RunRetry | entrypoints/content.ts:86 | runs one scheduled retry with its count and leaves the navigation monitor untouched |
| Content.ContentScript.OnNavigationTimer | utils/navigation-handler.ts:99-111 | a debounce timer that starts a call logs a call of `handleNavigation` with its href, runs remove-then-inject and clears `isProcessing`; otherwise nothing but the timer changes |

## Left out

- Logging (utils/logger.ts) is a no-op in the model.
- ButtonInjector.Document.HostUpdate: stands for GitHub's own re-rendering of the page while the script waits. It models no function of the extension.
- The extension manifest (wxt.config.ts) and the test set-up are not part of this model.
- The link's element construction in `createButtonElement` (classes, icon, `chrome.runtime.getURL`) is left out; only the href is modelled.
- The WHATWG URL parser that reads the pathname of an `http...` input is the parameter `parsePathname`. `None` stands for a parser exception.
- CSS selector matching is the `Dom` oracle. MutationObserver delivery, timers, intervals and promise settlement are explicit events. The 500, 1000 and 5000 ms delays are data, not clock arithmetic.
- The `beforeunload` listener in `main` is browser wiring, not modelled.
- Strings are sequences of Unicode scalar values. `slice(0, 100)` counts UTF-16 code units in ECMAScript. The model counts characters, which differs only for characters outside the Basic Multilingual Plane.
- `encodeURIComponent` throws URIError on a lone surrogate. Scalar values never contain one, so that path is not modelled.
- JsString.ToLower: maps only what the reserved-name check can observe. These are ASCII letters and U+212A KELVIN SIGN. Other characters are left as they are, because their lower-case forms never produce one of the 24 ASCII names.
- ButtonInjector.Remove: with controls both under the anchor and elsewhere, removes one under the anchor. The document's order between them is not modelled.
- ButtonInjector.Document.InjectZreadButton: the `catch` path for an exception thrown by foreign DOM code is not modelled.
- Content.Attempt: summarises `waitForNavigation` by its result (a container or null) and the document when it settles. Changes to the document between the wait's resolution and the attempt's next step are not modelled.
- Content.ContentScript.OnNavigationTimer: runs the navigation callback to the end of its first attempt without other events in between. Interleavings during the awaited wait are covered by the event model of `NavigationHandler` instead.
- `callback(newUrl)` may be any function. Only the content script's `handleNavigation` is modelled as a body. Other callbacks are identities in the monitor's log.
