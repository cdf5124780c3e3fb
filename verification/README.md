# obsidian-web security and form logic, in Dafny

This project models the decision logic of the Obsidian Digital web site's
client-side security layer, form handling and service worker:

- the sliding-window `RateLimiter` of js/security.js;
- the `SuspiciousActivityDetector` event handlers with `flagAsBot` and `isBot`;
- the `SecurityManager` rapid-click monitor and its document-level submit guard;
- `validateField`, `handleFormSubmit`, the contact-form check and its honeypot field from js/main.js;
- `addSecurityHeaders`, the activate-time cache eviction and the fetch routing of sw.js.

Every handler becomes a pure function over immutable state. The clock, the
client id, DOM events, cache lookups and network results are parameters.

Modules, one per file:

| file | module | models |
|---|---|---|
| wrappers.dfy | `Wrappers` | `Option` |
| js_text.dfy | `JsText` | the JavaScript white-space class, `trim`, `indexOf`, `startsWith`, ASCII lower-casing of header names |
| rate_limiter.dfy | `RateLimiter` | `isAllowed`, `reset`, the default limits |
| activity_detector.dfy | `ActivityDetector` | detector state, the mousemove/keydown/focusout/honeypot handlers, `flagAsBot`, `isBot` |
| security_manager.dfy | `SecurityManager` | the click monitor and the submit guard |
| form_validation.dfy | `FormValidation` | the email and telephone patterns, `validateField`, `handleFormSubmit`, the contact check, the honeypot field |
| service_worker.dfy | `ServiceWorker` | the header merge, cache eviction, the origin filter, fetch routing |
| submit_dispatch.dfy | `SubmitDispatch` | one `submit` event run through every listener in DOM order, and sessions of such events |

Two consequences of the detector's code are worth stating:

- **`isHuman` is not a ratchet.** A trusted key press (js/security.js:183) or any mouse movement once more than ten have been counted (js/security.js:172-175) sets `isHuman` back to `true` after a flag. `ActivityDetector.TrustedKeyClearsVerdict` proves this.
- **One flag is enough.** `flagAsBot` sets `isHuman` to false as well as counting the flag, so one call already makes `isBot()` true (`ActivityDetector.OneFlagIsEnough`).

Composing the listeners shows one more consequence of the code:

- **A valid submission uses up to two slots.** `handleFormSubmit` and the document-level guard both call `isAllowed('form_submission')`, and the guard records a second timestamp whenever it admits. From an unused key, only three valid submissions a minute are sent (`SubmitDispatch.ThreeSendsPerMinute`). When only one slot is left, the submission is sent and the guard, refused, shows the rate-limit warning (`SubmitDispatch.LastSlotSendsAndWarns`).
- **A bot verdict does not stop the send.** The send in `handleFormSubmit` happens before the bot check in the guard (`SubmitDispatch.BotVerdictDoesNotStopSend`).
- **A form without a submit control loses its slot.** `submitForm` reads the text of the form's first `button[type="submit"]` or `input[type="submit"]` without checking that there is one (js/main.js:162-164). Without one it throws a TypeError and nothing is sent, but `handleFormSubmit` has already taken the slot. The outcome is then `SendThrew`. The exception ends only that listener, so the guard and the honeypot check still run.

## Model

| member | source | states |
|---|---|---|
| RateLimiter.IsAllowed | js/security.js:116-141 | An action without a policy is allowed and the log is unchanged. Otherwise the check is refused exactly when the live timestamps reach `max`, and a refusal records nothing. An admission stores the live timestamps followed by `now`, so the stored log never exceeds `max`. |
| RateLimiter.Recent | js/security.js:128 | The filter keeps exactly the timestamps less than `window` old and never lengthens the log. |
| RateLimiter.RecentKeepsLiveCounts | js/security.js:128 | As multisets, the filtered log is the live part of the original: every live occurrence is kept and every expired one is dropped. |
| RateLimiter.RecentAppend | js/security.js:128 | The filter distributes over concatenation, so it keeps insertion order. |
| RateLimiter.RecentKeepsLive | js/security.js:128 | A log whose timestamps are all live passes the filter whole. |
| RateLimiter.RecentIsChronological | js/security.js:128 | Filtering a chronological log leaves it chronological. |
| RateLimiter.StaysChronological | js/security.js:128-138 | With a clock that does not run backwards, the stored log stays in chronological order. |
| RateLimiter.OnlyKeyChanges | js/security.js:121-138 | A check writes only the key `${clientId}_${action}`. Every other key keeps its presence and its log. |
| RateLimiter.Key | js/security.js:121 | The storage key is the client id, then "_", then the action; `reset` (js/security.js:154) builds the same key. `KeyDeterminesAction`, `KeyDeterminesClient` and `KeysOfDifferentClientsCanCollide` state what the key does and does not separate. |
| RateLimiter.KeyDeterminesAction | js/security.js:121 | For one client, different actions give different keys. |
| RateLimiter.KeyDeterminesClient | js/security.js:121 | For one action, different clients give different keys. |
| RateLimiter.KeysOfDifferentClientsCanCollide | js/security.js:121 | The key is a plain concatenation, so client "client_1_form" with action "submission" shares a key with client "client_1" and "form_submission". |
| RateLimiter.ActionsAreIndependent | js/security.js:121-138 | Checking one action never changes the client's log for another action. |
| RateLimiter.ClientsAreIndependent | js/security.js:121-138 | Checking for one client never changes another client's log for the same action. |
| RateLimiter.BoundedIsPreserved | js/security.js:128-138 | If every stored log of the client is within its action's `max`, it still is after any check. |
| RateLimiter.Reset | js/security.js:152-156 | `reset(action)` removes the key and leaves every other key as it was. |
| RateLimiter.AllowedAfterReset | js/security.js:152-156 | After a reset, the next check is admitted unless the policy's `max` is zero. |
| RateLimiter.ReopensWhenOldestExpires | js/security.js:128-131 | For a bounded log, once the oldest stored timestamp has left the window, the next check is admitted. |
| RateLimiter.CheckWithAllLive | js/security.js:128-138 | When every stored timestamp is live, the check is admitted exactly when fewer than `max` are stored. It then appends `now`. |
| RateLimiter.RunWithinWindow | js/security.js:128-138 | For consecutive checks inside one window, the i-th is admitted exactly when the stored count plus i is below `max`. |
| RateLimiter.RunWithinWindowLog | js/security.js:128-138 | Consecutive checks inside one window store the first `max` times and record none of the later ones. |
| RateLimiter.FreshWindow | js/security.js:128-138 | From an unused key, `max` checks inside a window shorter than `window` are admitted and every later one is refused. |
| RateLimiter.FormSubmissionQuota | js/security.js:109-113 | Under the default limits, six form-submission checks within a minute give five admissions and then a refusal. |
| RateLimiter.UnlimitedActionRun | js/security.js:117-118 | An action without a policy is admitted every time and never recorded. |
| ActivityDetector.FlagAsBot | js/security.js:235-239 | `flagAsBot` adds exactly one flag, sets `isHuman` to false, keeps the mouse count, and leaves the session classified as a bot. |
| ActivityDetector.Step | js/security.js:168-231 | Each event adds one flag exactly when it is suspicious: an untrusted key press, a field of more than 5 characters left within 100 ms of focus, or a filled honeypot. `isHuman` becomes false on a flag, true on a trusted key press or a mouse movement past the tenth, and otherwise stays. |
| ActivityDetector.IsBot | js/security.js:241-243 | The session is a bot when it has more than two flags or `isHuman` is explicitly false; an unknown `isHuman` does not count against it. |
| ActivityDetector.RunCountsSignals | js/security.js:235-237 | After any events, the flag count is the starting count plus one per suspicious event. Flags are never withdrawn. |
| ActivityDetector.ThreeFlagsArePermanent | js/security.js:241-243 | With more than two flags the session is a bot whatever follows. |
| ActivityDetector.OneFlagIsEnough | js/security.js:235-243 | A single suspicious event already makes `isBot()` true. |
| ActivityDetector.TrustedKeyClearsVerdict | js/security.js:179-185 | With fewer than two earlier flags, a flag followed by a trusted key press leaves `isBot()` false. |
| ActivityDetector.MouseMovesMarkHuman | js/security.js:170-176 | Mouse movements never flag, and from the eleventh on they set `isHuman` to true. |
| ActivityDetector.FastFillFlags | js/security.js:194-203 | Leaving a field flags exactly when under 100 ms have passed since focus and the value is longer than 5 characters. |
| SecurityManager.OnClick | js/security.js:43-54 | A click under 100 ms after the previous one extends the streak, and flags once the streak exceeds 10. Any other click restarts the count at 0 and never flags. The click time is always recorded. |
| SecurityManager.RapidBurst | js/security.js:43-54 | A burst of rapid clicks lengthens the streak by its size. It adds one flag for every click that finds the streak already at 10 or more. |
| SecurityManager.EleventhRapidClickFlags | js/security.js:45-49 | From a restarted count, ten rapid clicks leave the detector untouched and the eleventh flags. |
| SecurityManager.NoFlagKeepsDetector | js/security.js:43-54 | Clicks that add no flag leave the detector exactly as it was. |
| SecurityManager.ClicksNeverUnflag | js/security.js:43-54 | Clicks never reduce the flag count. |
| SecurityManager.SubmitGuard | js/security.js:16-31 | The guard always consults the limiter, whatever the detector says. The verdict is RateLimited exactly when the limiter refuses, and BotBlocked exactly when it admits and the session is a bot. |
| SecurityManager.BlockedBotUsesSlot | js/security.js:19-29 | A submission the bot check blocks has still stored its timestamp. |
| SecurityManager.RateLimitComesFirst | js/security.js:19-23 | Once the limit is reached, the verdict is RateLimited whatever the detector state, and the log is unchanged. |
| JsText.Trim | js/main.js:55 | `trim` returns a slice of the value with only white space cut from both ends. The result neither starts nor ends with white space, and it is empty exactly when the value is all white space. |
| JsText.TrimIsUnique | js/main.js:55 | White space, then a core that neither starts nor ends with white space, then white space, trims to exactly that core. |
| FormValidation.TrimIgnoresPadding | js/main.js:55 | Surrounding a value with white space, of any amount on either side, changes neither its trimmed value nor whether it is all white space. |
| FormValidation.IsEmail | js/main.js:65-66 | The email test as `validateField` applies it: no white space, exactly one "@" with something before it, and a "." after the "@" that is neither the first nor the last character of the domain. `EmailCheckMatchesPattern` proves it agrees with the pattern. |
| FormValidation.EmailCheckMatchesPattern | js/main.js:65-66 | A value matches `^[^\s@]+@[^\s@]+\.[^\s@]+$` exactly when it has no white space, exactly one "@" with something before it, and a "." after the "@" that is neither the first nor the last character of the domain. |
| FormValidation.EmailCheckIsSound | js/main.js:65-66 | The direct check implies the pattern. |
| FormValidation.EmailCheckIsComplete | js/main.js:65-66 | The pattern implies the direct check. |
| FormValidation.IsPhone | js/main.js:73-74 | The telephone test as `validateField` applies it: drop one leading "+", then at least 8 characters remain and each is a digit, white space, "-", "(" or ")". `PhoneCheckMatchesPattern` proves it agrees with the pattern. |
| FormValidation.PhoneCheckMatchesPattern | js/main.js:73-74 | A value matches `^[\+]?[0-9\s\-\(\)]{8,}$` exactly when, after at most one leading "+", at least 8 characters remain and each is a digit, white space, "-", "(" or ")". |
| FormValidation.ValidateField | js/main.js:53-95 | An email field is valid exactly when its trimmed value matches the email pattern, and a tel field when it matches the phone pattern. Any other field is valid exactly when it is not required or its value is not all white space. |
| FormValidation.BlankEmailOrPhoneIsInvalid | js/main.js:63-78 | A blank email or tel value is invalid whether or not the field is required. |
| FormValidation.OptionalPlainFieldIsValid | js/main.js:80-84 | A field of another type without `required` is always valid. |
| FormValidation.SurroundingSpaceIgnored | js/main.js:55 | Padding a field's value with any white space before it and any after it never changes its verdict. |
| FormValidation.RequiredFields | js/main.js:138 | The checked controls are exactly the required input, textarea and select elements of the form. |
| FormValidation.Errors | js/main.js:141-145 | Every required field is validated, with no short-circuit: the i-th error flag is set exactly when the i-th required field is invalid. |
| FormValidation.ErrorsFindInvalid | js/main.js:139-147 | Some error is shown exactly when some required field is invalid. |
| FormValidation.HandleFormSubmit | js/main.js:133-160 | The submission stops as invalid exactly when some required field is invalid, and then no slot is consumed. Otherwise it is refused exactly when the security layer is loaded and the limiter refuses. A submission that reaches `submitForm` consumes the slot only when the limiter was consulted, and it is sent exactly when the form has a submit control. |
| FormValidation.SubmitForm | js/main.js:162-164 | `submitForm` sends exactly when the form has a submit control; otherwise reading the missing button's text throws. |
| FormValidation.SubmitShowsEveryError | js/main.js:137-146 | Every required control, in document order, is validated and shows its error exactly when it is invalid; an invalid one does not stop the later ones from being checked. |
| FormValidation.OptionalFieldsIgnoredOnSubmit | js/main.js:138-145 | A control that is not checked on submit plays no part in the submission, wherever it stands in the form. |
| FormValidation.ValueOf | js/main.js:283-285 | The value read is that of the first control with the name, and none is read when no control has it. |
| FormValidation.ContactReady | js/main.js:283-290 | The contact data is handed on exactly when a control named name, one named email and one named message exist and the first of each has a non-empty value; nothing is trimmed. |
| FormValidation.ValueOfAppend | js/main.js:283-285 | Looking a name up in two runs of controls gives the first run's control when it has one, and otherwise the second run's. |
| FormValidation.ContactReadyIgnoresLaterControls | js/main.js:283-290 | Once a control of each of the three names exists, controls added after them do not change the contact check's verdict. |
| FormValidation.BlankNamePassesContactCheck | js/main.js:283-290 | The contact values are not trimmed, so a name made of a single space passes the contact check. |
| FormValidation.HoneypotValue | js/security.js:226-227 | The honeypot check finds a value exactly when the form has a `website_url` input, and the value it finds is that of the first such input. |
| FormValidation.HoneypotIsFirstByName | js/security.js:226 | When every control named `website_url` is an input, the honeypot check reads what a lookup by that name reads. |
| FormValidation.HoneypotSkipsOtherTags | js/security.js:226 | A `website_url` control that is not an input is not read by the honeypot check. |
| FormValidation.WithHoneypot | js/main.js:270-277 | The contact form gets a honeypot only when it has none. An added honeypot is empty and is the one the check reads. |
| FormValidation.AddingHoneypotIsIdempotent | js/main.js:270-277 | Adding the honeypot twice is the same as adding it once. |
| ServiceWorker.SetAll | sw.js:117-122 | Setting a list of headers adds or replaces exactly the written names and keeps every other header. |
| ServiceWorker.LastWriteWins | sw.js:120-122 | A name's value is the one from the last write to that name. |
| ServiceWorker.SetAllForgetsOverwritten | sw.js:120-122 | Maps that agree outside the written names end up equal after the same writes. |
| ServiceWorker.SetAllIsIdempotent | sw.js:120-122 | Writing the same headers twice gives the map that writing them once gives. |
| ServiceWorker.SecurityHeadersAreDistinct | sw.js:7-16 | The eight security header names are pairwise distinct once lower-cased, so each one is written last by its own entry. |
| ServiceWorker.SecuredBySetAll | sw.js:117-122 | After the merge, each of the eight names maps to its fixed value, overriding any earlier value. |
| ServiceWorker.AddSecurityHeaders | sw.js:116-130 | The new response copies the body, status and status text, has type "default", and carries all eight security headers. Every other header keeps its value and no other name is added. |
| ServiceWorker.AddSecurityHeadersIsIdempotent | sw.js:116-130 | Applying `addSecurityHeaders` twice gives the response that applying it once gives. |
| ServiceWorker.StaleCaches | sw.js:50-58 | Activation deletes exactly the caches whose name differs from `CACHE_NAME`. |
| ServiceWorker.ActivationKeepsOnlyCurrent | sw.js:47-64 | After activation at most `CACHE_NAME` is left, it is left exactly when it was present, and a second activation deletes nothing. |
| ServiceWorker.StartsWithOrigin | sw.js:69 | The filter as written: the request URL's text starts with the origin's text, whatever follows it. |
| ServiceWorker.SameOriginPassesWrittenFilter | sw.js:69-71 | Every URL of the worker's own origin passes the origin filter as written. |
| ServiceWorker.WrittenFilterAdmitsOtherOrigin | sw.js:69 | The written filter also passes https://bank.com.evil/ for the origin https://bank.com. |
| ServiceWorker.Intercepted | sw.js:69 | The filter as intended: the request URL's text starts with the origin followed by the "/" that begins the path. `InterceptedIffSameOrigin` proves that it accepts exactly the worker's own origin. |
| ServiceWorker.InterceptedIffSameOrigin | sw.js:68-71 | The corrected filter, the origin followed by "/", accepts a well-formed URL exactly when it has the worker's scheme and host. |
| ServiceWorker.Cacheable | sw.js:85 | A response is stored and secured only when its status is 200 and its type is "basic"; anything else goes back untouched. |
| ServiceWorker.Route | sw.js:73-112 | The `respondWith` chain never passes a request through. A GET request whose URL the caches hold is answered with `addSecurityHeaders` of the cached response, without the network, and nothing is stored. Any other request uses the network. A status-200 basic response is answered with `addSecurityHeaders` of it, and stored exactly when the request is a GET. Any other response goes back as it is. A network failure gives the offline page to documents and rethrows otherwise. |
| ServiceWorker.Answer | sw.js:116-130 | A reply answered through `addSecurityHeaders` gives the page a copy of the response with the same status, status text and body, type "default" and the security headers in place; any other answer is given as it is. |
| ServiceWorker.HandleFetch | sw.js:67-113 | The handler as written: a request passes through exactly when its URL text does not start with the origin text, and every other request goes through the routing. |
| ServiceWorker.HandleSameOriginFetch | sw.js:67-71 | The handler with the corrected filter: a request passes through exactly when its URL does not start with the origin followed by "/", and every other request goes through the same routing. |
| ServiceWorker.InterceptedPassesWrittenFilter | sw.js:69 | Every URL the corrected filter accepts also passes the written one. |
| ServiceWorker.SameOriginHandlerIntercepts | sw.js:68-71 | The corrected handler intercepts a well-formed request exactly when it has the worker's scheme and host. |
| ServiceWorker.HandlersDifferOnlyOnLookalikes | sw.js:67-71 | The written and the corrected handler give different outcomes exactly for URLs that start with the origin text but not with the origin followed by "/". |
| ServiceWorker.HandlersAgreeOnSameOrigin | sw.js:67-71 | On well-formed requests of the worker's own origin the two handlers give the same outcome. |
| ServiceWorker.WrittenHandlerInterceptsOtherOrigin | sw.js:69-82 | For the origin https://bank.com, the written handler intercepts a request for https://bank.com.evil/x.png and fetches it itself, while the corrected handler passes it through. |
| ServiceWorker.CacheHitIsSecured | sw.js:74-79 | On a GET cache hit the page receives exactly `addSecurityHeaders` of the cached response. |
| ServiceWorker.NetworkResponseIsSecured | sw.js:82-99 | On a miss, the page receives exactly `addSecurityHeaders` of a status-200 basic network response, whatever the request method. |
| ServiceWorker.CacheHitSkipsNetwork | sw.js:74-79 | A GET cache hit is answered the same whatever the network or the offline page would give, and the network is not used. |
| ServiceWorker.OtherMethodsBypassCache | sw.js:74-96 | For a request that is not a GET, what the caches hold makes no difference, the network is always used and nothing is stored. |
| ServiceWorker.UncacheableIsUntouched | sw.js:85-87 | A response that is not cacheable is answered unmodified and is not stored. |
| ServiceWorker.CachedReplayMatches | sw.js:74-99 | Once a cacheable network response (status 200, type "basic") to a GET request is stored, the next request for it gets the same answer from the cache, without the network. |
| ServiceWorker.OfflineFallback | sw.js:101-110 | On a network failure a document request gets the cached offline page as it is, and any other request rethrows. |
| SubmitDispatch.Submit | js/main.js:133-160 | One submit event through the form listener, the contact listener, the guard and the honeypot check. The contact decision depends only on the three values. Without security.js nothing is counted or flagged. With it, a valid form is checked against the limit twice and reaches `submitForm` when the first check admits. An invalid form is checked once, by the guard, and not sent. Only the honeypot check changes the detector. |
| SubmitDispatch.ValidSubmitChecksTwice | js/main.js:152-156 | A valid submission leaves the log that two consecutive checks at the same time leave, and it reaches `submitForm` exactly when the first of them admits. |
| SubmitDispatch.BotVerdictDoesNotStopSend | js/security.js:25-29 | The detector state changes neither what is sent nor what is counted. |
| SubmitDispatch.ContactCheckIgnoresGuards | js/main.js:280-298 | The contact listener hands its data on regardless of the limiter and detector state. |
| SubmitDispatch.FilledHoneypotFlagsLater | js/security.js:225-231 | A filled honeypot adds exactly one flag, but the guard of the same submission still reads the earlier detector. |
| SubmitDispatch.SessionLogFollowsChecks | js/main.js:152-156 | A session of valid submissions leaves the log of two checks per submission. |
| SubmitDispatch.SessionFollowsChecks | js/main.js:152-156 | In such a session, the i-th submission reaches `submitForm` exactly when the first check of its pair admits. |
| SubmitDispatch.DoubleChecksLogIsDoubledRun | js/main.js:152-156 | The paired checks leave the log of the limiter run over every time taken twice. |
| SubmitDispatch.DoubleChecksIsDoubledRun | js/main.js:152-156 | The i-th pair's first check is check 2·i of that doubled run. |
| SubmitDispatch.SendsPerWindow | js/main.js:152-156 | From an unused key, within one window, the i-th valid submission reaches `submitForm` exactly when 2·i is below the form-submission `max`: the limit is halved. |
| SubmitDispatch.ThreeSendsPerMinute | js/security.js:110 | With the default five per minute, four valid submissions within a minute reach `submitForm` three times and are then refused. |
| SubmitDispatch.LastSlotSendsAndWarns | js/security.js:19-21 | With one slot left and every logged time still live, a valid submission takes the slot and reaches `submitForm`, and the guard is refused and warns. |
| SubmitDispatch.InvalidSubmitUsesOneSlot | js/security.js:19 | An invalid submission is not sent, yet the guard records its timestamp. |

## Findings

| source | as written | input that shows it | evidently intended | confidence | as-written member | corrected member |
|---|---|---|---|---|---|---|
| sw.js:69 | `event.request.url.startsWith(self.location.origin)` is a plain text prefix test | worker origin https://bank.com, request https://bank.com.evil/x.png: the prefix matches, so the worker intercepts a request to another host and fetches it itself. It answers from the cache only if an entry for that URL already exists. A browser never lets it store the response: a cross-origin response has type "cors" or "opaque", never "basic". | intercept exactly the requests of the worker's own origin | high, not executed | ServiceWorker.WrittenHandlerInterceptsOtherOrigin | ServiceWorker.SameOriginHandlerIntercepts |

The written filter is `ServiceWorker.StartsWithOrigin`, and `ServiceWorker.HandleFetch` is the handler as written. The corrected filter is `ServiceWorker.Intercepted`: the origin followed by the "/" that starts the path. `ServiceWorker.HandleSameOriginFetch` is the handler that uses it. Both handlers share the routing `ServiceWorker.Route`, and `ServiceWorker.HandlersDifferOnlyOnLookalikes` shows that they differ only on URLs that extend the origin's host name.

## Left out

- DOM rendering: notifications, field error elements, button states, styles, and the honeypot element's styling and `tabIndex`. Only the decisions are modelled.
- Event-listener registration, the mobile menu, smooth scrolling, scroll animations, lazy loading and floating-point viewport code. They make no decision this model covers.
- Timers: the 5000 ms and 4000 ms notification delays and the simulated 2000 ms send. The send is the outcome `Sent`.
- `getClientId`: `localStorage`, `Date.now` and `Math.random`. The client id and `now` are parameters. One dispatch uses one `now` for all its listeners.
- The service worker's install step, `urlsToCache`, `skipWaiting`, `clients.claim`, the message handler and the error logging. These are plumbing with no routing decision.
- The Cache API, `fetch` and promises. Their results are parameters of `HandleFetch`. `cached` is the entry the caches hold for the request's URL, whatever cache holds it; `caches.match` finds it only for a GET request.
- Response types are parameters. A browser never gives a cross-origin response the type "basic"; the model does not enforce that.
- The asynchronous `cache.put` is the `stored` field. Whether it completes before a later request is not modelled.
- The `Response` constructor's argument checks, such as the status range. `addSecurityHeaders` is modelled on responses it accepts.
- Request URLs with user info or other forms the `Url` datatype does not cover. `Url` is scheme, host with optional port, and a path starting with "/".
- Limiter action names that coincide with inherited object properties, such as "toString". Policies are a map, so such names have no policy.
- String lengths: the model counts code points, and JavaScript counts UTF-16 code units. The difference matters only for characters outside the Basic Multilingual Plane in the length checks.
- The `focusin` handler's writing of the focus time is the `focusTime` parameter of the `FocusOut` event. `parseInt` of a stored timestamp is taken to return that timestamp.
- `setupHoneypot` (js/security.js:219-222) appends a honeypot to every form, whether or not the form has one. With the contact form's own honeypot (js/main.js:270-277), a form can end up with two `website_url` inputs. `WithHoneypot` models only the contact form's conditional append. The honeypot check reads the first input (`HoneypotValue`).
- Header values are stored as given. `Headers` would strip white space around a value; the eight fixed values have none.
