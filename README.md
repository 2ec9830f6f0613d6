# khanclock in Dafny

khanclock is a browser extension that puts a per-question countdown on Khan
Academy's SAT test-prep pages. When the time runs out it clicks the
page's "skip" button and then the confirm button. This project models its
three scripts and proves properties of them:

- **content script** (`content.js`). The timer state machine: stop, reset
  (with its 1000 ms cooldown and initial-start bypass), start (a no-op
  while running), the per-second tick (expiry stops the timer and tries the
  skip exactly once), the forced reset (blocked while a skip is in
  progress), the question-page detector, the skip and confirm-skip
  clicks, the click classifier, the mutation-batch filter and the message
  listener.
  - `Timer` (timer.dfy) states each operation as a function on a `State`
    value. The value holds the script's globals together with what the
    browser holds for it: the registered interval handles, the next handle,
    the pending confirm callbacks, the log of `updateCountdown` reports and
    the log of simulated clicks.
  - `Content.ContentScript` (content.dfy) is the script as an object. Its
    methods update the globals in place. Each method is proved to keep the
    invariant and to leave exactly the state the `Timer` function gives.
  - `Dom` (dom.dfy) models the page as a sequence of elements, together
    with the selectors the script queries.
- **popup** (`popup.js`). `Popup` (popup.dfy) covers `formatTime`, `parseInt`
  and the positive-duration check, the test-prep URL gate, what opening
  the popup does, the `updateCountdown` listener's status and skip-button
  decision, and the skip button's reply handling.
- **background worker** (`background.js`). `Background.Worker`
  (background.dfy) keeps the `timerState` record and implements the message
  handler.
- **the scripts together**. `Protocol` (protocol.dfy) connects the scripts'
  messages:
  - the content script's reports as the worker records them and as the
    popup shows them;
  - the popup's commands as the content script's listener answers them.

Behaviours of the code that the model keeps:

- **Question-page test.** A page is a question page when any one of nine
  selectors matches.
- **Skipping flag.** Nothing clears the skipping flag after a successful
  confirm-skip click. The observer and `checkForQuestion` then leave the
  timer alone. A start-like click on a question page restarts it, and so
  does a next-like click once the cooldown has passed, or a `startTimer`
  request (`Timer.SkippedQuestionWaitsForClick`).
- **Found but not started.** `checkForQuestion` on a question page gets
  `found_and_started` even when the cooldown holds the reset back and the
  timer stays as it was (`Timer.FoundAndStartedInsideCooldown`).
- **Manual skip.** No listener tells a manual skip click from a simulated
  one. A manual click is classified like any other button.
- **Time left on start.** `startCountdown` keeps a positive time left and
  refills only a missing or used-up one.
- **Content-script commands.** The content script answers `skipQuestion`,
  `getTimerState` and `updateTimerDuration` with `unknown_action`.
  - The popup's skip button changes nothing.
  - Its initial state query reads nothing.
  - A duration change has no effect on the page. With no global
    `updateTimerDuration` on the popup's page, as in the files here, the
    change sends nothing and shows "Error updating timer". Were that
    global defined, the popup would report the change as applied.
- **Rebroadcast.** The worker rebroadcasts updates as `timerUpdate`. The
  popup listens only for `updateCountdown`, so only the content script's
  own reports reach it.

JavaScript details are written out:

- `null--` counts null as 0 and stores -1.
- `%` takes the sign of the dividend.
- `Math.floor(x / 60)` is Dafny's `/`.
- `padStart`, `toString` and `parseInt(…, 10)` are modelled on integers.
- `trim` removes ECMAScript white space and line terminators.

## Model

| member | source | states |
|---|---|---|
| Text.Lower | content.js:211 | defines `toLowerCase` on ASCII letters |
| Text.Trim | content.js:211 | defines `trim`; properties in `Text.TrimBounds` and `Text.ContainsTrim` |
| Text.Contains | content.js:212 | defines `includes`; tied to positions by `Text.ContainsIff` |
| Dom.IsStartButton | content.js:370-378 | defines the start test over the button, dialog and modal texts; used by `Dom.Classify` |
| Dom.IsNextButton | content.js:380-383 | defines the next test over the button text and aria-label; used by `Dom.Classify` |
| Text.TrimStartRemovesSpace | content.js:211 | `trim`'s leading part drops exactly a run of white space and stops at the first non-space character |
| Text.TrimEndRemovesSpace | content.js:211 | `trim`'s trailing part drops exactly a run of white space and stops at the last non-space character |
| Text.ContainsIff | content.js:212 | `includes(w)` holds exactly when `w` occurs at some position |
| Text.TrimBounds | content.js:211 | the trimmed text is a contiguous slice of the text, and everything cut off is white space |
| Text.ContainsTrim | content.js:211-212 | trimming never changes whether a word without spaces occurs in the text |
| Text.ContainsPart | content.js:370-378 | any piece of an occurring word also occurs |
| Dom.QuerySelector | content.js:52-60 | `querySelector` returns the first element in document order that matches, and null exactly when none does |
| Dom.IsQuestionPage | content.js:47-66 | a question page is one where some element matches one of the nine indicators |
| Dom.SkipButtonMeansQuestionPage | content.js:52 | a page that has the skip button is a question page |
| Dom.QuestionPageConcat | content.js:47-66 | detection looks at elements one at a time: two joined pages form a question page exactly when one of them is |
| Dom.FindInSelector | content.js:209-217 | the scan over one selector's matches returns the first element with a confirm label, and none exactly when no match has one |
| Dom.FindConfirmButton | content.js:195-227 | returns the first label match by selector order, then document order; returns none, meaning false, exactly when there is no such button |
| Dom.ConfirmLabelIgnoresTrim | content.js:211-212 | the confirm test amounts to the lower-cased text containing both "yes" and "skip" |
| Dom.ConfirmFoundIff | content.js:198-217 | a confirm button is found exactly when some `button` element, or some element marked skip-confirm, has a confirm label; the fallback `button` selector subsumes the dialog and modal ones |
| Dom.SignificantChange | content.js:304-328 | the observer's nested scan with early exit says true exactly when some added element node is, or contains, one of the four watched markers |
| Dom.Classify | content.js:349-395 | a click is start-like exactly when its button passes the start test; it is next-like exactly when the button fails the start test and passes the next test; a click outside any button is neither |
| Dom.LetsStartSubsumed | content.js:371-376 | any button text containing "let's start" also contains "start" |
| Dom.ClassifyIgnoresPadding | content.js:354 | padding a button's text with white space, before it, after it or both (independently), never changes its classification |
| Timer.Init | content.js:2-11 | defines the globals' declared values; properties in `Timer.InitValid` |
| Timer.Stop | content.js:68-75 | defines stopTimer; properties in `Timer.StopProperties` |
| Timer.Start | content.js:94-123 | defines startCountdown; properties in `Timer.StartProperties` |
| Timer.TooSoon | content.js:81 | defines the cooldown test shared by resetTimer and forceTimerReset |
| Timer.Reset | content.js:77-92 | defines resetTimer; properties in `Timer.ResetProperties` |
| Timer.ClickSkip | content.js:229-251 | defines clickSkipButton; properties in `Timer.ClickSkipProperties` |
| Timer.ConfirmStep | content.js:238-245 | defines the deferred confirm callback; properties in `Timer.ConfirmStepProperties` |
| Timer.Tick | content.js:123-156 | defines one interval firing; properties in `Timer.TickProperties` |
| Timer.ForceReset | content.js:254-282 | defines forceTimerReset; properties in `Timer.ForceResetProperties` |
| Timer.CheckAndStart | content.js:285-297 | defines checkAndStartTimer; properties in `Timer.CheckAndStartProperties` |
| Timer.OnClick | content.js:385-394 | defines the click listener's reaction to a classified click; properties in `Timer.StartClickAlwaysResets` and `Timer.NextClickProperties` |
| Timer.OnMutations | content.js:330-337 | defines the observer's reaction to a batch; properties in `Timer.OnMutationsProperties` |
| Timer.Dispatch | content.js:412-437 | defines the message listener; properties in `Timer.DispatchProperties` |
| Timer.InitValid | content.js:2-11 | the declared initial globals satisfy the invariant |
| Timer.AtMostOneInterval | content.js:68-75 | in a valid state at most one interval is registered |
| Timer.StopProperties | content.js:68-75 | stopTimer leaves no interval and a stopped timer and changes nothing else; a second call changes nothing |
| Timer.StartProperties | content.js:94-123 | startCountdown is a no-op while running; otherwise it refills the time only when missing or at most 0, runs the timer, reports the starting time and registers exactly one new interval |
| Timer.ResetProperties | content.js:77-92 | resetTimer changes nothing within 1000 ms of the last reset unless this is the initial start; otherwise it records `now`, clears the initial-start flag, refills the time and runs the timer |
| Timer.ResetTwiceWithinCooldown | content.js:81-84 | of two resets within the cooldown, the second changes nothing |
| Timer.InitialResetAlwaysProceeds | content.js:81 | the first reset after loading proceeds whatever the clock says |
| Timer.ClickSkipProperties | content.js:229-251 | clickSkipButton returns whether the skip button exists and sets the skipping flag to match; it clicks and schedules the confirm step only when the button exists |
| Timer.ConfirmStepProperties | content.js:238-245 | the deferred step clicks the found button and keeps the skipping flag; when nothing is found it clears the flag and clicks nothing |
| Timer.TickProperties | content.js:123-156 | a tick takes one second off and reports it with isRunning equal to time > 0; at zero it stops the timer, attempts the skip once and reports `{0, false, skipped}`, leaving the reset time and the initial-start flag; an unregistered handle never fires |
| Timer.ForceResetProperties | content.js:254-282 | forceTimerReset changes nothing while skipping, or within the cooldown, unless this is the initial start; otherwise it records the reset, refills the time, runs the timer exactly on a question page, and leaves the skipping flag, the clicks and the pending confirm steps as they were |
| Timer.StartClickAlwaysResets | content.js:385-389 | a start-like click clears the skipping flag and forces a reset that always proceeds and runs the timer exactly on a question page |
| Timer.NextClickProperties | content.js:390-394 | a next-like click clears the skipping flag, after which only the cooldown can hold the reset back |
| Timer.OnMutationsProperties | content.js:330-337 | a batch forces a reset only when it added question content, no skip is in progress and the page is a question page; otherwise nothing changes |
| Timer.CheckAndStartProperties | content.js:285-297 | checkAndStartTimer returns true exactly when not skipping and on a question page, and then leaves the state resetTimer leaves (which, inside the cooldown, is the unchanged state); otherwise it changes nothing |
| Timer.DispatchProperties | content.js:412-437 | each request gets one status: `ok` exactly for ping; checkForQuestion leaves the state checkAndStartTimer leaves and replies `found_and_started` when it returns true and `not_found` otherwise (always while skipping); `started` exactly for startTimer while stopped; everything else gets `unknown_action` and changes nothing |
| Timer.UnhandledCommands | content.js:429-436 | skipQuestion, getTimerState, updateTimerDuration, and startTimer while running are all answered `unknown_action` and change nothing |
| Timer.ReportsAt | content.js:135-139 | the i-th tick of a countdown from n reports n-1-i, as running while that is positive |
| Timer.RunToExpiry | content.js:123-156 | a running timer with n seconds left reaches 0 after n ticks; it then runs no interval, has reported n-1 down to 0 plus the final outcome, and has attempted the skip exactly once |
| Timer.ResetThenExpire | content.js:117-155 | from load, a reset with duration D followed by D ticks reports D, D-1, ..., 0 and then the final 0 carrying the skip outcome |
| Timer.FourSecondCountdown | content.js:117-155 | with the configured 4 seconds the reports are 4, 3, 2, 1, 0 and then the outcome |
| Timer.SkippedQuestionWaitsForClick | content.js:238-245 | after expiry and a successful confirm click, the skipping flag stays set: mutations and checkForQuestion restart nothing; a start-like click restarts the timer exactly on a question page, a next-like click exactly on a question page once the cooldown has passed, and a startTimer request always (replying `started`) |
| Timer.FoundAndStartedInsideCooldown | content.js:422-425 | on a question page, outside a skip and inside the cooldown, checkForQuestion replies `found_and_started` and changes nothing |
| Timer.FoundAndStartedWhileStopped | content.js:81-84 | after a next-like click off a question page, a checkForQuestion 500 ms later on a question page replies `found_and_started` while the timer stays stopped |
| Timer.SkipGuardNeverDecides | content.js:259 | the skip-in-progress guard of forceTimerReset never decides: the click listener and the observer behave as if it were absent |
| Content.ContentScript.constructor | content.js:2-11 | the globals start with their declared values |
| Content.ContentScript.StopTimer | content.js:68-75 | clears the interval and the running flag in place, keeping the invariant |
| Content.ContentScript.StartCountdown | content.js:94-123 | updates the globals, the interval table and the report log in place exactly as `Timer.Start` says |
| Content.ContentScript.ResetTimer | content.js:77-92 | updates the globals in place exactly as `Timer.Reset` says |
| Content.ContentScript.ClickSkipButton | content.js:229-251 | queries the page for the skip button, returns whether it is there, and updates state as `Timer.ClickSkip` says |
| Content.ContentScript.ConfirmSkip | content.js:238-245 | runs clickConfirmSkip on the current page: it clicks the first confirm button in selector order, then document order, or clears the skipping flag when there is none |
| Content.ContentScript.Tick | content.js:123-156 | one firing of the registered interval, in place, as `Timer.Tick` says |
| Content.ContentScript.ForceTimerReset | content.js:254-282 | updates state in place as `Timer.ForceReset` says, with the page's question-page test |
| Content.ContentScript.CheckAndStartTimer | content.js:285-297 | returns and updates as `Timer.CheckAndStart` says |
| Content.ContentScript.OnClick | content.js:349-395 | classifies the clicked button and updates state as `Timer.OnClick` says |
| Content.ContentScript.OnMutations | content.js:304-337 | scans the batch and updates state as `Timer.OnMutations` says for a batch with or without question content |
| Content.ContentScript.OnMessage | content.js:412-437 | replies and updates state as `Timer.Dispatch` says |
| Popup.FormatTime | popup.js:2-6 | defines formatTime; properties in `Popup.FormatTimeFields`, `Popup.FormatTimeRoundTrip` and `Popup.FormatTimeShape` |
| Popup.ParseInt | popup.js:56 | defines `parseInt(…, 10)` on integers; inverse of `toString` by `Popup.ParseIntOfNumberText` |
| Popup.DigitsFacts | popup.js:5 | `toString` of a non-negative integer is a non-empty digit string with that value; it has one digit below 10 and at most two below 100 |
| Popup.LeadingZeros | popup.js:5 | zero padding does not change a digit string's value |
| Popup.PaddedDigits | popup.js:5 | `padStart(2, '0')` of a number's digits gives at least two digits with the same value, and exactly two when there were fewer |
| Popup.FormatTimeFields | popup.js:2-6 | for seconds ≥ 0, the text before ':' is floor(seconds/60) padded to at least two digits, and the text after it is exactly two digits with value seconds % 60 |
| Popup.FormatTimeRoundTrip | popup.js:2-6 | reading back the two fields of formatTime(s) gives s/60 and s%60, and mm*60 + ss == s |
| Popup.FormatTimeShape | popup.js:3-5 | for 0 ≤ seconds < 6000 the text has five characters, with ':' at index 2 |
| Popup.FormatNegativeTime | popup.js:3-4 | a negative time keeps JavaScript's signs: -65 shows as "-2:-5" |
| Popup.DurationToApply | popup.js:56-57 | a duration is acted on exactly when parseInt yields a number and that number is above 0 |
| Popup.ParseIntOfNumberText | popup.js:56 | parseInt reads back the decimal text of every integer |
| Popup.DurationOfNumberText | popup.js:56-57 | an integer typed in is applied exactly when it is positive |
| Popup.DurationExamples | popup.js:56-57 | parseInt stops at the first non-digit and skips leading spaces: "30s" is applied as 30 and " 45" as 45; "3.7" and "1e3" as 3 and 1; "abc", "-5" and "0" are ignored |
| Popup.OnDurationChange | popup.js:55-93 | a rejected input sends nothing and changes nothing. An accepted one shows the new duration and "Timer set to N seconds" exactly when the helper exists, there is a tab, and the message or its retry after injection is delivered. A missing helper, a failed send or a failed retry ends in "Error updating timer" with the display unchanged; no tab changes nothing |
| Popup.OnOpen | popup.js:34-131 | off a test-prep URL: the wrong-page status, the skip button hidden, no messages, no handlers, no listener. On one: a ping first. The display shows the reported time only when the state reply has one. The listener is registered exactly when the script answered or injection succeeded |
| Popup.OnRuntimeMessage | popup.js:134-152 | only `updateCountdown` is acted on, and it always shows formatTime(time) |
| Popup.StatusDecision | popup.js:138-149 | when time ≤ 0: "Time's up! Question skipped" if skipped is true, else "Time's up!", and the button is hidden whatever isRunning says. When time > 0: "Timer running" with the button shown if isRunning, else "Timer stopped" with it hidden |
| Popup.SkipClickStatus | popup.js:96-108 | the status becomes "Question skipped" exactly when the reply is `skipped` |
| Background.Rebroadcast | background.js:24-29 | the rebroadcast has action `timerUpdate`, the new time, isRunning recomputed as time > 0, and `skipped` unchanged |
| Background.Worker.constructor | background.js:3-6 | the initial state is ten seconds, not running |
| Background.Worker.OnMessage | background.js:14-45 | updateCountdown stores the time and sets isRunning to time > 0, ignoring the request's flag; it broadcasts and replies `updated`. getTimerState replies with the state unchanged. getTime's first reply is the fixed time. Everything else replies `unknown_action`. Only updateCountdown changes the state |
| Protocol.RelayPreservesReports | background.js:20-29 | for every report the content script sends, the worker's recomputed running flag equals the report's own, so the rebroadcast repeats the report |
| Protocol.PopupIgnoresRebroadcast | popup.js:135 | the popup ignores every rebroadcast of the worker |
| Protocol.PopupStatusForReports | popup.js:134-152 | no content-script report ever makes the popup show "Timer stopped"; it shows "Timer running" with the button exactly while time is left |
| Protocol.ExpiryShownInPopup | popup.js:146-149 | when a countdown expires, the popup's last view is 00:00 with the button hidden, saying whether the question was skipped |
| Protocol.PopupCommandsHaveNoEffect | content.js:436 | the popup's skip request changes nothing and never produces "Question skipped"; its state query leaves the configured display; the page ignores a duration change; without the `updateTimerDuration` global the change sends nothing and shows "Error updating timer", and with it the popup reports the change as set |

## Left out

- Chrome APIs. The model leaves out `chrome.runtime.sendMessage`, `chrome.tabs.query`, `chrome.tabs.sendMessage` and `chrome.scripting.executeScript`. A sent report is an entry in the state's `sent` log, and whether a popup call or injection succeeds is a parameter.
- The "Extension context invalidated" paths (content.js:30-44, 157-166, 438-445) are left out. They are reached only through exceptions thrown by the browser, which the model has none of. The listener's `error` status reply goes with them.
- Leaving those paths out hides one state the invariant excludes. At content.js:117-123, `safeSendMessage` can call `stopTimer()` (content.js:40-41) before `setInterval` runs. That leaves an interval registered while `isTimerRunning` is false, until its next tick calls `stopTimer()` again. `Timer.Valid`'s "running exactly when an interval is held" holds only because these paths are not modelled.
- The real DOM is not modelled. A page is a sequence of elements carrying the attributes and texts the selectors read. `closest` is an element's enclosing `div` roles plus the texts of the enclosing dialog and modal.
- `simulateClick` (content.js:183-193) is recorded as one activation. The click events it dispatches also reach the script's own click listener. The model does not feed them back; they would be classified like any other click.
- `Date.now` is the parameter `now`.
- `setInterval` is modelled as a table of registered handles, with an explicit tick.
- `setTimeout(…, 0)` (content.js:238) becomes one pending confirm step per scheduled callback. `Content.ContentScript.ConfirmSkip` runs a pending step.
- Concurrency between callbacks is not modelled.
- `debugLog` and console output are left out. They have no effect on state.
- `debounce` (content.js:171-181) is defined but never called.
- `initNavigationObserver`'s registration calls and the load-time choice between `DOMContentLoaded` and an immediate call are not modelled. Both paths run `checkAndStartTimer` once, which is `Content.ContentScript.CheckAndStartTimer`.
- config.js is not modelled, apart from `TIMER_DURATION`. That value is the class's positive `duration`.
- `updateTimerDuration`, called at popup.js:60, is defined in no file here. Whether it exists is the `helperDefined` parameter of `Popup.OnDurationChange`.
- Popup styling (colours, opacity) and the `value` set on the input at popup.js:41 are left out.
- Popup.OnOpen: treats a tab whose `url` is undefined as no tab. In the code, `tab.url.includes` would throw there and end the handler without any update.
- Popup.OnOpen: takes the ping and the getTimerState call of popup.js:112-116 as succeeding or failing together.
- Popup.OnDurationChange: the status when `injectContentScripts` fails is not modelled separately. Only whether the retried message is answered decides the outcome, as in the code, which ignores the injection result.
- Text.Lower: lower-cases ASCII letters only. All the keywords the script looks for are ASCII, but non-ASCII text is not folded.
- Popup.ParseInt: uses exact integers, so it has no precision loss above 2^53 as JavaScript numbers do. Input such as "3.7" or "1e3" is read as 3 and 1, as `parseInt(…, 10)` does.
