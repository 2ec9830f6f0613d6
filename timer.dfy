/**
 * The content script's timer state machine (content.js:2-11, 68-168,
 * 229-297, 304-337, 349-395, 412-437) as values: one `State` record holding
 * the script's globals together with the browser-side facts they refer to,
 * and one function per operation giving the state after it. The class in
 * content.dfy runs the same operations in place and is proved to agree with
 * these functions.
 */
module Timer {
  import opened Wrappers
  import opened Dom

  /** TIMER_RESET_COOLDOWN: minimum spacing of two resets, in milliseconds. */
  const ResetCooldown := 1000

  /** One `updateCountdown` message sent by the content script; `skipped` is absent except on the final one. */
  datatype Update = Update(time: int, isRunning: bool, skipped: Option<bool>)

  /** A simulated click (`simulateClick`) on the page. */
  datatype Activation = SkipButton | ConfirmButton(index: nat)

  /**
   * `timeLeft`, `isTimerRunning` (`running`), the interval handle `countdown`,
   * `lastTimerReset`, `isInitialStart` and `isSkipping` are the script's
   * globals. The rest is what the browser holds: the handles of the intervals
   * still registered (`live`), the next handle `setInterval` will hand out,
   * the number of scheduled confirm-skip callbacks, the messages sent so far
   * and the clicks simulated so far.
   */
  datatype State = State(
    timeLeft: Option<int>,
    running: bool,
    countdown: Option<nat>,
    live: set<nat>,
    nextHandle: nat,
    lastReset: int,
    initialStart: bool,
    skipping: bool,
    pendingConfirms: nat,
    sent: seq<Update>,
    activated: seq<Activation>)

  /** The globals as the script declares them, before anything has run. */
  function Init(): State {
    State(None, false, None, {}, 1, 0, true, false, 0, [], [])
  }

  /**
   * The state invariant: the timer runs exactly when the script holds an
   * interval handle, that handle is the one and only registered interval, no
   * handle in use is one `setInterval` will hand out again, the time left is
   * never negative, a running timer has time left, and every report sent so
   * far says running exactly when it carries time left.
   */
  ghost predicate Valid(s: State) {
    && (s.running <==> s.countdown.Some?)
    && s.live == (if s.countdown.Some? then {s.countdown.value} else {})
    && (forall h :: h in s.live ==> h < s.nextHandle)
    && (s.timeLeft.Some? ==> s.timeLeft.value >= 0)
    && (s.running ==> s.timeLeft.Some? && s.timeLeft.value > 0)
    && (forall u :: u in s.sent ==> (u.isRunning <==> u.time > 0))
  }

  lemma InitValid()
    ensures Valid(Init())
  {
  }

  /** A valid state has at most one periodic tick registered. */
  lemma AtMostOneInterval(s: State)
    requires Valid(s)
    ensures |s.live| <= 1
  {
  }

  // ---------------------------------------------------------------------------
  // The operations

  /** stopTimer: clear the interval if there is one, and mark the timer stopped. */
  function Stop(s: State): State {
    var live := if s.countdown.Some? then s.live - {s.countdown.value} else s.live;
    s.(countdown := None, live := live, running := false)
  }

  /**
   * startCountdown: nothing if running; otherwise stop, refill the time when
   * it is missing or used up, mark running, report the starting time and
   * register a new interval.
   */
  function Start(s: State, duration: int): State {
    if s.running then s
    else
      var s1 := Stop(s);
      var t := if s1.timeLeft.None? || s1.timeLeft.value <= 0 then duration else s1.timeLeft.value;
      var h := s1.nextHandle;
      s1.(timeLeft := Some(t), running := true,
          sent := s1.sent + [Update(t, true, None)],
          countdown := Some(h), live := s1.live + {h}, nextHandle := h + 1)
  }

  /** The cooldown test shared by resetTimer and forceTimerReset. */
  predicate TooSoon(s: State, now: int) {
    now - s.lastReset < ResetCooldown && !s.initialStart
  }

  /** resetTimer. */
  function Reset(s: State, now: int, duration: int): State {
    if TooSoon(s, now) then s
    else Start(Stop(s).(timeLeft := Some(duration), lastReset := now, initialStart := false), duration)
  }

  /** clickSkipButton, given whether the skip button is on the page; also returns its result. */
  function ClickSkip(s: State, skipButton: bool): (State, bool) {
    if skipButton then
      (s.(skipping := true, activated := s.activated + [SkipButton],
          pendingConfirms := s.pendingConfirms + 1), true)
    else (s.(skipping := false), false)
  }

  /**
   * The deferred callback scheduled by clickSkipButton, given the position of
   * the confirm button clickConfirmSkip finds, if any.
   */
  function ConfirmStep(s: State, found: Option<nat>): State {
    if s.pendingConfirms == 0 then s
    else
      var s1 := s.(pendingConfirms := s.pendingConfirms - 1);
      if found.Some? then s1.(activated := s1.activated + [ConfirmButton(found.value)])
      else s1.(skipping := false)
  }

  /**
   * One firing of interval `h` (the callback of content.js:123-163). A handle
   * that is no longer registered never fires, which the first branch records.
   * The decrement treats a missing time as 0, as JavaScript's `null--` does.
   */
  function Tick(s: State, h: nat, skipButton: bool): State {
    if h !in s.live then s
    else
      var t := (if s.timeLeft.Some? then s.timeLeft.value else 0) - 1;
      var s1 := s.(timeLeft := Some(t), sent := s.sent + [Update(t, t > 0, None)]);
      if t > 0 then s1
      else
        var (s2, skipped) := ClickSkip(Stop(s1), skipButton);
        s2.(sent := s2.sent + [Update(0, false, Some(skipped))])
  }

  /** forceTimerReset, given whether the page is a question page. */
  function ForceReset(s: State, now: int, duration: int, onQuestionPage: bool): State {
    if s.skipping && !s.initialStart then s
    else if TooSoon(s, now) then s
    else
      var s1 := Stop(s).(timeLeft := Some(duration), lastReset := now, initialStart := false);
      if onQuestionPage then Start(s1, duration) else s1
  }

  /** checkAndStartTimer; also returns its result. */
  function CheckAndStart(s: State, now: int, duration: int, onQuestionPage: bool): (State, bool) {
    if s.skipping then (s, false)
    else if onQuestionPage then (Reset(s, now, duration), true)
    else (s, false)
  }

  /** The click listener, given the classification of the clicked button. */
  function OnClick(s: State, kind: ClickKind, now: int, duration: int, onQuestionPage: bool): State {
    match kind
    case StartClick => ForceReset(s.(skipping := false, initialStart := true), now, duration, onQuestionPage)
    case NextClick => ForceReset(s.(skipping := false), now, duration, onQuestionPage)
    case OtherClick => s
  }

  /** The mutation observer's callback, given whether the batch added question content. */
  function OnMutations(s: State, significant: bool, now: int, duration: int, onQuestionPage: bool): State {
    if significant && !s.skipping && onQuestionPage then ForceReset(s, now, duration, onQuestionPage)
    else s
  }

  /** The `onMessage` listener: the new state and the one `status` it replies. */
  function Dispatch(s: State, action: string, now: int, duration: int, onQuestionPage: bool): (State, string) {
    if action == "ping" then (s, "ok")
    else if action == "checkForQuestion" then
      var (s1, found) := CheckAndStart(s, now, duration, onQuestionPage);
      (s1, if found then "found_and_started" else "not_found")
    else if action == "startTimer" && !s.running then (Start(s, duration), "started")
    else (s, "unknown_action")
  }

  // ---------------------------------------------------------------------------
  // Properties of single operations

  /**
   * stopTimer leaves no interval and a stopped timer, changes nothing else,
   * keeps the invariant, and a second call changes nothing more.
   */
  lemma StopProperties(s: State)
    requires Valid(s)
    ensures var r := Stop(s);
      && Valid(r) && !r.running && r.countdown.None? && r.live == {}
      && r == s.(running := false, countdown := None, live := {})
      && Stop(r) == r
  {
  }

  /**
   * startCountdown on a running timer changes nothing. Otherwise the time is
   * refilled only when missing or used up, the timer runs, the starting time
   * is reported, and exactly one interval is registered: a fresh one.
   */
  lemma StartProperties(s: State, duration: int)
    requires Valid(s) && duration > 0
    ensures Valid(Start(s, duration))
    ensures s.running ==> Start(s, duration) == s
    ensures !s.running ==>
      var r := Start(s, duration);
      var t := if s.timeLeft.None? || s.timeLeft.value <= 0 then duration else s.timeLeft.value;
      && r.timeLeft == Some(t) && r.running
      && r.countdown == Some(s.nextHandle) && r.live == {s.nextHandle} && s.nextHandle !in s.live
      && r.sent == s.sent + [Update(t, true, None)]
      && r.lastReset == s.lastReset && r.initialStart == s.initialStart && r.skipping == s.skipping
      && r.activated == s.activated && r.pendingConfirms == s.pendingConfirms
  {
  }

  /**
   * resetTimer changes nothing inside the cooldown unless this is the initial
   * start; otherwise it records the reset and restarts with a full duration.
   */
  lemma ResetProperties(s: State, now: int, duration: int)
    requires Valid(s) && duration > 0
    ensures Valid(Reset(s, now, duration))
    ensures TooSoon(s, now) ==> Reset(s, now, duration) == s
    ensures !TooSoon(s, now) ==>
      var r := Reset(s, now, duration);
      && r.lastReset == now && !r.initialStart
      && r.timeLeft == Some(duration) && r.running && r.countdown == Some(s.nextHandle)
      && r.live == {s.nextHandle}
      && r.sent == s.sent + [Update(duration, true, None)]
      && r.skipping == s.skipping && r.activated == s.activated
  {
    if !TooSoon(s, now) {
      var s1 := Stop(s).(timeLeft := Some(duration), lastReset := now, initialStart := false);
      StartProperties(s1, duration);
    }
  }

  /** Two resets inside the cooldown window reinitialise the timer only once. */
  lemma ResetTwiceWithinCooldown(s: State, t1: int, t2: int, duration: int)
    requires Valid(s) && duration > 0
    requires !TooSoon(s, t1) && t1 <= t2 < t1 + ResetCooldown
    ensures Reset(Reset(s, t1, duration), t2, duration) == Reset(s, t1, duration)
  {
    ResetProperties(s, t1, duration);
  }

  /** The first reset after the script loads proceeds whatever the clock says. */
  lemma InitialResetAlwaysProceeds(now: int, duration: int)
    requires duration > 0
    ensures var r := Reset(Init(), now, duration);
      r.lastReset == now && !r.initialStart && r.running && r.timeLeft == Some(duration)
      && r.sent == [Update(duration, true, None)]
  {
    ResetProperties(Init(), now, duration);
  }

  /**
   * clickSkipButton reports whether the skip button was there, sets the
   * skipping flag to the same value, and clicks (and schedules the
   * confirmation) only when the button was there.
   */
  lemma ClickSkipProperties(s: State, skipButton: bool)
    requires Valid(s)
    ensures var (r, skipped) := ClickSkip(s, skipButton);
      && Valid(r) && skipped == skipButton && r.skipping == skipButton
      && r.activated == s.activated + (if skipButton then [SkipButton] else [])
      && r.pendingConfirms == s.pendingConfirms + (if skipButton then 1 else 0)
      && r.timeLeft == s.timeLeft && r.running == s.running && r.live == s.live && r.sent == s.sent
  {
  }

  /**
   * The confirm callback clicks the button found and keeps the skipping flag;
   * when no button is found it clears the flag and clicks nothing.
   */
  lemma ConfirmStepProperties(s: State, found: Option<nat>)
    requires Valid(s) && s.pendingConfirms > 0
    ensures var r := ConfirmStep(s, found);
      && Valid(r) && r.pendingConfirms == s.pendingConfirms - 1
      && (found.Some? ==> r.activated == s.activated + [ConfirmButton(found.value)] && r.skipping == s.skipping)
      && (found.None? ==> r.activated == s.activated && !r.skipping)
      && r.timeLeft == s.timeLeft && r.running == s.running && r.sent == s.sent
  {
  }

  /**
   * One firing of the registered interval takes a second off and reports it,
   * with `isRunning` saying whether time is left. When the time runs out the
   * timer stops, the skip is attempted once, and a final report carries the
   * outcome. A handle that is not registered changes nothing.
   */
  lemma TickProperties(s: State, h: nat, skipButton: bool)
    requires Valid(s)
    ensures Valid(Tick(s, h, skipButton))
    ensures h !in s.live ==> Tick(s, h, skipButton) == s
    ensures h in s.live ==>
      var n := s.timeLeft.value;
      var r := Tick(s, h, skipButton);
      && h == s.countdown.value && r.timeLeft == Some(n - 1)
      && (n > 1 ==> r == s.(timeLeft := Some(n - 1), sent := s.sent + [Update(n - 1, true, None)]))
      && (n == 1 ==>
        && !r.running && r.live == {} && r.skipping == skipButton
        && r.sent == s.sent + [Update(0, false, None), Update(0, false, Some(skipButton))]
        && r.activated == s.activated + (if skipButton then [SkipButton] else [])
        && r.pendingConfirms == s.pendingConfirms + (if skipButton then 1 else 0)
        && r.lastReset == s.lastReset && r.initialStart == s.initialStart)
  {
  }

  /**
   * forceTimerReset changes nothing while a skip is in progress or inside the
   * cooldown, unless this is the initial start. Otherwise it records the
   * reset, refills the time, and runs the timer exactly when the page is a
   * question page.
   */
  lemma ForceResetProperties(s: State, now: int, duration: int, onQuestionPage: bool)
    requires Valid(s) && duration > 0
    ensures Valid(ForceReset(s, now, duration, onQuestionPage))
    ensures (s.skipping && !s.initialStart) || TooSoon(s, now) ==>
      ForceReset(s, now, duration, onQuestionPage) == s
    ensures !(s.skipping && !s.initialStart) && !TooSoon(s, now) ==>
      var r := ForceReset(s, now, duration, onQuestionPage);
      && r.lastReset == now && !r.initialStart && r.timeLeft == Some(duration)
      && (r.running <==> onQuestionPage) && |r.live| == (if onQuestionPage then 1 else 0)
      && r.sent == s.sent + (if onQuestionPage then [Update(duration, true, None)] else [])
      && r.skipping == s.skipping && r.activated == s.activated && r.pendingConfirms == s.pendingConfirms
  {
    if !(s.skipping && !s.initialStart) && !TooSoon(s, now) {
      var s1 := Stop(s).(timeLeft := Some(duration), lastReset := now, initialStart := false);
      StartProperties(s1, duration);
    }
  }

  /**
   * A start-like click always gets past both guards: it clears the skipping
   * flag, and the reset it forces refills the time and starts the timer on a
   * question page, whatever the clock and the flags said before.
   */
  lemma StartClickAlwaysResets(s: State, now: int, duration: int, onQuestionPage: bool)
    requires Valid(s) && duration > 0
    ensures var r := OnClick(s, StartClick, now, duration, onQuestionPage);
      && Valid(r) && !r.skipping && !r.initialStart && r.lastReset == now
      && r.timeLeft == Some(duration) && (r.running <==> onQuestionPage)
  {
    ForceResetProperties(s.(skipping := false, initialStart := true), now, duration, onQuestionPage);
  }

  /** A next-like click clears the skipping flag, so only the cooldown can hold the reset back. */
  lemma NextClickProperties(s: State, now: int, duration: int, onQuestionPage: bool)
    requires Valid(s) && duration > 0
    ensures var r := OnClick(s, NextClick, now, duration, onQuestionPage);
      && Valid(r) && !r.skipping
      && (TooSoon(s, now) ==> r == s.(skipping := false))
      && (!TooSoon(s, now) ==> r.lastReset == now && r.timeLeft == Some(duration) && (r.running <==> onQuestionPage))
  {
    ForceResetProperties(s.(skipping := false), now, duration, onQuestionPage);
  }

  /**
   * The observer resets the timer at most once per batch, and only when the
   * batch added question content, no skip is in progress and the page is a
   * question page.
   */
  lemma OnMutationsProperties(s: State, significant: bool, now: int, duration: int, onQuestionPage: bool)
    requires Valid(s) && duration > 0
    ensures Valid(OnMutations(s, significant, now, duration, onQuestionPage))
    ensures !(significant && !s.skipping && onQuestionPage) ==>
      OnMutations(s, significant, now, duration, onQuestionPage) == s
    ensures significant && !s.skipping && onQuestionPage ==>
      OnMutations(s, significant, now, duration, onQuestionPage) == ForceReset(s, now, duration, true)
  {
    ForceResetProperties(s, now, duration, onQuestionPage);
  }

  /**
   * checkAndStartTimer starts nothing while skipping; it says true exactly
   * when it is not skipping and on a question page, and then leaves the state
   * resetTimer leaves (unchanged inside the cooldown).
   */
  lemma CheckAndStartProperties(s: State, now: int, duration: int, onQuestionPage: bool)
    requires Valid(s) && duration > 0
    ensures var (r, started) := CheckAndStart(s, now, duration, onQuestionPage);
      && Valid(r)
      && (started <==> !s.skipping && onQuestionPage)
      && (started ==> r == Reset(s, now, duration))
      && (!started ==> r == s)
  {
    ResetProperties(s, now, duration);
  }

  /**
   * Every message gets one status: `ok` for ping; `found_and_started` exactly
   * when checkAndStartTimer said true (never while skipping); `started` for
   * startTimer when stopped; `unknown_action` for everything else, which
   * changes nothing.
   */
  lemma DispatchProperties(s: State, action: string, now: int, duration: int, onQuestionPage: bool)
    requires Valid(s) && duration > 0
    ensures var (r, status) := Dispatch(s, action, now, duration, onQuestionPage);
      && Valid(r)
      && (status == "ok" <==> action == "ping")
      && (action == "ping" ==> r == s)
      && (action == "checkForQuestion" ==>
            r == CheckAndStart(s, now, duration, onQuestionPage).0
            && status == (if CheckAndStart(s, now, duration, onQuestionPage).1 then "found_and_started" else "not_found")
            && (s.skipping ==> status == "not_found" && r == s))
      && (status == "started" <==> action == "startTimer" && !s.running)
      && (status == "started" ==> r == Start(s, duration) && r.running)
      && (action !in {"ping", "checkForQuestion"} && !(action == "startTimer" && !s.running) ==>
            status == "unknown_action" && r == s)
  {
    CheckAndStartProperties(s, now, duration, onQuestionPage);
    StartProperties(s, duration);
  }

  /**
   * The popup's skipQuestion, getTimerState and updateTimerDuration commands
   * have no branch in the listener: they are answered `unknown_action` and
   * change nothing, and so is startTimer while the timer runs.
   */
  lemma UnhandledCommands(s: State, now: int, duration: int, onQuestionPage: bool)
    requires Valid(s) && duration > 0
    ensures Dispatch(s, "skipQuestion", now, duration, onQuestionPage) == (s, "unknown_action")
    ensures Dispatch(s, "getTimerState", now, duration, onQuestionPage) == (s, "unknown_action")
    ensures Dispatch(s, "updateTimerDuration", now, duration, onQuestionPage) == (s, "unknown_action")
    ensures s.running ==> Dispatch(s, "startTimer", now, duration, onQuestionPage) == (s, "unknown_action")
  {
  }

  // ---------------------------------------------------------------------------
  // Running the countdown down

  /** The handle of the registered interval (0 when there is none). */
  function HandleOf(s: State): nat {
    if s.countdown.Some? then s.countdown.value else 0
  }

  /** `k` firings of the registered interval, the skip button being there or not throughout. */
  function Run(s: State, k: nat, skipButton: bool): State
    decreases k
  {
    if k == 0 then s else Run(Tick(s, HandleOf(s), skipButton), k - 1, skipButton)
  }

  /** The reports of `k` ticks counting down from `n`: n-1, n-2, ... */
  function Reports(n: int, k: nat): seq<Update>
    decreases k
  {
    if k == 0 then [] else [Update(n - 1, n - 1 > 0, None)] + Reports(n - 1, k - 1)
  }

  /** Report `i` of a countdown from `n` carries time n-1-i, and says running while that is positive. */
  lemma {:induction false} ReportsAt(n: int, k: nat, i: nat)
    requires i < k
    ensures |Reports(n, k)| == k
    ensures Reports(n, k)[i] == Update(n - 1 - i, n - 1 - i > 0, None)
    decreases k
  {
    if i > 0 {
      ReportsAt(n - 1, k - 1, i - 1);
    } else if k > 1 {
      ReportsAt(n - 1, k - 1, 0);
    }
  }

  /**
   * A running timer with n seconds left, left alone for n ticks, reports
   * n-1 down to 0, stops with no interval registered and no time left,
   * attempts the skip exactly once and reports that attempt's outcome last.
   */
  lemma {:induction false} RunToExpiry(s: State, skipButton: bool)
    requires Valid(s) && s.running
    ensures var n := s.timeLeft.value;
      var r := Run(s, n, skipButton);
      && Valid(r)
      && r.timeLeft == Some(0) && !r.running && r.countdown.None? && r.live == {}
      && r.sent == s.sent + Reports(n, n) + [Update(0, false, Some(skipButton))]
      && r.activated == s.activated + (if skipButton then [SkipButton] else [])
      && r.skipping == skipButton
      && r.pendingConfirms == s.pendingConfirms + (if skipButton then 1 else 0)
      && r.lastReset == s.lastReset && r.initialStart == s.initialStart
    decreases s.timeLeft.value
  {
    var n := s.timeLeft.value;
    var s1 := Tick(s, HandleOf(s), skipButton);
    TickProperties(s, HandleOf(s), skipButton);
    assert Run(s, n, skipButton) == Run(s1, n - 1, skipButton);
    if n == 1 {
      assert Reports(1, 1) == [Update(0, false, None)];
    } else {
      RunToExpiry(s1, skipButton);
      assert Reports(n, n) == [Update(n - 1, true, None)] + Reports(n - 1, n - 1);
      assert s1.sent == s.sent + [Update(n - 1, true, None)];
    }
  }

  /**
   * From the script's initial state, a reset with duration D followed by D
   * ticks reports D, D-1, ..., 0 and then a final 0 carrying the skip outcome.
   */
  lemma ResetThenExpire(now: int, duration: int, skipButton: bool)
    requires duration > 0
    ensures var r := Run(Reset(Init(), now, duration), duration, skipButton);
      && |r.sent| == duration + 2
      && (forall i :: 0 <= i <= duration ==> r.sent[i] == Update(duration - i, duration - i > 0, None))
      && r.sent[duration + 1] == Update(0, false, Some(skipButton))
      && r.timeLeft == Some(0) && !r.running
      && r.activated == (if skipButton then [SkipButton] else [])
  {
    var s := Reset(Init(), now, duration);
    InitialResetAlwaysProceeds(now, duration);
    ResetProperties(Init(), now, duration);
    RunToExpiry(s, skipButton);
    var r := Run(s, duration, skipButton);
    assert r.sent == [Update(duration, true, None)] + Reports(duration, duration) + [Update(0, false, Some(skipButton))];
    ReportsAt(duration, duration, 0);
    forall i | 0 <= i <= duration
      ensures r.sent[i] == Update(duration - i, duration - i > 0, None)
    {
      if i > 0 {
        ReportsAt(duration, duration, i - 1);
      }
    }
  }

  /** The four-second configuration of config.js: the popup sees 4, 3, 2, 1, 0 and then the outcome. */
  lemma FourSecondCountdown(now: int, skipButton: bool)
    ensures Run(Reset(Init(), now, 4), 4, skipButton).sent ==
      [Update(4, true, None), Update(3, true, None), Update(2, true, None), Update(1, true, None),
       Update(0, false, None), Update(0, false, Some(skipButton))]
  {
    ResetThenExpire(now, 4, skipButton);
  }

  /**
   * A successful skip leaves the skipping flag set (nothing clears it once
   * the confirm button is clicked), so neither the observer nor a
   * checkForQuestion request restarts the timer on the next question. What
   * does restart it: a start-like click on a question page, a next-like
   * click on a question page once the cooldown has passed, and a startTimer
   * request, which does not look at the flag.
   */
  lemma SkippedQuestionWaitsForClick(s: State, found: nat, significant: bool, now: int,
                                     duration: int, onQuestionPage: bool)
    requires Valid(s) && s.running && duration > 0
    ensures var r := ConfirmStep(Run(s, s.timeLeft.value, true), Some(found));
      && Valid(r) && r.skipping && !r.running
      && OnMutations(r, significant, now, duration, onQuestionPage) == r
      && Dispatch(r, "checkForQuestion", now, duration, onQuestionPage) == (r, "not_found")
      && (OnClick(r, StartClick, now, duration, onQuestionPage).running <==> onQuestionPage)
      && (OnClick(r, NextClick, now, duration, onQuestionPage).running <==> onQuestionPage && !TooSoon(s, now))
      && Dispatch(r, "startTimer", now, duration, onQuestionPage).1 == "started"
      && Dispatch(r, "startTimer", now, duration, onQuestionPage).0.running
  {
    var e := Run(s, s.timeLeft.value, true);
    RunToExpiry(s, true);
    ConfirmStepProperties(e, Some(found));
    var r := ConfirmStep(e, Some(found));
    StartClickAlwaysResets(r, now, duration, onQuestionPage);
    NextClickProperties(r, now, duration, onQuestionPage);
    DispatchProperties(r, "startTimer", now, duration, onQuestionPage);
  }

  /**
   * checkAndStartTimer says true on a question page even when the reset it
   * asks for is held back by the cooldown: the listener then replies
   * found_and_started although nothing changed and the timer may be stopped.
   */
  lemma FoundAndStartedInsideCooldown(s: State, now: int, duration: int)
    requires Valid(s) && duration > 0 && !s.skipping && TooSoon(s, now)
    ensures Dispatch(s, "checkForQuestion", now, duration, true) == (s, "found_and_started")
  {
  }

  /** A stopped timer within the cooldown of a next-like click still gets found_and_started and stays stopped. */
  lemma FoundAndStartedWhileStopped(duration: int)
    requires duration > 0
    ensures var s := OnClick(Init(), NextClick, 0, duration, false);
      && !s.running && TooSoon(s, 500)
      && Dispatch(s, "checkForQuestion", 500, duration, true) == (s, "found_and_started")
  {
    ForceResetProperties(Init(), 0, duration, false);
  }

  /** forceTimerReset without its skip-in-progress guard. */
  function ForceResetUnguarded(s: State, now: int, duration: int, onQuestionPage: bool): State {
    if TooSoon(s, now) then s
    else
      var s1 := Stop(s).(timeLeft := Some(duration), lastReset := now, initialStart := false);
      if onQuestionPage then Start(s1, duration) else s1
  }

  /**
   * The skip-in-progress guard of forceTimerReset never decides anything:
   * the click listener clears the flag before calling it and the observer
   * calls it only when the flag is clear, so both behave as if the guard
   * were absent.
   */
  lemma SkipGuardNeverDecides(s: State, significant: bool, now: int, duration: int, onQuestionPage: bool)
    ensures OnClick(s, StartClick, now, duration, onQuestionPage) ==
      ForceResetUnguarded(s.(skipping := false, initialStart := true), now, duration, onQuestionPage)
    ensures OnClick(s, NextClick, now, duration, onQuestionPage) ==
      ForceResetUnguarded(s.(skipping := false), now, duration, onQuestionPage)
    ensures OnMutations(s, significant, now, duration, onQuestionPage) ==
      if significant && !s.skipping && onQuestionPage then ForceResetUnguarded(s, now, duration, true) else s
  {
  }
}
