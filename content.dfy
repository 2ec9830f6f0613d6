/**
 * The content script (content.js) as an object: its globals are fields, and
 * each function that updates them is a method that updates the fields in
 * place. Every method keeps the invariant and leaves exactly the state the
 * matching function of module Timer gives; the page is passed in as the
 * document the method would query, and the clock as `now`.
 */
module Content {
  import opened Wrappers
  import opened Dom
  import Timer

  class ContentScript {
    /** CONFIG.TIMER_DURATION, in seconds. */
    const duration: int

    var timeLeft: Option<int>
    var isTimerRunning: bool
    var countdown: Option<nat>
    var lastTimerReset: int
    var isInitialStart: bool
    var isSkipping: bool

    // What the browser holds on the script's behalf.
    var liveIntervals: set<nat>
    var nextHandle: nat
    var pendingConfirms: nat
    var sent: seq<Timer.Update>
    var activated: seq<Timer.Activation>

    /** The fields as one value. */
    function Snapshot(): Timer.State
      reads this
    {
      Timer.State(timeLeft, isTimerRunning, countdown, liveIntervals, nextHandle,
                  lastTimerReset, isInitialStart, isSkipping, pendingConfirms, sent, activated)
    }

    ghost predicate Valid()
      reads this
    {
      duration > 0 && Timer.Valid(Snapshot())
    }

    /** Loading the script: the globals take their declared values (content.js:2-11). */
    constructor (duration: int)
      requires duration > 0
      ensures Valid() && this.duration == duration && Snapshot() == Timer.Init()
    {
      this.duration := duration;
      timeLeft := None;
      isTimerRunning := false;
      countdown := None;
      lastTimerReset := 0;
      isInitialStart := true;
      isSkipping := false;
      liveIntervals := {};
      nextHandle := 1;
      pendingConfirms := 0;
      sent := [];
      activated := [];
      Timer.InitValid();
    }

    /** stopTimer (content.js:68-75). */
    method StopTimer()
      modifies this
      ensures Snapshot() == Timer.Stop(old(Snapshot()))
      ensures old(Valid()) ==> Valid()
    {
      if countdown.Some? {
        liveIntervals := liveIntervals - {countdown.value};
        countdown := None;
      }
      isTimerRunning := false;
      if old(Valid()) {
        Timer.StopProperties(old(Snapshot()));
      }
    }

    /** startCountdown (content.js:94-123, 163-167). */
    method StartCountdown()
      requires Valid()
      modifies this
      ensures Valid()
      ensures Snapshot() == Timer.Start(old(Snapshot()), duration)
    {
      if isTimerRunning {
        return;
      }
      StopTimer();
      if timeLeft.None? || timeLeft.value <= 0 {
        timeLeft := Some(duration);
      }
      isTimerRunning := true;
      sent := sent + [Timer.Update(timeLeft.value, true, None)];
      countdown := Some(nextHandle);
      liveIntervals := liveIntervals + {nextHandle};
      nextHandle := nextHandle + 1;
      Timer.StartProperties(old(Snapshot()), duration);
    }

    /** resetTimer (content.js:77-92). */
    method ResetTimer(now: int)
      requires Valid()
      modifies this
      ensures Valid()
      ensures Snapshot() == Timer.Reset(old(Snapshot()), now, duration)
    {
      if now - lastTimerReset < Timer.ResetCooldown && !isInitialStart {
        return;
      }
      StopTimer();
      timeLeft := Some(duration);
      lastTimerReset := now;
      isInitialStart := false;
      StartCountdown();
    }

    /** clickSkipButton (content.js:229-251): the click on the skip button and the callback it schedules. */
    method ClickSkipButton(doc: Document) returns (skipped: bool)
      modifies this
      ensures (Snapshot(), skipped) == Timer.ClickSkip(old(Snapshot()), SkipButtonPresent(doc))
      ensures old(Valid()) ==> Valid()
    {
      if QuerySelector(doc, SkipButtonSelector).Some? {
        isSkipping := true;
        activated := activated + [Timer.SkipButton];
        pendingConfirms := pendingConfirms + 1;
        return true;
      }
      isSkipping := false;
      return false;
    }

    /**
     * The callback clickSkipButton schedules (content.js:238-245), run when
     * one is pending: clickConfirmSkip on the page as it is then.
     */
    method ConfirmSkip(doc: Document) returns (found: Option<(nat, nat)>)
      requires Valid() && pendingConfirms > 0
      modifies this
      ensures Valid()
      ensures found.Some? ==> ConfirmCandidate(doc, found.value.0, found.value.1)
      ensures found.Some? ==> forall s, i :: ConfirmCandidate(doc, s, i) ==>
        found.value.0 < s || (found.value.0 == s && found.value.1 <= i)
      ensures found.None? <==> forall s, i :: !ConfirmCandidate(doc, s, i)
      ensures Snapshot() == Timer.ConfirmStep(old(Snapshot()), if found.Some? then Some(found.value.1) else None)
    {
      found := FindConfirmButton(doc);
      pendingConfirms := pendingConfirms - 1;
      if found.Some? {
        activated := activated + [Timer.ConfirmButton(found.value.1)];
      } else {
        isSkipping := false;
      }
    }

    /** One firing of interval `h`, a registered one (content.js:123-156). */
    method Tick(h: nat, doc: Document)
      requires Valid() && h in liveIntervals
      modifies this
      ensures Valid()
      ensures Snapshot() == Timer.Tick(old(Snapshot()), h, SkipButtonPresent(doc))
    {
      var current := if timeLeft.Some? then timeLeft.value else 0;
      timeLeft := Some(current - 1);
      sent := sent + [Timer.Update(current - 1, current - 1 > 0, None)];
      if current - 1 <= 0 {
        StopTimer();
        var skipped := ClickSkipButton(doc);
        sent := sent + [Timer.Update(0, false, Some(skipped))];
      }
      Timer.TickProperties(old(Snapshot()), h, SkipButtonPresent(doc));
    }

    /** forceTimerReset (content.js:254-282). */
    method ForceTimerReset(now: int, doc: Document)
      requires Valid()
      modifies this
      ensures Valid()
      ensures Snapshot() == Timer.ForceReset(old(Snapshot()), now, duration, IsQuestionPage(doc))
    {
      if isSkipping && !isInitialStart {
        return;
      }
      if now - lastTimerReset < Timer.ResetCooldown && !isInitialStart {
        return;
      }
      StopTimer();
      timeLeft := Some(duration);
      lastTimerReset := now;
      isInitialStart := false;
      if IsQuestionPage(doc) {
        StartCountdown();
      }
    }

    /** checkAndStartTimer (content.js:285-297); the script also runs it once when it loads (content.js:400-408). */
    method CheckAndStartTimer(now: int, doc: Document) returns (started: bool)
      requires Valid()
      modifies this
      ensures Valid()
      ensures (Snapshot(), started) == Timer.CheckAndStart(old(Snapshot()), now, duration, IsQuestionPage(doc))
    {
      if isSkipping {
        return false;
      }
      if IsQuestionPage(doc) {
        ResetTimer(now);
        return true;
      }
      return false;
    }

    /** The click listener (content.js:349-395), given the button the click landed in, if any. */
    method OnClick(target: Option<ClickedButton>, now: int, doc: Document)
      requires Valid()
      modifies this
      ensures Valid()
      ensures Snapshot() == Timer.OnClick(old(Snapshot()), Classify(target), now, duration, IsQuestionPage(doc))
    {
      var kind := Classify(target);
      if kind == StartClick {
        isSkipping := false;
        isInitialStart := true;
        ForceTimerReset(now, doc);
      } else if kind == NextClick {
        isSkipping := false;
        ForceTimerReset(now, doc);
      }
    }

    /** The mutation observer's callback (content.js:304-337). */
    method OnMutations(mutations: seq<Mutation>, now: int, doc: Document)
      requires Valid()
      modifies this
      ensures Valid()
      ensures Snapshot() ==
        Timer.OnMutations(old(Snapshot()), SignificantBatch(mutations), now, duration, IsQuestionPage(doc))
    {
      var significant := SignificantChange(mutations);
      if significant {
        if !isSkipping && IsQuestionPage(doc) {
          ForceTimerReset(now, doc);
        }
      }
    }

    /** The `onMessage` listener (content.js:412-437): the status it replies. */
    method OnMessage(action: string, now: int, doc: Document) returns (status: string)
      requires Valid()
      modifies this
      ensures Valid()
      ensures (Snapshot(), status) == Timer.Dispatch(old(Snapshot()), action, now, duration, IsQuestionPage(doc))
    {
      if action == "ping" {
        return "ok";
      }
      if action == "checkForQuestion" {
        var found := CheckAndStartTimer(now, doc);
        return if found then "found_and_started" else "not_found";
      }
      if action == "startTimer" && !isTimerRunning {
        StartCountdown();
        return "started";
      }
      return "unknown_action";
    }
  }
}
