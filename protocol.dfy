/**
 * How the three scripts' messages meet: the content script's reports as
 * the background worker records them and as the popup shows them, and the
 * popup's commands as the content script's listener answers them.
 */
module Protocol {
  import opened Wrappers
  import Timer
  import Popup
  import Background

  /** A content-script report as the runtime message the other scripts receive. */
  function AsRequest(u: Timer.Update): (r: Background.Request)
    ensures r.action == "updateCountdown" && r.time == u.time && r.isRunning == u.isRunning && r.skipped == u.skipped
  {
    Background.Request("updateCountdown", u.time, u.isRunning, u.skipped)
  }

  /** What the popup shows on receiving report `u` directly from the content script. */
  function PopupView(u: Timer.Update): (v: Popup.View)
    ensures v.display == Popup.FormatTime(u.time)
  {
    Popup.OnRuntimeMessage("updateCountdown", u.time, u.isRunning, u.skipped).value
  }

  /**
   * The background worker recomputes the running flag from the time, which
   * for every report the content script has sent gives back the flag it
   * carried: the rebroadcast says what the report said.
   */
  lemma RelayPreservesReports(s: Timer.State, u: Timer.Update)
    requires Timer.Valid(s) && u in s.sent
    ensures Background.Rebroadcast(AsRequest(u)) ==
      Background.Broadcast(Background.RebroadcastAction, u.time, u.isRunning, u.skipped)
  {
  }

  /** The popup listens for `updateCountdown` only, so it ignores the worker's rebroadcasts. */
  lemma PopupIgnoresRebroadcast(request: Background.Request)
    ensures var b := Background.Rebroadcast(request);
      Popup.OnRuntimeMessage(b.action, b.time, b.isRunning, b.skipped).None?
  {
  }

  /**
   * Every report the content script sends shows in the popup either as a
   * running timer with time left and the skip button, or as time's up with
   * the button hidden: the popup's "Timer stopped" status is never shown for
   * these reports.
   */
  lemma PopupStatusForReports(s: Timer.State, u: Timer.Update)
    requires Timer.Valid(s) && u in s.sent
    ensures var v := PopupView(u);
      && v.status != "Timer stopped"
      && (v.status == "Timer running" <==> u.time > 0)
      && (v.skipShown <==> u.time > 0)
  {
    Popup.StatusDecision(u.time, u.isRunning, u.skipped);
  }

  /**
   * When a running countdown expires, the popup's last view shows 00:00, hides
   * the skip button and says whether the skip button was found and clicked.
   */
  lemma ExpiryShownInPopup(s: Timer.State, skipButton: bool)
    requires Timer.Valid(s) && s.running
    ensures var r := Timer.Run(s, s.timeLeft.value, skipButton);
      && |r.sent| > 0
      && PopupView(r.sent[|r.sent| - 1]) ==
        Popup.View("00:00", if skipButton then "Time's up! Question skipped" else "Time's up!", false)
  {
    Timer.RunToExpiry(s, skipButton);
    assert Popup.Digits(0) == "0";
    assert Popup.FormatTime(0) == "00:00";
  }

  /**
   * The content script's listener has no branch for the popup's commands, so
   * the popup's skip button never changes the status line, opening the popup
   * never reads the timer state (the display keeps the configured duration),
   * and the content script ignores a duration change. Without a global
   * `updateTimerDuration` on the popup's page the change sends nothing and
   * ends in "Error updating timer"; with one, the popup reports the change as
   * applied although the content script ignored it.
   */
  lemma PopupCommandsHaveNoEffect(s: Timer.State, now: int, duration: int, onQuestionPage: bool,
                                   url: Option<string>, configured: int, input: string,
                                   tabPresent: bool, first: Popup.Delivery, retryDelivered: bool)
    requires Timer.Valid(s) && duration > 0
    ensures var (r, status) := Timer.Dispatch(s, "skipQuestion", now, duration, onQuestionPage);
      r == s && Popup.SkipClickStatus(Some(status)).None?
    ensures Timer.Dispatch(s, "getTimerState", now, duration, onQuestionPage) == (s, "unknown_action")
    ensures var o := Popup.OnOpen(url, configured, true, None, true);
      o.display == Popup.FormatTime(configured) &&
      (Popup.OnTestPrepPage(url) ==> o.status.None? && o.skipShown.None?)
    ensures Timer.Dispatch(s, "updateTimerDuration", now, duration, onQuestionPage) == (s, "unknown_action")
    ensures Popup.DurationToApply(input).Some? ==>
      Popup.OnDurationChange(input, false, tabPresent, first, retryDelivered) ==
        Popup.DurationEffect([], None, Some("Error updating timer"))
    ensures Popup.DurationToApply(input).Some? ==>
      Popup.OnDurationChange(input, true, true, Popup.Delivered, false).status ==
        Some("Timer set to " + Popup.NumberText(Popup.DurationToApply(input).value) + " seconds")
  {
    Timer.UnhandledCommands(s, now, duration, onQuestionPage);
  }
}
