/**
 * The background worker (background.js): a fixed clock string, the last
 * timer state it was told about, and a message handler that records
 * updates, rebroadcasts them and answers state queries.
 */
module Background {
  import opened Wrappers

  /** The hard-coded string `getCurrentTime` returns. */
  const CurrentTime := "2025-01-19T22:29:23-08:00"

  /** The action under which every recorded update is broadcast again. */
  const RebroadcastAction := "timerUpdate"

  /** A runtime message as the handler reads it. */
  datatype Request = Request(action: string, time: int, isRunning: bool, skipped: Option<bool>)

  /** An argument passed to `sendResponse`; the sender receives only the first one. */
  datatype Reply = TimeReply(time: string) | StatusReply(status: string) | StateReply(timeLeft: int, isRunning: bool)

  /** A message broadcast with `chrome.runtime.sendMessage`. */
  datatype Broadcast = Broadcast(action: string, time: int, isRunning: bool, skipped: Option<bool>)

  /** The rebroadcast of a recorded update: the running flag is recomputed from the time. */
  function Rebroadcast(request: Request): (b: Broadcast)
    ensures b.action == RebroadcastAction && b.time == request.time && b.skipped == request.skipped
    ensures b.isRunning <==> request.time > 0
  {
    Broadcast(RebroadcastAction, request.time, request.time > 0, request.skipped)
  }

  class Worker {
    var timeLeft: int
    var isRunning: bool
    /** Every message this worker has broadcast, oldest first. */
    var broadcasts: seq<Broadcast>

    /** The initial `timerState`: ten seconds, not running. */
    constructor ()
      ensures timeLeft == 10 && !isRunning && broadcasts == []
    {
      timeLeft := 10;
      isRunning := false;
      broadcasts := [];
    }

    /**
     * The onMessage handler. Every message gets at least one reply; only
     * updateCountdown changes the state, and only it broadcasts.
     */
    method OnMessage(request: Request) returns (replies: seq<Reply>)
      modifies this
      ensures |replies| >= 1
      ensures request.action == "updateCountdown" ==>
        && timeLeft == request.time && (isRunning <==> request.time > 0)
        && broadcasts == old(broadcasts) + [Rebroadcast(request)]
        && replies == [StatusReply("updated")]
      ensures request.action != "updateCountdown" ==>
        timeLeft == old(timeLeft) && isRunning == old(isRunning) && broadcasts == old(broadcasts)
      ensures request.action == "getTime" ==> replies == [TimeReply(CurrentTime), StatusReply("unknown_action")]
      ensures request.action == "getTimerState" ==> replies == [StateReply(old(timeLeft), old(isRunning))]
      ensures request.action != "getTime" && request.action != "updateCountdown" && request.action != "getTimerState" ==>
        replies == [StatusReply("unknown_action")]
    {
      replies := [];
      if request.action == "getTime" {
        replies := replies + [TimeReply(CurrentTime)];
      }
      if request.action == "updateCountdown" {
        timeLeft := request.time;
        isRunning := request.time > 0;
        broadcasts := broadcasts + [Broadcast(RebroadcastAction, timeLeft, isRunning, request.skipped)];
        replies := replies + [StatusReply("updated")];
        return;
      }
      if request.action == "getTimerState" {
        replies := replies + [StateReply(timeLeft, isRunning)];
        return;
      }
      replies := replies + [StatusReply("unknown_action")];
    }
  }
}
