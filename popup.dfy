/**
 * The popup's decisions (popup.js): the countdown text, which duration
 * input it acts on, whether it runs at all on the current tab, and the
 * status line and skip button it shows for each message. The document
 * updates themselves are values here.
 */
module Popup {
  import opened Wrappers
  import opened Text

  // ---------------------------------------------------------------------------
  // Decimal text of integers

  predicate IsDigit(c: char) {
    '0' <= c <= '9'
  }

  predicate AllDigits(s: string) {
    forall i :: 0 <= i < |s| ==> IsDigit(s[i])
  }

  function DigitChar(d: int): char
    requires 0 <= d < 10
  {
    ('0' as int + d) as char
  }

  /** The decimal digits of `n`, most significant first, without leading zeros. */
  function Digits(n: nat): string
    decreases n
  {
    if n < 10 then [DigitChar(n)] else Digits(n / 10) + [DigitChar(n % 10)]
  }

  /** `Number.prototype.toString()` of an integer. */
  function NumberText(n: int): string {
    if n < 0 then "-" + Digits(-n) else Digits(n)
  }

  /** `String.prototype.padStart(width, fill)` with a one-character fill. */
  function PadStart(s: string, width: nat, fill: char): string {
    if |s| >= width then s else seq(width - |s|, _ => fill) + s
  }

  /** JavaScript's `%`, whose result takes the sign of the dividend. */
  function JsRemainder(a: int, b: int): int
    requires b > 0
  {
    if a >= 0 then a % b else -((-a) % b)
  }

  /** The value of a string of decimal digits. */
  function DigitsValue(s: string): int
    decreases |s|
  {
    if s == [] then 0 else DigitsValue(s[..|s| - 1]) * 10 + (s[|s| - 1] as int - '0' as int)
  }

  // ---------------------------------------------------------------------------
  // formatTime (popup.js:2-6)

  /**
   * `Math.floor(seconds / 60)` (Dafny's `/` by a positive divisor also rounds
   * down) and the JavaScript remainder, each padded to two characters.
   */
  function FormatTime(seconds: int): string {
    var mins := seconds / 60;
    var secs := JsRemainder(seconds, 60);
    PadStart(NumberText(mins), 2, '0') + ":" + PadStart(NumberText(secs), 2, '0')
  }

  /** The first position of `c` in `s`. */
  function IndexOf(s: string, c: char): (r: Option<nat>)
    ensures r.Some? ==> r.value < |s| && s[r.value] == c && forall j :: 0 <= j < r.value ==> s[j] != c
    ensures r.None? ==> forall j :: 0 <= j < |s| ==> s[j] != c
    decreases |s|
  {
    if |s| == 0 then None
    else if s[0] == c then Some(0)
    else match IndexOf(s[1..], c)
      case None => None
      case Some(k) => Some(k + 1)
  }

  /** Reads an "mm:ss" display back as its minutes and seconds fields. */
  function ReadTime(text: string): Option<(int, int)> {
    match IndexOf(text, ':')
    case None => None
    case Some(i) =>
      var mm := text[..i];
      var ss := text[i + 1..];
      if |mm| > 0 && |ss| > 0 && AllDigits(mm) && AllDigits(ss)
      then Some((DigitsValue(mm), DigitsValue(ss)))
      else None
  }

  lemma {:induction false} DigitsFacts(n: nat)
    ensures |Digits(n)| >= 1 && AllDigits(Digits(n)) && DigitsValue(Digits(n)) == n
    ensures |Digits(n)| == 1 <==> n < 10
    ensures |Digits(n)| <= 2 <==> n < 100
    decreases n
  {
    if n >= 10 {
      DigitsFacts(n / 10);
      var d := Digits(n);
      assert d[..|d| - 1] == Digits(n / 10);
    }
  }

  /** Leading zeros do not change the value of a digit string. */
  lemma {:induction false} LeadingZeros(z: string, s: string)
    requires forall i :: 0 <= i < |z| ==> z[i] == '0'
    ensures DigitsValue(z + s) == DigitsValue(s)
    decreases |s|, |z|
  {
    if |s| > 0 {
      assert (z + s)[..|z + s| - 1] == z + s[..|s| - 1];
      LeadingZeros(z, s[..|s| - 1]);
    } else if |z| > 0 {
      assert z + s == z;
      assert z[..|z| - 1] + [] == z[..|z| - 1];
      LeadingZeros(z[..|z| - 1], []);
    } else {
      assert z + s == s;
    }
  }

  /** `n` padded to `width` digits: all digits, at least `width` of them, with value `n`. */
  lemma PaddedDigits(n: nat, width: nat)
    ensures var p := PadStart(Digits(n), width, '0');
      |p| >= width && |p| >= 1 && AllDigits(p) && DigitsValue(p) == n
      && (|Digits(n)| < width ==> |p| == width)
  {
    DigitsFacts(n);
    var d := Digits(n);
    if |d| < width {
      var z := seq(width - |d|, _ => '0');
      LeadingZeros(z, d);
      var p := z + d;
      forall i | 0 <= i < |p| ensures IsDigit(p[i]) {
        if i >= |z| {
          assert p[i] == d[i - |z|];
        }
      }
    }
  }

  /**
   * For a non-negative time, the display is the minutes, zero-padded to at
   * least two digits, a colon, and exactly two digits of the seconds.
   */
  lemma FormatTimeFields(seconds: int)
    requires seconds >= 0
    ensures var f := FormatTime(seconds);
      var mm := PadStart(Digits(seconds / 60), 2, '0');
      var ss := PadStart(Digits(seconds % 60), 2, '0');
      && f == mm + ":" + ss
      && |mm| >= 2 && AllDigits(mm) && DigitsValue(mm) == seconds / 60
      && |ss| == 2 && AllDigits(ss) && DigitsValue(ss) == seconds % 60
  {
    PaddedDigits(seconds / 60, 2);
    PaddedDigits(seconds % 60, 2);
    DigitsFacts(seconds % 60);
  }

  /** Reading back a non-negative display gives its minutes and seconds, and they add up again. */
  lemma FormatTimeRoundTrip(seconds: int)
    requires seconds >= 0
    ensures ReadTime(FormatTime(seconds)) == Some((seconds / 60, seconds % 60))
    ensures (seconds / 60) * 60 + seconds % 60 == seconds
  {
    FormatTimeFields(seconds);
    var f := FormatTime(seconds);
    var mm := PadStart(Digits(seconds / 60), 2, '0');
    var ss := PadStart(Digits(seconds % 60), 2, '0');
    assert f[|mm|] == ':';
    forall j | 0 <= j < |mm| ensures f[j] != ':' {
      assert f[j] == mm[j] && IsDigit(mm[j]);
    }
    assert IndexOf(f, ':') == Some(|mm|);
    assert f[..|mm|] == mm;
    assert f[|mm| + 1..] == ss;
  }

  /** Below 100 minutes the display is five characters with the colon in the middle. */
  lemma FormatTimeShape(seconds: int)
    requires 0 <= seconds < 6000
    ensures |FormatTime(seconds)| == 5 && FormatTime(seconds)[2] == ':'
  {
    FormatTimeFields(seconds);
    DigitsFacts(seconds / 60);
    PaddedDigits(seconds / 60, 2);
  }

  /** A negative time keeps JavaScript's signs: -65 seconds shows as "-2:-5". */
  lemma FormatNegativeTime()
    ensures FormatTime(-65) == "-2:-5"
  {
    assert -65 / 60 == -2;
    assert Digits(2) == "2" && Digits(5) == "5";
  }

  // ---------------------------------------------------------------------------
  // The duration input (popup.js:55-93)

  /** The longest prefix of decimal digits. */
  function DigitPrefix(s: string): string
    decreases |s|
  {
    if |s| > 0 && IsDigit(s[0]) then [s[0]] + DigitPrefix(s[1..]) else []
  }

  /**
   * `parseInt(s, 10)` on integers: leading white space, an optional sign and
   * the longest run of digits after it; `None` stands for NaN.
   */
  function ParseInt(s: string): Option<int> {
    var t := TrimStart(s);
    var negative := |t| > 0 && t[0] == '-';
    var body := if |t| > 0 && (t[0] == '-' || t[0] == '+') then t[1..] else t;
    var d := DigitPrefix(body);
    if d == [] then None else Some(if negative then -DigitsValue(d) else DigitsValue(d))
  }

  /** The change handler acts only on a parsed value above zero. */
  function DurationToApply(input: string): (r: Option<int>)
    ensures r.Some? ==> r.value > 0
    ensures r.Some? <==> ParseInt(input).Some? && ParseInt(input).value > 0
  {
    var p := ParseInt(input);
    if p.Some? && p.value > 0 then p else None
  }

  /** What the popup sends to the page's script. */
  datatype Command = Command(action: string, duration: Option<int>)

  /** How a message to the page's script fares: answered, no script listening, or another failure. */
  datatype Delivery = Delivered | NoReceiver | Failed

  /**
   * What a change of the duration input does: the commands sent to the
   * page's script, and the new display and status line (`None`: unchanged).
   */
  datatype DurationEffect = DurationEffect(sent: seq<Command>, display: Option<string>, status: Option<string>)

  /**
   * The change handler. `helperDefined` says whether the page defines the
   * global `updateTimerDuration` it calls first, `tabPresent` whether there is
   * an active tab, `first` how the first message fares and `retryDelivered`
   * whether the second one, sent after injecting the scripts, is answered.
   * Any exception ends in "Error updating timer".
   */
  function OnDurationChange(input: string, helperDefined: bool, tabPresent: bool,
                            first: Delivery, retryDelivered: bool): (r: DurationEffect)
    ensures DurationToApply(input).None? ==> r == DurationEffect([], None, None)
    ensures r.display.Some? <==>
      DurationToApply(input).Some? && helperDefined && tabPresent &&
      (first == Delivered || (first == NoReceiver && retryDelivered))
    ensures r.display.Some? ==>
      r.display == Some(FormatTime(DurationToApply(input).value)) &&
      r.status == Some("Timer set to " + NumberText(DurationToApply(input).value) + " seconds")
    ensures DurationToApply(input).Some? && !helperDefined ==>
      r == DurationEffect([], None, Some("Error updating timer"))
    ensures (DurationToApply(input).Some? && helperDefined && tabPresent &&
             (first == Failed || (first == NoReceiver && !retryDelivered))) ==>
      r.display.None? && r.status == Some("Error updating timer")
    ensures DurationToApply(input).Some? && helperDefined && !tabPresent ==>
      r == DurationEffect([], None, None)
    ensures forall i :: 0 <= i < |r.sent| ==>
      r.sent[i] == Command("updateTimerDuration", DurationToApply(input))
  {
    match DurationToApply(input)
    case None => DurationEffect([], None, None)
    case Some(d) =>
      var cmd := Command("updateTimerDuration", Some(d));
      var done := DurationEffect([], Some(FormatTime(d)), Some("Timer set to " + NumberText(d) + " seconds"));
      if !helperDefined then DurationEffect([], None, Some("Error updating timer"))
      else if !tabPresent then DurationEffect([], None, None)
      else match first
        case Delivered => done.(sent := [cmd])
        case Failed => DurationEffect([cmd], None, Some("Error updating timer"))
        case NoReceiver =>
          if retryDelivered then done.(sent := [cmd, cmd])
          else DurationEffect([cmd, cmd], None, Some("Error updating timer"))
  }

  lemma {:induction false} DigitPrefixOfDigits(s: string)
    requires AllDigits(s)
    ensures DigitPrefix(s) == s
    decreases |s|
  {
    if |s| > 0 {
      DigitPrefixOfDigits(s[1..]);
    }
  }

  /** `parseInt` reads back what `toString` writes, for every integer. */
  lemma ParseIntOfNumberText(n: int)
    ensures ParseInt(NumberText(n)) == Some(n)
  {
    var m := if n < 0 then -n else n;
    DigitsFacts(m);
    DigitPrefixOfDigits(Digits(m));
    var t := NumberText(n);
    assert !IsSpace(t[0]);
    assert TrimStart(t) == t;
    if n < 0 {
      assert t[1..] == Digits(m);
    }
  }

  /** A duration typed as an integer is applied exactly when it is positive. */
  lemma DurationOfNumberText(n: int)
    ensures DurationToApply(NumberText(n)) == if n > 0 then Some(n) else None
  {
    ParseIntOfNumberText(n);
  }

  /** `parseInt` stops at the first character that is not a digit: "30s" is 30, "abc" is rejected. */
  lemma DurationExamples()
    ensures DurationToApply("30s") == Some(30)
    ensures DurationToApply(" 45") == Some(45)
    ensures DurationToApply("abc") == None
    ensures DurationToApply("-5") == None
    ensures DurationToApply("0") == None
    ensures DurationToApply("3.7") == Some(3)
    ensures DurationToApply("1e3") == Some(1)
  {
    assert TrimStart("3.7") == "3.7" && TrimStart("1e3") == "1e3";
    assert DigitPrefix("3.7") == "3" by {
      assert "3.7"[1..] == ".7";
    }
    assert DigitPrefix("1e3") == "1" by {
      assert "1e3"[1..] == "e3";
    }
    assert DigitsValue("3") == 3 && DigitsValue("1") == 1;
    assert TrimStart("30s") == "30s";
    assert DigitPrefix("30s") == "30" by {
      assert "30s"[1..] == "0s" && "0s"[1..] == "s";
    }
    assert DigitsValue("30") == 30 by {
      assert "30"[..1] == "3" && "3"[..0] == "";
    }
    assert TrimStart(" 45") == "45" by {
      assert " 45"[1..] == "45";
    }
    assert DigitPrefix("45") == "45" by {
      assert "45"[1..] == "5" && "5"[1..] == "";
    }
    assert DigitsValue("45") == 45 by {
      assert "45"[..1] == "4" && "4"[..0] == "";
    }
    assert "-5"[1..] == "5";
    assert DigitPrefix("5") == "5" by {
      assert "5"[1..] == "";
    }
    assert DigitPrefix("0") == "0" by {
      assert "0"[1..] == "";
    }
  }

  // ---------------------------------------------------------------------------
  // Opening the popup (popup.js:34-131)

  const TestPrepMarker := "khanacademy.org/test-prep"

  /** The URL gate: there is an active tab and its URL contains the test-prep path. */
  predicate OnTestPrepPage(url: Option<string>) {
    url.Some? && Contains(url.value, TestPrepMarker)
  }

  /**
   * The popup's state once opening is done: the countdown text, the status
   * line (`None`: left as the page has it), whether the skip button is shown
   * (`None`: left as is), the actions sent to the page's script, whether the
   * duration and skip handlers were attached, and whether the update
   * listener was registered.
   */
  datatype Opened = Opened(display: string, status: Option<string>, skipShown: Option<bool>,
                           sent: seq<string>, controls: bool, listening: bool)

  /**
   * Opening the popup, given the active tab's URL, the configured duration,
   * whether the page's script answers, the time and running flag in its
   * answer to getTimerState (`None` when the answer carries no `timeLeft`),
   * and whether injecting the scripts succeeds when it does not answer.
   */
  function OnOpen(url: Option<string>, configured: int, answers: bool,
                  state: Option<(int, bool)>, injected: bool): (r: Opened)
    ensures !OnTestPrepPage(url) ==>
      r.sent == [] && r.skipShown == Some(false) && !r.controls && !r.listening &&
      r.status == Some("Timer only works on SAT test-prep pages")
    ensures OnTestPrepPage(url) ==> r.controls && |r.sent| >= 1 && r.sent[0] == "ping"
    ensures r.listening <==> OnTestPrepPage(url) && (answers || injected)
    ensures r.display == FormatTime(if OnTestPrepPage(url) && answers && state.Some? then state.value.0 else configured)
  {
    var display := FormatTime(configured);
    if !OnTestPrepPage(url) then
      Opened(display, Some("Timer only works on SAT test-prep pages"), Some(false), [], false, false)
    else if answers then
      match state
      case Some((t, running)) =>
        Opened(FormatTime(t), Some(if running then "Timer running" else "Timer ready"), Some(running),
               ["ping", "getTimerState"], true, true)
      case None => Opened(display, None, None, ["ping", "getTimerState"], true, true)
    else if injected then Opened(display, Some("Timer ready"), None, ["ping"], true, true)
    else Opened(display, Some("Error loading timer"), None, ["ping"], true, false)
  }

  // ---------------------------------------------------------------------------
  // The update listener (popup.js:134-152)

  /** The countdown text, the status line and whether the skip button is shown. */
  datatype View = View(display: string, status: string, skipShown: bool)

  /**
   * The listener reacts to `updateCountdown` only. It first picks the status
   * from the running flag and then overrides it when the time is up; the
   * `skipped` flag counts only when it is `true`.
   */
  function OnRuntimeMessage(action: string, time: int, isRunning: bool, skipped: Option<bool>): (r: Option<View>)
    ensures r.Some? <==> action == "updateCountdown"
    ensures r.Some? ==> r.value.display == FormatTime(time)
  {
    if action != "updateCountdown" then None
    else
      var status := if !isRunning then "Timer stopped" else "Timer running";
      var shown := isRunning;
      if time <= 0 then
        Some(View(FormatTime(time), if skipped == Some(true) then "Time's up! Question skipped" else "Time's up!", false))
      else Some(View(FormatTime(time), status, shown))
  }

  /**
   * When the time is up the status says so, and whether the question was
   * skipped, and the skip button is hidden whatever the running flag says.
   * While time is left the status follows the running flag and the button is
   * shown exactly when the timer runs.
   */
  lemma StatusDecision(time: int, isRunning: bool, skipped: Option<bool>)
    ensures var v := OnRuntimeMessage("updateCountdown", time, isRunning, skipped).value;
      && (time <= 0 ==>
            !v.skipShown &&
            v.status == (if skipped == Some(true) then "Time's up! Question skipped" else "Time's up!"))
      && (time > 0 ==>
            (v.skipShown <==> isRunning) &&
            v.status == (if isRunning then "Timer running" else "Timer stopped"))
  {
  }

  /** The new status after a click on the popup's skip button, given the reply (`None`: sending failed). */
  function SkipClickStatus(reply: Option<string>): (r: Option<string>)
    ensures r == Some("Question skipped") <==> reply == Some("skipped")
  {
    if reply.None? then Some("Error skipping question")
    else if reply.value == "skipped" then Some("Question skipped")
    else None
  }
}
