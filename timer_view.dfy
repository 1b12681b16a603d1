/**
 * The timer component (src/components/Timer.jsx): the `MM:SS` display, the
 * minutes-to-seconds duration change and the progress percentage.
 */
module TimerView {
  import opened Wrappers
  import opened Text
  import opened PomodoroTimer

  /** A display field: the decimal digits of `n`, left-padded with '0' to two characters. */
  function TwoDigits(n: nat): string {
    PadStart(DecimalString(n), 2, '0')
  }

  /** `formatTime(seconds)`: whole minutes and remaining seconds, each padded to two digits, joined by ':'. */
  function FormatTime(seconds: nat): (r: string)
    ensures |r| >= 5 && r[|r| - 3] == ':'
  {
    var mins := seconds / 60;
    var secs := seconds % 60;
    TwoDigits(mins) + ":" + TwoDigits(secs)
  }

  /** Reads a display back: digits, ':', then exactly two digits reading below 60. */
  function ParseTime(t: string): Option<nat> {
    if |t| >= 3 && t[|t| - 3] == ':' && AllDigits(t[..|t| - 3]) && AllDigits(t[|t| - 2..])
       && ParseDecimal(t[|t| - 2..]) < 60
    then Some(ParseDecimal(t[..|t| - 3]) * 60 + ParseDecimal(t[|t| - 2..]))
    else None
  }

  /** A padded field is all digits, at least two of them, exactly two below 100, and reads back as `n`. */
  lemma TwoDigitsMeaning(n: nat)
    ensures |TwoDigits(n)| >= 2 && (n < 100 <==> |TwoDigits(n)| == 2)
    ensures AllDigits(TwoDigits(n))
    ensures ParseDecimal(TwoDigits(n)) == n
  {
    var d := DecimalString(n);
    ParseDecimalString(n);
    if n < 10 {
      assert TwoDigits(n) == "0" + d;
      ParseLeadingZero(d);
    }
  }

  /** Reading the display's two fields back gives the number of seconds it shows. */
  lemma FormatTimeRoundTrip(seconds: nat)
    ensures ParseTime(FormatTime(seconds)) == Some(seconds)
  {
    FieldsRoundTrip(seconds / 60, seconds % 60);
  }

  /**
   * A display that reads back as `n` seconds shows the whole minutes of `n`
   * before the ':' and the remaining seconds, below 60, after it.
   */
  lemma ParseTimeFields(t: string, n: nat)
    requires ParseTime(t) == Some(n)
    ensures ParseDecimal(t[..|t| - 3]) == n / 60
    ensures ParseDecimal(t[|t| - 2..]) == n % 60
  {
    var m, s := ParseDecimal(t[..|t| - 3]), ParseDecimal(t[|t| - 2..]);
    assert n == m * 60 + s && 0 <= s < 60;
    DivModUnique(n, m, s);
  }

  lemma DivModUnique(n: nat, q: nat, r: nat)
    requires n == q * 60 + r && r < 60
    ensures q == n / 60 && r == n % 60
  {
  }

  /**
   * The display is five characters long below 100 minutes and six from 100
   * up to 999 minutes, which covers the 120-minute maximum of the duration
   * input.
   */
  lemma FormatTimeLength(seconds: nat)
    ensures seconds < 6000 ==> |FormatTime(seconds)| == 5
    ensures 6000 <= seconds < 60000 ==> |FormatTime(seconds)| == 6
  {
    var mins, secs := seconds / 60, seconds % 60;
    TwoDigitsLength(mins);
    TwoDigitsLength(secs);
    assert |FormatTime(seconds)| == |TwoDigits(mins)| + 3;
  }

  lemma FieldsRoundTrip(mins: nat, secs: nat)
    requires secs < 60
    ensures ParseTime(TwoDigits(mins) + ":" + TwoDigits(secs)) == Some(mins * 60 + secs)
  {
    TwoDigitsMeaning(mins);
    TwoDigitsMeaning(secs);
    ReadFields(TwoDigits(mins), TwoDigits(secs), mins, secs);
  }

  /** A padded field has two characters below 100 and three from 100 up to 999. */
  lemma TwoDigitsLength(n: nat)
    ensures n < 100 ==> |TwoDigits(n)| == 2
    ensures 100 <= n < 1000 ==> |TwoDigits(n)| == 3
  {
    if 100 <= n < 1000 {
      assert |DecimalString(n / 10)| == 2;
    }
  }

  /** Two digit fields joined by ':' read back as minutes and seconds. */
  lemma ReadFields(m: string, s: string, mins: nat, secs: nat)
    requires AllDigits(m) && ParseDecimal(m) == mins
    requires |s| == 2 && AllDigits(s) && ParseDecimal(s) == secs && secs < 60
    ensures ParseTime(m + ":" + s) == Some(mins * 60 + secs)
  {
    var t := m + ":" + s;
    assert t[..|t| - 3] == m;
    assert t[|t| - 2..] == s;
  }

  /** `progress`: the elapsed share of the duration, in percent, or 0 for a zero duration. */
  function Progress(duration: int, timeLeft: int): (p: real)
    ensures duration <= 0 ==> p == 0.0
  {
    if duration > 0 then ((duration - timeLeft) as real / duration as real) * 100.0 else 0.0
  }

  /**
   * While the time left lies within the duration the progress lies within
   * 0 and 100: 0 with the full duration left, 100 with nothing left.
   */
  lemma ProgressBounds(duration: int, timeLeft: int)
    requires 0 <= timeLeft <= duration
    ensures 0.0 <= Progress(duration, timeLeft) <= 100.0
    ensures timeLeft == duration ==> Progress(duration, timeLeft) == 0.0
    ensures 0 == timeLeft < duration ==> Progress(duration, timeLeft) == 100.0
  {
    if duration > 0 {
      var f := (duration - timeLeft) as real / duration as real;
      assert f * duration as real == (duration - timeLeft) as real;
      assert 0.0 <= f <= 1.0;
    }
  }

  /** A tick never lowers the progress shown. */
  lemma ProgressGrowsWithTicks(state: TimerState)
    requires InRange(state)
    ensures Progress(state.duration, state.timeLeft)
         <= Progress(TimerReducer(state, Tick).duration, TimerReducer(state, Tick).timeLeft)
  {
    var d := state.duration;
    if d > 0 {
      var a := (d - state.timeLeft) as real;
      var b := (d - TimerReducer(state, Tick).timeLeft) as real;
      DivideMonotone(a, b, d as real);
    }
  }

  lemma DivideMonotone(a: real, b: real, d: real)
    requires a <= b && d > 0.0
    ensures a / d <= b / d
  {
    assert b / d - a / d == (b - a) / d;
  }

  /** `handleDurationChange`: hands the custom minutes, in seconds, to the hook's `setDuration`. */
  method HandleDurationChange(timer: TaskTimer, customDuration: int)
    requires timer.Valid()
    modifies timer
    ensures timer.Valid()
    ensures timer.state == TimerState(customDuration * 60, customDuration * 60, false)
    ensures timer.intervalRef == None && timer.live == old(timer.live) - old(timer.Held())
  {
    timer.SetDuration(customDuration * 60);
  }
}
