/**
 * The countdown timer hook (src/hooks/usePomodoroTimer.js): a reducer over
 * duration, time left and a running flag, and the hook that owns the handle
 * of the one-second interval that feeds it ticks.
 */
module PomodoroTimer {
  import opened Wrappers

  datatype TimerState = TimerState(duration: int, timeLeft: int, isRunning: bool)

  /** The actions dispatched to the timer reducer; `Other` is any other action type. */
  datatype TimerAction = Start | Pause | Reset | Tick | SetDuration(seconds: int) | Other(kind: string)

  /** The hook's default duration: 25 minutes. */
  const DefaultDuration: int := 25 * 60

  /** The time left lies between zero and the duration. */
  predicate InRange(s: TimerState) {
    0 <= s.timeLeft <= s.duration
  }

  /** The reducer's initial state: the full duration left, not running. */
  function Initial(duration: int): (s: TimerState)
    ensures duration >= 0 ==> InRange(s)
    ensures !s.isRunning && s.timeLeft == s.duration == duration
  {
    TimerState(duration, duration, false)
  }

  /**
   * The timer reducer. Every action keeps the time left within the duration
   * when a new duration is not negative; only a set-duration action changes
   * the duration; only a start can turn the timer on; a tick counts down by
   * one without going below zero and stops the timer on reaching zero; start
   * and pause only switch the timer on and off; reset and set-duration stop
   * it with the full duration left; any other action changes nothing.
   */
  function TimerReducer(state: TimerState, action: TimerAction): (r: TimerState)
    ensures InRange(state) && (action.SetDuration? ==> action.seconds >= 0) ==> InRange(r)
    ensures r.duration == if action.SetDuration? then action.seconds else state.duration
    ensures r.isRunning ==> action.Start? || (state.isRunning && (action.Tick? || action.Other?))
    ensures action.Tick? ==> r.timeLeft == (if state.timeLeft > 0 then state.timeLeft - 1 else 0)
    ensures action.Tick? ==> (r.isRunning <==> state.isRunning && r.timeLeft > 0)
    ensures action.Start? || action.Pause? ==> r.timeLeft == state.timeLeft && (r.isRunning <==> action.Start?)
    ensures action.Reset? ==> r.timeLeft == state.duration && !r.isRunning
    ensures action.SetDuration? ==> r.timeLeft == action.seconds && !r.isRunning
    ensures action.Other? ==> r == state
  {
    match action
    case Start => state.(isRunning := true)
    case Pause => state.(isRunning := false)
    case Reset => state.(timeLeft := state.duration, isRunning := false)
    case Tick =>
      state.(
        timeLeft := if 0 > state.timeLeft - 1 then 0 else state.timeLeft - 1,
        isRunning := if state.timeLeft > 1 then state.isRunning else false)
    case SetDuration(d) => state.(duration := d, timeLeft := d, isRunning := false)
    case Other(_) => state
  }

  /** The state after `n` ticks. */
  function Ticks(state: TimerState, n: nat): TimerState {
    if n == 0 then state else TimerReducer(Ticks(state, n - 1), Tick)
  }

  /**
   * `n` ticks take `n` seconds off without going below zero and leave the
   * timer running only if it was running and has time left.
   */
  lemma {:induction false} TicksCountDown(state: TimerState, n: nat)
    requires state.timeLeft >= 0
    ensures Ticks(state, n).timeLeft == if state.timeLeft > n then state.timeLeft - n else 0
    ensures Ticks(state, n).isRunning <==> state.isRunning && (n == 0 || state.timeLeft > n)
    ensures Ticks(state, n).duration == state.duration
  {
    if n > 0 {
      TicksCountDown(state, n - 1);
    }
  }

  /**
   * Started from a fresh timer, as many ticks as the duration has seconds end
   * at zero and stopped, and any further ticks leave it there.
   */
  lemma FreshRunExpires(duration: nat, extra: nat)
    requires duration > 0
    ensures Ticks(TimerReducer(Initial(duration), Start), duration) == TimerState(duration, 0, false)
    ensures Ticks(TimerReducer(Initial(duration), Start), duration + extra) == TimerState(duration, 0, false)
  {
    TicksCountDown(TimerReducer(Initial(duration), Start), duration);
    TicksCountDown(TimerReducer(Initial(duration), Start), duration + extra);
  }

  /** Reset after any number of ticks restores the full duration, stopped. */
  lemma ResetAfterTicks(state: TimerState, n: nat)
    requires state.timeLeft >= 0
    ensures TimerReducer(Ticks(state, n), Reset) == TimerState(state.duration, state.duration, false)
  {
    TicksCountDown(state, n);
  }

  /** The state after a sequence of actions. */
  function Run(state: TimerState, actions: seq<TimerAction>): TimerState
    decreases |actions|
  {
    if actions == [] then state else Run(TimerReducer(state, actions[0]), actions[1..])
  }

  /** From the initial state, any run whose new durations are not negative keeps the time left within the duration. */
  lemma {:induction false} RunStaysInRange(state: TimerState, actions: seq<TimerAction>)
    requires InRange(state)
    requires forall i :: 0 <= i < |actions| && actions[i].SetDuration? ==> actions[i].seconds >= 0
    ensures InRange(Run(state, actions))
    decreases |actions|
  {
    if actions != [] {
      RunStaysInRange(TimerReducer(state, actions[0]), actions[1..]);
    }
  }

  /** A handle that `setInterval` returns. */
  type IntervalId = nat

  /**
   * The hook: the reducer's state and `intervalRef.current`. The browser's
   * interval registry is modelled by the set of live handles and the next
   * handle `setInterval` will return.
   */
  class TaskTimer {
    var state: TimerState
    var intervalRef: Option<IntervalId>
    var live: set<IntervalId>
    var nextHandle: IntervalId

    /** The handle the hook holds is live, and every live handle was issued. */
    ghost predicate Valid()
      reads this
    {
      && (intervalRef.Some? ==> intervalRef.value in live)
      && forall h :: h in live ==> h < nextHandle
    }

    /** The handle the hook can still clear, as a set. */
    function Held(): set<IntervalId>
      reads this
    {
      if intervalRef.Some? then {intervalRef.value} else {}
    }

    /** Live intervals the hook holds no handle to: nothing can ever clear them. */
    function Orphans(): set<IntervalId>
      reads this
    {
      live - Held()
    }

    constructor (initialDuration: int)
      ensures Valid()
      ensures state == Initial(initialDuration)
      ensures intervalRef == None && live == {}
    {
      state := Initial(initialDuration);
      intervalRef := None;
      live := {};
      nextHandle := 1;
    }

    /** `setInterval`: registers a new interval under a fresh handle. */
    method SetInterval() returns (h: IntervalId)
      requires Valid()
      modifies this`live, this`nextHandle
      ensures Valid()
      ensures h == old(nextHandle) && h !in old(live) && live == old(live) + {h}
    {
      h := nextHandle;
      live := live + {h};
      nextHandle := nextHandle + 1;
    }

    /** Clears the held interval, if there is one, and forgets its handle. */
    method ClearHeld()
      requires Valid()
      modifies this`live, this`intervalRef
      ensures Valid()
      ensures intervalRef == None && live == old(live) - old(Held())
    {
      if intervalRef.Some? {
        live := live - {intervalRef.value};
        intervalRef := None;
      }
    }

    /**
     * `startTimer`: starts the reducer and installs a new interval, overwriting
     * the handle it held without clearing that interval, which becomes an orphan.
     */
    method StartTimer()
      requires Valid()
      modifies this
      ensures Valid()
      ensures state == TimerReducer(old(state), Start)
      ensures intervalRef.Some? && intervalRef.value !in old(live)
      ensures live == old(live) + {intervalRef.value}
      ensures Orphans() == old(Orphans()) + old(Held())
    {
      state := TimerReducer(state, Start);
      var h := SetInterval();
      intervalRef := Some(h);
    }

    /** `startTimer` as evidently intended: an interval it already holds is cleared first, so none is orphaned. */
    method StartTimerClearing()
      requires Valid()
      modifies this
      ensures Valid()
      ensures state == TimerReducer(old(state), Start)
      ensures intervalRef.Some? && intervalRef.value !in old(live)
      ensures live == old(live) - old(Held()) + {intervalRef.value}
      ensures Orphans() == old(Orphans())
    {
      state := TimerReducer(state, Start);
      ClearHeld();
      var h := SetInterval();
      intervalRef := Some(h);
    }

    /** `pauseTimer`: stops the reducer and clears the held interval. */
    method PauseTimer()
      requires Valid()
      modifies this
      ensures Valid()
      ensures state == TimerReducer(old(state), Pause)
      ensures intervalRef == None && live == old(live) - old(Held())
      ensures Orphans() == old(Orphans())
    {
      state := TimerReducer(state, Pause);
      ClearHeld();
    }

    /** `resetTimer`: resets the reducer and clears the held interval. */
    method ResetTimer()
      requires Valid()
      modifies this
      ensures Valid()
      ensures state == TimerReducer(old(state), Reset)
      ensures intervalRef == None && live == old(live) - old(Held())
      ensures Orphans() == old(Orphans())
    {
      state := TimerReducer(state, Reset);
      ClearHeld();
    }

    /** `setDuration`: sets the reducer's duration and clears the held interval. */
    method SetDuration(seconds: int)
      requires Valid()
      modifies this
      ensures Valid()
      ensures state == TimerReducer(old(state), TimerAction.SetDuration(seconds))
      ensures intervalRef == None && live == old(live) - old(Held())
      ensures Orphans() == old(Orphans())
    {
      state := TimerReducer(state, TimerAction.SetDuration(seconds));
      ClearHeld();
    }

    /** The callback of a live interval: dispatches a tick; the reducer stopping does not clear any interval. */
    method TickFrom(h: IntervalId)
      requires Valid() && h in live
      modifies this`state
      ensures Valid()
      ensures state == TimerReducer(old(state), Tick)
    {
      state := TimerReducer(state, Tick);
    }
  }

  /** The hook called without an initial duration: 25 minutes left, stopped, no interval. */
  method DefaultTimer() returns (timer: TaskTimer)
    ensures timer.Valid()
    ensures timer.state == TimerState(1500, 1500, false)
    ensures timer.intervalRef == None && timer.live == {}
  {
    timer := new TaskTimer(DefaultDuration);
  }

  /**
   * The leak as written: a one-second timer runs out (its interval is still
   * registered, since reaching zero only stops the reducer), Start is pressed
   * again (the button is enabled at 0:00), then Reset; one interval stays live
   * with no handle left to clear it.
   */
  method ExpiredRestartLeaks() returns (orphans: nat)
    ensures orphans == 1
  {
    var timer := new TaskTimer(1);
    timer.StartTimer();
    timer.TickFrom(timer.intervalRef.value);
    assert timer.state == TimerState(1, 0, false) && timer.intervalRef.Some?;
    timer.StartTimer();
    timer.ResetTimer();
    assert timer.Held() == {};
    orphans := |timer.Orphans()|;
  }

  /** The same presses with the corrected start leave no live interval behind. */
  method ExpiredRestartClearing() returns (orphans: nat)
    ensures orphans == 0
  {
    var timer := new TaskTimer(1);
    timer.StartTimerClearing();
    timer.TickFrom(timer.intervalRef.value);
    timer.StartTimerClearing();
    timer.ResetTimer();
    orphans := |timer.live|;
  }
}
