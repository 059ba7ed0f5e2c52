/**
 * The timer state of `FastingTracker` as a value: the start of the current fast,
 * the moment it was paused, and the pause time accumulated so far, together with
 * the four guarded operations on it and the duration derived from it.
 * Times are wall-clock microseconds; the clock reading of an operation is its `now`.
 */
module Timer {
  import opened Options
  import TimedeltaText

  const MicrosPerSecond: nat := 1_000_000

  datatype TimerState = TimerState(startTime: Option<int>, pauseTime: Option<int>, totalPause: int)

  /** The state of a tracker that has never run a fast, and the state `stop` leaves behind. */
  const Idle := TimerState(None, None, 0)

  /** What an operation reports back; the `Not…`/`Already…` notices mark a refused operation. */
  datatype Notice =
    | Started(duration: string)
    | AlreadyRunning
    | Stopped(stored: bool, duration: string)
    | NotRunning
    | Paused
    | NotRunningOrPaused
    | Resumed
    | NotPaused

  /** The invariant the operations keep: paused only inside a fast, no pause time outside one. */
  predicate Consistent(t: TimerState)
  {
    (t.pauseTime.Some? ==> t.startTime.Some?) && (t.startTime.None? ==> t.totalPause == 0)
  }

  /** `(pause_time or now) - start_time - total_pause_duration`, in microseconds. */
  function Elapsed(t: TimerState, now: int): int
    requires t.startTime.Some?
  {
    (if t.pauseTime.Some? then t.pauseTime.value else now) - t.startTime.value - t.totalPause
  }

  /**
   * `get_duration`: `"00:00:00"` outside a fast, otherwise the elapsed time as
   * `str(timedelta)` with the microseconds cut off, i.e. the floor of the elapsed
   * microseconds divided by one million.
   */
  function DurationText(t: TimerState, now: int): string
  {
    if t.startTime.Some? then TimedeltaText.SecondsText(Elapsed(t, now) / MicrosPerSecond)
    else "00:00:00"
  }

  /** The duration text names the elapsed time truncated to whole seconds, and nothing else. */
  lemma DurationTextMeaning(t: TimerState, now: int)
    ensures t.startTime.None? ==> DurationText(t, now) == "00:00:00"
    ensures t.startTime.Some? ==>
      TimedeltaText.ReadSeconds(DurationText(t, now)) == Some(Elapsed(t, now) / MicrosPerSecond)
  {
    if t.startTime.Some? {
      TimedeltaText.SecondsTextRoundTrip(Elapsed(t, now) / MicrosPerSecond);
    }
  }

  /** `start`: opens a fast at `now`, or `backdate` earlier; refused while a fast is open. */
  function Start(t: TimerState, now: int, backdate: Option<int>): (r: (TimerState, Notice))
    ensures t.startTime.Some? ==> r == (t, AlreadyRunning)
    ensures t.startTime.None? ==>
      r.0 == t.(startTime := Some(now - if backdate.Some? then backdate.value else 0)) &&
      r.1 == Started(DurationText(r.0, now))
    ensures Consistent(t) && t.startTime.None? ==>
      Elapsed(r.0, now) == if backdate.Some? then backdate.value else 0
    ensures Consistent(t) ==> Consistent(r.0)
  {
    if t.startTime.None? then
      var started := t.(startTime := Some(if backdate.Some? && backdate.value != 0 then now - backdate.value else now));
      (started, Started(DurationText(started, now)))
    else
      (t, AlreadyRunning)
  }

  /** `stop`: ends the open fast, reporting its final duration; refused when no fast is open. */
  function Stop(t: TimerState, now: int, store: bool): (r: (TimerState, Notice))
    ensures t.startTime.Some? ==> r == (Idle, Stopped(store, DurationText(t, now)))
    ensures t.startTime.None? ==> r == (t, NotRunning)
    ensures Consistent(t) ==> Consistent(r.0)
  {
    if t.startTime.Some? then (Idle, Stopped(store, DurationText(t, now)))
    else (t, NotRunning)
  }

  /** `pause`: freezes the duration of a running fast; refused when not running or already paused. */
  function Pause(t: TimerState, now: int): (r: (TimerState, Notice))
    ensures t.startTime.Some? && t.pauseTime.None? ==>
      r == (t.(pauseTime := Some(now)), Paused) &&
      forall later :: Elapsed(r.0, later) == Elapsed(t, now)
    ensures !(t.startTime.Some? && t.pauseTime.None?) ==> r == (t, NotRunningOrPaused)
    ensures Consistent(t) ==> Consistent(r.0)
  {
    if t.startTime.Some? && t.pauseTime.None? then (t.(pauseTime := Some(now)), Paused)
    else (t, NotRunningOrPaused)
  }

  /**
   * `resume`: adds the length of the pause to the pause total and lets the duration run
   * on from the value it was frozen at; refused when not paused.
   */
  function Resume(t: TimerState, now: int): (r: (TimerState, Notice))
    ensures t.pauseTime.Some? ==>
      r.1 == Resumed && r.0.startTime == t.startTime && r.0.pauseTime.None? &&
      r.0.totalPause == t.totalPause + (now - t.pauseTime.value)
    ensures t.pauseTime.Some? && t.startTime.Some? ==>
      forall later :: Elapsed(r.0, later) == Elapsed(t, now) + (later - now)
    ensures t.pauseTime.None? ==> r == (t, NotPaused)
    ensures Consistent(t) ==> Consistent(r.0)
  {
    if t.pauseTime.Some? then
      (t.(pauseTime := None, totalPause := t.totalPause + (now - t.pauseTime.value)), Resumed)
    else
      (t, NotPaused)
  }

  /** While a fast is paused its duration is frozen: it is the same whatever the clock says. */
  lemma PausedDurationFrozen(t: TimerState, now1: int, now2: int)
    requires t.startTime.Some? && t.pauseTime.Some?
    ensures DurationText(t, now1) == DurationText(t, now2)
  {
  }

  /**
   * A pause followed by a resume: the fast shows, right after the resume, the duration it
   * had when it was paused, and the paused time is not counted.
   */
  lemma PauseThenResume(t: TimerState, pausedAt: int, resumedAt: int)
    requires t.startTime.Some? && t.pauseTime.None?
    ensures var resumed := Resume(Pause(t, pausedAt).0, resumedAt).0;
      DurationText(resumed, resumedAt) == DurationText(t, pausedAt) &&
      forall now :: Elapsed(resumed, now) == Elapsed(t, now) - (resumedAt - pausedAt)
  {
    var paused := Pause(t, pausedAt).0;
    var resumed := Resume(paused, resumedAt).0;
    assert Elapsed(resumed, resumedAt) == Elapsed(t, pausedAt);
  }

  /** Starting twice leaves the state of the first start: the second one is refused. */
  lemma StartTwice(t: TimerState, now1: int, backdate1: Option<int>, now2: int, backdate2: Option<int>)
    ensures var first := Start(t, now1, backdate1).0;
      Start(first, now2, backdate2) == (first, AlreadyRunning)
  {
  }

  /** A fast started 1 h 30 min in the past reports `1:30:00` at once, and at least that much later on. */
  lemma BackdatedStart(now: int, later: int)
    requires now <= later
    ensures var (started, notice) := Start(Idle, now, Some(90 * 60 * MicrosPerSecond));
      notice == Started("1:30:00") && started.startTime == Some(now - 90 * 60 * MicrosPerSecond) &&
      Elapsed(started, later) >= 90 * 60 * MicrosPerSecond
  {
    var started := Start(Idle, now, Some(90 * 60 * MicrosPerSecond)).0;
    assert Elapsed(started, now) / MicrosPerSecond == 5400;
    assert TimedeltaText.SecondsText(5400) == "1:30:00";
  }

  /** One pause and the resume that ends it, as the clock readings at which the two happen. */
  datatype PauseInterval = PauseInterval(pausedAt: int, resumedAt: int)

  /** Applies `pause` and then `resume` for each interval in turn. */
  function PauseResume(t: TimerState, intervals: seq<PauseInterval>): TimerState
    decreases |intervals|
  {
    if intervals == [] then t
    else
      var paused := Pause(t, intervals[0].pausedAt).0;
      PauseResume(Resume(paused, intervals[0].resumedAt).0, intervals[1..])
  }

  /** The wall-clock length of all the intervals together. */
  function PausedLength(intervals: seq<PauseInterval>): int
  {
    if intervals == [] then 0
    else (intervals[0].resumedAt - intervals[0].pausedAt) + PausedLength(intervals[1..])
  }

  /**
   * Pause accounting is conserved: after any number of pause/resume pairs the pause total has
   * grown by exactly the length of the pauses, and the duration excludes exactly that time.
   */
  lemma {:induction false} PauseAccounting(t: TimerState, intervals: seq<PauseInterval>)
    requires t.startTime.Some? && t.pauseTime.None?
    ensures var u := PauseResume(t, intervals);
      u.startTime == t.startTime && u.pauseTime.None? &&
      u.totalPause == t.totalPause + PausedLength(intervals) &&
      forall now :: Elapsed(u, now) == Elapsed(t, now) - PausedLength(intervals)
    decreases |intervals|
  {
    if intervals != [] {
      var paused := Pause(t, intervals[0].pausedAt).0;
      var resumed := Resume(paused, intervals[0].resumedAt).0;
      assert resumed.totalPause == t.totalPause + (intervals[0].resumedAt - intervals[0].pausedAt);
      PauseAccounting(resumed, intervals[1..]);
    }
  }

  /** The operations the command line can apply to the timer state. */
  datatype Action = StartFast(backdate: Option<int>) | StopFast(store: bool) | PauseFast | ResumeFast

  function Step(t: TimerState, action: Action, now: int): TimerState
  {
    match action
    case StartFast(backdate) => Start(t, now, backdate).0
    case StopFast(store) => Stop(t, now, store).0
    case PauseFast => Pause(t, now).0
    case ResumeFast => Resume(t, now).0
  }

  /** One invocation after another, each with its action and its clock reading. */
  function Run(t: TimerState, steps: seq<(Action, int)>): TimerState
    decreases |steps|
  {
    if steps == [] then t else Run(Step(t, steps[0].0, steps[0].1), steps[1..])
  }

  /** Whatever sequence of operations is applied, the invariant still holds at the end. */
  lemma {:induction false} RunKeepsConsistent(t: TimerState, steps: seq<(Action, int)>)
    requires Consistent(t)
    ensures Consistent(Run(t, steps))
    decreases |steps|
  {
    if steps != [] {
      RunKeepsConsistent(Step(t, steps[0].0, steps[0].1), steps[1..]);
    }
  }

  /** The clock never runs backwards: not across the steps, nor behind a pending pause. */
  predicate ClockForward(t: TimerState, steps: seq<(Action, int)>)
  {
    (forall i, j :: 0 <= i < j < |steps| ==> steps[i].1 <= steps[j].1) &&
    (t.pauseTime.Some? && steps != [] ==> t.pauseTime.value <= steps[0].1)
  }

  predicate NoStop(steps: seq<(Action, int)>)
  {
    forall i :: 0 <= i < |steps| ==> !steps[i].0.StopFast?
  }

  /** With a clock that runs forward, the pause total only grows until a `stop` resets it. */
  lemma {:induction false} PauseTotalGrows(t: TimerState, steps: seq<(Action, int)>)
    requires ClockForward(t, steps) && NoStop(steps)
    ensures Run(t, steps).totalPause >= t.totalPause
    decreases |steps|
  {
    if steps != [] {
      var next := Step(t, steps[0].0, steps[0].1);
      assert next.totalPause >= t.totalPause;
      assert next.pauseTime.Some? ==> next.pauseTime.value <= steps[0].1;
      assert ClockForward(next, steps[1..]) by {
        if next.pauseTime.Some? && |steps| > 1 {
          assert steps[0].1 <= steps[1].1;
        }
      }
      PauseTotalGrows(next, steps[1..]);
    }
  }
}
