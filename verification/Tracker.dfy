/**
 * `FastingTracker`: the timer fields it updates in place and the history file it appends to.
 * Each method is the in-place counterpart of an operation of `Timer`/`History` and is
 * specified by it; loading and saving the JSON files is not modelled, so the fields stand
 * for what the files hold between invocations.
 */
module Tracker {
  import opened Options
  import Timer
  import History

  /** One numbered entry of the printed history. */
  datatype HistoryLine = HistoryLine(number: nat, endTime: string, duration: string)

  /** What `history` prints: nothing stored yet, or the numbered entries of the listing. */
  datatype HistoryView = NoHistory | Entries(lines: seq<HistoryLine>)

  /** What `status` reports. */
  datatype StatusView = NoTimer | Active(paused: bool, startTime: int, duration: string)

  class FastingTracker {
    var startTime: Option<int>
    var pauseTime: Option<int>
    var totalPauseDuration: int
    /** The contents of the history file; `None` while the file does not exist. */
    var completedFasts: Option<seq<History.CompletedFast>>

    function State(): Timer.TimerState
      reads this
    {
      Timer.TimerState(startTime, pauseTime, totalPauseDuration)
    }

    function Records(): seq<History.CompletedFast>
      reads this
    {
      if completedFasts.Some? then completedFasts.value else []
    }

    /** A tracker over the saved state (`None`: no state file yet) and the saved history. */
    constructor (saved: Option<Timer.TimerState>, history: Option<seq<History.CompletedFast>>)
      ensures State() == (if saved.Some? then saved.value else Timer.Idle)
      ensures completedFasts == history
    {
      if saved.Some? {
        startTime, pauseTime, totalPauseDuration := saved.value.startTime, saved.value.pauseTime, saved.value.totalPause;
      } else {
        startTime, pauseTime, totalPauseDuration := None, None, 0;
      }
      completedFasts := history;
    }

    method Start(now: int, duration: Option<int>) returns (notice: Timer.Notice)
      modifies this`startTime
      ensures (State(), notice) == Timer.Start(old(State()), now, duration)
    {
      if startTime.None? {
        if duration.Some? && duration.value != 0 {
          startTime := Some(now - duration.value);
        } else {
          startTime := Some(now);
        }
        notice := Timer.Started(Timer.DurationText(State(), now));
      } else {
        notice := Timer.AlreadyRunning;
      }
    }

    /** `save_completed_fast`: appends one record to the history file, creating it if need be. */
    method SaveCompletedFast(endTime: string, duration: string)
      modifies this`completedFasts
      ensures completedFasts == Some(old(Records()) + [History.CompletedFast(endTime, duration)])
    {
      var stored := if completedFasts.Some? then completedFasts.value else [];
      completedFasts := Some(stored + [History.CompletedFast(endTime, duration)]);
    }

    /**
     * `stop`: records the fast (unless it is discarded) with `endTime`, the ISO-8601 text of
     * `now`, and clears the timer. With no fast running nothing changes.
     */
    method Stop(now: int, endTime: string, store: bool) returns (notice: Timer.Notice)
      modifies this
      ensures (State(), notice) == Timer.Stop(old(State()), now, store)
      ensures completedFasts ==
        if notice.Stopped? && store
        then Some(old(Records()) + [History.CompletedFast(endTime, notice.duration)])
        else old(completedFasts)
    {
      if startTime.Some? {
        var duration := Timer.DurationText(State(), now);
        if store {
          SaveCompletedFast(endTime, duration);
        }
        startTime, pauseTime, totalPauseDuration := None, None, 0;
        notice := Timer.Stopped(store, duration);
      } else {
        notice := Timer.NotRunning;
      }
    }

    method Pause(now: int) returns (notice: Timer.Notice)
      modifies this`pauseTime
      ensures (State(), notice) == Timer.Pause(old(State()), now)
    {
      if startTime.Some? && pauseTime.None? {
        pauseTime := Some(now);
        notice := Timer.Paused;
      } else {
        notice := Timer.NotRunningOrPaused;
      }
    }

    method Resume(now: int) returns (notice: Timer.Notice)
      modifies this`pauseTime, this`totalPauseDuration
      ensures (State(), notice) == Timer.Resume(old(State()), now)
    {
      if pauseTime.Some? {
        var pauseDuration := now - pauseTime.value;
        totalPauseDuration := totalPauseDuration + pauseDuration;
        pauseTime := None;
        notice := Timer.Resumed;
      } else {
        notice := Timer.NotPaused;
      }
    }

    /** `status`: whether a fast is open, whether it is paused, when it started and how long it has run. */
    function Status(now: int): (view: StatusView)
      reads this
      ensures startTime.None? <==> view == NoTimer
      ensures view.Active? ==>
        view.paused == pauseTime.Some? && Some(view.startTime) == startTime &&
        view.duration == Timer.DurationText(State(), now)
    {
      if startTime.Some? then Active(pauseTime.Some?, startTime.value, Timer.DurationText(State(), now))
      else NoTimer
    }

    /**
     * `get_history`: the stored fasts, latest first, cut to `limit` when it is neither `None`
     * nor 0, numbered from 1. Storage is only read.
     */
    method GetHistory(limit: Option<nat>) returns (view: HistoryView)
      ensures completedFasts.None? ==> view == NoHistory
      ensures completedFasts.Some? ==>
        var listed := History.Listing(completedFasts.value, limit);
        view.Entries? && |view.lines| == |listed| &&
        forall k :: 0 <= k < |listed| ==>
          view.lines[k] == HistoryLine(k + 1, listed[k].endTime, listed[k].duration)
    {
      if completedFasts.None? {
        return NoHistory;
      }
      var listed := History.Listing(completedFasts.value, limit);
      var lines: seq<HistoryLine> := [];
      for i := 0 to |listed|
        invariant |lines| == i
        invariant forall k :: 0 <= k < i ==> lines[k] == HistoryLine(k + 1, listed[k].endTime, listed[k].duration)
      {
        lines := lines + [HistoryLine(i + 1, listed[i].endTime, listed[i].duration)];
      }
      view := Entries(lines);
    }
  }
}
