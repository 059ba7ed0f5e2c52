# Fasting tracker: the timer state machine and its history

`fasting_tracker` is a command-line intermittent-fasting timer. A single `FastingTracker`
keeps the current fast in three fields: `start_time`, `pause_time` and
`total_pause_duration`. Four guarded operations change them: `start`, with an optional
backdate; `pause`; `resume`; and `stop`, which stores or discards the fast. Each operation
either updates the fields or reports a warning and changes nothing. `get_duration` derives
the elapsed active time and shows it truncated to whole seconds. `stop` appends a completed
fast to a history log. `history` lists the log latest first, optionally cut to a number of
entries. `parse_duration` reads the `HH:MM` value of `--duration`.

The project is organised as follows:

- `Options.dfy`: the `Option` type.
- `Text.dfy`: the pieces of Python string handling the tracker relies on.
  - `%d` and `%02d` rendering.
  - `int()` applied to a string: whitespace, a sign, and underscores between digits.
  - `str.split` on one character, and `str.join` as its inverse.
- `TimedeltaText.dfy`: `str(timedelta)` with its microseconds cut off, in both forms.
  - Below one day the form is `H:MM:SS`.
  - Otherwise it is `D day(s), H:MM:SS`, and `D` may be negative.
  - A reader maps this text back to the second count.
- `Timer.dfy`: the timer state as a value.
  - The four operations as functions returning the new state and a notice.
  - The duration derivation.
  - The invariant the operations keep, and the lemmas about pause accounting and frozen durations.
- `History.dfy`: the completed-fast records and Python's `str` order on their end times.
  - The stable descending sort `list.sort(key=..., reverse=True)` performs.
  - The `limit` cut.
- `Tracker.dfy`: the class `FastingTracker`.
  - Its fields are updated in place by methods that are specified by the `Timer` functions.
  - `SaveCompletedFast` appends to the history.
  - `GetHistory` numbers the listing in a loop.
- `Arguments.dfy`: `parse_duration`.

Time is a wall-clock reading in integer microseconds. Every operation that reads the clock
takes that reading as a parameter, `now`. The end time of a stored fast is its ISO-8601
text. The model treats it as an opaque string, passed in by the caller and compared as
Python compares strings.

Where the code and its documentation disagree, the model follows the code:

- Outside a fast, `get_duration` shows `00:00:00`. A running fast of less than a second shows `0:00:00`. Past a day it shows the `D day(s), …` form, not `HH:MM:SS`.
- `start` does not reset `pause_time` or `total_pause_duration`. From any state satisfying `Timer.Consistent`, which every operation keeps, those fields are already empty and zero, so the outcome is the same.
- `resume` checks only that `pause_time` is set.
- A `--limit` of 0 lists every record, as no limit does, because `if limit:` is false for 0.
- A zero backdate is the same as none, because `if duration:` is false for a zero `timedelta`.
- `total_pause_duration` is not guaranteed non-negative: `resume` adds `now - pause_time` whatever the clock says. `Timer.PauseTotalGrows` shows that it never shrinks when the clock runs forward.

## Model

| member | source | states |
|---|---|---|
| Timer.Start | fasting_tracker/cli.py:38-48 | With no fast open, the start time becomes `now` minus the backdate (or `now`) and the pause fields are untouched. The reported duration is the new fast's duration, and right away it equals the backdate. With a fast open, the state is unchanged and the notice is "already running". The invariant is kept. |
| Timer.Stop | fasting_tracker/cli.py:50-65 | With a fast open, all three fields are cleared and the notice carries the store flag and the final duration. Otherwise nothing changes and the notice is "not running". The invariant is kept. |
| Timer.Pause | fasting_tracker/cli.py:83-89 | Only a running, unpaused fast is paused: `pause_time` becomes `now` and the elapsed time is frozen at its value at `now` for every later clock reading. Otherwise nothing changes. The invariant is kept. |
| Timer.Resume | fasting_tracker/cli.py:91-99 | When paused, the pause total grows by `now - pause_time`, the pause is cleared and the start is kept. From then on the elapsed time runs on from its value at `now`. When not paused, nothing changes. The invariant is kept. |
| Timer.Elapsed | fasting_tracker/cli.py:116-117 | No contract of its own. It is `(pause_time or now) - start_time - total_pause_duration` in microseconds. Timer.Pause, Timer.Resume and Timer.PauseAccounting state how operations change it. |
| Timer.DurationText | fasting_tracker/cli.py:114-119 | No contract of its own. Timer.DurationTextMeaning states what the text means. |
| Timer.DurationTextMeaning | fasting_tracker/cli.py:114-119 | The duration is `00:00:00` with no fast open. Otherwise it is a text that reads back as exactly the floor of `(pause_time or now) - start_time - total_pause_duration` in seconds (truncated, not rounded). |
| Timer.PausedDurationFrozen | fasting_tracker/cli.py:114-117 | While paused, the duration text is the same at any two clock readings. |
| Timer.PauseThenResume | fasting_tracker/cli.py:83-99 | Right after a resume, the duration equals the duration at the moment of the pause. The elapsed time is the original elapsed time minus the length of the pause. |
| Timer.PauseAccounting | fasting_tracker/cli.py:83-99 | After any sequence of pause/resume pairs, the pause total has grown by exactly the sum of the pause lengths, the start is kept, and the elapsed time excludes exactly that time. |
| Timer.RunKeepsConsistent | fasting_tracker/cli.py:38-99 | Any sequence of start/stop/pause/resume keeps "a pause only inside a fast, no pause total outside one". |
| Timer.PauseTotalGrows | fasting_tracker/cli.py:91-94 | With a clock that never runs backwards and no stop, the pause total never decreases. |
| Timer.StartTwice | fasting_tracker/cli.py:38-48 | A second start is refused and leaves the first start's state. |
| Timer.BackdatedStart | fasting_tracker/cli.py:38-46 | A start backdated by 1:30 reports `1:30:00` at once and is `now - 90 min`. Its elapsed time is at least 90 minutes at any later reading. |
| TimedeltaText.SecondsText | fasting_tracker/cli.py:118 | No contract of its own. It renders `str(timedelta)` cut to whole seconds. TimedeltaText.SecondsTextRoundTrip states that the text reads back as its second count. |
| TimedeltaText.SecondsTextRoundTrip | fasting_tracker/cli.py:118 | Every duration text, day form included, reads back as the second count it was made from, so distinct durations show distinct texts. |
| Text.IntText | fasting_tracker/cli.py:118 | `%d` is a non-empty numeral: digits, with a minus sign only in front. |
| Text.Pad2 | fasting_tracker/cli.py:118 | `%02d` is exactly two digits whose value is the number. |
| Text.NatTextValue | fasting_tracker/cli.py:118 | The numeral of `n` has the value `n`. |
| Text.ParseInt | fasting_tracker/cli.py:144 | No contract of its own. Text.ParseIntText and Text.ParseIntDigits state what `int()` reads. |
| Text.ParseIntText | fasting_tracker/cli.py:144 | `int()` reads the `%d` text of any integer back as that integer. |
| Text.ParseIntDigits | fasting_tracker/cli.py:144 | `int()` reads any run of digits, leading zeros included, as its decimal value. |
| Text.Split | fasting_tracker/cli.py:144 | `split` returns at least one piece, and no piece contains the separator. |
| Text.JoinSplit | fasting_tracker/cli.py:144 | Joining the pieces of a split with the separator gives back the string. |
| Text.SplitJoin | fasting_tracker/cli.py:144 | Splitting a join of separator-free pieces gives back the pieces. |
| Text.SplitCount | fasting_tracker/cli.py:144 | A split has one piece more than the string has separators. |
| History.SortByEndTime | fasting_tracker/cli.py:127 | No contract of its own. History.SortByEndTimeSpec and History.DescendingOrderIsUnique state that it is Python's stable descending sort. |
| History.SortByEndTimeSpec | fasting_tracker/cli.py:127 | The sort is a permutation and is descending by end time. Records with equal end times stay in stored order. |
| History.DescendingOrderIsUnique | fasting_tracker/cli.py:127 | Two descending orders that keep each end time's records in the same order are equal, so the model's sort is the one a stable `sort(reverse=True)` gives. |
| History.Listing | fasting_tracker/cli.py:126-131 | No contract of its own. History.ListingPrefix, History.ListingContents and History.ListingLeavesOutOlder state what the listing holds. |
| History.ListingPrefix | fasting_tracker/cli.py:126-131 | The listing is a prefix of the sorted records. Its length is `min(limit, n)` for a non-zero `limit`, and `n` otherwise. |
| History.ListingContents | fasting_tracker/cli.py:126-131 | The listing is latest first and holds only stored records. Without a limit it holds all of them. |
| History.ListingLeavesOutOlder | fasting_tracker/cli.py:126-131 | A record the limit leaves out ended no later than any listed record. |
| History.ListingSpec | fasting_tracker/cli.py:126-131 | The three listing lemmas above in one statement: the listing is the first `min(limit, n)` sorted records when `limit` is non-zero, and all `n` otherwise. It is descending and draws only on the stored records. It is all of them without a limit. No left-out record ended later than a listed one. |
| History.NewestListedFirst | fasting_tracker/cli.py:121-131 | A fast appended with an end time later than every stored one heads the listing, whatever the limit. |
| History.ListingOfThree | fasting_tracker/cli.py:126-131 | Records stored earliest, latest, middle and listed with limit 2 give latest, then middle. |
| History.ListingExample | fasting_tracker/cli.py:126-131 | End times Jan 1, Jan 3 and Jan 2, 2024, with limit 2, list Jan 3, then Jan 2. |
| Arguments.ParseDuration | fasting_tracker/cli.py:142-147 | No contract of its own. Arguments.ParseDurationAccepts states when a value is accepted and what it means. |
| Arguments.ParseDurationAccepts | fasting_tracker/cli.py:142-147 | A value is accepted exactly when it is two colon-free, `int()`-readable fields around one colon. It then means `hours*60 + minutes` minutes. |
| Arguments.ParseDurationNeedsOneColon | fasting_tracker/cli.py:142-147 | A value with zero or several colons is rejected. |
| Arguments.ParseDurationOfInts | fasting_tracker/cli.py:144-145 | `"%d:%d" % (h, m)` is accepted as `h` hours plus `m` minutes, for any integers. |
| Arguments.ParseDurationZeroPadded | fasting_tracker/cli.py:144-145 | `"%02d:%02d"` values are accepted as hours and minutes. |
| Arguments.ParseDurationExamples | fasting_tracker/cli.py:144-145 | `02:30` is 150 minutes. |
| Arguments.ParseDurationRejects | fasting_tracker/cli.py:142-147 | `2:3:4`, `abc` and the empty string are rejected. |
| Arguments.ParseDurationUnchecked | fasting_tracker/cli.py:144-145 | `1:90` is 150 minutes and `-1:30` is -30 minutes. There is no range check, and the sign applies to the hours only. |
| Tracker.FastingTracker.constructor | fasting_tracker/cli.py:11-27 | The fields are the saved state, or empty with a zero pause total when nothing was saved. The history is what the file holds. |
| Tracker.FastingTracker.Start | fasting_tracker/cli.py:38-48 | Only `start_time` may change. The new fields and the notice are those of `Timer.Start`. |
| Tracker.FastingTracker.SaveCompletedFast | fasting_tracker/cli.py:67-81 | Exactly one record is appended after the stored ones, and the file is created if missing. Nothing else changes. |
| Tracker.FastingTracker.Stop | fasting_tracker/cli.py:50-65 | The fields and notice are those of `Timer.Stop`. The history gains exactly one record, holding the final duration, only when a fast was stopped with `store`. Otherwise the history is unchanged. |
| Tracker.FastingTracker.Pause | fasting_tracker/cli.py:83-89 | Only `pause_time` may change, as `Timer.Pause` says. |
| Tracker.FastingTracker.Resume | fasting_tracker/cli.py:91-99 | Only `pause_time` and the pause total may change, as `Timer.Resume` says. |
| Tracker.FastingTracker.Status | fasting_tracker/cli.py:101-112 | "No timer" exactly when no fast is open. Otherwise the view shows whether the fast is paused, its start time and its current duration. |
| Tracker.FastingTracker.GetHistory | fasting_tracker/cli.py:121-140 | With no history file the result is "no history". Otherwise line `k` is numbered `k+1` and shows the end time and duration of the `k`-th listed record. Nothing is modified. |

## Left out

- Reading and writing the JSON state and history files, `os.makedirs` and the path handling are left out (fasting_tracker/cli.py:15-36, 68-79, 122-124). The class fields stand for what the files hold between invocations, and the constructor takes the loaded contents.
- The seconds-as-float round trip of `total_pause_duration` through the state file is not modelled. The pause total stays exact in microseconds.
- Logging is not modelled, because it is an observability side effect only.
- The `argparse` wiring and the dispatcher in `main` are not modelled. Neither are `--limit` values below zero, which slice from the end; `limit` is an optional natural number.
- The emoji message texts and the history header are reduced to `Timer.Notice` and the `StatusView`/`HistoryView` values.
- `strftime` rendering of start and end times is left out. `Tracker.FastingTracker.Status` gives the start time as a clock reading, and `Tracker.FastingTracker.GetHistory` gives the stored ISO text, not the reformatted date.
- `datetime.now`, `isoformat` and `fromisoformat` are foreign library calls. The clock is the `now` parameter, and a stored end time is the caller-supplied ISO text of the moment of the stop.
- Tracker.FastingTracker.Stop: the source reads the clock twice during a stop, once for the duration and once for the end time. The model uses one reading `now` for the duration, and the end time is a separate parameter.
- Tracker.FastingTracker.Start: the displayed duration is computed from the same `now` as the start time, not from a second clock reading.
- `OverflowError` from `datetime`/`timedelta` arithmetic outside their ranges is not modelled. Durations are unbounded integers.
- Text.ParseInt accepts only ASCII digits and ASCII whitespace (space, tab, line feed, vertical tab, form feed, carriage return). Python's `int()` also accepts other Unicode decimal digits and Unicode whitespace.
- Arguments.ParseDuration inherits that restriction from `Text.ParseInt`.
- Text.ParseInt has no limit on the number of digits. Python 3.11 and later (and the 3.7–3.10 security releases) raise `ValueError` when `int()` reads a decimal string of more than 4300 digits (`sys.int_info.default_max_str_digits`). The model instead reads such a string as its value.
- Arguments.ParseDuration inherits the missing digit limit: a field of more than 4300 digits, such as 4300 zeros before `2`, is accepted by the model, while Python raises `ArgumentTypeError` for it.
- `list.sort` is modelled as a pure stable sort of the stored sequence, not an in-place sort of a list object. The list is local to `get_history`, so no other state is affected.
- Races between concurrent invocations on the same files are not modelled, because they are concurrency.
