/**
 * The text the tracker shows and stores for a duration: Python's `str(timedelta)`
 * with its microsecond part cut off, that is `"H:MM:SS"` below one day and
 * `"D day, H:MM:SS"` / `"D days, H:MM:SS"` otherwise, `D` possibly negative.
 */
module TimedeltaText {
  import opened Options
  import opened Text

  const SecondsPerDay: nat := 86400

  /** `"%d:%02d:%02d" % (hours, minutes, seconds)` for a second count within one day. */
  function ClockText(secs: nat): string
    requires secs < SecondsPerDay
  {
    NatText(secs / 3600) + ":" + Pad2(secs / 60 % 60) + ":" + Pad2(secs % 60)
  }

  /**
   * `str(timedelta(seconds = s))`. A timedelta keeps a whole number of days and a
   * second count in `[0, 86400)`, so the day count is the floor of `s / 86400`.
   */
  function SecondsText(s: int): string
  {
    var days := s / SecondsPerDay;
    var clock := ClockText(s % SecondsPerDay);
    if days == 0 then clock
    else IntText(days) + " " + DayWord(days) + " " + clock
  }

  /** `"day%s," % plural(days)`: singular exactly when the day count is 1 or -1. */
  function DayWord(days: int): string
  {
    if days == 1 || days == -1 then "day," else "days,"
  }

  /** Reads back a clock `"H:MM:SS"` as a number of seconds. */
  function ReadClock(c: string): Option<int>
  {
    var fields := Split(c, ':');
    if |fields| != 3 then None
    else
      match (ParseInt(fields[0]), ParseInt(fields[1]), ParseInt(fields[2]))
      case (Some(h), Some(m), Some(sec)) => Some(h * 3600 + m * 60 + sec)
      case _ => None
  }

  /** Reads back a duration text as a number of seconds: the inverse of `SecondsText`. */
  function ReadSeconds(text: string): Option<int>
  {
    var words := Split(text, ' ');
    if |words| == 1 then ReadClock(words[0])
    else if |words| == 3 && (words[1] == "day," || words[1] == "days,") then
      match (ParseInt(words[0]), ReadClock(words[2]))
      case (Some(d), Some(c)) => Some(d * SecondsPerDay + c)
      case _ => None
    else None
  }

  lemma ClockArithmetic(secs: nat)
    ensures (secs / 3600) * 3600 + (secs / 60 % 60) * 60 + secs % 60 == secs
  {
    var q := secs / 60;
    assert secs == q * 60 + secs % 60;
    assert q == (q / 60) * 60 + q % 60;
    assert secs / 3600 == q / 60;
  }

  lemma ClockTextSplit(secs: nat)
    requires secs < SecondsPerDay
    ensures ' ' !in ClockText(secs)
    ensures Split(ClockText(secs), ':') == [NatText(secs / 3600), Pad2(secs / 60 % 60), Pad2(secs % 60)]
  {
    var fields := [NatText(secs / 3600), Pad2(secs / 60 % 60), Pad2(secs % 60)];
    assert Join(fields, ':') == ClockText(secs) by {
      assert fields[1..][1..] == [fields[2]];
      assert Join(fields[1..], ':') == fields[1] + ":" + fields[2];
    }
    forall i | 0 <= i < 3
      ensures ':' !in fields[i] && ' ' !in fields[i]
    {
      assert AllDigits(fields[i]);
    }
    SplitJoin(fields, ':');
  }

  lemma ReadClockFields(text: string, h: string, m: string, sec: string, total: int)
    requires Split(text, ':') == [h, m, sec]
    requires ParseInt(h).Some? && ParseInt(m).Some? && ParseInt(sec).Some?
    requires total == ParseInt(h).value * 3600 + ParseInt(m).value * 60 + ParseInt(sec).value
    ensures ReadClock(text) == Some(total)
  {
    var fields := Split(text, ':');
    assert |fields| == 3 && fields[0] == h && fields[1] == m && fields[2] == sec;
  }

  lemma ClockTextRoundTrip(secs: nat)
    requires secs < SecondsPerDay
    ensures ' ' !in ClockText(secs)
    ensures ReadClock(ClockText(secs)) == Some(secs)
  {
    var h, m, sec := NatText(secs / 3600), Pad2(secs / 60 % 60), Pad2(secs % 60);
    ClockTextSplit(secs);
    ParseIntDigits(h);
    NatTextValue(secs / 3600);
    ParseIntDigits(m);
    ParseIntDigits(sec);
    ClockArithmetic(secs);
    ReadClockFields(ClockText(secs), h, m, sec, secs);
  }

  lemma DayWordsSplit(days: int, clock: string)
    requires ' ' !in clock
    ensures Split(IntText(days) + " " + DayWord(days) + " " + clock, ' ') == [IntText(days), DayWord(days), clock]
  {
    var words := [IntText(days), DayWord(days), clock];
    assert Join(words, ' ') == IntText(days) + " " + DayWord(days) + " " + clock by {
      assert words[1..][1..] == [clock];
      assert Join(words[1..], ' ') == DayWord(days) + " " + clock;
    }
    assert ' ' !in DayWord(days);
    assert ' ' !in IntText(days);
    SplitJoin(words, ' ');
  }

  /** The text of a duration of a day or more reads back as days and a clock. */
  lemma ReadDayWords(text: string, days: int, clock: string, c: int, total: int)
    requires text == IntText(days) + " " + DayWord(days) + " " + clock
    requires ' ' !in clock && ReadClock(clock) == Some(c)
    requires total == days * SecondsPerDay + c
    ensures ReadSeconds(text) == Some(total)
  {
    DayWordsSplit(days, clock);
    ParseIntText(days);
  }

  /** A text without a space is read as a bare clock. */
  lemma ReadBareClock(text: string, c: int)
    requires ' ' !in text && ReadClock(text) == Some(c)
    ensures ReadSeconds(text) == Some(c)
  {
    SplitWithout(text, ' ');
  }

  lemma SecondsTextWithinDay(s: int)
    requires 0 <= s < SecondsPerDay
    ensures ReadSeconds(SecondsText(s)) == Some(s)
  {
    assert SecondsText(s) == ClockText(s);
    ClockTextRoundTrip(s);
    ReadBareClock(SecondsText(s), s);
  }

  lemma SecondsTextBeyondDay(s: int)
    requires s / SecondsPerDay != 0
    ensures ReadSeconds(SecondsText(s)) == Some(s)
  {
    var days, rem := s / SecondsPerDay, s % SecondsPerDay;
    assert days * SecondsPerDay + rem == s;
    var clock := ClockText(rem);
    assert SecondsText(s) == IntText(days) + " " + DayWord(days) + " " + clock;
    ClockTextRoundTrip(rem);
    ReadDayWords(SecondsText(s), days, clock, rem, s);
  }

  /** Every duration text the tracker produces reads back as the second count it was made from. */
  lemma SecondsTextRoundTrip(s: int)
    ensures ReadSeconds(SecondsText(s)) == Some(s)
  {
    if 0 <= s < SecondsPerDay {
      SecondsTextWithinDay(s);
    } else {
      SecondsTextBeyondDay(s);
    }
  }
}
