/** `parse_duration`, the argument type of `--duration`: hours and minutes as `"HH:MM"`. */
module Arguments {
  import opened Options
  import opened Text

  const MicrosPerMinute: int := 60_000_000

  /** A `timedelta` in microseconds, or the `ArgumentTypeError` raised for a malformed value. */
  datatype DurationArg = Duration(micros: int) | InvalidFormat

  /**
   * `hours, minutes = map(int, text.split(':'))`: any `ValueError` (a field `int()` rejects,
   * too few or too many fields) becomes `InvalidFormat`. Neither field is range-checked.
   */
  function ParseDuration(text: string): DurationArg
  {
    var fields := Split(text, ':');
    if |fields| != 2 then InvalidFormat
    else
      match (ParseInt(fields[0]), ParseInt(fields[1]))
      case (Some(hours), Some(minutes)) => Duration((hours * 60 + minutes) * MicrosPerMinute)
      case _ => InvalidFormat
  }

  /** Only a text with exactly one colon can be a duration. */
  lemma ParseDurationNeedsOneColon(text: string)
    requires Occurrences(text, ':') != 1
    ensures ParseDuration(text) == InvalidFormat
  {
    SplitCount(text, ':');
  }

  lemma ReadHoursMinutes(text: string, hours: string, minutes: string, h: int, m: int)
    requires ':' !in hours && ':' !in minutes && text == hours + ":" + minutes
    requires ParseInt(hours) == Some(h) && ParseInt(minutes) == Some(m)
    ensures ParseDuration(text) == Duration((h * 60 + m) * MicrosPerMinute)
  {
    SplitAfter(hours, ':', minutes);
    SplitWithout(minutes, ':');
  }

  /**
   * A value is accepted exactly when it is two colon-free fields around one colon, each of
   * which `int()` accepts; it then stands for that many hours plus that many minutes.
   */
  lemma ParseDurationAccepts(text: string)
    ensures ParseDuration(text).Duration? <==>
      exists hours, minutes :: text == hours + ":" + minutes && ':' !in hours && ':' !in minutes &&
        ParseInt(hours).Some? && ParseInt(minutes).Some?
    ensures ParseDuration(text).Duration? ==>
      exists hours, minutes :: text == hours + ":" + minutes && ':' !in hours && ':' !in minutes &&
        ParseInt(hours).Some? && ParseInt(minutes).Some? &&
        ParseDuration(text).micros == (ParseInt(hours).value * 60 + ParseInt(minutes).value) * MicrosPerMinute
  {
    if ParseDuration(text).Duration? {
      var fields := Split(text, ':');
      JoinSplit(text, ':');
      assert Join(fields, ':') == fields[0] + ":" + fields[1] by {
        assert fields[1..] == [fields[1]];
      }
      assert ':' !in fields[0] && ':' !in fields[1];
    } else {
      forall hours, minutes | text == hours + ":" + minutes && ':' !in hours && ':' !in minutes
        ensures ParseInt(hours).None? || ParseInt(minutes).None?
      {
        if ParseInt(hours).Some? && ParseInt(minutes).Some? {
          ReadHoursMinutes(text, hours, minutes, ParseInt(hours).value, ParseInt(minutes).value);
        }
      }
    }
  }

  /** Any two integers written with `%d` around a colon are read back as that many hours and minutes. */
  lemma ParseDurationOfInts(hours: int, minutes: int)
    ensures ParseDuration(IntText(hours) + ":" + IntText(minutes)) ==
      Duration((hours * 60 + minutes) * MicrosPerMinute)
  {
    assert ':' !in IntText(hours) && ':' !in IntText(minutes);
    ParseIntText(hours);
    ParseIntText(minutes);
    ReadHoursMinutes(IntText(hours) + ":" + IntText(minutes), IntText(hours), IntText(minutes), hours, minutes);
  }

  /** Leading zeros are accepted: `"02:30"` is two and a half hours. */
  lemma ParseDurationZeroPadded(hours: nat, minutes: nat)
    requires hours < 100 && minutes < 100
    ensures ParseDuration(Pad2(hours) + ":" + Pad2(minutes)) ==
      Duration((hours * 60 + minutes) * MicrosPerMinute)
  {
    assert ':' !in Pad2(hours) && ':' !in Pad2(minutes);
    ParseIntDigits(Pad2(hours));
    ParseIntDigits(Pad2(minutes));
    ReadHoursMinutes(Pad2(hours) + ":" + Pad2(minutes), Pad2(hours), Pad2(minutes), hours, minutes);
  }

  /** The accepted value the command line is documented with. */
  lemma ParseDurationExamples()
    ensures ParseDuration("02:30") == Duration(150 * MicrosPerMinute)
  {
    assert Pad2(2) + ":" + Pad2(30) == "02:30";
    ParseDurationZeroPadded(2, 30);
  }

  /** The malformed values the command line is documented to reject. */
  lemma ParseDurationRejects()
    ensures ParseDuration("2:3:4") == InvalidFormat
    ensures ParseDuration("abc") == InvalidFormat
    ensures ParseDuration("") == InvalidFormat
  {
    ParseDurationNeedsOneColon("2:3:4");
    ParseDurationNeedsOneColon("abc");
    ParseDurationNeedsOneColon("");
  }

  /** Minutes are not range-checked, and a sign applies to the hours only. */
  lemma ParseDurationUnchecked()
    ensures ParseDuration("1:90") == Duration(150 * MicrosPerMinute)
    ensures ParseDuration("-1:30") == Duration(-30 * MicrosPerMinute)
  {
    assert IntText(1) + ":" + IntText(90) == "1:90";
    ParseDurationOfInts(1, 90);
    assert IntText(-1) + ":" + IntText(30) == "-1:30";
    ParseDurationOfInts(-1, 30);
  }
}
