/** What `onTick` does with the time left: split a millisecond count into
    hours, minutes within the hour and seconds within the minute, and render
    them as `%02d:%02d:%02d`. */
module TimeDisplay {
  import opened Wrappers
  import opened KotlinLong
  import opened TimeUnit
  import opened Decimal

  /** The three numbers handed to the format string. Hours are unbounded. */
  datatype Clock = Clock(hours: nat, minutes: nat, seconds: nat)

  /** A clock reading with minutes and seconds on a 60-step dial. */
  predicate WellFormed(c: Clock)
  {
    c.minutes < 60 && c.seconds < 60
  }

  /** `hrFormat`, `minFormat` and `secFormat` of `onTick`: whole hours, the
      minutes left over after those hours, the seconds left over after the
      whole minutes. Only the sub-second remainder is dropped. */
  function Decompose(ms: NonNegLong): (c: Clock)
    ensures WellFormed(c)
    ensures c.hours == ms / MillisPerHour
    ensures c.hours * 3600 + c.minutes * 60 + c.seconds == ms / MillisPerSecond
  {
    var hrFormat := MillisToHours(ms);
    var minFormat := MillisToMinutes(ms) - HoursToMinutes(MillisToHours(ms));
    var secFormat := MillisToSeconds(ms) - MinutesToSeconds(MillisToMinutes(ms));
    Clock(hrFormat, minFormat, secFormat)
  }

  /** The decomposition is the only well-formed clock whose total seconds are
      `ms` truncated to whole seconds. */
  lemma DecomposeUnique(ms: NonNegLong, c: Clock)
    requires WellFormed(c)
    requires c.hours * 3600 + c.minutes * 60 + c.seconds == ms / MillisPerSecond
    ensures Decompose(ms) == c
  {
    // Both clocks split the same whole-second count `t` by 3600, then by 60.
    var d := Decompose(ms);
    var t := ms / MillisPerSecond;
    assert c.hours == t / 3600 && d.hours == t / 3600;
    assert c.minutes * 60 + c.seconds == t % 3600;
    assert d.minutes * 60 + d.seconds == t % 3600;
  }

  /** The decomposition agrees with the textbook definition by remainders. */
  lemma DecomposeByRemainders(ms: NonNegLong)
    ensures Decompose(ms).minutes == (ms / MillisPerMinute) % 60
    ensures Decompose(ms).seconds == (ms / MillisPerSecond) % 60
  {
    // Whole minutes are whole seconds divided by 60.
    assert ms / MillisPerMinute == (ms / MillisPerSecond) / 60;
  }

  /** `String.format("%02d:%02d:%02d", hours, minutes, seconds)`. */
  function FormatClock(c: Clock): (text: string)
    ensures WellFormed(c) ==> |text| == |Pad2(c.hours)| + 6
    ensures WellFormed(c) ==> text[|text| - 6] == ':' && text[|text| - 3] == ':'
  {
    Pad2(c.hours) + ":" + Pad2(c.minutes) + ":" + Pad2(c.seconds)
  }

  /** The display text a tick with `ms` left produces. */
  function DisplayText(ms: NonNegLong): (text: string)
    ensures |text| >= 8
    ensures |text| == 8 <==> ms < 100 * MillisPerHour
  {
    FormatClock(Decompose(ms))
  }

  /** The hours field of `H…H:MM:SS`: everything before the last six characters. */
  function HoursField(text: string): string
    requires |text| >= 8
  {
    text[..|text| - 6]
  }

  /** The minutes field: the two characters between the two colons. */
  function MinutesField(text: string): string
    requires |text| >= 8
  {
    text[|text| - 5..|text| - 3]
  }

  /** The seconds field: the last two characters. */
  function SecondsField(text: string): string
    requires |text| >= 8
  {
    text[|text| - 2..]
  }

  /** `text` has the `H…H:MM:SS` shape with decimal digits in every field. */
  predicate IsDisplayShaped(text: string)
  {
    && |text| >= 8
    && text[|text| - 6] == ':' && text[|text| - 3] == ':'
    && AllDigits(HoursField(text))
    && AllDigits(MinutesField(text))
    && AllDigits(SecondsField(text))
  }

  /** Reads a display text back into the clock it shows. */
  function ParseDisplay(text: string): Option<Clock>
  {
    if IsDisplayShaped(text)
    then Some(Clock(ParseDigits(HoursField(text)), ParseDigits(MinutesField(text)), ParseDigits(SecondsField(text))))
    else None
  }

  /** Formatting loses nothing: the three fields read back as the clock. */
  lemma ParseFormatClock(c: Clock)
    requires WellFormed(c)
    ensures ParseDisplay(FormatClock(c)) == Some(c)
  {
    ParseJoin(Pad2(c.hours), Pad2(c.minutes), Pad2(c.seconds));
    ParsePad2(c.hours);
    ParsePad2(c.minutes);
    ParsePad2(c.seconds);
  }

  /** Parsing `h:mm:ss` with two-wide digit fields `mm` and `ss` reads the
      three fields back. */
  lemma ParseJoin(h: string, m: string, s: string)
    requires |h| >= 2 && |m| == 2 && |s| == 2
    requires AllDigits(h) && AllDigits(m) && AllDigits(s)
    ensures ParseDisplay(h + ":" + m + ":" + s) == Some(Clock(ParseDigits(h), ParseDigits(m), ParseDigits(s)))
  {
    var text := h + ":" + m + ":" + s;
    var n := |h|;
    assert |text| == n + 6;
    assert text[n] == ':' && text[n + 3] == ':';
    assert HoursField(text) == h by {
      assert text[..n] == h;
    }
    assert MinutesField(text) == m by {
      assert text[n + 1..n + 3] == m;
    }
    assert SecondsField(text) == s by {
      assert text[n + 4..] == s;
    }
    assert IsDisplayShaped(text);
  }

  /** The display text of a tick reads back as that tick's decomposition. */
  lemma ParseDisplayText(ms: NonNegLong)
    ensures ParseDisplay(DisplayText(ms)) == Some(Decompose(ms))
  {
    ParseFormatClock(Decompose(ms));
  }

  /** One hour, one minute and one second left shows as `01:01:01`. */
  lemma DisplayOneHourOneMinuteOneSecond()
    ensures DisplayText(3_661_000) == "01:01:01"
  {
  }
}
