/**
 The time formatter of the clock: the build-time hour mode, the conversion of
 the RTC hour to the hour shown on the face, and the split of a two-digit value
 into the digits that are drawn.
 */
module TimeFormat {

  /** The hour display mode, a build-time constant of the firmware. */
  datatype HourMode = Mode12 | Mode24

  predicate IsHour(h: int) { 0 <= h <= 23 }
  predicate IsMinute(m: int) { 0 <= m <= 59 }

  /**
   The hour shown on the face for the RTC hour h. In 24-hour mode h itself;
   in 12-hour mode the three-way branch of the main loop: h - 12 past noon,
   12 at midnight, h otherwise.
   */
  function DisplayHour(h: int, mode: HourMode): (r: int)
    requires IsHour(h)
    ensures mode == Mode24 ==> r == h
    ensures mode == Mode12 ==> 1 <= r <= 12 && r % 12 == h % 12
    ensures 0 <= r <= 23
  {
    match mode
    case Mode24 => h
    case Mode12 =>
      if h > 12 then h - 12
      else if h == 0 then h + 12
      else h
  }

  /** In 12-hour mode the shown hour is the only value of 1..12 on the same 12-hour dial position. */
  lemma TwelveHourUnique(h: int, v: int)
    requires IsHour(h) && 1 <= v <= 12 && v % 12 == h % 12
    ensures v == DisplayHour(h, Mode12)
  {
  }

  /**
   The boundaries of the 12-hour conversion: midnight shows 12, 1..11 stay,
   noon stays 12, 13 shows 1 and 23 shows 11.
   */
  lemma TwelveHourBoundaries()
    ensures DisplayHour(0, Mode12) == 12
    ensures DisplayHour(1, Mode12) == 1
    ensures DisplayHour(11, Mode12) == 11
    ensures DisplayHour(12, Mode12) == 12
    ensures DisplayHour(13, Mode12) == 1
    ensures DisplayHour(23, Mode12) == 11
  {
  }

  /**
   The tens and the ones digit of a displayed hour or minute, the operands of
   the two `/ 10` and `% 10` expressions behind each pair of drawn digits.
   The values are never negative, so Dafny's division agrees with C's.
   */
  function SplitDigits(v: int): (p: (int, int))
    requires 0 <= v <= 99
    ensures 0 <= p.0 <= 9 && 0 <= p.1 <= 9
    ensures 10 * p.0 + p.1 == v
  {
    (v / 10, v % 10)
  }

  /** The decimal split is the only one: two digits that spell v are the ones SplitDigits gives. */
  lemma SplitDigitsUnique(v: int, tens: int, ones: int)
    requires 0 <= v <= 99 && 0 <= tens <= 9 && 0 <= ones <= 9 && 10 * tens + ones == v
    ensures SplitDigits(v) == (tens, ones)
  {
  }

  /** The tens digit of the shown hour depends on the mode: at most 2 in 24-hour mode, at most 1 in 12-hour mode. */
  lemma HourTensDigit(h: int, mode: HourMode)
    requires IsHour(h)
    ensures SplitDigits(DisplayHour(h, mode)).0 <= (if mode == Mode12 then 1 else 2)
    ensures mode == Mode12 ==> (SplitDigits(DisplayHour(h, mode)).0 == 1 <==> h % 12 >= 10 || h % 12 == 0)
  {
  }
}
