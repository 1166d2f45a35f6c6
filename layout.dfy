/**
 The clock face layout: where the main loop draws the four digits and the
 separator, and the frame one refresh produces.
 */
module Layout {
  import opened Glyphs
  import opened TimeFormat
  import opened Frames

  /** The offsets the main loop draws at: hour tens, hour ones, minute tens, minute ones. */
  const Positions: seq<(int, int)> := [(0, 0), (4, 0), (1, 6), (5, 6)]

  /** Cell (r, c) is written by one refresh: one of the four digit regions or a separator cell. */
  predicate Drawn(r: int, c: int)
  {
    IsDotCell(r, c) || exists k :: 0 <= k < |Positions| && InDigitRegion(r, c, Positions[k].0, Positions[k].1)
  }

  /** The four digit regions and the two separator cells never share a cell. */
  lemma LayoutDisjoint(r: int, c: int)
    ensures forall a, b :: 0 <= a < b < |Positions| ==>
      !(InDigitRegion(r, c, Positions[a].0, Positions[a].1) && InDigitRegion(r, c, Positions[b].0, Positions[b].1))
    ensures forall a :: 0 <= a < |Positions| ==> !(IsDotCell(r, c) && InDigitRegion(r, c, Positions[a].0, Positions[a].1))
    ensures forall a :: 0 <= a < |Positions| ==> ValidOffset(Positions[a].0, Positions[a].1)
  {
  }

  /**
   The frame after one refresh of the main loop: the shown hour and the minute,
   split into tens and ones and drawn at the four positions in the loop's order,
   then the separator.
   */
  function ShowTime(f: Frame, h: int, m: int, mode: HourMode, dots: bool): (g: Frame)
    requires WellFormed(f) && IsHour(h) && IsMinute(m)
    ensures WellFormed(g)
  {
    var (ht, ho) := SplitDigits(DisplayHour(h, mode));
    var (mt, mo) := SplitDigits(m);
    var f1 := PlaceDigit(f, ht, 0, 0);
    var f2 := PlaceDigit(f1, ho, 4, 0);
    var f3 := PlaceDigit(f2, mt, 1, 6);
    var f4 := PlaceDigit(f3, mo, 5, 6);
    PlaceDots(f4, dots)
  }

  /** ShowTime as the loop computes it, one drawing step at a time. */
  lemma ShowTimeSteps(f: Frame, h: int, m: int, mode: HourMode, dots: bool, f2: Frame, f3: Frame, f4: Frame, g: Frame)
    requires WellFormed(f) && IsHour(h) && IsMinute(m)
    requires f2 == PlaceDigit(PlaceDigit(f, DisplayHour(h, mode) / 10, 0, 0), DisplayHour(h, mode) % 10, 4, 0)
    requires f3 == PlaceDigit(f2, m / 10, 1, 6)
    requires f4 == PlaceDigit(f3, m % 10, 5, 6)
    requires g == PlaceDots(f4, dots)
    ensures g == ShowTime(f, h, m, mode, dots)
  {
  }

  /** After a refresh each region holds its own glyph. */
  lemma ShowTimeDigits(f: Frame, h: int, m: int, mode: HourMode, dots: bool)
    requires WellFormed(f) && IsHour(h) && IsMinute(m)
    ensures var g := ShowTime(f, h, m, mode, dots); var dh := DisplayHour(h, mode);
      && ShowsDigit(g, dh / 10, 0, 0)
      && ShowsDigit(g, dh % 10, 4, 0)
      && ShowsDigit(g, m / 10, 1, 6)
      && ShowsDigit(g, m % 10, 5, 6)
  {
    var dh := DisplayHour(h, mode);
    var f1 := PlaceDigit(f, dh / 10, 0, 0);
    var f2 := PlaceDigit(f1, dh % 10, 4, 0);
    var f3 := PlaceDigit(f2, m / 10, 1, 6);
    var f4 := PlaceDigit(f3, m % 10, 5, 6);
    PlaceDigitShows(f, dh / 10, 0, 0);
    PlaceDigitKeepsShown(f1, dh % 10, 4, 0, dh / 10, 0, 0);
    PlaceDigitKeepsShown(f2, m / 10, 1, 6, dh / 10, 0, 0);
    PlaceDigitKeepsShown(f3, m % 10, 5, 6, dh / 10, 0, 0);
    PlaceDotsKeepsShown(f4, dots, dh / 10, 0, 0);
    PlaceDigitShows(f1, dh % 10, 4, 0);
    PlaceDigitKeepsShown(f2, m / 10, 1, 6, dh % 10, 4, 0);
    PlaceDigitKeepsShown(f3, m % 10, 5, 6, dh % 10, 4, 0);
    PlaceDotsKeepsShown(f4, dots, dh % 10, 4, 0);
    PlaceDigitShows(f2, m / 10, 1, 6);
    PlaceDigitKeepsShown(f3, m % 10, 5, 6, m / 10, 1, 6);
    PlaceDotsKeepsShown(f4, dots, m / 10, 1, 6);
    PlaceDigitShows(f3, m % 10, 5, 6);
    PlaceDotsKeepsShown(f4, dots, m % 10, 5, 6);
  }

  /** After a refresh the separator cells hold the dot state and every cell outside the drawn ones is as it was. */
  lemma ShowTimeKeeps(f: Frame, h: int, m: int, mode: HourMode, dots: bool)
    requires WellFormed(f) && IsHour(h) && IsMinute(m)
    ensures var g := ShowTime(f, h, m, mode, dots);
      && g[0][2] == Bit(dots) && g[0][4] == Bit(dots)
      && forall r, c :: InBuffer(r, c) && !Drawn(r, c) ==> g[r][c] == f[r][c]
  {
    var g := ShowTime(f, h, m, mode, dots);
    forall r, c | InBuffer(r, c) && !Drawn(r, c) ensures g[r][c] == f[r][c] {
      assert !InDigitRegion(r, c, Positions[0].0, Positions[0].1);
      assert !InDigitRegion(r, c, Positions[1].0, Positions[1].1);
      assert !InDigitRegion(r, c, Positions[2].0, Positions[2].1);
      assert !InDigitRegion(r, c, Positions[3].0, Positions[3].1);
    }
  }

  /**
   After a refresh each region holds its own glyph, the separator cells hold the
   dot state and every other cell is as it was.
   */
  lemma ShowTimeLayout(f: Frame, h: int, m: int, mode: HourMode, dots: bool)
    requires WellFormed(f) && IsHour(h) && IsMinute(m)
    ensures var g := ShowTime(f, h, m, mode, dots); var dh := DisplayHour(h, mode);
      && ShowsDigit(g, dh / 10, 0, 0)
      && ShowsDigit(g, dh % 10, 4, 0)
      && ShowsDigit(g, m / 10, 1, 6)
      && ShowsDigit(g, m % 10, 5, 6)
      && g[0][2] == Bit(dots) && g[0][4] == Bit(dots)
      && forall r, c :: InBuffer(r, c) && !Drawn(r, c) ==> g[r][c] == f[r][c]
  {
    ShowTimeDigits(f, h, m, mode, dots);
    ShowTimeKeeps(f, h, m, mode, dots);
  }

  /** 00:05 in 12-hour mode is drawn as 1 2 0 5. */
  lemma ShowTimeMidnight(f: Frame, dots: bool)
    requires WellFormed(f)
    ensures var g := ShowTime(f, 0, 5, Mode12, dots);
      ShowsDigit(g, 1, 0, 0) && ShowsDigit(g, 2, 4, 0) && ShowsDigit(g, 0, 1, 6) && ShowsDigit(g, 5, 5, 6)
  {
    assert DisplayHour(0, Mode12) == 12;
    ShowTimeDigits(f, 0, 5, Mode12, dots);
  }

  /** 13:59 in 12-hour mode is drawn as 0 1 5 9. */
  lemma ShowTimeAfternoon12(f: Frame, dots: bool)
    requires WellFormed(f)
    ensures var g := ShowTime(f, 13, 59, Mode12, dots);
      ShowsDigit(g, 0, 0, 0) && ShowsDigit(g, 1, 4, 0) && ShowsDigit(g, 5, 1, 6) && ShowsDigit(g, 9, 5, 6)
  {
    assert DisplayHour(13, Mode12) == 1;
    ShowTimeDigits(f, 13, 59, Mode12, dots);
  }

  /** 13:59 in 24-hour mode is drawn as 1 3 5 9. */
  lemma ShowTimeAfternoon24(f: Frame, dots: bool)
    requires WellFormed(f)
    ensures var g := ShowTime(f, 13, 59, Mode24, dots);
      ShowsDigit(g, 1, 0, 0) && ShowsDigit(g, 3, 4, 0) && ShowsDigit(g, 5, 1, 6) && ShowsDigit(g, 9, 5, 6)
  {
    assert DisplayHour(13, Mode24) == 13;
    ShowTimeDigits(f, 13, 59, Mode24, dots);
  }

  /** Reads the time back off the face: the shown hour and the minute, or None. */
  function ReadTime(g: Frame): Option<(int, int)>
    requires WellFormed(g)
  {
    match (ReadDigit(g, 0, 0), ReadDigit(g, 4, 0), ReadDigit(g, 1, 6), ReadDigit(g, 5, 6))
    case (Some(ht), Some(ho), Some(mt), Some(mo)) => Some((10 * ht + ho, 10 * mt + mo))
    case _ => None
  }

  /** Four fully drawn glyphs spelling hh and mm are read back as hh and mm. */
  lemma ReadDrawnTime(g: Frame, hh: int, mm: int)
    requires WellFormed(g) && 0 <= hh <= 99 && 0 <= mm <= 99
    requires ShowsDigit(g, hh / 10, 0, 0) && ShowsDigit(g, hh % 10, 4, 0)
    requires ShowsDigit(g, mm / 10, 1, 6) && ShowsDigit(g, mm % 10, 5, 6)
    ensures ReadTime(g) == Some((hh, mm))
  {
    ReadShownDigit(g, hh / 10, 0, 0);
    ReadShownDigit(g, hh % 10, 4, 0);
    ReadShownDigit(g, mm / 10, 1, 6);
    ReadShownDigit(g, mm % 10, 5, 6);
  }

  /** The face shows the time: a refresh is read back as the shown hour and the minute. */
  lemma ReadShownTime(f: Frame, h: int, m: int, mode: HourMode, dots: bool)
    requires WellFormed(f) && IsHour(h) && IsMinute(m)
    ensures ReadTime(ShowTime(f, h, m, mode, dots)) == Some((DisplayHour(h, mode), m))
  {
    ShowTimeLayout(f, h, m, mode, dots);
    ReadDrawnTime(ShowTime(f, h, m, mode, dots), DisplayHour(h, mode), m);
  }

  /** Two refreshes give the same picture exactly when they show the same hour and minute and dot state. */
  lemma ShowTimeDeterminesTime(f: Frame, h1: int, m1: int, h2: int, m2: int, mode: HourMode, dots: bool)
    requires WellFormed(f) && IsHour(h1) && IsMinute(m1) && IsHour(h2) && IsMinute(m2)
    ensures ShowTime(f, h1, m1, mode, dots) == ShowTime(f, h2, m2, mode, dots)
      <==> DisplayHour(h1, mode) == DisplayHour(h2, mode) && m1 == m2
  {
    if ShowTime(f, h1, m1, mode, dots) == ShowTime(f, h2, m2, mode, dots) {
      ReadShownTime(f, h1, m1, mode, dots);
      ReadShownTime(f, h2, m2, mode, dots);
    }
  }

  /** In 24-hour mode the face tells every time of day apart; in 12-hour mode exactly the times twelve hours apart look alike. */
  lemma FaceDistinguishesHours(f: Frame, h1: int, h2: int, m: int, dots: bool)
    requires WellFormed(f) && IsHour(h1) && IsHour(h2) && IsMinute(m)
    ensures ShowTime(f, h1, m, Mode24, dots) == ShowTime(f, h2, m, Mode24, dots) <==> h1 == h2
    ensures ShowTime(f, h1, m, Mode12, dots) == ShowTime(f, h2, m, Mode12, dots) <==> h1 % 12 == h2 % 12
  {
    ShowTimeDeterminesTime(f, h1, m, h2, m, Mode24, dots);
    ShowTimeDeterminesTime(f, h1, m, h2, m, Mode12, dots);
    if h1 % 12 == h2 % 12 {
      TwelveHourUnique(h2, DisplayHour(h1, Mode12));
    }
  }
}
