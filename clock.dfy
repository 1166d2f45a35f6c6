/**
 The clock appliance: the display buffer, the blink state and the refresh flag
 that the periodic callback raises and the main loop consumes. State is a
 value-level description of one pass of the loop; ClockFace is the firmware's
 global state as an object whose methods update it in place.
 */
module Clock {
  import opened Glyphs
  import opened TimeFormat
  import opened Frames
  import opened Layout

  /** What the firmware keeps between passes of the main loop. */
  datatype State = State(frame: Frame, secondsOn: bool, irqFlag: bool)

  /** The state at start-up: a blank buffer, the separator on and no refresh pending. */
  function Initial(): (s: State)
    ensures WellFormed(s.frame) && s.secondsOn && !s.irqFlag
  {
    State(Blank(), true, false)
  }

  /** The periodic callback: it raises the refresh flag and touches nothing else. */
  function Interrupt(s: State): (t: State)
    ensures t.irqFlag && t.frame == s.frame && t.secondsOn == s.secondsOn
  {
    s.(irqFlag := true)
  }

  /**
   One pass of the main loop, given the hour and minute the RTC reports. With
   the flag raised it flips the blink state, draws the time and the separator
   and lowers the flag; with the flag down it changes nothing.
   */
  function Step(s: State, h: int, m: int, mode: HourMode): (t: State)
    requires WellFormed(s.frame) && IsHour(h) && IsMinute(m)
    ensures WellFormed(t.frame) && !t.irqFlag
    ensures t.secondsOn == (s.secondsOn != s.irqFlag)
    ensures !s.irqFlag ==> t == s
  {
    if s.irqFlag then
      var on := !s.secondsOn;
      State(ShowTime(s.frame, h, m, mode, on), on, false)
    else
      s
  }

  /** A refresh shows the time and the new blink state. */
  lemma StepShowsTime(s: State, h: int, m: int, mode: HourMode)
    requires WellFormed(s.frame) && IsHour(h) && IsMinute(m) && s.irqFlag
    ensures var t := Step(s, h, m, mode);
      && ReadTime(t.frame) == Some((DisplayHour(h, mode), m))
      && t.frame[0][2] == Bit(t.secondsOn) && t.frame[0][4] == Bit(t.secondsOn)
      && t.secondsOn == !s.secondsOn
  {
    ReadShownTime(s.frame, h, m, mode, !s.secondsOn);
    ShowTimeLayout(s.frame, h, m, mode, !s.secondsOn);
  }

  /** The state after the callback has fired n times in a row. */
  function Interrupts(s: State, n: nat): (t: State)
    ensures t.frame == s.frame && t.secondsOn == s.secondsOn && t.irqFlag == (s.irqFlag || n > 0)
  {
    if n == 0 then s else Interrupt(Interrupts(s, n - 1))
  }

  /** Callbacks that fire before the loop polls are coalesced: the flag is a level, not a count. */
  lemma {:induction false} InterruptsCoalesce(s: State, n: nat)
    requires n >= 1
    ensures Interrupts(s, n) == Interrupt(s)
  {
    if n > 1 {
      InterruptsCoalesce(s, n - 1);
    }
  }

  /** However often the callback fired, the next pass refreshes once, and the pass after it changes nothing. */
  lemma OneRefreshPerPoll(s: State, n: nat, h: int, m: int, h2: int, m2: int, mode: HourMode)
    requires WellFormed(s.frame) && n >= 1 && IsHour(h) && IsMinute(m) && IsHour(h2) && IsMinute(m2)
    ensures Step(Interrupts(s, n), h, m, mode) == Step(Interrupt(s), h, m, mode)
    ensures Step(Step(Interrupts(s, n), h, m, mode), h2, m2, mode) == Step(Interrupt(s), h, m, mode)
  {
    InterruptsCoalesce(s, n);
  }

  /** The separator blinks with a period of two refreshes. */
  lemma BlinkPeriod(s: State, h1: int, m1: int, h2: int, m2: int, mode: HourMode)
    requires WellFormed(s.frame) && IsHour(h1) && IsMinute(m1) && IsHour(h2) && IsMinute(m2)
    ensures Step(Interrupt(s), h1, m1, mode).secondsOn == !s.secondsOn
    ensures Step(Interrupt(Step(Interrupt(s), h1, m1, mode)), h2, m2, mode).secondsOn == s.secondsOn
  {
  }

  /** A glyph cell of the array that holds the table's pixel is the cell PlaceDigit computes. */
  lemma DigitCellCopied(t: array2<byte>, f: Frame, d: int, sx: int, sy: int, r: int, c: int)
    requires t.Length0 == Rows && t.Length1 == Cols && WellFormed(f) && IsDigit(d) && ValidOffset(sx, sy)
    requires InBuffer(r, c) && InDigitRegion(r, c, sx, sy) && t[r, c] == Pixel(d, r - sx, 11 - c - sy)
    ensures t[r, c] == PlaceDigit(f, d, sx, sy)[r][c]
  {
  }

  /** An array holding glyph d at (sx, sy) and f elsewhere holds PlaceDigit(f, d, sx, sy). */
  lemma DigitCopied(t: array2<byte>, f: Frame, d: int, sx: int, sy: int, table: seq<seq<byte>>)
    requires t.Length0 == Rows && t.Length1 == Cols && WellFormed(f) && IsDigit(d) && ValidOffset(sx, sy)
    requires |table| == GlyphHeight && (forall j :: 0 <= j < GlyphHeight ==> |table[j]| == GlyphWidth * 10)
    requires forall e, i, j {:trigger Pixel(e, i, j)} :: IsDigit(e) && InGlyph(i, j) ==> table[j][i + e * 3] == Pixel(e, i, j)
    requires forall r, c :: InBuffer(r, c) && !Copied(r, c, sx, sy, GlyphWidth, 0) ==> t[r, c] == f[r][c]
    requires forall gi, gj :: InGlyph(gi, gj) ==> t[gi + sx, 11 - gj - sy] == table[gj][gi + d * 3]
    ensures forall r, c :: InBuffer(r, c) ==> t[r, c] == PlaceDigit(f, d, sx, sy)[r][c]
  {
    forall r, c | InBuffer(r, c) ensures t[r, c] == PlaceDigit(f, d, sx, sy)[r][c] {
      if InDigitRegion(r, c, sx, sy) {
        var gi, gj := r - sx, 11 - c - sy;
        assert r == gi + sx && c == 11 - gj - sy;
        assert InGlyph(gi, gj) && t[gi + sx, 11 - gj - sy] == table[gj][gi + d * 3];
        assert table[gj][gi + d * 3] == Pixel(d, gi, gj);
        DigitCellCopied(t, f, d, sx, sy, r, c);
      }
    }
  }

  /**
   The firmware's global state: the display buffer, the blink state, the
   refresh flag and the hour mode. The ghost field frame is the buffer's
   contents as a value; Valid() ties it to the array cell by cell.
   */
  class ClockFace {
    var time: array2<byte>
    var secondsOn: bool
    var irqFlag: bool
    const hourMode: HourMode
    ghost var frame: Frame
    const digits: seq<seq<byte>>

    ghost predicate Valid()
      reads this`time, this`frame, time
    {
      && time.Length0 == Rows && time.Length1 == Cols
      && |digits| == GlyphHeight && (forall j :: 0 <= j < GlyphHeight ==> |digits[j]| == GlyphWidth * 10)
      && (forall e, i, j {:trigger Pixel(e, i, j)} :: IsDigit(e) && InGlyph(i, j) ==> digits[j][i + e * 3] == Pixel(e, i, j))
      && WellFormed(frame)
      && forall r, c :: InBuffer(r, c) ==> time[r, c] == frame[r][c]
    }

    ghost function Snapshot(): State
      reads this
    {
      State(frame, secondsOn, irqFlag)
    }

    constructor (mode: HourMode)
      ensures Valid() && fresh(time) && hourMode == mode
      ensures Snapshot() == Initial()
    {
      time := new byte[Rows, Cols]((r, c) => 0);
      secondsOn := true;
      irqFlag := false;
      hourMode := mode;
      frame := Blank();
      digits := Digits;
    }

    /** The periodic callback registered with the RTC. */
    method PeriodicCallback()
      requires Valid()
      modifies this`irqFlag
      ensures Valid() && Snapshot() == Interrupt(old(Snapshot()))
    {
      irqFlag := true;
    }

    /** Copies glyph d into the buffer at offset (sx, sy), column by column. */
    method DisplayDigit(d: int, sx: int, sy: int)
      requires Valid() && IsDigit(d) && ValidOffset(sx, sy)
      modifies this`frame, time
      ensures Valid() && frame == PlaceDigit(old(frame), d, sx, sy)
    {
      ghost var before := frame;
      for i := 0 to 3
        invariant forall r, c :: InBuffer(r, c) && !Copied(r, c, sx, sy, i, 0) ==> time[r, c] == before[r][c]
        invariant forall gi, gj :: InGlyph(gi, gj) && gi < i ==> time[gi + sx, 11 - gj - sy] == digits[gj][gi + d * 3]
      {
        for j := 0 to 5
          invariant forall r, c :: InBuffer(r, c) && !Copied(r, c, sx, sy, i, j) ==> time[r, c] == before[r][c]
          invariant forall gi, gj :: InGlyph(gi, gj) && (gi < i || (gi == i && gj < j)) ==>
            time[gi + sx, 11 - gj - sy] == digits[gj][gi + d * 3]
        {
          time[i + sx, 11 - j - sy] := digits[j][i + d * 3];
        }
      }
      DigitCopied(time, before, d, sx, sy, digits);
      frame := PlaceDigit(before, d, sx, sy);
    }

    /** Sets both separator cells to the dot state. */
    method DisplayDots(dots: bool)
      requires Valid()
      modifies this`frame, time
      ensures Valid() && frame == PlaceDots(old(frame), dots)
    {
      time[0, 2] := Bit(dots);
      time[0, 4] := Bit(dots);
      frame := PlaceDots(frame, dots);
    }

    /**
     The drawing half of a refresh: the hour as the hour mode shows it, the
     minute, each split into tens and ones, and the separator in the current
     blink state.
     */
    method DrawTime(hour: int, minute: int)
      requires Valid() && IsHour(hour) && IsMinute(minute)
      modifies this`frame, time
      ensures Valid() && frame == ShowTime(old(frame), hour, minute, hourMode, secondsOn)
    {
      ghost var f0 := frame;
      ghost var dh := DisplayHour(hour, hourMode);
      if hourMode == Mode24 {
        DisplayDigit(hour / 10, 0, 0);
        DisplayDigit(hour % 10, 4, 0);
      } else {
        if hour > 12 {
          assert dh == hour - 12;
          DisplayDigit((hour - 12) / 10, 0, 0);
          DisplayDigit((hour - 12) % 10, 4, 0);
        } else if hour == 0 {
          assert dh == hour + 12;
          DisplayDigit((hour + 12) / 10, 0, 0);
          DisplayDigit((hour + 12) % 10, 4, 0);
        } else {
          assert dh == hour;
          DisplayDigit(hour / 10, 0, 0);
          DisplayDigit(hour % 10, 4, 0);
        }
      }
      assert frame == PlaceDigit(PlaceDigit(f0, dh / 10, 0, 0), dh % 10, 4, 0);
      ghost var f2 := frame;
      DisplayDigit(minute / 10, 1, 6);
      ghost var f3 := frame;
      DisplayDigit(minute % 10, 5, 6);
      ghost var f4 := frame;
      DisplayDots(secondsOn);
      ShowTimeSteps(f0, hour, minute, hourMode, secondsOn, f2, f3, f4, frame);
    }

    /** One pass of the main loop, given the hour and minute read from the RTC. */
    method Loop(hour: int, minute: int)
      requires Valid() && IsHour(hour) && IsMinute(minute)
      modifies this`secondsOn, this`irqFlag, this`frame, time
      ensures Valid() && Snapshot() == Step(old(Snapshot()), hour, minute, hourMode)
    {
      if irqFlag {
        if secondsOn { secondsOn := false; } else { secondsOn := true; }
        DrawTime(hour, minute);
        irqFlag := false;
      }
    }
  }
}
