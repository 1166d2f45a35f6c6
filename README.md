# Clock face renderer of the Arduino R4 WiFi digital clock

This project models the clock face renderer of the firmware in `src/main.cpp`. The firmware keeps an 8 x 12 byte buffer `Time` for the LED matrix. A glyph table `Digits` holds ten 3-column by 5-row digit glyphs side by side. A periodic RTC callback raises `irqFlag`. When the main loop sees the flag, it:

- flips the separator blink state;
- converts the RTC hour for the build-time 12/24-hour mode;
- splits hour and minute into tens and ones;
- copies four glyphs into the buffer at fixed offsets;
- writes the two separator cells;
- lowers the flag.

The project has five modules:

- `Glyphs` (`glyphs.dfy`) holds the glyph table, the pixel accessor, and a recogniser that reads a digit back from five probe pixels. It proves that every glyph is recognised as its own digit and that no two glyphs are equal.
- `TimeFormat` (`time_format.dfy`) holds the hour display mode, the hour conversion, and the tens/ones split.
- `Frames` (`frame.dfy`) describes the buffer as a value. It defines what the digit compositor (`PlaceDigit`) and the separator renderer (`PlaceDots`) do to it, and reads a digit back off the buffer.
- `Layout` (`layout.dfy`) gives the four digit offsets and the frame that one refresh produces (`ShowTime`). It also reads the time back off the face.
- `Clock` (`clock.dfy`) describes one pass of the main loop on values (`State`, `Step`, `Interrupt`). It also contains the class `ClockFace`, which holds the firmware's globals as fields:
  - the buffer is an `array2<byte>`;
  - the methods update it with nested loops, as the firmware does;
  - each method is proved to compute the value-level function, so the lemmas about that function apply to the object.

## Model

| member | source | states |
|---|---|---|
| Glyphs.Pixel | src/main.cpp:95 | the table read `Digits[j][i + d * 3]` for a digit 0..9 and a glyph cell, and its value is 0 or 1 |
| Glyphs.DigitsRowBits | src/main.cpp:84-90 | every cell of the glyph table is 0 or 1 |
| Glyphs.RecognizeGlyph | src/main.cpp:84-90 | every glyph of the table is read back from its five probe pixels as its own digit |
| Glyphs.GlyphsDistinct | src/main.cpp:84-90 | any two different digits have glyphs that differ in at least one pixel |
| TimeFormat.DisplayHour | src/main.cpp:152-165 | 24-hour mode shows the RTC hour unchanged; 12-hour mode shows a value in 1..12 on the same 12-hour dial position |
| TimeFormat.TwelveHourUnique | src/main.cpp:156-165 | the 12-hour value is the only value in 1..12 congruent to the hour modulo 12 |
| TimeFormat.TwelveHourBoundaries | src/main.cpp:156-165 | midnight shows 12, 1 and 11 stay, noon stays 12, 13 shows 1 and 23 shows 11 |
| TimeFormat.SplitDigits | src/main.cpp:153-169 | the `/ 10` and `% 10` of a value in 0..99 are two digits in 0..9 that spell the value |
| TimeFormat.SplitDigitsUnique | src/main.cpp:153-169 | any two digits that spell the value are the ones the split gives |
| TimeFormat.HourTensDigit | src/main.cpp:152-166 | the hour tens digit is at most 1 in 12-hour mode and at most 2 in 24-hour mode; in 12-hour mode it is 1 exactly for 10, 11, 12, 22, 23 and 0 |
| Frames.Blank | src/main.cpp:73-82 | the initial buffer is 8 x 12 with every cell 0 |
| Frames.DigitIndicesInBounds | src/main.cpp:93-95 | for a digit 0..9 and offsets 0..5 by 0..7, every buffer and table index the compositor uses is in bounds |
| Frames.ValidOffsetExact | src/main.cpp:93-95 | the accepted offsets are exactly those at which every cell the compositor writes, `Time[i + s_x][11 - j - s_y]`, lies in the 8 x 12 buffer |
| Frames.PlaceDigit | src/main.cpp:92-97 | compositing keeps the buffer 8 x 12 and leaves every cell outside the glyph region unchanged |
| Frames.PlaceDigitShows | src/main.cpp:93-96 | after compositing, buffer cell (i + sx, 11 - j - sy) holds glyph pixel (i, j) for every i < 3 and j < 5 |
| Frames.PlaceDigitForgetsRegion | src/main.cpp:95 | the contents of the composited region do not depend on what the buffer held before |
| Frames.PlaceDigitOverwrites | src/main.cpp:95 | drawing two digits at the same offset leaves only the second |
| Frames.PlaceDigitIdempotent | src/main.cpp:95 | drawing the same digit twice at the same offset equals drawing it once |
| Frames.PlaceDigitKeepsShown | src/main.cpp:92-97 | drawing a glyph leaves a glyph in a disjoint region intact |
| Frames.PlaceDots | src/main.cpp:101-103 | the separator renderer sets cells (0, 2) and (0, 4) to the dot state and no other cell |
| Frames.PlaceDotsOverwrites | src/main.cpp:101-103 | drawing the dots twice leaves only the second state |
| Frames.PlaceDotsKeepsShown | src/main.cpp:101-103 | drawing the dots leaves a glyph clear of the separator cells intact |
| Frames.ReadShownDigit | src/main.cpp:84-96 | a fully drawn glyph is read back as its digit |
| Frames.ReadPlacedDigit | src/main.cpp:92-97 | round trip: the digit just composited is the digit read back |
| Layout.LayoutDisjoint | src/main.cpp:153-170 | the four digit regions at (0,0), (4,0), (1,6) and (5,6) and the two separator cells share no cell, and every offset is valid |
| Layout.ShowTime | src/main.cpp:152-170 | the refresh frame: the shown hour and the minute split by `SplitDigits` and drawn in the loop's order at (0,0), (4,0), (1,6) and (5,6), then the separator; its own contract keeps the buffer 8 x 12 and the lemmas below state what it shows |
| Layout.ShowTimeDigits | src/main.cpp:152-170 | after a refresh each region holds the glyph of its own digit of the shown hour or the minute |
| Layout.ShowTimeKeeps | src/main.cpp:152-170 | after a refresh the separator cells hold the dot state and every cell no refresh draws is unchanged |
| Layout.ShowTimeLayout | src/main.cpp:152-170 | the whole refresh: four glyphs, the dots, and nothing else changed |
| Layout.ShowTimeMidnight | src/main.cpp:159-161 | 00:05 in 12-hour mode is drawn as 1 2 0 5 |
| Layout.ShowTimeAfternoon12 | src/main.cpp:156-158 | 13:59 in 12-hour mode is drawn as 0 1 5 9 |
| Layout.ShowTimeAfternoon24 | src/main.cpp:152-155 | 13:59 in 24-hour mode is drawn as 1 3 5 9 |
| Layout.ReadDrawnTime | src/main.cpp:153-169 | four drawn glyphs that spell hh and mm are read back as hh and mm |
| Layout.ReadShownTime | src/main.cpp:152-170 | round trip: the face after a refresh is read back as the shown hour and the minute |
| Layout.ShowTimeDeterminesTime | src/main.cpp:152-170 | two refreshes give the same picture if and only if they show the same hour and minute |
| Layout.FaceDistinguishesHours | src/main.cpp:152-166 | in 24-hour mode different hours give different faces; in 12-hour mode two hours give the same face exactly when they are twelve hours apart |
| Clock.Initial | src/main.cpp:12-13 | at start-up the buffer is well formed, the separator is on and no refresh is pending |
| Clock.Interrupt | src/main.cpp:21-23 | the callback raises the flag and changes nothing else |
| Clock.Step | src/main.cpp:149-171 | a pass ends with the flag down and flips the blink state exactly when the flag was up; with the flag down it changes nothing |
| Clock.StepShowsTime | src/main.cpp:149-171 | a refresh shows the converted hour and the minute, and the separator shows the flipped blink state |
| Clock.Interrupts | src/main.cpp:21-23 | n callbacks leave buffer and blink state alone and leave the flag up if n > 0 |
| Clock.InterruptsCoalesce | src/main.cpp:21-23 | any number n >= 1 of callbacks before a poll has the effect of one |
| Clock.OneRefreshPerPoll | src/main.cpp:149-171 | however often the callback fired, the next pass refreshes once and the pass after it changes nothing |
| Clock.BlinkPeriod | src/main.cpp:150 | the blink state returns to its value after two refreshes |
| Clock.DigitCopied | src/main.cpp:92-97 | an array holding the glyph in its region and the old frame elsewhere equals the composited frame |
| Clock.ClockFace.constructor | src/main.cpp:12-19 | the object starts in the initial state with the given hour mode |
| Clock.ClockFace.PeriodicCallback | src/main.cpp:21-23 | the new state is Interrupt of the old state |
| Clock.ClockFace.DisplayDigit | src/main.cpp:92-99 | the nested copy loops leave the buffer equal to PlaceDigit of its old contents |
| Clock.ClockFace.DisplayDots | src/main.cpp:101-105 | the two writes leave the buffer equal to PlaceDots of its old contents |
| Clock.ClockFace.DrawTime | src/main.cpp:152-170 | the hour branch and the four digit calls and the dots call leave the buffer equal to ShowTime of its old contents |
| Clock.ClockFace.Loop | src/main.cpp:145-172 | one pass of the main loop moves the object from state s to Step(s, hour, minute, mode) |

## Left out

- The WiFi helpers (`src/main.cpp:25-71`) are left out. They are network I/O with blocking retries and delays.
- `setup()` (`src/main.cpp:107-143`) is left out: RTC start, NTP fetch, LED animations, delays and callback registration are all hardware and library calls. That includes the epoch-plus-offset sum at line 124.
- `matrix.renderBitmap` (`src/main.cpp:98, 104`) sends the buffer to the display driver. The model treats it as a no-op on the buffer.
- `RTC.getTime` and `currentTime.getHour()`/`getMinutes()` become the `hour` and `minute` parameters of `Loop`, with ranges 0..23 and 0..59.
- Interrupt concurrency is not modelled. The callback behind `volatile irqFlag` can preempt the loop at any instruction. Here `PeriodicCallback` is an ordinary method that runs between passes of the loop.
- `Serial` output is diagnostic I/O and is left out.
- The hour mode is a global that the firmware sets to `MODE_12` and never reassigns (`src/main.cpp:19`). Here it is a parameter of the `ClockFace` constructor, so both modes are covered.
- Clock.ClockFace.DisplayDigit: `displayDigit` (`src/main.cpp:92-99`) does not check `d`, `s_x` or `s_y`; out of range they index outside `Digits` or `Time`. The model requires a digit 0..9 and an offset accepted by `ValidOffset`, which `Frames.ValidOffsetExact` shows is exactly the in-bounds range. Every call in `loop()` meets it.
- Clock.ClockFace.DisplayDigit: it reads the glyph table through its field `digits`, a second copy of the table. The constructor sets that field to `Glyphs.Digits`, and `Valid()` states that it agrees with `Pixel` everywhere. The array proofs therefore relate the copy to `Pixel` without reading the literal table cell by cell.
- Clock.ClockFace.DrawTime: it is the drawing half of `loop()` (lines 152-170), split out of `Loop` as a method of its own. `Loop` calls it exactly where the firmware runs those lines.
- Division: the firmware's `/` and `%` truncate toward zero. They agree with Dafny's Euclidean operators because every operand is non-negative.
- `displayDots` stores a `bool` into a `byte` cell as 1 or 0. The model writes that conversion out as `Frames.Bit`.
- The model proves that every glyph pixel is 0 or 1, but not that every buffer cell stays 0 or 1.
