/**
 The digit glyph table of the clock face: ten 3-column by 5-row bitmaps laid
 side by side in one 5 x 30 table of bytes, three table columns per digit.
 */
module Glyphs {

  /** An unsigned 8-bit cell, the element type of both the glyph table and the display buffer. */
  newtype byte = x: int | 0 <= x < 256

  datatype Option<T> = None | Some(value: T)

  const GlyphWidth := 3
  const GlyphHeight := 5

  /** The glyph table: row j, column 3*d + i holds pixel (i, j) of digit d. */
  const Digits: seq<seq<byte>> := [
    [1, 1, 1, 0, 0, 1, 1, 1, 1, 1, 1, 1, 1, 0, 1, 1, 1, 1, 1, 1, 1, 1, 1, 1, 1, 1, 1, 1, 1, 1],
    [1, 0, 1, 0, 0, 1, 0, 0, 1, 0, 0, 1, 1, 0, 1, 1, 0, 0, 1, 0, 0, 0, 0, 1, 1, 0, 1, 1, 0, 1],
    [1, 0, 1, 0, 0, 1, 1, 1, 1, 1, 1, 1, 1, 1, 1, 1, 1, 1, 1, 1, 1, 0, 0, 1, 1, 1, 1, 1, 1, 1],
    [1, 0, 1, 0, 0, 1, 1, 0, 0, 0, 0, 1, 0, 0, 1, 0, 0, 1, 1, 0, 1, 0, 0, 1, 1, 0, 1, 0, 0, 1],
    [1, 1, 1, 0, 0, 1, 1, 1, 1, 1, 1, 1, 0, 0, 1, 1, 1, 1, 1, 1, 1, 0, 0, 1, 1, 1, 1, 1, 1, 1]
  ]

  predicate IsDigit(d: int) { 0 <= d <= 9 }

  /** A glyph coordinate: column i of 3, row j of 5. */
  predicate InGlyph(i: int, j: int) { 0 <= i < GlyphWidth && 0 <= j < GlyphHeight }

  /** Pixel (i, j) of digit d, read from the table exactly where the renderer reads it; every pixel is 0 or 1. */
  function Pixel(d: int, i: int, j: int): (b: byte)
    requires IsDigit(d) && InGlyph(i, j)
    ensures b <= 1
  {
    DigitsRowBits(j);
    Digits[j][i + d * 3]
  }

  /** Every cell of a row of the table is 0 or 1: the glyphs are monochrome. */
  lemma DigitsRowBits(j: int)
    requires 0 <= j < GlyphHeight
    ensures forall k :: 0 <= k < |Digits[j]| ==> Digits[j][k] <= 1
  {
    var row := Digits[j];
    forall k | 0 <= k < |row| ensures row[k] <= 1 {
      if j == 0 { assert row == Digits[0]; }
      else if j == 1 { assert row == Digits[1]; }
      else if j == 2 { assert row == Digits[2]; }
      else if j == 3 { assert row == Digits[3]; }
      else { assert row == Digits[4]; }
    }
  }

  /** Five probe pixels whose values already tell the ten glyphs apart. */
  function Signature(d: int): seq<byte>
    requires IsDigit(d)
  {
    [Pixel(d, 0, 1), Pixel(d, 0, 3), Pixel(d, 1, 0), Pixel(d, 1, 2), Pixel(d, 2, 1)]
  }

  /** Reads a digit back from the five probe pixels of a glyph, or None if no glyph has them. */
  function Recognize(s: seq<byte>): Option<int>
  {
    if s == [1, 1, 1, 0, 1] then Some(0)
    else if s == [0, 0, 0, 0, 1] then Some(1)
    else if s == [0, 1, 1, 1, 1] then Some(2)
    else if s == [0, 0, 1, 1, 1] then Some(3)
    else if s == [1, 0, 0, 1, 1] then Some(4)
    else if s == [1, 0, 1, 1, 0] then Some(5)
    else if s == [1, 1, 1, 1, 0] then Some(6)
    else if s == [0, 0, 1, 0, 1] then Some(7)
    else if s == [1, 1, 1, 1, 1] then Some(8)
    else if s == [1, 0, 1, 1, 1] then Some(9)
    else None
  }

  /** Every glyph of the table is read back as its own digit. */
  lemma {:induction false} RecognizeGlyph(d: int)
    requires IsDigit(d)
    ensures Recognize(Signature(d)) == Some(d)
  {
    if d == 0 { RecognizesGlyph0(); } else if d == 1 { RecognizesGlyph1(); }
    else if d == 2 { RecognizesGlyph2(); } else if d == 3 { RecognizesGlyph3(); }
    else if d == 4 { RecognizesGlyph4(); } else if d == 5 { RecognizesGlyph5(); }
    else if d == 6 { RecognizesGlyph6(); } else if d == 7 { RecognizesGlyph7(); }
    else if d == 8 { RecognizesGlyph8(); } else { RecognizesGlyph9(); }
  }

  /** The same fact one glyph at a time, with the digit fixed, so that each proof reads five cells of the table. */
  lemma RecognizesGlyph0() ensures Recognize(Signature(0)) == Some(0) { }
  lemma RecognizesGlyph1() ensures Recognize(Signature(1)) == Some(1) { }
  lemma RecognizesGlyph2() ensures Recognize(Signature(2)) == Some(2) { }
  lemma RecognizesGlyph3() ensures Recognize(Signature(3)) == Some(3) { }
  lemma RecognizesGlyph4() ensures Recognize(Signature(4)) == Some(4) { }
  lemma RecognizesGlyph5() ensures Recognize(Signature(5)) == Some(5) { }
  lemma RecognizesGlyph6() ensures Recognize(Signature(6)) == Some(6) { }
  lemma RecognizesGlyph7() ensures Recognize(Signature(7)) == Some(7) { }
  lemma RecognizesGlyph8() ensures Recognize(Signature(8)) == Some(8) { }
  lemma RecognizesGlyph9() ensures Recognize(Signature(9)) == Some(9) { }

  /** No two glyphs are the same bitmap. */
  lemma GlyphsDistinct(d1: int, d2: int)
    requires IsDigit(d1) && IsDigit(d2) && d1 != d2
    ensures exists i, j :: InGlyph(i, j) && Pixel(d1, i, j) != Pixel(d2, i, j)
  {
    RecognizeGlyph(d1);
    RecognizeGlyph(d2);
    assert Signature(d1) != Signature(d2);
    var k :| 0 <= k < 5 && Signature(d1)[k] != Signature(d2)[k];
    if k == 0 {
      assert Pixel(d1, 0, 1) != Pixel(d2, 0, 1);
    } else if k == 1 {
      assert Pixel(d1, 0, 3) != Pixel(d2, 0, 3);
    } else if k == 2 {
      assert Pixel(d1, 1, 0) != Pixel(d2, 1, 0);
    } else if k == 3 {
      assert Pixel(d1, 1, 2) != Pixel(d2, 1, 2);
    } else {
      assert Pixel(d1, 2, 1) != Pixel(d2, 2, 1);
    }
  }
}
