/**
 The display buffer as a value: an 8 x 12 grid of bytes, and what the digit
 compositor and the separator renderer do to it. The first index is the
 buffer row, the second the buffer column; glyph column i lands on buffer row
 i + sx and glyph row j on buffer column 11 - j - sy, so glyphs are drawn with
 an inverted column index.
 */
module Frames {
  import opened Glyphs

  const Rows := 8
  const Cols := 12

  type Frame = seq<seq<byte>>

  predicate WellFormed(f: Frame)
  {
    |f| == Rows && forall r :: 0 <= r < |f| ==> |f[r]| == Cols
  }

  predicate InBuffer(r: int, c: int) { 0 <= r < Rows && 0 <= c < Cols }

  /** The buffer as the firmware starts with it: every cell off. */
  function Blank(): (f: Frame)
    ensures WellFormed(f)
    ensures forall r, c :: InBuffer(r, c) ==> f[r][c] == 0
  {
    seq(Rows, _ => seq(Cols, _ => 0))
  }

  /** The offsets at which a whole 3 x 5 glyph fits in the buffer. */
  predicate ValidOffset(sx: int, sy: int) { 0 <= sx <= Rows - GlyphWidth && 0 <= sy <= Cols - GlyphHeight }

  /** Cell (r, c) is one of the fifteen cells a glyph drawn at (sx, sy) covers. */
  predicate InDigitRegion(r: int, c: int, sx: int, sy: int)
  {
    sx <= r < sx + GlyphWidth && Cols - GlyphHeight - sy <= c <= Cols - 1 - sy
  }

  /** Every index the compositor uses lies inside the buffer and inside the glyph table. */
  lemma DigitIndicesInBounds(d: int, sx: int, sy: int, i: int, j: int)
    requires IsDigit(d) && ValidOffset(sx, sy) && InGlyph(i, j)
    ensures InBuffer(i + sx, 11 - j - sy) && InDigitRegion(i + sx, 11 - j - sy, sx, sy)
    ensures 0 <= j < |Digits| && 0 <= i + d * 3 < |Digits[j]|
  {
  }

  /** The valid offsets are exactly those at which every cell the compositor writes lies in the buffer. */
  lemma ValidOffsetExact(sx: int, sy: int)
    ensures ValidOffset(sx, sy) <==> forall i, j :: InGlyph(i, j) ==> InBuffer(i + sx, 11 - j - sy)
  {
    if forall i, j :: InGlyph(i, j) ==> InBuffer(i + sx, 11 - j - sy) {
      assert InGlyph(0, 0) && InGlyph(GlyphWidth - 1, GlyphHeight - 1);
      assert InBuffer(0 + sx, 11 - 0 - sy) && InBuffer(GlyphWidth - 1 + sx, 11 - (GlyphHeight - 1) - sy);
    }
  }

  /**
   Glyph d composited into f at offset (sx, sy): glyph column i and glyph row j
   land on buffer cell (i + sx, 11 - j - sy), and every cell outside the
   glyph's region keeps its value.
   */
  function PlaceDigit(f: Frame, d: int, sx: int, sy: int): (g: Frame)
    requires WellFormed(f) && IsDigit(d) && ValidOffset(sx, sy)
    ensures WellFormed(g)
    ensures forall r, c :: InBuffer(r, c) && !InDigitRegion(r, c, sx, sy) ==> g[r][c] == f[r][c]
  {
    seq(Rows, r requires 0 <= r < Rows =>
      seq(Cols, c requires 0 <= c < Cols =>
        if InDigitRegion(r, c, sx, sy) then Pixel(d, r - sx, 11 - c - sy) else f[r][c]))
  }

  /** Glyph d fully drawn at (sx, sy) in g. */
  ghost predicate ShowsDigit(g: Frame, d: int, sx: int, sy: int)
    requires WellFormed(g) && IsDigit(d) && ValidOffset(sx, sy)
  {
    forall i, j :: InGlyph(i, j) ==> g[i + sx][11 - j - sy] == Pixel(d, i, j)
  }

  /** After compositing, glyph pixel (i, j) of d sits in buffer cell (i + sx, 11 - j - sy). */
  lemma PlaceDigitShows(f: Frame, d: int, sx: int, sy: int)
    requires WellFormed(f) && IsDigit(d) && ValidOffset(sx, sy)
    ensures ShowsDigit(PlaceDigit(f, d, sx, sy), d, sx, sy)
  {
    var g := PlaceDigit(f, d, sx, sy);
    forall i, j | InGlyph(i, j) ensures g[i + sx][11 - j - sy] == Pixel(d, i, j) {
      var r, c := i + sx, 11 - j - sy;
      assert r - sx == i && 11 - c - sy == j;
    }
  }

  /**
   The glyph cells the compositor has copied once its outer loop is at glyph
   column i and its inner loop at glyph row j: all of columns 0 .. i - 1, and
   rows 0 .. j - 1 of column i.
   */
  predicate Copied(r: int, c: int, sx: int, sy: int, i: int, j: int)
  {
    InDigitRegion(r, c, sx, sy) && (r < sx + i || (r == sx + i && Cols - 1 - sy - j < c))
  }

  /** What a glyph region holds does not depend on what the buffer held before. */
  lemma PlaceDigitForgetsRegion(f1: Frame, f2: Frame, d: int, sx: int, sy: int, r: int, c: int)
    requires WellFormed(f1) && WellFormed(f2) && IsDigit(d) && ValidOffset(sx, sy)
    requires InBuffer(r, c) && InDigitRegion(r, c, sx, sy)
    ensures PlaceDigit(f1, d, sx, sy)[r][c] == PlaceDigit(f2, d, sx, sy)[r][c]
  {
  }

  /** Drawing at the same offset twice leaves only the second glyph; with the same digit, drawing is idempotent. */
  lemma PlaceDigitOverwrites(f: Frame, d1: int, d2: int, sx: int, sy: int)
    requires WellFormed(f) && IsDigit(d1) && IsDigit(d2) && ValidOffset(sx, sy)
    ensures PlaceDigit(PlaceDigit(f, d1, sx, sy), d2, sx, sy) == PlaceDigit(f, d2, sx, sy)
  {
    var a := PlaceDigit(PlaceDigit(f, d1, sx, sy), d2, sx, sy);
    var b := PlaceDigit(f, d2, sx, sy);
    forall r | 0 <= r < Rows ensures a[r] == b[r] {
      forall c | 0 <= c < Cols ensures a[r][c] == b[r][c] {
        if InDigitRegion(r, c, sx, sy) {
          PlaceDigitForgetsRegion(PlaceDigit(f, d1, sx, sy), f, d2, sx, sy, r, c);
        }
      }
    }
  }

  lemma PlaceDigitIdempotent(f: Frame, d: int, sx: int, sy: int)
    requires WellFormed(f) && IsDigit(d) && ValidOffset(sx, sy)
    ensures PlaceDigit(PlaceDigit(f, d, sx, sy), d, sx, sy) == PlaceDigit(f, d, sx, sy)
  {
    PlaceDigitOverwrites(f, d, d, sx, sy);
  }

  /** The byte a boolean dot is stored as. */
  function Bit(b: bool): byte { if b then 1 else 0 }

  /** The two separator cells. */
  predicate IsDotCell(r: int, c: int) { r == 0 && (c == 2 || c == 4) }

  /** Both separator cells set to the dot state; no other cell changes. */
  function PlaceDots(f: Frame, on: bool): (g: Frame)
    requires WellFormed(f)
    ensures WellFormed(g)
    ensures g[0][2] == Bit(on) && g[0][4] == Bit(on)
    ensures forall r, c :: InBuffer(r, c) && !IsDotCell(r, c) ==> g[r][c] == f[r][c]
  {
    f[0 := f[0][2 := Bit(on)][4 := Bit(on)]]
  }

  /** Two glyph regions share no cell: their rows or their columns do not overlap. */
  predicate DisjointOffsets(sx: int, sy: int, tx: int, ty: int)
  {
    sx + GlyphWidth <= tx || tx + GlyphWidth <= sx || sy + GlyphHeight <= ty || ty + GlyphHeight <= sy
  }

  /** Drawing a glyph leaves a glyph drawn in a disjoint region in place. */
  lemma PlaceDigitKeepsShown(f: Frame, d: int, sx: int, sy: int, e: int, tx: int, ty: int)
    requires WellFormed(f) && IsDigit(d) && ValidOffset(sx, sy) && IsDigit(e) && ValidOffset(tx, ty)
    requires DisjointOffsets(sx, sy, tx, ty) && ShowsDigit(f, e, tx, ty)
    ensures ShowsDigit(PlaceDigit(f, d, sx, sy), e, tx, ty)
  {
    var g := PlaceDigit(f, d, sx, sy);
    forall i, j | InGlyph(i, j) ensures g[i + tx][11 - j - ty] == Pixel(e, i, j) {
      assert !InDigitRegion(i + tx, 11 - j - ty, sx, sy);
    }
  }

  /** Drawing the separator leaves a glyph drawn clear of the separator cells in place. */
  lemma PlaceDotsKeepsShown(f: Frame, on: bool, e: int, tx: int, ty: int)
    requires WellFormed(f) && IsDigit(e) && ValidOffset(tx, ty)
    requires !InDigitRegion(0, 2, tx, ty) && !InDigitRegion(0, 4, tx, ty) && ShowsDigit(f, e, tx, ty)
    ensures ShowsDigit(PlaceDots(f, on), e, tx, ty)
  {
    var g := PlaceDots(f, on);
    forall i, j | InGlyph(i, j) ensures g[i + tx][11 - j - ty] == Pixel(e, i, j) {
      assert !IsDotCell(i + tx, 11 - j - ty);
    }
  }

  /** Drawing the dots twice leaves only the second state: switching them on and then off turns them off. */
  lemma PlaceDotsOverwrites(f: Frame, a: bool, b: bool)
    requires WellFormed(f)
    ensures PlaceDots(PlaceDots(f, a), b) == PlaceDots(f, b)
  {
    var g := PlaceDots(PlaceDots(f, a), b);
    assert g[0] == PlaceDots(f, b)[0];
  }

  /** Reads the digit drawn at (sx, sy) from five of its cells, or None if they hold no glyph. */
  function ReadDigit(g: Frame, sx: int, sy: int): Option<int>
    requires WellFormed(g) && ValidOffset(sx, sy)
  {
    Recognize([g[sx][10 - sy], g[sx][8 - sy], g[sx + 1][11 - sy], g[sx + 1][9 - sy], g[sx + 2][10 - sy]])
  }

  /** A fully drawn glyph is read back as its digit. */
  lemma ReadShownDigit(g: Frame, d: int, sx: int, sy: int)
    requires WellFormed(g) && IsDigit(d) && ValidOffset(sx, sy) && ShowsDigit(g, d, sx, sy)
    ensures ReadDigit(g, sx, sy) == Some(d)
  {
    assert g[sx][10 - sy] == Pixel(d, 0, 1);
    assert g[sx][8 - sy] == Pixel(d, 0, 3);
    assert g[sx + 1][11 - sy] == Pixel(d, 1, 0);
    assert g[sx + 1][9 - sy] == Pixel(d, 1, 2);
    assert g[sx + 2][10 - sy] == Pixel(d, 2, 1);
    RecognizeGlyph(d);
  }

  /** The round trip of the compositor: the digit just drawn is the digit read back. */
  lemma ReadPlacedDigit(f: Frame, d: int, sx: int, sy: int)
    requires WellFormed(f) && IsDigit(d) && ValidOffset(sx, sy)
    ensures ReadDigit(PlaceDigit(f, d, sx, sy), sx, sy) == Some(d)
  {
    PlaceDigitShows(f, d, sx, sy);
    ReadShownDigit(PlaceDigit(f, d, sx, sy), d, sx, sy);
  }
}
