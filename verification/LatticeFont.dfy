/** Glyph lookup in the bitmap font files (src/camera/lattice_font.c). */
module LatticeFont {
  import opened CIntegers
  import opened Strings
  import opened OsdCommon

  /** Font size and the two library files, each of which may be missing. `char` is unsigned on the target. */
  datatype Font = Font(size: byte, asc: Option<Bits>, gb2312: Option<Bits>)

  /** Bytes in a row of a library file, and in a glyph. */
  function Stride(width: nat): nat { (width + 7) / 8 }

  function GlyphBytes(width: nat, height: nat): nat { height * Stride(width) }

  predicate IsAscii(font: Font, ch: byte) { ch < 0x7f && font.asc.Some? }

  predicate IsGb2312(font: Font, ch: byte) { !IsAscii(font, ch) && ch > 0xa0 && font.gb2312.Some? }

  function UsedBytes(font: Font, ch: byte): nat { if IsGb2312(font, ch) then 2 else 1 }

  function AscOffset(font: Font, ch: byte): int {
    ch * GlyphBytes(HalfWidth(font.size), font.size)
  }

  /** Row (qu) and column (wei) of the GB2312 table, 94 columns to a row. */
  function Gb2312Offset(font: Font, ch0: byte, ch1: byte): int {
    ((ch0 - 0xa1) * 94 + (ch1 - 0xa1)) * GlyphBytes(font.size, font.size)
  }

  predicate Within(offset: int, count: nat, file: Bits) { 0 <= offset && offset + count <= |file| }

  /** The character's glyph lies inside its library file; row 6 of GB2312 has no glyphs. */
  predicate InLibrary(font: Font, ch0: byte, ch1: byte) {
    if IsAscii(font, ch0) then
      Within(AscOffset(font, ch0), GlyphBytes(HalfWidth(font.size), font.size), font.asc.value)
    else if IsGb2312(font, ch0) && ch0 - 0xa1 != 6 then
      Within(Gb2312Offset(font, ch0, ch1), GlyphBytes(font.size, font.size), font.gb2312.value)
    else true
  }

  /** char_to_bitmap_by_lattice_library: the bits a character paints and the bytes of text it takes. */
  function GlyphOf(font: Font, ch0: byte, ch1: byte): Glyph
    requires InLibrary(font, ch0, ch1)
  {
    if IsAscii(font, ch0) then
      Glyph(Some(font.asc.value[AscOffset(font, ch0)..]), HalfWidth(font.size), font.size, 1)
    else if IsGb2312(font, ch0) then
      if ch0 - 0xa1 == 6 then Glyph(None, font.size, font.size, 2)
      else Glyph(Some(font.gb2312.value[Gb2312Offset(font, ch0, ch1)..]), font.size, font.size, 2)
    else Glyph(None, 0, 0, 1)
  }

  class LatticeInfo {
    var x: int
    var y: int
    var width: nat
    var height: nat
  }

  /**
   * char_to_bitmap_by_lattice_library, up to the painting hook: the bits of the glyph, its size in `info`, and the
   * bytes used. A character of no library leaves the size as it was, and there is nothing to paint.
   */
  method CharToBitmap(font: Font, ch0: byte, ch1: byte, info: LatticeInfo)
    returns (buffer: Option<Bits>, usedBytes: nat)
    requires InLibrary(font, ch0, ch1)
    modifies info
    ensures buffer == GlyphOf(font, ch0, ch1).bits && usedBytes == GlyphOf(font, ch0, ch1).usedBytes
    ensures info.x == 0 && info.y == 0
    ensures if IsAscii(font, ch0) || IsGb2312(font, ch0) then
              info.width == GlyphOf(font, ch0, ch1).width && info.height == GlyphOf(font, ch0, ch1).height
            else
              buffer == None && info.width == old(info.width) && info.height == old(info.height)
  {
    buffer, usedBytes := None, 1;
    var gb2312Width, ascWidth := font.size, HalfWidth(font.size);
    if ch0 < 0x7f && font.asc.Some? {
      SameOffset(ch0, font.size, Stride(ascWidth));
      buffer := Some(font.asc.value[ch0 * font.size * Stride(ascWidth)..]);
      info.width, info.height := ascWidth, font.size;
      usedBytes := 1;
    } else if ch0 > 0xa0 && font.gb2312.Some? {
      var qu, wei := ch0 - 0xa0 - 1, ch1 - 0xa0 - 1;
      if qu != 6 {
        SameOffset(qu * 94 + wei, font.size, Stride(gb2312Width));
        buffer := Some(font.gb2312.value[(qu * 94 + wei) * font.size * Stride(gb2312Width)..]);
      }
      info.width, info.height := gb2312Width, font.size;
      usedBytes := 2;
    }
    info.x, info.y := 0, 0;
  }

  lemma SameOffset(index: int, size: int, stride: int)
    ensures index * size * stride == index * (size * stride)
  {
  }

  /** A code of the GB2312 table: both bytes count from 0xa1, and a row has 94 columns. */
  predicate IsCode(ch0: byte, ch1: byte) { 0xa1 <= ch0 && 0xa1 <= ch1 < 0xa1 + 94 }

  /** The glyphs of different codes are apart, and follow each other without a gap. */
  lemma GlyphsTileTheFile(font: Font, a0: byte, a1: byte, b0: byte, b1: byte)
    requires IsCode(a0, a1) && IsCode(b0, b1)
    requires a0 < b0 || (a0 == b0 && a1 < b1)
    ensures 0 <= Gb2312Offset(font, a0, a1)
    ensures Gb2312Offset(font, a0, a1) + GlyphBytes(font.size, font.size) <= Gb2312Offset(font, b0, b1)
    ensures (if a1 == 0xa1 + 93 then b0 == a0 + 1 && b1 == 0xa1 else b0 == a0 && b1 == a1 + 1) ==>
              Gb2312Offset(font, a0, a1) + GlyphBytes(font.size, font.size) == Gb2312Offset(font, b0, b1)
  {
    var a, b, bytes := (a0 - 0xa1) * 94 + (a1 - 0xa1), (b0 - 0xa1) * 94 + (b1 - 0xa1), GlyphBytes(font.size, font.size);
    assert (a + 1) * bytes == a * bytes + bytes;
    MulMonotoneLeft(a + 1, b, bytes);
    MulMonotoneLeft(0, a, bytes);
  }

  /** The ASCII file holds the glyphs of the codes 0, 1, 2, ... one behind the other, without a gap. */
  lemma AsciiTilesTheFile(font: Font, ch: byte)
    ensures AscOffset(font, 0) == 0
    ensures ch < 255 ==> AscOffset(font, ch + 1) == AscOffset(font, ch) + font.size * ((font.size / 2 + 7) / 8)
  {
    var bytes := GlyphBytes(HalfWidth(font.size), font.size);
    assert (ch + 1) * bytes == ch * bytes + bytes;
  }

  /** The GB2312 file holds 94 glyphs for each row of the table; row 7 has none that is painted. */
  lemma Gb2312RowAndColumn(font: Font, row: nat, column: nat)
    requires 1 <= row <= 94 && 1 <= column <= 94 && font.gb2312.Some?
    requires InLibrary(font, 0xa0 + row, 0xa0 + column)
    ensures var glyph, bytes := GlyphOf(font, 0xa0 + row, 0xa0 + column), font.size * ((font.size + 7) / 8);
            && glyph.usedBytes == 2 && glyph.width == glyph.height == font.size
            && (row == 7 <==> glyph.bits.None?)
            && (row != 7 ==>
                  && 0 <= (94 * (row - 1) + (column - 1)) * bytes <= |font.gb2312.value|
                  && glyph.bits.value == font.gb2312.value[(94 * (row - 1) + (column - 1)) * bytes..])
  {
  }

  /** Codes up to 126 are ASCII, codes from 161 on start a character of GB2312, and no others have a glyph. */
  lemma CharacterKinds(font: Font, ch0: byte, ch1: byte)
    requires InLibrary(font, ch0, ch1)
    ensures var glyph := GlyphOf(font, ch0, ch1);
            if ch0 <= 126 && font.asc.Some? then
              && glyph.usedBytes == 1 && glyph.bits.Some?
              && glyph.width == font.size / 2 && glyph.height == font.size
            else if ch0 >= 161 && font.gb2312.Some? then
              glyph.usedBytes == 2 && glyph.width == glyph.height == font.size
            else glyph == Glyph(None, 0, 0, 1)
  {
  }

  /** The library as the layout sees it. */
  function LatticeLibrary(font: Font): FontLibrary {
    FontLibrary(font.size,
                seq(256, ch requires 0 <= ch < 256 => UsedBytes(font, ch)),
                map ch0: byte, ch1: byte | InLibrary(font, ch0, ch1) :: (ch0, ch1) := GlyphOf(font, ch0, ch1))
  }

  /** Every glyph has the bits the painter looks for, and fits the cell of its character. */
  lemma LatticeLibraryIsLegal(font: Font)
    ensures LegalLibrary(LatticeLibrary(font))
  {
    var lib := LatticeLibrary(font);
    forall ch0: byte, ch1: byte | lib.Covers(ch0, ch1)
      ensures LegalGlyph(lib, ch0, lib.CharToBitmap(ch0, ch1))
    {
      GlyphIsComplete(font, ch0, ch1);
    }
  }

  lemma GlyphIsComplete(font: Font, ch0: byte, ch1: byte)
    requires InLibrary(font, ch0, ch1)
    ensures Complete(GlyphOf(font, ch0, ch1))
  {
    var g := GlyphOf(font, ch0, ch1);
    forall row: nat, col: nat | row < g.height && col < g.width
      ensures PaintedByte(g.width, row, col) < GlyphBytes(g.width, g.height)
    {
      PaintedByteInGlyph(g.width, g.height, row, col);
    }
  }

  /** Where the file keeps a pixel. */
  function StoredByte(width: nat, row: nat, col: nat): nat { row * Stride(width) + col / 8 }

  /** The painter never reads behind the glyph. */
  lemma PaintedByteInGlyph(width: nat, height: nat, row: nat, col: nat)
    requires row < height && col < width
    ensures PaintedByte(width, row, col) < GlyphBytes(width, height)
  {
    var stride := Stride(width);
    RowBytes(width, stride, row);
    WholeRows(stride, row, height);
  }

  lemma RowBytes(width: nat, stride: nat, row: nat)
    requires width <= 8 * stride
    ensures (row * width) / 8 <= row * stride
  {
    assert row * (8 * stride) == 8 * (row * stride);
    MulMonotone(row, width, 8 * stride);
  }

  lemma WholeRows(stride: nat, row: nat, height: nat)
    requires row < height
    ensures row * stride + stride <= height * stride
  {
    MulMonotoneLeft(row + 1, height, stride);
    assert (row + 1) * stride == row * stride + stride;
  }

  /** The painter reads every row where the file keeps it exactly when the width is a whole number of bytes. */
  lemma StridesAgree(width: nat, height: nat)
    requires height >= 2
    ensures (forall row, col :: 0 <= row < height && 0 <= col < width ==>
                PaintedByte(width, row, col) == StoredByte(width, row, col))
       <==> width % 8 == 0
  {
    if width % 8 == 0 {
      forall row: nat, col: nat | row < height && col < width
        ensures PaintedByte(width, row, col) == StoredByte(width, row, col)
      {
        assert row * width == 8 * (row * (width / 8));
      }
    } else {
      assert PaintedByte(width, 1, 0) != StoredByte(width, 1, 0);
    }
  }
}
