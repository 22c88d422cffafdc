/** The types shared by the font libraries and the painter (src/camera/osd_common.h). */
module OsdCommon {
  import opened CIntegers
  import opened Strings

  type Bits = seq<bv8>

  datatype Pixel = Pixel(b: byte, g: byte, r: byte, a: byte)

  const TRANSPARENT := Pixel(0, 0, 0, 0)

  /** A shape of width x height pixels; without bits there is nothing to paint. */
  datatype Glyph = Glyph(bits: Option<Bits>, width: nat, height: nat, usedBytes: nat)

  function HalfWidth(size: nat): nat { size / 2 }

  /** The byte in which the painter looks for a pixel. */
  function PaintedByte(width: nat, row: nat, col: nat): nat { (row * width) / 8 + col / 8 }

  /** The painter finds all its bytes. */
  ghost predicate Complete(g: Glyph) {
    g.bits.Some? ==>
      forall row, col :: 0 <= row < g.height && 0 <= col < g.width ==> PaintedByte(g.width, row, col) < |g.bits.value|
  }

  /**
   * A font library behind its function table: the size it was set to, the bytes of text a character
   * takes (by its first byte), and char_to_bitmap for the characters whose glyph lies inside its files.
   */
  datatype FontLibrary = FontLibrary(size: byte, charBytes: seq<nat>, glyphs: map<(byte, byte), Glyph>)
  {
    function UsedBytes(ch: byte): (n: nat)
      ensures 1 <= n <= 2
    {
      if |charBytes| == 256 && charBytes[ch] == 2 then 2 else 1
    }

    predicate Covers(ch0: byte, ch1: byte) { (ch0, ch1) in glyphs }

    function CharToBitmap(ch0: byte, ch1: byte): Glyph
      requires Covers(ch0, ch1)
    {
      glyphs[(ch0, ch1)]
    }
  }

  ghost predicate LegalGlyph(lib: FontLibrary, ch: byte, g: Glyph) {
    && Complete(g)
    && g.usedBytes == lib.UsedBytes(ch)
    && g.height <= lib.size
    && g.width <= (if g.usedBytes == 1 then HalfWidth(lib.size) else lib.size)
  }

  /** What the layout relies on: glyphs are complete, no larger than their cells, and read no byte they do not use. */
  ghost predicate LegalLibrary(lib: FontLibrary) {
    && (forall ch0: byte, ch1: byte :: lib.Covers(ch0, ch1) ==> LegalGlyph(lib, ch0, lib.CharToBitmap(ch0, ch1)))
    && (forall ch0: byte, ch1: byte :: lib.UsedBytes(ch0) == 1 && lib.Covers(ch0, 0) ==>
          lib.Covers(ch0, ch1) && lib.CharToBitmap(ch0, ch1) == lib.CharToBitmap(ch0, 0))
  }
}
