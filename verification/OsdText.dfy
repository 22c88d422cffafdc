/** The glyph painter (src/camera/osd_text.c) and what a painted bitmap shows. */
module OsdText {
  import opened CIntegers
  import opened Strings
  import opened OsdCommon

  /** A glyph and the position of its upper left corner in the bitmap. */
  datatype Placed = Placed(glyph: Glyph, x: nat, y: nat)

  predicate BitSet(b: bv8, col: nat) {
    (b & (0x80 >> (col % 8))) > 0
  }

  function Weight(b: bv8, col: nat, weight: nat): nat { if BitSet(b, col) then weight else 0 }

  /** The leftmost pixel is the highest bit: a byte is the number that its pixels write in binary. */
  lemma LeftmostIsHighest(b: bv8)
    ensures b as int == Weight(b, 0, 128) + Weight(b, 1, 64) + Weight(b, 2, 32) + Weight(b, 3, 16)
                        + Weight(b, 4, 8) + Weight(b, 5, 4) + Weight(b, 6, 2) + Weight(b, 7, 1)
  {
  }

  /** The glyph has ink in this row and column. */
  predicate Ink(glyph: Glyph, row: int, col: int) {
    && glyph.bits.Some? && 0 <= row < glyph.height && 0 <= col < glyph.width
    && PaintedByte(glyph.width, row, col) < |glyph.bits.value|
    && BitSet(glyph.bits.value[PaintedByte(glyph.width, row, col)], col)
  }

  /** The placed glyph inks pixel `p` of a bitmap that is `width` pixels wide. */
  predicate Inks(placed: Placed, width: nat, p: nat) {
    width > 0 && Ink(placed.glyph, p / width - placed.y, p % width - placed.x)
  }

  ghost predicate InkAt(picture: seq<Placed>, width: nat, p: nat) {
    exists i :: 0 <= i < |picture| && Inks(picture[i], width, p)
  }

  /** The bitmap shows exactly these glyphs, in one colour on a transparent ground. */
  ghost predicate Shows(data: seq<Pixel>, picture: seq<Placed>, width: nat, font: Pixel) {
    forall p :: 0 <= p < |data| ==> data[p] == if InkAt(picture, width, p) then font else TRANSPARENT
  }

  /** A pixel of row `y` and column `x`. */
  lemma PixelPosition(width: nat, y: nat, x: nat)
    requires x < width
    ensures (width * y + x) / width == y && (width * y + x) % width == x
  {
    DivModUnique(y, x, width);
    assert width * y == y * width;
  }

  lemma PixelInRows(width: nat, y: nat, x: nat, rows: nat)
    requires x < width && y < rows
    ensures width * y + x < width * rows
  {
    MulMonotone(width, y + 1, rows);
    assert width * (y + 1) == width * y + width;
  }

  /** No other pixel has this row and column. */
  lemma OnlyPixel(width: nat, y: nat, x: nat)
    requires x < width
    ensures forall p: nat :: p / width == y && p % width == x ==> p == width * y + x
  {
    forall p: nat | p / width == y && p % width == x
      ensures p == width * y + x
    {
      assert p == width * (p / width) + p % width;
    }
  }

  /** fill_area_map_per_bit: paint the set bits, clipped at the right edge, and nothing else. */
  method FillAreaMapPerBit(mapAddr: array<Pixel>, width: nat, placed: Placed, font: Pixel)
    requires Complete(placed.glyph)
    requires placed.glyph.bits.Some? ==> width * (placed.y + placed.glyph.height) <= mapAddr.Length
    modifies mapAddr
    ensures forall p :: 0 <= p < mapAddr.Length ==>
              mapAddr[p] == if Inks(placed, width, p) then font else old(mapAddr[p])
  {
    if placed.glyph.bits.None? {
      return;
    }
    var glyph, buffer := placed.glyph, placed.glyph.bits.value;
    ghost var before := mapAddr[..];
    for row := 0 to glyph.height
      invariant forall p :: 0 <= p < mapAddr.Length ==>
                  mapAddr[p] == if Inks(placed, width, p) && p / width < row + placed.y then font else before[p]
    {
      FillRow(mapAddr, width, placed, font, row);
    }
  }

  /** The test of one bit, skipped when the whole byte is empty. */
  method TestBit(b: bv8, col: nat) returns (isSet: bool)
    ensures isSet == BitSet(b, col)
  {
    if b == 0 {
      return false;
    }
    isSet := (b & (0x80 >> (col % 8))) > 0;
  }

  /** One pixel of a glyph: where it lies, which bit decides it, and that no other pixel has its place. */
  lemma PixelOfGlyph(placed: Placed, width: nat, row: nat, col: nat)
    requires placed.glyph.bits.Some? && row < placed.glyph.height && col < placed.glyph.width
    requires Complete(placed.glyph)
    requires placed.x + col < width
    ensures var dst := width * (row + placed.y) + placed.x + col;
            var src := (row * placed.glyph.width) / 8 + col / 8;
            && 0 <= dst < width * (placed.y + placed.glyph.height)
            && 0 <= src < |placed.glyph.bits.value|
            && dst / width == row + placed.y && dst % width == placed.x + col
            && (Inks(placed, width, dst) <==> BitSet(placed.glyph.bits.value[src], col))
            && forall p: nat :: p / width == row + placed.y && p % width == placed.x + col ==> p == dst
  {
    assert PaintedByte(placed.glyph.width, row, col) < |placed.glyph.bits.value|;
    PixelPosition(width, row + placed.y, placed.x + col);
    OnlyPixel(width, row + placed.y, placed.x + col);
    PixelInRows(width, row + placed.y, placed.x + col, placed.y + placed.glyph.height);
  }

  /** The pixel `p` is that of the glyph's bit in row `row` and column `col`, and the bit is set. */
  predicate InkedBy(placed: Placed, width: nat, p: nat, row: nat, col: nat) {
    && placed.glyph.bits.Some? && row < placed.glyph.height && col < placed.glyph.width && placed.x + col < width
    && p == width * (placed.y + row) + placed.x + col
    && row * placed.glyph.width / 8 + col / 8 < |placed.glyph.bits.value|
    && BitSet(placed.glyph.bits.value[row * placed.glyph.width / 8 + col / 8], col)
  }

  /** A pixel gets ink if and only if some bit of the glyph that is not clipped gives it. */
  lemma InkedPixels(placed: Placed, width: nat, p: nat)
    requires Complete(placed.glyph)
    ensures Inks(placed, width, p) <==> exists row: nat, col: nat :: InkedBy(placed, width, p, row, col)
  {
    if Inks(placed, width, p) {
      var row, col := p / width - placed.y, p % width - placed.x;
      PixelOfGlyph(placed, width, row, col);
      assert InkedBy(placed, width, p, row, col);
    }
    forall row: nat, col: nat | InkedBy(placed, width, p, row, col)
      ensures Inks(placed, width, p)
    {
      PixelOfGlyph(placed, width, row, col);
      assert width * (row + placed.y) == width * (placed.y + row);
    }
  }

  /** The inner loop: one row of a glyph. */
  method FillRow(mapAddr: array<Pixel>, width: nat, placed: Placed, font: Pixel, row: nat)
    requires placed.glyph.bits.Some? && row < placed.glyph.height
    requires Complete(placed.glyph)
    requires width * (placed.y + placed.glyph.height) <= mapAddr.Length
    modifies mapAddr
    ensures forall p :: 0 <= p < mapAddr.Length ==>
              mapAddr[p] == if Inks(placed, width, p) && p / width == row + placed.y then font else old(mapAddr[p])
  {
    var buffer := placed.glyph.bits.value;
    var dstIndex := width * (row + placed.y) + placed.x;
    var srcIndex := (row * placed.glyph.width) / 8;
    var col := 0;
    while col < placed.glyph.width && col + placed.x < width
      invariant 0 <= col <= placed.glyph.width
      invariant dstIndex == width * (row + placed.y) + placed.x + col
      invariant forall p :: 0 <= p < mapAddr.Length ==>
                  mapAddr[p] == if Inks(placed, width, p) && p / width == row + placed.y && p % width < placed.x + col
                             then font else old(mapAddr[p])
    {
      PixelOfGlyph(placed, width, row, col);
      var inked := TestBit(buffer[srcIndex + col / 8], col);
      if inked {
        mapAddr[dstIndex] := font;
      }
      col := col + 1;
      dstIndex := dstIndex + 1;
    }
  }

  lemma ClearShowsNothing(data: seq<Pixel>, width: nat, font: Pixel)
    requires forall p :: 0 <= p < |data| ==> data[p] == TRANSPARENT
    ensures Shows(data, [], width, font)
  {
  }

  /** Painting one more glyph shows it besides the others. */
  lemma PaintedPicture(before: seq<Pixel>, after: seq<Pixel>, picture: seq<Placed>, placed: Placed, width: nat,
                       font: Pixel)
    requires |after| == |before| && Shows(before, picture, width, font)
    requires forall p :: 0 <= p < |after| ==> after[p] == if Inks(placed, width, p) then font else before[p]
    ensures Shows(after, picture + [placed], width, font)
  {
    forall p | 0 <= p < |after|
      ensures after[p] == if InkAt(picture + [placed], width, p) then font else TRANSPARENT
    {
      InkGrows(picture, placed, width, p);
    }
  }

  lemma InkGrows(picture: seq<Placed>, placed: Placed, width: nat, p: nat)
    ensures InkAt(picture + [placed], width, p) <==> InkAt(picture, width, p) || Inks(placed, width, p)
  {
    var longer := picture + [placed];
    assert longer[|picture|] == placed;
    if i :| 0 <= i < |picture| && Inks(picture[i], width, p) {
      assert longer[i] == picture[i];
    }
    if i :| 0 <= i < |longer| && Inks(longer[i], width, p) {
      assert i < |picture| ==> longer[i] == picture[i];
    }
  }
}
