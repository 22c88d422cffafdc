/**
 * The running date of src/camera/osd_functions.c: the ten digits are painted once into a strip,
 * and afterwards only the cells of changed digits are copied from it into the date's bitmap.
 */
module OsdDate {
  import opened CIntegers
  import LatticeFont
  import opened OsdCommon
  import opened OsdText
  import opened OsdLayout

  const ZERO: byte := 48   // '0'

  function Digit(d: nat): byte
    requires d < 10
  {
    ZERO + d
  }

  /** The strip's characters are those of the string that the code paints into it. */
  lemma DigitCharacters(d: nat)
    requires d < 10
    ensures Digit(d) as char == "0123456789"[d]
  {
  }

  /** The library covers the digits, each one byte of text. */
  ghost predicate HasDigits(lib: FontLibrary) {
    forall d: nat :: d < 10 ==> lib.UsedBytes(Digit(d)) == 1 && lib.Covers(Digit(d), 0)
  }

  /** A half-width font file that reaches up to the glyph of `9` makes such a library. */
  lemma LatticeFontHasDigits(font: LatticeFont.Font)
    requires font.asc.Some?
    requires 58 * LatticeFont.GlyphBytes(HalfWidth(font.size), font.size) <= |font.asc.value|
    ensures LegalLibrary(LatticeFont.LatticeLibrary(font)) && HasDigits(LatticeFont.LatticeLibrary(font))
  {
    LatticeFont.LatticeLibraryIsLegal(font);
    var lib, glyph := LatticeFont.LatticeLibrary(font), LatticeFont.GlyphBytes(HalfWidth(font.size), font.size);
    forall d: nat | d < 10
      ensures lib.UsedBytes(Digit(d)) == 1 && lib.Covers(Digit(d), 0)
    {
      var next := Digit(d) + 1;
      MulMonotone(glyph, next, 58);
      assert glyph * next == Digit(d) * glyph + glyph;
      assert LatticeFont.InLibrary(font, Digit(d), 0);
    }
  }

  /** The first `n` digits side by side. */
  ghost function DigitPicture(lib: FontLibrary, n: nat): (picture: seq<Placed>)
    requires n <= 10 && HasDigits(lib)
    ensures |picture| == n
    ensures forall d :: 0 <= d < n ==>
              picture[d] == Placed(lib.CharToBitmap(Digit(d), 0), d * HalfWidth(lib.size), 0)
  {
    if n == 0 then []
    else DigitPicture(lib, n - 1) + [Placed(lib.CharToBitmap(Digit(n - 1), 0), (n - 1) * HalfWidth(lib.size), 0)]
  }

  function StripWidth(size: nat): nat { HalfWidth(size) * 10 }

  /** osd_create_digit_bitmap. */
  method CreateDigitBitmap(lib: FontLibrary, color: Pixel) returns (strip: array<Pixel>)
    requires LegalLibrary(lib) && HasDigits(lib)
    ensures fresh(strip) && strip.Length == StripWidth(lib.size) * lib.size
    ensures Shows(strip[..], DigitPicture(lib, 10), StripWidth(lib.size), color)
  {
    var dateLen := 10;
    var linePitch := HalfWidth(lib.size) * dateLen;
    strip := new Pixel[linePitch * lib.size](_ => TRANSPARENT);
    ClearShowsNothing(strip[..], linePitch, color);
    var cnt, startx := 0, 0;
    while cnt < dateLen
      invariant cnt <= dateLen && startx == cnt * HalfWidth(lib.size)
      invariant Shows(strip[..], DigitPicture(lib, cnt), linePitch, color)
    {
      // the byte behind the digit is not looked at
      var glyph := lib.CharToBitmap(Digit(cnt), 0);
      assert lib.Covers(Digit(cnt), 0) && LegalGlyph(lib, Digit(cnt), glyph);
      PaintGlyph(strip, linePitch, Placed(glyph, startx, 0), color, lib.size, DigitPicture(lib, cnt));
      NextDigit(cnt, HalfWidth(lib.size));
      startx := startx + HalfWidth(lib.size) * glyph.usedBytes;
      cnt := cnt + glyph.usedBytes;
    }
  }

  lemma NextDigit(n: nat, half: nat)
    ensures (n + 1) * half == n * half + half && half * 1 == half
  {
  }

  // ------------------------------------------------------------------ copying a cell

  /** Pixel `p` of a bitmap `width` wide lies in the half-width cell with this corner. */
  predicate InCell(p: nat, width: nat, x: nat, y: nat, size: nat) {
    width > 0 && y <= p / width < y + size && x <= p % width < x + HalfWidth(size)
  }

  /** The strip's pixel for row `row` and column `col` of a digit. */
  function StripIndex(digit: nat, row: int, col: int, size: nat): int {
    StripWidth(size) * row + (HalfWidth(size) * digit + col)
  }

  lemma StripIndexInside(digit: nat, row: nat, col: nat, size: nat)
    requires digit < 10 && row < size && col < HalfWidth(size)
    ensures 0 <= HalfWidth(size) * digit + col < StripWidth(size)
    ensures 0 <= StripIndex(digit, row, col, size) < StripWidth(size) * size
  {
    MulMonotone(HalfWidth(size), digit + 1, 10);
    PixelInRows(StripWidth(size), row, HalfWidth(size) * digit + col, size);
  }

  /** After the copy of one digit into the cell at (x, y): the cell shows the digit's part of the strip. */
  ghost predicate Blitted(before: seq<Pixel>, after: seq<Pixel>, strip: seq<Pixel>, width: nat, x: nat, y: nat,
                          digit: nat, size: nat)
    requires width > 0
  {
    |after| == |before|
    && forall p :: 0 <= p < |after| ==> CellCopied(before, after, strip, width, x, y, digit, size, size, p)
  }

  /** A run of pixels inside one row. */
  lemma RowSpan(width: nat, y: nat, x: nat, count: nat, p: nat)
    requires width > 0 && x + count <= width
    ensures width * y + x <= p < width * y + x + count <==> p / width == y && x <= p % width < x + count
  {
    assert p == width * (p / width) + p % width;
    if width * y + x <= p < width * y + x + count {
      PixelPosition(width, y, p - width * y);
    }
  }

  /** The memcpy of one row of a digit. */
  method CopyRow(bitmap: array<Pixel>, strip: array<Pixel>, width: nat, x: nat, y: nat, digit: nat, size: nat, row: nat)
    requires bitmap != strip && width > 0 && digit < 10 && row < size && x + HalfWidth(size) <= width
    requires strip.Length == StripWidth(size) * size && width * (y + size) <= bitmap.Length
    modifies bitmap
    ensures forall p :: 0 <= p < bitmap.Length ==>
              RowCopied(old(bitmap[..]), bitmap[..], strip[..], width, x, y, digit, size, row, p)
  {
    var dest := x + (y + row) * width;
    var src := digit * HalfWidth(size) + row * (HalfWidth(size) * 10);
    Commute(y + row, width);
    RunInRows(width, y + row, x, HalfWidth(size), y + size);
    StripRun(digit, size, row);
    ghost var before := bitmap[..];
    CopyPixels(bitmap, dest, strip, src, HalfWidth(size));
    forall p | 0 <= p < bitmap.Length
      ensures RowCopied(before, bitmap[..], strip[..], width, x, y, digit, size, row, p)
    {
      RowSpan(width, y + row, x, HalfWidth(size), p);
      PixelAt(width, p);
    }
    assert forall p :: 0 <= p < bitmap.Length ==>
             RowCopied(before, bitmap[..], strip[..], width, x, y, digit, size, row, p);
  }

  ghost predicate RowCopied(before: seq<Pixel>, after: seq<Pixel>, strip: seq<Pixel>, width: nat, x: nat, y: nat,
                            digit: nat, size: nat, row: nat, p: nat)
    requires width > 0 && p < |before| == |after|
  {
    if p / width == y + row && x <= p % width < x + HalfWidth(size) then
      && 0 <= StripIndex(digit, row, p % width - x, size) < |strip|
      && after[p] == strip[StripIndex(digit, row, p % width - x, size)]
    else after[p] == before[p]
  }

  /** The copied run of the strip, in the order the source multiplies. */
  lemma StripRun(digit: nat, size: nat, row: nat)
    requires digit < 10 && row < size
    ensures digit * HalfWidth(size) + row * (HalfWidth(size) * 10) == StripIndex(digit, row, 0, size)
    ensures 0 <= StripIndex(digit, row, 0, size)
    ensures StripIndex(digit, row, 0, size) + HalfWidth(size) <= StripWidth(size) * size
  {
    var half := HalfWidth(size);
    Commute(digit, half);
    Commute(row, half * 10);
    MulMonotone(half, digit + 1, 10);
    assert half * (digit + 1) == half * digit + half;
    RunInRows(StripWidth(size), row, half * digit, half, size);
  }

  /** A run of pixels in one of `rows` rows is inside the bitmap. */
  lemma RunInRows(width: nat, y: nat, x: nat, count: nat, rows: nat)
    requires y < rows && x + count <= width
    ensures 0 <= width * y && width * y + x + count <= width * rows
  {
    MulMonotone(width, y + 1, rows);
    assert width * (y + 1) == width * y + width;
  }

  lemma Commute(a: int, b: int)
    ensures a * b == b * a
  {
  }

  /** memcpy between two bitmaps. */
  method CopyPixels(dst: array<Pixel>, dest: nat, src: array<Pixel>, from: nat, count: nat)
    requires dst != src && dest + count <= dst.Length && from + count <= src.Length
    modifies dst
    ensures forall p :: 0 <= p < dst.Length ==>
              dst[p] == if dest <= p < dest + count then src[from + (p - dest)] else old(dst[p])
  {
    for k := 0 to count
      invariant forall p :: 0 <= p < dst.Length ==>
                  dst[p] == if dest <= p < dest + k then src[from + (p - dest)] else old(dst[p])
    {
      dst[dest + k] := src[from + k];
    }
  }

  lemma PixelAt(width: nat, p: nat)
    requires width > 0
    ensures p == width * (p / width) + p % width
  {
  }

  /** The row loop of osd_udpate_date_string. */
  method CopyCell(bitmap: array<Pixel>, strip: array<Pixel>, width: nat, x: nat, y: nat, digit: nat, size: nat)
    requires bitmap != strip && width > 0 && digit < 10 && x + HalfWidth(size) <= width
    requires strip.Length == StripWidth(size) * size && width * (y + size) <= bitmap.Length
    modifies bitmap
    ensures Blitted(old(bitmap[..]), bitmap[..], strip[..], width, x, y, digit, size)
  {
    ghost var before := bitmap[..];
    for row := 0 to size
      invariant forall p :: 0 <= p < bitmap.Length ==>
                  CellCopied(before, bitmap[..], strip[..], width, x, y, digit, size, row, p)
    {
      ghost var middle, rows := bitmap[..], row + 1;
      CopyRow(bitmap, strip, width, x, y, digit, size, row);
      forall p | 0 <= p < bitmap.Length
        ensures CellCopied(before, bitmap[..], strip[..], width, x, y, digit, size, rows, p)
      {
        assert RowCopied(middle, bitmap[..], strip[..], width, x, y, digit, size, row, p);
        RowExtendsCell(before, middle, bitmap[..], strip[..], width, x, y, digit, size, row, p);
      }
    }
  }

  ghost predicate CellCopied(before: seq<Pixel>, after: seq<Pixel>, strip: seq<Pixel>, width: nat, x: nat, y: nat,
                             digit: nat, size: nat, rows: nat, p: nat)
    requires width > 0 && p < |before| == |after|
  {
    if InCell(p, width, x, y, size) && p / width < y + rows then
      var s := StripIndex(digit, p / width - y, p % width - x, size);
      0 <= s < |strip| && after[p] == strip[s]
    else after[p] == before[p]
  }

  lemma RowExtendsCell(before: seq<Pixel>, middle: seq<Pixel>, after: seq<Pixel>, strip: seq<Pixel>,
                       width: nat, x: nat, y: nat, digit: nat, size: nat, row: nat, p: nat)
    requires width > 0 && p < |before| == |middle| == |after| && row < size
    requires CellCopied(before, middle, strip, width, x, y, digit, size, row, p)
    requires RowCopied(middle, after, strip, width, x, y, digit, size, row, p)
    ensures CellCopied(before, after, strip, width, x, y, digit, size, row + 1, p)
  {
  }

  // ------------------------------------------------------------------ a copied cell is a rendered cell

  /** A glyph no larger than its half-width cell inks only pixels of the cell. */
  lemma InksInsideCell(placed: Placed, width: nat, size: nat, p: nat)
    requires Inks(placed, width, p) && placed.glyph.width <= HalfWidth(size) && placed.glyph.height <= size
    ensures InCell(p, width, placed.x, placed.y, size)
  {
  }

  /** A column of one digit is not a column of another. */
  lemma DigitsApart(half: nat, d: nat, e: nat)
    ensures e * half == half * e
    ensures d < e ==> half * d + half <= half * e
    ensures e < d ==> half * e + half <= half * d
  {
    if d < e {
      MulMonotone(half, d + 1, e);
    } else if e < d {
      MulMonotone(half, e + 1, d);
    }
  }

  /** Digit `e` inks a pixel of digit `d`'s cell of the strip only when it is that digit and inks that place. */
  lemma DigitInks(lib: FontLibrary, glyph: Glyph, digit: nat, e: nat, row: nat, col: nat)
    requires digit < 10 && row < lib.size && col < HalfWidth(lib.size) && glyph.width <= HalfWidth(lib.size)
    ensures 0 <= StripIndex(digit, row, col, lib.size)
    ensures Inks(Placed(glyph, e * HalfWidth(lib.size), 0), StripWidth(lib.size), StripIndex(digit, row, col, lib.size))
       <==> e == digit && Ink(glyph, row, col)
  {
    var half := HalfWidth(lib.size);
    var shift := half * digit - e * half;
    PlaceInStrip(digit, row, col, lib.size);
    assert Inks(Placed(glyph, e * half, 0), StripWidth(lib.size), StripIndex(digit, row, col, lib.size))
      <==> Ink(glyph, row, shift + col);
    DigitsApart(half, digit, e);
    ShiftedInk(glyph, row, col, shift, half);
  }

  lemma PlaceInStrip(digit: nat, row: nat, col: nat, size: nat)
    requires digit < 10 && row < size && col < HalfWidth(size)
    ensures var p := StripIndex(digit, row, col, size);
            && p >= 0 && StripWidth(size) > 0
            && p / StripWidth(size) == row && p % StripWidth(size) == HalfWidth(size) * digit + col
  {
    StripIndexInside(digit, row, col, size);
    PixelPosition(StripWidth(size), row, HalfWidth(size) * digit + col);
  }

  /** A glyph no wider than a cell inks nothing a whole cell away. */
  lemma ShiftedInk(glyph: Glyph, row: int, col: nat, shift: int, half: nat)
    requires col < half && glyph.width <= half && (shift == 0 || shift + half <= 0 || half <= shift)
    ensures Ink(glyph, row, shift + col) <==> shift == 0 && Ink(glyph, row, col)
  {
  }

  /** In the strip, the pixels of a digit's cell show that digit and no other. */
  lemma {:induction false} StripShowsDigit(lib: FontLibrary, digit: nat, row: nat, col: nat)
    requires LegalLibrary(lib) && HasDigits(lib) && digit < 10 && row < lib.size && col < HalfWidth(lib.size)
    ensures 0 <= StripIndex(digit, row, col, lib.size)
    ensures InkAt(DigitPicture(lib, 10), StripWidth(lib.size), StripIndex(digit, row, col, lib.size))
       <==> Ink(lib.CharToBitmap(Digit(digit), 0), row, col)
  {
    var picture := DigitPicture(lib, 10);
    StripIndexInside(digit, row, col, lib.size);
    var p := StripIndex(digit, row, col, lib.size);
    forall e: nat | e < 10
      ensures Inks(picture[e], StripWidth(lib.size), p) <==>
              e == digit && Ink(lib.CharToBitmap(Digit(digit), 0), row, col)
    {
      assert lib.Covers(Digit(e), 0) && LegalGlyph(lib, Digit(e), lib.CharToBitmap(Digit(e), 0));
      DigitInks(lib, lib.CharToBitmap(Digit(e), 0), digit, e, row, col);
    }
  }

  /** A date: `len` characters of one byte each and a terminator; the library covers all of them. */
  ghost predicate IsDate(lib: FontLibrary, text: seq<byte>, len: nat) {
    && |text| == len + 1 && text[len] == 0
    && forall i :: 0 <= i < len ==> text[i] != 0 && lib.UsedBytes(text[i]) == 1 && lib.Covers(text[i], 0)
  }

  /** Half-width cells for the characters 0, 1, 2, ..., inside the bitmap and apart from each other. */
  ghost predicate DateCells(lib: FontLibrary, cells: seq<Cell>, len: nat, width: nat, pixels: nat) {
    && |cells| == len
    && (forall i :: 0 <= i < len ==>
          && cells[i].index == i && cells[i].bytes == 1
          && cells[i].x + HalfWidth(lib.size) <= width && width * (cells[i].y + lib.size) <= pixels)
    && PairwiseApart(lib, cells)
  }

  /** Dates of one length have one layout. */
  lemma SameDatePlan(lib: FontLibrary, date: seq<byte>, other: seq<byte>, len: nat, area: Area)
    requires IsDate(lib, date, len) && IsDate(lib, other, len)
    ensures PlanOf(date, len, lib, area) == PlanOf(other, len, lib, area)
  {
    CellBytes(date, len, lib, area, Pen(0, 0, 0, 0, 0));
    SamePlan(date, other, len, lib, area, Pen(0, 0, 0, 0, 0));
  }

  /** The layout of a date that fits gives such cells. */
  lemma DateLayout(lib: FontLibrary, text: seq<byte>, len: nat, area: Area)
    requires IsDate(lib, text, len) && lib.size <= area.height && lib.size <= area.width
    requires PlanOf(text, len, lib, area).complete
    ensures DateCells(lib, PlanOf(text, len, lib, area).cells, len, area.width, area.dataLen)
  {
    var start, cells := Pen(0, 0, 0, 0, 0), PlanOf(text, len, lib, area).cells;
    SingleByteCells(text, len, lib, area, start);
    assert forall c :: c in cells ==> c.bytes == 1;
    CellsAreInside(text, len, lib, area);
    CellsDisjointFrom(text, len, lib, area, start);
    forall i | 0 <= i < len
      ensures cells[i].x + HalfWidth(lib.size) <= area.width
      ensures area.width * (cells[i].y + lib.size) <= area.dataLen
    {
      assert cells[i] in cells;
    }
  }

  lemma DateDrawable(lib: FontLibrary, text: seq<byte>, len: nat, cells: seq<Cell>, width: nat, pixels: nat)
    requires LegalLibrary(lib) && IsDate(lib, text, len) && DateCells(lib, cells, len, width, pixels)
    ensures Drawable(text, lib, cells)
  {
    forall c | c in cells
      ensures c.index + 1 < |text| && lib.Covers(text[c.index], text[c.index + 1])
    {
      var i :| 0 <= i < len && cells[i] == c;
    }
  }

  /** The glyph of character `i` is placed at its cell and fits it. */
  lemma {:induction false} GlyphFitsCell(lib: FontLibrary, text: seq<byte>, len: nat, cells: seq<Cell>, width: nat,
                                         pixels: nat, i: nat)
    requires LegalLibrary(lib) && IsDate(lib, text, len) && DateCells(lib, cells, len, width, pixels)
    requires Drawable(text, lib, cells) && i < len
    ensures Picture(text, lib, cells)[i] == Placed(lib.CharToBitmap(text[i], 0), cells[i].x, cells[i].y)
    ensures lib.CharToBitmap(text[i], 0).width <= HalfWidth(lib.size) && lib.CharToBitmap(text[i], 0).height <= lib.size
  {
    assert cells[i] in cells;
    assert lib.Covers(text[i], 0) && LegalGlyph(lib, text[i], lib.CharToBitmap(text[i], 0));
  }

  /** A glyph in one of two cells that are apart inks nothing in the other. */
  lemma NoInkAcross(lib: FontLibrary, c: Cell, d: Cell, glyph: Glyph, width: nat, p: nat)
    requires c.bytes == 1 && d.bytes == 1 && (Apart(lib, c, d) || Apart(lib, d, c))
    requires glyph.width <= HalfWidth(lib.size) && glyph.height <= lib.size
    requires InCell(p, width, c.x, c.y, lib.size)
    ensures !Inks(Placed(glyph, d.x, d.y), width, p)
  {
  }

  lemma {:induction false} OtherCellInksNothing(lib: FontLibrary, text: seq<byte>, len: nat, cells: seq<Cell>,
                                                width: nat, pixels: nat, k: nat, i: nat, p: nat)
    requires LegalLibrary(lib) && IsDate(lib, text, len) && DateCells(lib, cells, len, width, pixels)
    requires Drawable(text, lib, cells)
    requires k < len && i < len && i != k && InCell(p, width, cells[k].x, cells[k].y, lib.size)
    ensures !Inks(Picture(text, lib, cells)[i], width, p)
  {
    GlyphFitsCell(lib, text, len, cells, width, pixels, i);
    assert if i < k then Apart(lib, cells[i], cells[k]) else Apart(lib, cells[k], cells[i]);
    NoInkAcross(lib, cells[k], cells[i], lib.CharToBitmap(text[i], 0), width, p);
  }

  /** Which cells ink a pixel of cell `k`: only cell `k`. */
  lemma {:induction false} OnlyOwnCellInks(lib: FontLibrary, text: seq<byte>, len: nat, cells: seq<Cell>, width: nat,
                                           pixels: nat, k: nat, p: nat)
    requires LegalLibrary(lib) && IsDate(lib, text, len) && DateCells(lib, cells, len, width, pixels)
    requires Drawable(text, lib, cells)
    requires k < len && InCell(p, width, cells[k].x, cells[k].y, lib.size)
    ensures InkAt(Picture(text, lib, cells), width, p)
       <==> Inks(Placed(lib.CharToBitmap(text[k], 0), cells[k].x, cells[k].y), width, p)
  {
    var picture := Picture(text, lib, cells);
    GlyphFitsCell(lib, text, len, cells, width, pixels, k);
    forall i: nat | i < |picture| && Inks(picture[i], width, p)
      ensures i == k
    {
      if i != k {
        OtherCellInksNothing(lib, text, len, cells, width, pixels, k, i, p);
      }
    }
  }

  /** Changing character `k` does not change what is inked outside its cell. */
  lemma {:induction false} OtherCellsKeepInk(lib: FontLibrary, text: seq<byte>, changed: seq<byte>, len: nat,
                                             cells: seq<Cell>, width: nat, pixels: nat, k: nat, p: nat)
    requires LegalLibrary(lib) && IsDate(lib, text, len) && IsDate(lib, changed, len)
    requires DateCells(lib, cells, len, width, pixels) && Drawable(text, lib, cells) && Drawable(changed, lib, cells)
    requires k < len && (forall i :: 0 <= i < len && i != k ==> changed[i] == text[i])
    requires !InCell(p, width, cells[k].x, cells[k].y, lib.size)
    ensures InkAt(Picture(changed, lib, cells), width, p) ==> InkAt(Picture(text, lib, cells), width, p)
  {
    var picture, original := Picture(changed, lib, cells), Picture(text, lib, cells);
    if i :| 0 <= i < len && Inks(picture[i], width, p) {
      if i == k {
        assert LegalGlyph(lib, changed[k], lib.CharToBitmap(changed[k], 0));
        InksInsideCell(picture[k], width, lib.size, p);
      }
      assert picture[i] == original[i];
    }
  }

  /** Copying the digit from the strip turns the rendered date into the rendering with that digit. */
  lemma {:induction false} BlitRerenders(lib: FontLibrary, text: seq<byte>, changed: seq<byte>, len: nat,
                                         cells: seq<Cell>, width: nat, k: nat, digit: nat, before: seq<Pixel>,
                                         after: seq<Pixel>, strip: seq<Pixel>, color: Pixel)
    requires LegalLibrary(lib) && HasDigits(lib) && IsDate(lib, text, len) && IsDate(lib, changed, len) && width > 0
    requires DateCells(lib, cells, len, width, |before|) && Drawable(text, lib, cells) && Drawable(changed, lib, cells)
    requires k < len && digit < 10 && changed == text[k := Digit(digit)]
    requires Shows(before, Picture(text, lib, cells), width, color)
    requires Shows(strip, DigitPicture(lib, 10), StripWidth(lib.size), color)
    requires Blitted(before, after, strip, width, cells[k].x, cells[k].y, digit, lib.size)
    ensures Shows(after, Picture(changed, lib, cells), width, color)
  {
    forall p | 0 <= p < |after|
      ensures after[p] == if InkAt(Picture(changed, lib, cells), width, p) then color else TRANSPARENT
    {
      assert CellCopied(before, after, strip, width, cells[k].x, cells[k].y, digit, lib.size, lib.size, p);
      if InCell(p, width, cells[k].x, cells[k].y, lib.size) {
        PixelOfDigit(lib, changed, len, cells, width, |before|, k, digit, strip, color, p);
      } else {
        SameInkElsewhere(lib, text, changed, len, cells, width, |before|, k, p);
      }
    }
  }

  lemma SameInkElsewhere(lib: FontLibrary, text: seq<byte>, changed: seq<byte>, len: nat, cells: seq<Cell>, width: nat,
                         pixels: nat, k: nat, p: nat)
    requires LegalLibrary(lib) && IsDate(lib, text, len) && IsDate(lib, changed, len)
    requires DateCells(lib, cells, len, width, pixels) && Drawable(text, lib, cells) && Drawable(changed, lib, cells)
    requires k < len && (forall i :: 0 <= i < len && i != k ==> changed[i] == text[i])
    requires !InCell(p, width, cells[k].x, cells[k].y, lib.size)
    ensures InkAt(Picture(changed, lib, cells), width, p) <==> InkAt(Picture(text, lib, cells), width, p)
  {
    OtherCellsKeepInk(lib, text, changed, len, cells, width, pixels, k, p);
    OtherCellsKeepInk(lib, changed, text, len, cells, width, pixels, k, p);
  }

  /** Inside the cell, the strip's pixel is the one the rendering with that digit has. */
  lemma {:induction false} PixelOfDigit(lib: FontLibrary, text: seq<byte>, len: nat, cells: seq<Cell>, width: nat,
                                        pixels: nat, k: nat, digit: nat, strip: seq<Pixel>, color: Pixel, p: nat)
    requires LegalLibrary(lib) && HasDigits(lib) && IsDate(lib, text, len)
    requires DateCells(lib, cells, len, width, pixels) && Drawable(text, lib, cells)
    requires k < len && digit < 10 && text[k] == Digit(digit)
    requires Shows(strip, DigitPicture(lib, 10), StripWidth(lib.size), color)
    requires InCell(p, width, cells[k].x, cells[k].y, lib.size)
    ensures var s := StripIndex(digit, p / width - cells[k].y, p % width - cells[k].x, lib.size);
            0 <= s < |strip| ==> strip[s] == if InkAt(Picture(text, lib, cells), width, p) then color else TRANSPARENT
  {
    OnlyOwnCellInks(lib, text, len, cells, width, pixels, k, p);
    StripShowsDigit(lib, digit, p / width - cells[k].y, p % width - cells[k].x);
  }

  // ------------------------------------------------------------------ the update

  ghost predicate ChangesAreDigits(preDate: seq<byte>, curDate: seq<byte>, len: nat) {
    && len <= |preDate| && len <= |curDate|
    && forall i :: 0 <= i < len && curDate[i] != preDate[i] ==>
         '0' <= curDate[i] as char <= '9'
  }

  /**
   * osd_udpate_date_string. For two dates of the same length whose changed characters are digits,
   * repainting the changed cells from the strip turns the bitmap of the old date into that of the new one.
   */
  method UpdateDateString(lib: FontLibrary, color: Pixel, bitmap: array<Pixel>, strip: array<Pixel>, linePitch: u16,
                          dateX: array<nat>, dateY: array<nat>, preDate: seq<byte>, curDate: seq<byte>,
                          ghost len: nat, ghost area: Area)
    returns (ok: bool)
    requires LegalLibrary(lib) && HasDigits(lib) && bitmap != strip
    requires IsDate(lib, preDate, len) && IsDate(lib, curDate, len) && ChangesAreDigits(preDate, curDate, len)
    requires area.width == linePitch && area.dataLen == bitmap.Length
    requires lib.size <= area.height && lib.size <= area.width && PlanOf(preDate, len, lib, area).complete
    requires Rendered(preDate, lib, color, area, bitmap, dateX, dateY, PlanOf(preDate, len, lib, area).cells)
    requires strip.Length == StripWidth(lib.size) * lib.size
    requires Shows(strip[..], DigitPicture(lib, 10), StripWidth(lib.size), color)
    modifies bitmap
    ensures ok <==> linePitch != 0
    ensures ok ==> PlanOf(curDate, len, lib, area).complete
    ensures ok ==> Rendered(curDate, lib, color, area, bitmap, dateX, dateY, PlanOf(curDate, len, lib, area).cells)
  {
    if linePitch == 0 {
      return false;
    }
    ghost var cells := PlanOf(preDate, len, lib, area).cells;
    DateLayout(lib, preDate, len, area);
    SameDatePlan(lib, preDate, curDate, len, area);
    RepaintChanged(lib, color, bitmap, strip, linePitch, dateX, dateY, preDate, curDate, len, cells);
    ok := true;
  }

  /** The bitmap shows the characters of a text at their cells. */
  ghost predicate ShowsText(bitmap: seq<Pixel>, lib: FontLibrary, text: seq<byte>, cells: seq<Cell>, width: nat,
                            color: Pixel)
  {
    Drawable(text, lib, cells) && Shows(bitmap, Picture(text, lib, cells), width, color)
  }

  /** What the bitmap shows half-way: the new date's first `cnt` characters and the rest of the old one. */
  function Mixed(preDate: seq<byte>, curDate: seq<byte>, cnt: nat): seq<byte>
    requires cnt <= |preDate| == |curDate|
  {
    curDate[..cnt] + preDate[cnt..]
  }

  lemma MixedIsDate(lib: FontLibrary, preDate: seq<byte>, curDate: seq<byte>, len: nat, cnt: nat)
    requires IsDate(lib, preDate, len) && IsDate(lib, curDate, len) && cnt <= len
    ensures IsDate(lib, Mixed(preDate, curDate, cnt), len)
  {
  }

  lemma MixedEnds(lib: FontLibrary, preDate: seq<byte>, curDate: seq<byte>, len: nat)
    requires IsDate(lib, preDate, len) && IsDate(lib, curDate, len)
    ensures Mixed(preDate, curDate, 0) == preDate && Mixed(preDate, curDate, len) == curDate
  {
  }

  lemma MixedStep(preDate: seq<byte>, curDate: seq<byte>, cnt: nat)
    requires cnt < |preDate| == |curDate|
    ensures Mixed(preDate, curDate, cnt + 1) == Mixed(preDate, curDate, cnt)[cnt := curDate[cnt]]
    ensures curDate[cnt] == preDate[cnt] ==> Mixed(preDate, curDate, cnt + 1) == Mixed(preDate, curDate, cnt)
  {
    assert preDate[cnt..] == [preDate[cnt]] + preDate[cnt + 1..];
  }

  /** Two dates of the same length whose changed characters are digits, with saved positions and a digit strip. */
  ghost predicate Update(lib: FontLibrary, color: Pixel, strip: seq<Pixel>, linePitch: nat, pixels: nat,
                         preDate: seq<byte>, curDate: seq<byte>, len: nat, cells: seq<Cell>) {
    && LegalLibrary(lib) && HasDigits(lib) && linePitch > 0
    && IsDate(lib, preDate, len) && IsDate(lib, curDate, len)
    && ChangesAreDigits(preDate, curDate, len)
    && DateCells(lib, cells, len, linePitch, pixels)
    && |strip| == StripWidth(lib.size) * lib.size
    && Shows(strip, DigitPicture(lib, 10), StripWidth(lib.size), color)
  }

  /** The character loop: what is shown changes from the old date to the new one, position by position. */
  method RepaintChanged(lib: FontLibrary, color: Pixel, bitmap: array<Pixel>, strip: array<Pixel>, linePitch: nat,
                        dateX: array<nat>, dateY: array<nat>, preDate: seq<byte>, curDate: seq<byte>,
                        ghost len: nat, ghost cells: seq<Cell>)
    requires bitmap != strip && Update(lib, color, strip[..], linePitch, bitmap.Length, preDate, curDate, len, cells)
    requires DatesHold(dateX, dateY, cells)
    requires ShowsText(bitmap[..], lib, preDate, cells, linePitch, color)
    modifies bitmap
    ensures ShowsText(bitmap[..], lib, curDate, cells, linePitch, color)
  {
    var cnt: nat := 0;
    MixedEnds(lib, preDate, curDate, len);
    ghost var digits := strip[..];
    while curDate[cnt] != 0
      invariant cnt <= len && strip[..] == digits && DatesHold(dateX, dateY, cells)
      invariant ShowsText(bitmap[..], lib, Mixed(preDate, curDate, cnt), cells, linePitch, color)
      decreases len - cnt
    {
      RepaintCharacter(lib, color, bitmap, strip, linePitch, dateX, dateY, preDate, curDate, len, cells, cnt);
      cnt := cnt + 1;
    }
  }

  /** One character: when it has changed, its cell is copied from the strip to the saved position. */
  method RepaintCharacter(lib: FontLibrary, color: Pixel, bitmap: array<Pixel>, strip: array<Pixel>, linePitch: nat,
                          dateX: array<nat>, dateY: array<nat>, preDate: seq<byte>, curDate: seq<byte>,
                          ghost len: nat, ghost cells: seq<Cell>, cnt: nat)
    requires bitmap != strip && Update(lib, color, strip[..], linePitch, bitmap.Length, preDate, curDate, len, cells)
    requires DatesHold(dateX, dateY, cells) && cnt < len
    requires ShowsText(bitmap[..], lib, Mixed(preDate, curDate, cnt), cells, linePitch, color)
    modifies bitmap
    ensures DatesHold(dateX, dateY, cells) && strip[..] == old(strip[..])
    ensures ShowsText(bitmap[..], lib, Mixed(preDate, curDate, cnt + 1), cells, linePitch, color)
  {
    MixedStep(preDate, curDate, cnt);
    if curDate[cnt] == preDate[cnt] {
      return;
    }
    var index := curDate[cnt] - ZERO;
    assert cells[cnt] in cells;
    ghost var before := bitmap[..];
    CopyCell(bitmap, strip, linePitch, dateX[cnt], dateY[cnt], index, lib.size);
    CellRerenders(lib, color, strip[..], linePitch, preDate, curDate, len, cells, cnt, before, bitmap[..]);
  }

  lemma CellRerenders(lib: FontLibrary, color: Pixel, strip: seq<Pixel>, linePitch: nat, preDate: seq<byte>,
                      curDate: seq<byte>, len: nat, cells: seq<Cell>, cnt: nat, before: seq<Pixel>, after: seq<Pixel>)
    requires Update(lib, color, strip, linePitch, |before|, preDate, curDate, len, cells)
    requires cnt < len && curDate[cnt] != preDate[cnt]
    requires ShowsText(before, lib, Mixed(preDate, curDate, cnt), cells, linePitch, color)
    requires Blitted(before, after, strip, linePitch, cells[cnt].x, cells[cnt].y, curDate[cnt] - ZERO, lib.size)
    ensures ShowsText(after, lib, Mixed(preDate, curDate, cnt + 1), cells, linePitch, color)
  {
    var shown, next := Mixed(preDate, curDate, cnt), Mixed(preDate, curDate, cnt + 1);
    MixedIsDate(lib, preDate, curDate, len, cnt);
    MixedIsDate(lib, preDate, curDate, len, cnt + 1);
    MixedStep(preDate, curDate, cnt);
    DateDrawable(lib, next, len, cells, linePitch, |before|);
    BlitRerenders(lib, shown, next, len, cells, linePitch, cnt, curDate[cnt] - ZERO, before, after, strip, color);
  }

  // ------------------------------------------------------------------ the running date

  /** The date shown first, and then at every tick. */
  function DateAt(first: seq<byte>, dates: seq<seq<byte>>, i: nat): seq<byte>
    requires i <= |dates|
  {
    if i == 0 then first else dates[i - 1]
  }

  /** Dates of one length, each of which differs from the one before in digits only. */
  ghost predicate DatesRun(lib: FontLibrary, first: seq<byte>, dates: seq<seq<byte>>, len: nat) {
    && (forall i :: 0 <= i <= |dates| ==> IsDate(lib, DateAt(first, dates, i), len))
    && forall i :: 0 <= i < |dates| ==> ChangesAreDigits(DateAt(first, dates, i), dates[i], len)
  }

  /** The first date fits a box of some width. */
  ghost predicate DateFits(text: TextParams, lib: FontLibrary, area: Area) {
    && lib.size == text.size && lib.size <= area.height && lib.size <= area.width && 0 < area.width
    && PlanOf(text.textStr, text.textLen, lib, area).complete
  }

  lemma ExampleArea()
    ensures AreaOf(TextParams([48, 0], 1, 16, 0, 0, 100, 100), 32, 16, 512) == Area(32, 16, 512)
  {
    assert ShareOf(100, 32) == 32 && ShareOf(100, 16) == 16;
    assert LeftOf(0, 32) == 32 by { assert CDiv(3200, 100) == 32; }
    assert LeftOf(0, 16) == 16 by { assert CDiv(1600, 100) == 16; }
    assert RoundUp32(16) == 32;
  }

  /** For one: the digit 0 in a box of 32 x 16 pixels, running on to 1 and 2. */
  lemma RunningDateExample(lib: FontLibrary)
    requires LegalLibrary(lib) && HasDigits(lib) && lib.size == 16
    ensures var text := TextParams([48, 0], 1, 16, 0, 0, 100, 100);
            && AreaOf(text, 32, 16, 512) == Area(32, 16, 512) && DateFits(text, lib, Area(32, 16, 512))
            && DatesRun(lib, text.textStr, [[49, 0], [50, 0]], text.textLen)
  {
    ExampleArea();
    hide AreaOf;
    var zero: seq<byte>, dates: seq<seq<byte>> := [48, 0], [[49, 0], [50, 0]];
    assert lib.UsedBytes(Digit(0)) == lib.UsedBytes(Digit(1)) == lib.UsedBytes(Digit(2)) == 1;
    assert lib.Covers(Digit(0), 0) && lib.Covers(Digit(1), 0) && lib.Covers(Digit(2), 0);
    assert forall i :: 0 <= i <= 2 ==> DateAt(zero, dates, i) == [Digit(i), 0];
    assert PlanFrom(zero, 1, lib, Area(32, 16, 512), Moved(lib, Pen(0, 0, 0, 0, 0), 1)).complete;
  }

  /** A date that fits can be drawn, and so can every other date of its length, at the same cells. */
  lemma DateConvertible(text: TextParams, date: seq<byte>, lib: FontLibrary, area: Area)
    requires LegalLibrary(lib) && DateFits(text, lib, area)
    requires IsDate(lib, text.textStr, text.textLen) && IsDate(lib, date, text.textLen)
    ensures Drawable(date, lib, PlanOf(date, text.textLen, lib, area).cells)
    ensures PlanOf(date, text.textLen, lib, area) == PlanOf(text.textStr, text.textLen, lib, area)
  {
    var cells := PlanOf(text.textStr, text.textLen, lib, area).cells;
    DateLayout(lib, text.textStr, text.textLen, area);
    SameDatePlan(lib, text.textStr, date, text.textLen, area);
    DateDrawable(lib, date, text.textLen, cells, area.width, area.dataLen);
  }

  /** What is shown leaves no pixel open: two bitmaps of the same size that show the same text are equal. */
  lemma RenderingIsUnique(one: seq<Pixel>, other: seq<Pixel>, lib: FontLibrary, text: seq<byte>, cells: seq<Cell>,
                          width: nat, color: Pixel)
    requires |one| == |other|
    requires ShowsText(one, lib, text, cells, width, color) && ShowsText(other, lib, text, cells, width, color)
    ensures one == other
  {
    assert forall p :: 0 <= p < |one| ==> one[p] == other[p];
  }

  /** The loop of osd_update_date_thread: at every tick the bitmap is brought from the last date to the current one. */
  method RunDates(text: TextParams, dates: seq<seq<byte>>, lib: FontLibrary, color: Pixel, bitmap: array<Pixel>,
                  strip: array<Pixel>, linePitch: u16, dateX: array<nat>, dateY: array<nat>, ghost area: Area)
    returns (shown: seq<byte>)
    requires LegalLibrary(lib) && HasDigits(lib) && bitmap != strip && DateFits(text, lib, area)
    requires DatesRun(lib, text.textStr, dates, text.textLen)
    requires area.width == linePitch && area.dataLen == bitmap.Length
    requires Rendered(text.textStr, lib, color, area, bitmap, dateX, dateY,
                      PlanOf(text.textStr, text.textLen, lib, area).cells)
    requires strip.Length == StripWidth(lib.size) * lib.size
    requires Shows(strip[..], DigitPicture(lib, 10), StripWidth(lib.size), color)
    modifies bitmap
    ensures shown == DateAt(text.textStr, dates, |dates|)
    ensures Rendered(shown, lib, color, area, bitmap, dateX, dateY, PlanOf(shown, text.textLen, lib, area).cells)
  {
    shown := text.textStr;
    ghost var digits := strip[..];
    for i := 0 to |dates|
      invariant shown == DateAt(text.textStr, dates, i) && strip[..] == digits
      invariant PlanOf(shown, text.textLen, lib, area).complete
      invariant Rendered(shown, lib, color, area, bitmap, dateX, dateY, PlanOf(shown, text.textLen, lib, area).cells)
    {
      var curDate := dates[i];
      assert curDate == DateAt(text.textStr, dates, i + 1);
      var ok :=
        UpdateDateString(lib, color, bitmap, strip, linePitch, dateX, dateY, shown, curDate, text.textLen, area);
      shown := curDate;
    }
  }

  /** The box of a text does not depend on its characters. */
  lemma AreaOfDate(text: TextParams, date: seq<byte>, width: u16, height: u16, dataLen: nat)
    ensures AreaOf(text.(textStr := date), width, height, dataLen) == AreaOf(text, width, height, dataLen)
  {
  }

  /** A date is set up, the digits are prepared, and it runs. */
  method StartDate(text: TextParams, dates: seq<seq<byte>>, lib: FontLibrary, color: Pixel, width: u16, height: u16,
                   bitmap: array<Pixel>, dateX: array<nat>, dateY: array<nat>, ghost area: Area)
    returns (shown: seq<byte>)
    requires LegalLibrary(lib) && HasDigits(lib) && area == AreaOf(text, width, height, bitmap.Length)
    requires DateFits(text, lib, area) && area.dataLen == bitmap.Length
    requires DatesRun(lib, text.textStr, dates, text.textLen)
    requires dateX != dateY && text.textLen <= dateX.Length && text.textLen <= dateY.Length
    requires forall p :: 0 <= p < bitmap.Length ==> bitmap[p] == TRANSPARENT
    modifies bitmap, dateX, dateY
    ensures shown == DateAt(text.textStr, dates, |dates|)
    ensures Rendered(shown, lib, color, area, bitmap, dateX, dateY, PlanOf(shown, text.textLen, lib, area).cells)
  {
    assert IsDate(lib, DateAt(text.textStr, dates, 0), text.textLen);
    DateConvertible(text, text.textStr, lib, area);
    var done, size := ConvertText(text, lib, color, width, height, bitmap, dateX, dateY);
    var strip := CreateDigitBitmap(lib, color);
    shown := RunDates(text, dates, lib, color, bitmap, strip, size.width, dateX, dateY, area);
  }

  /** Rendering a date afresh gives the pixels of any bitmap that shows it. */
  method DrawAfresh(text: TextParams, date: seq<byte>, lib: FontLibrary, color: Pixel, width: u16, height: u16,
                    again: array<Pixel>, ghost area: Area, ghost shown: seq<Pixel>)
    requires LegalLibrary(lib) && area == AreaOf(text, width, height, again.Length) && DateFits(text, lib, area)
    requires IsDate(lib, text.textStr, text.textLen) && IsDate(lib, date, text.textLen)
    requires |shown| == again.Length
    requires ShowsText(shown, lib, date, PlanOf(date, text.textLen, lib, area).cells, area.width, color)
    requires forall p :: 0 <= p < again.Length ==> again[p] == TRANSPARENT
    modifies again
    ensures again[..] == shown
  {
    DateConvertible(text, date, lib, area);
    AreaOfDate(text, date, width, height, again.Length);
    var done, size := ConvertText(text.(textStr := date), lib, color, width, height, again, null, null);
    RenderingIsUnique(again[..], shown, lib, date, PlanOf(date, text.textLen, lib, area).cells, area.width, color);
  }

  /**
   * A date is set up, and then runs. After any number of ticks the bitmap holds, pixel by pixel, what osd_convert_text
   * makes of the current date in a fresh buffer.
   */
  method ShowRunningDate(text: TextParams, dates: seq<seq<byte>>, lib: FontLibrary, color: Pixel, width: u16,
                         height: u16, bitmap: array<Pixel>, again: array<Pixel>, dateX: array<nat>, dateY: array<nat>)
    requires LegalLibrary(lib) && HasDigits(lib) && bitmap != again && bitmap.Length == again.Length
    requires DateFits(text, lib, AreaOf(text, width, height, bitmap.Length))
    requires DatesRun(lib, text.textStr, dates, text.textLen)
    requires dateX != dateY && text.textLen <= dateX.Length && text.textLen <= dateY.Length
    requires forall p :: 0 <= p < bitmap.Length ==> bitmap[p] == again[p] == TRANSPARENT
    modifies bitmap, again, dateX, dateY
    ensures bitmap[..] == again[..]
  {
    ghost var area := AreaOf(text, width, height, bitmap.Length);
    assert area.dataLen == bitmap.Length;
    var shown := StartDate(text, dates, lib, color, width, height, bitmap, dateX, dateY, area);
    assert IsDate(lib, DateAt(text.textStr, dates, 0), text.textLen);
    assert IsDate(lib, DateAt(text.textStr, dates, |dates|), text.textLen);
    DrawAfresh(text, shown, lib, color, width, height, again, area, bitmap[..]);
  }
}
