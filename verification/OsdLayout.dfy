/** Laying out and painting a string: osd_convert_text of src/camera/osd_functions.c. */
module OsdLayout {
  import opened CIntegers
  import opened OsdCommon
  import opened OsdText

  /** The text and its place, in per cent of the picture. The bytes behind textLen include the terminator. */
  datatype TextParams = TextParams(textStr: seq<byte>, textLen: nat, size: byte,
                                   startX: u16, startY: u16, boxWidth: u16, boxHeight: u16)

  /** The pixel box of the text and the number of pixels behind it. */
  datatype Area = Area(width: u16, height: u16, dataLen: nat)

  /** A painted character: its position in the text, the bytes it takes, and its upper left corner. */
  datatype Cell = Cell(index: nat, bytes: nat, x: nat, y: nat)

  /** Everything the layout loop decides: the painted characters, the value of `lines`, and whether all fitted. */
  datatype Plan = Plan(cells: seq<Cell>, lines: nat, complete: bool)

  function RoundUp32(x: nat): nat { (x + 31) / 32 * 32 }

  /** A share of a side of the picture, in per cent and 16 bits. */
  function ShareOf(share: u16, side: u16): u16 { (share * side / 100) % TWO16 }

  /** What is left of a side behind a start in per cent, in 32 bits. */
  function LeftOf(start: u16, side: u16): u32 { Wrap(CDiv((100 - start) * side, 100)) }

  /** The columns of the text before they are rounded up. */
  function Columns(text: TextParams, width: u16): u16 {
    Min(Min(Wrap(text.textLen * text.size), LeftOf(text.startX, width)), ShareOf(text.boxWidth, width))
  }

  /** The box arithmetic at the head of osd_convert_text, with its 16-bit results. */
  function AreaOf(text: TextParams, width: u16, height: u16, dataLen: nat): Area {
    Area(RoundUp32(Columns(text, width)) % TWO16,
         Min(ShareOf(text.boxHeight, height), LeftOf(text.startY, height)),
         dataLen)
  }

  /** Between the start, in per cent, and the end of a picture side there is room for `n` pixels. */
  predicate RoomBehind(start: u16, side: u16, n: nat) {
    if start <= 100 then 100 * n <= (100 - start) * side
    else n == 0 || (start - 100) * side >= 100   // a start far enough behind the end counts as no limit
  }

  /** The box is as high as its own share of the picture and the picture below its start allow. */
  lemma AreaHeight(text: TextParams, width: u16, height: u16, dataLen: nat, h: nat)
    requires text.boxHeight <= 100
    ensures h <= AreaOf(text, width, height, dataLen).height <==>
            100 * h <= text.boxHeight * height && RoomBehind(text.startY, height, h)
  {
    hide ShareOf, LeftOf, RoomBehind, Columns, RoundUp32;
    ShareOfSide(text.boxHeight, height, h);
    if h < TWO16 {
      RoomOfSide(text.startY, height, h);
    } else {
      MulMonotoneLeft(text.boxHeight, 100, height);
    }
  }

  /** The text, the box or the picture behind its start ends within `n` columns. */
  predicate EndsWithin(text: TextParams, width: u16, n: nat) {
    || Wrap(text.textLen * text.size) <= n
    || text.boxWidth * width < 100 * (n + 1)
    || !RoomBehind(text.startX, width, n + 1)
  }

  /**
   * The box is as wide as the least multiple of 32 columns within which the text, its own share of the picture or the
   * picture behind its start ends; in 16 bits it is empty when that is 65536.
   */
  lemma AreaWidth(text: TextParams, width: u16, height: u16, dataLen: nat, k: nat)
    requires text.boxWidth <= 100
    ensures var area := AreaOf(text, width, height, dataLen);
            && area.width % 32 == 0 && area.dataLen == dataLen
            && if EndsWithin(text, width, 65504) then area.width <= 32 * k <==> EndsWithin(text, width, 32 * k)
               else area.width == 0
  {
    hide ShareOf, LeftOf, RoomBehind, Columns, RoundUp32;
    RoundUpWithin(Columns(text, width), k);
    ColumnsWithin(text, width, 65504);
    if k <= 2047 {
      ColumnsWithin(text, width, 32 * k);
    } else {
      MulMonotoneLeft(text.boxWidth, 100, width);
    }
  }

  lemma ColumnsWithin(text: TextParams, width: u16, n: nat)
    requires text.boxWidth <= 100 && n + 1 < TWO16
    ensures Columns(text, width) <= n <==> EndsWithin(text, width, n)
  {
    ShareOfSide(text.boxWidth, width, n + 1);
    RoomOfSide(text.startX, width, n + 1);
  }

  lemma RoundUpWithin(n: u16, k: nat)
    ensures RoundUp32(n) <= 32 * k <==> n <= 32 * k
    ensures RoundUp32(n) % 32 == 0 && RoundUp32(n) <= TWO16 && (n <= 65504 <==> RoundUp32(n) < TWO16)
  {
  }

  lemma ShareOfSide(share: u16, side: u16, n: nat)
    requires share <= 100
    ensures n <= ShareOf(share, side) <==> 100 * n <= share * side
  {
    MulMonotoneLeft(0, share, side);
    MulMonotoneLeft(share, 100, side);
    ShareWithin(share * side, n);
  }

  lemma ShareWithin(x: int, n: nat)
    requires 0 <= x < 100 * TWO16
    ensures n <= (x / 100) % TWO16 <==> 100 * n <= x
  {
  }

  lemma RoomOfSide(start: u16, side: u16, n: nat)
    requires n < TWO16 || start <= 100
    ensures n <= LeftOf(start, side) <==> RoomBehind(start, side, n)
  {
    var x := (100 - start) * side;
    if start <= 100 {
      MulMonotoneLeft(0, 100 - start, side);
      MulMonotoneLeft(100 - start, 100, side);
      PerCentInside(x, n);
    } else {
      assert x == -((start - 100) * side);
      MulMonotoneLeft(start - 100, TWO16, side);
      MulMonotoneLeft(0, start - 100, side);
      PerCentBehind(-x, n);
    }
  }

  lemma PerCentInside(x: int, n: nat)
    requires 0 <= x < TWO32
    ensures n <= Wrap(CDiv(x, 100)) <==> 100 * n <= x
  {
  }

  lemma PerCentBehind(x: int, n: nat)
    requires 0 <= x < TWO32 && n < TWO16
    ensures n <= Wrap(CDiv(-x, 100)) <==> n == 0 || x >= 100
  {
    assert CDiv(-x, 100) == -(x / 100);
    WrapNegative(x / 100);
  }

  lemma WrapNegative(q: int)
    requires 0 <= q < TWO32
    ensures Wrap(-q) == if q == 0 then 0 else TWO32 - q
  {
  }

  /** How far the pen moves for a character of one or two bytes: half the font size for each. */
  function Advance(lib: FontLibrary, used: nat): nat {
    if used == 2 then 2 * HalfWidth(lib.size) else HalfWidth(lib.size)
  }

  function LinePixels(area: Area, lineHeight: nat): nat { area.width * lineHeight }

  /** The variables of the layout loop: the next character, the pen, the line's offset in the buffer, `lines`. */
  datatype Pen = Pen(cnt: nat, x: nat, y: nat, offset: nat, lines: nat)

  predicate MustWrap(lib: FontLibrary, area: Area, pen: Pen) { pen.x + lib.size > area.width }

  /** The pen at the start of the next line, when the current one has no room for a full-width character. */
  function Wrapped(lib: FontLibrary, area: Area, pen: Pen): Pen {
    if MustWrap(lib, area, pen) then
      Pen(pen.cnt, 0, pen.y + lib.size, pen.offset + LinePixels(area, lib.size), (pen.lines + 1) % TWO16)
    else pen
  }

  predicate BelowBox(lib: FontLibrary, area: Area, pen: Pen) {
    MustWrap(lib, area, pen) && Wrapped(lib, area, pen).y + lib.size > area.height
  }

  /** The next character has a line in the box and in the buffer. */
  predicate Fits(lib: FontLibrary, area: Area, pen: Pen) {
    !BelowBox(lib, area, pen) && Wrapped(lib, area, pen).offset + LinePixels(area, lib.size) <= area.dataLen
  }

  /** The value of `lines` when it has not. */
  function StopLines(lib: FontLibrary, area: Area, pen: Pen): nat {
    if BelowBox(lib, area, pen) then pen.lines else (Wrapped(lib, area, pen).lines - 1) % TWO16
  }

  function CellAt(text: seq<byte>, lib: FontLibrary, pen: Pen): Cell
    requires pen.cnt < |text|
  {
    Cell(pen.cnt, lib.UsedBytes(text[pen.cnt]), pen.x, pen.y)
  }

  function Moved(lib: FontLibrary, pen: Pen, used: nat): Pen {
    Pen(pen.cnt + used, pen.x + Advance(lib, used), pen.y, pen.offset, pen.lines)
  }

  /** The layout from the pen on. */
  function PlanFrom(text: seq<byte>, len: nat, lib: FontLibrary, area: Area, pen: Pen): Plan
    decreases if pen.cnt < len then len - pen.cnt else 0
  {
    if pen.cnt >= len || pen.cnt >= |text| then Plan([], pen.lines, true)
    else
      if !Fits(lib, area, pen) then Plan([], StopLines(lib, area, pen), false)
      else
        var p := Wrapped(lib, area, pen);
        var c := CellAt(text, lib, p);
        var rest := PlanFrom(text, len, lib, area, Moved(lib, p, c.bytes));
        Plan([c] + rest.cells, rest.lines, rest.complete)
  }

  function PlanOf(text: seq<byte>, len: nat, lib: FontLibrary, area: Area): Plan {
    PlanFrom(text, len, lib, area, Pen(0, 0, 0, 0, 0))
  }

  ghost predicate Drawable(text: seq<byte>, lib: FontLibrary, cells: seq<Cell>) {
    forall c :: c in cells ==> c.index + 1 < |text| && lib.Covers(text[c.index], text[c.index + 1])
  }

  /** The glyphs the cells stand for. */
  ghost function Picture(text: seq<byte>, lib: FontLibrary, cells: seq<Cell>): (picture: seq<Placed>)
    requires Drawable(text, lib, cells)
    ensures |picture| == |cells|
    ensures forall i :: 0 <= i < |cells| ==>
              picture[i] ==
              Placed(lib.CharToBitmap(text[cells[i].index], text[cells[i].index + 1]), cells[i].x, cells[i].y)
  {
    if cells == [] then []
    else
      var c := cells[|cells| - 1];
      Picture(text, lib, cells[..|cells| - 1]) + [Placed(lib.CharToBitmap(text[c.index], text[c.index + 1]), c.x, c.y)]
  }

  lemma {:induction false} PictureGrows(text: seq<byte>, lib: FontLibrary, cells: seq<Cell>, c: Cell)
    requires Drawable(text, lib, cells + [c])
    ensures Drawable(text, lib, cells) && Drawable(text, lib, [c])
    ensures Picture(text, lib, cells + [c]) ==
            Picture(text, lib, cells) + [Placed(lib.CharToBitmap(text[c.index], text[c.index + 1]), c.x, c.y)]
  {
    assert (cells + [c])[..|cells|] == cells;
    assert c in cells + [c];
    assert forall d :: d in cells ==> d in cells + [c];
  }

  // ------------------------------------------------------------------ the loop

  datatype TextSize = TextSize(width: nat, height: nat)

  /** The saved pen positions are those of the cells. */
  ghost predicate DatesHold(dateX: array?<nat>, dateY: array?<nat>, cells: seq<Cell>)
    reads dateX, dateY
  {
    dateX != null && dateY != null ==>
      forall c :: c in cells ==>
        && c.index < dateX.Length && dateX[c.index] == c.x
        && c.index < dateY.Length && dateY[c.index] == c.y
  }

  /** Paint one character. */
  method DrawCell(text: seq<byte>, lib: FontLibrary, color: Pixel, area: Area, data: array<Pixel>, cell: Cell,
                  ghost done: seq<Cell>)
    returns (used: nat)
    requires LegalLibrary(lib) && Drawable(text, lib, done + [cell]) && Drawable(text, lib, done)
    requires area.width * (cell.y + lib.size) <= data.Length
    requires Shows(data[..], Picture(text, lib, done), area.width, color)
    modifies data
    ensures used == lib.UsedBytes(text[cell.index])
    ensures Shows(data[..], Picture(text, lib, done + [cell]), area.width, color)
  {
    PictureGrows(text, lib, done, cell);
    assert cell in done + [cell];
    var glyph := lib.CharToBitmap(text[cell.index], text[cell.index + 1]);
    assert LegalGlyph(lib, text[cell.index], glyph);
    PaintGlyph(data, area.width, Placed(glyph, cell.x, cell.y), color, cell.y + lib.size, Picture(text, lib, done));
    used := glyph.usedBytes;
  }

  /** Paint one glyph into a bitmap of at least `rows` rows, besides the picture it shows already. */
  method PaintGlyph(data: array<Pixel>, width: nat, placed: Placed, color: Pixel, ghost rows: nat,
                    ghost picture: seq<Placed>)
    requires Complete(placed.glyph) && placed.y + placed.glyph.height <= rows && width * rows <= data.Length
    requires Shows(data[..], picture, width, color)
    modifies data
    ensures Shows(data[..], picture + [placed], width, color)
  {
    ghost var before := data[..];
    MulMonotone(width, placed.y + placed.glyph.height, rows);
    FillAreaMapPerBit(data, width, placed, color);
    PaintedPicture(before, data[..], picture, placed, width, color);
  }

  /** Save the pen position for later date updates. */
  method SaveDate(dateX: array?<nat>, dateY: array?<nat>, cell: Cell, ghost done: seq<Cell>)
    requires dateX != null && dateY != null ==>
               dateX != dateY && cell.index < dateX.Length && cell.index < dateY.Length
    requires forall c :: c in done ==> c.index < cell.index
    requires DatesHold(dateX, dateY, done)
    modifies dateX, dateY
    ensures DatesHold(dateX, dateY, done + [cell])
    ensures dateX != null ==>
              forall k :: 0 <= k < dateX.Length && (k != cell.index || dateY == null) ==> dateX[k] == old(dateX[k])
    ensures dateY != null ==>
              forall k :: 0 <= k < dateY.Length && (k != cell.index || dateX == null) ==> dateY[k] == old(dateY[k])
  {
    if dateX != null && dateY != null {
      dateX[cell.index] := cell.x;
      dateY[cell.index] := cell.y;
    }
  }

  /** The bitmap shows exactly the glyphs of these cells, and their positions are saved. */
  ghost predicate Rendered(text: seq<byte>, lib: FontLibrary, color: Pixel, area: Area, data: array<Pixel>,
                           dateX: array?<nat>, dateY: array?<nat>, cells: seq<Cell>)
    reads data, dateX, dateY
  {
    && Drawable(text, lib, cells)
    && Shows(data[..], Picture(text, lib, cells), area.width, color)
    && DatesHold(dateX, dateY, cells)
  }

  /** What is left of the plan at a point of the loop. */
  ghost predicate Continues(plan: Plan, done: seq<Cell>, rest: Plan) {
    plan == Plan(done + rest.cells, rest.lines, rest.complete)
  }

  /** A character that fits is the next cell of the plan; the plan goes on behind it. */
  lemma {:induction false} CharacterStep(text: seq<byte>, len: nat, lib: FontLibrary, area: Area, done: seq<Cell>,
                                         pen: Pen)
    requires pen.cnt < len < |text| && Fits(lib, area, pen)
    requires Continues(PlanOf(text, len, lib, area), done, PlanFrom(text, len, lib, area, pen))
    requires Drawable(text, lib, PlanOf(text, len, lib, area).cells)
    ensures var cell := CellAt(text, lib, Wrapped(lib, area, pen));
            && Drawable(text, lib, done + [cell])
            && cell in PlanOf(text, len, lib, area).cells
            && Continues(PlanOf(text, len, lib, area), done + [cell],
                         PlanFrom(text, len, lib, area, Moved(lib, Wrapped(lib, area, pen), cell.bytes)))
  {
    var plan, rest := PlanOf(text, len, lib, area), PlanFrom(text, len, lib, area, pen);
    var cell := CellAt(text, lib, Wrapped(lib, area, pen));
    var after := PlanFrom(text, len, lib, area, Moved(lib, Wrapped(lib, area, pen), cell.bytes));
    assert rest.cells == [cell] + after.cells;
    assert plan.cells == done + [cell] + after.cells;
    assert cell in plan.cells && forall c :: c in done + [cell] ==> c in plan.cells;
  }

  /** What osd_convert_text is given: a text, a library that covers it and room for the offsets of a date. */
  ghost predicate Convertible(text: TextParams, lib: FontLibrary, area: Area, dateX: array?<nat>, dateY: array?<nat>) {
    && LegalLibrary(lib) && text.textLen < |text.textStr| && lib.size == text.size
    && Drawable(text.textStr, lib, PlanOf(text.textStr, text.textLen, lib, area).cells)
    && (dateX != null && dateY != null ==>
          dateX != dateY && text.textLen <= dateX.Length && text.textLen <= dateY.Length)
  }

  /**
   * What it makes of it: a line that does not fit the box is an error; otherwise the bitmap shows exactly the glyphs
   * of the plan, the date offsets are those of its cells, and the size covers the lines that were started.
   */
  ghost predicate Converted(ok: bool, size: TextSize, text: TextParams, lib: FontLibrary, color: Pixel, area: Area,
                            data: array<Pixel>, dateX: array?<nat>, dateY: array?<nat>)
    reads data, dateX, dateY
  {
    var plan := PlanOf(text.textStr, text.textLen, lib, area);
    && (ok <==> text.size <= area.height)
    && (ok ==> size == TextSize(area.width, text.size * (plan.lines + 1))
               && Rendered(text.textStr, lib, color, area, data, dateX, dateY, plan.cells))
  }

  /**
   * In terms of the picture: it is an error exactly when its share or the picture below its start has no room for a
   * line, and the reported height ends with the last character painted.
   */
  predicate InPicture(ok: bool, size: TextSize, text: TextParams, lib: FontLibrary, width: u16, height: u16,
                      dataLen: nat)
  {
    && (text.boxHeight <= 100 ==>
          (ok <==> 100 * text.size <= text.boxHeight * height && RoomBehind(text.startY, height, text.size)))
    && var cells := PlanOf(text.textStr, text.textLen, lib, AreaOf(text, width, height, dataLen)).cells;
       ok && 0 < text.size && cells != [] ==> size.height == cells[|cells| - 1].y + text.size
  }

  lemma SizeInPicture(ok: bool, size: TextSize, text: TextParams, lib: FontLibrary, width: u16, height: u16,
                      dataLen: nat)
    requires var area := AreaOf(text, width, height, dataLen);
             && lib.size == text.size && (ok <==> text.size <= area.height)
             && (ok ==> size.height == text.size * (PlanOf(text.textStr, text.textLen, lib, area).lines + 1))
    ensures InPicture(ok, size, text, lib, width, height, dataLen)
  {
    var area := AreaOf(text, width, height, dataLen);
    hide AreaOf, PlanOf, RoomBehind;
    if text.boxHeight <= 100 {
      AreaHeight(text, width, height, dataLen, text.size);
    }
    if ok && 0 < text.size && PlanOf(text.textStr, text.textLen, lib, area).cells != [] {
      ReportedHeight(text.textStr, text.textLen, lib, area);
    }
  }

  /** osd_convert_text, on a freshly cleared pixel buffer. */
  method ConvertText(text: TextParams, lib: FontLibrary, color: Pixel, width: u16, height: u16, data: array<Pixel>,
                     dateX: array?<nat>, dateY: array?<nat>)
    returns (ok: bool, size: TextSize)
    requires Convertible(text, lib, AreaOf(text, width, height, data.Length), dateX, dateY)
    requires forall p :: 0 <= p < data.Length ==> data[p] == TRANSPARENT
    modifies data, dateX, dateY
    ensures Converted(ok, size, text, lib, color, AreaOf(text, width, height, data.Length), data, dateX, dateY)
    ensures InPicture(ok, size, text, lib, width, height, data.Length)
  {
    var area := AreaOf(text, width, height, data.Length);
    ok, size := ConvertInArea(text, lib, color, area, data, dateX, dateY);
    SizeInPicture(ok, size, text, lib, width, height, data.Length);
  }

  /** The part behind the box arithmetic. */
  method ConvertInArea(text: TextParams, lib: FontLibrary, color: Pixel, area: Area, data: array<Pixel>,
                       dateX: array?<nat>, dateY: array?<nat>)
    returns (ok: bool, size: TextSize)
    requires Convertible(text, lib, area, dateX, dateY) && area.dataLen == data.Length
    requires forall p :: 0 <= p < data.Length ==> data[p] == TRANSPARENT
    modifies data, dateX, dateY
    ensures Converted(ok, size, text, lib, color, area, data, dateX, dateY)
  {
    if text.size > area.height {
      return false, TextSize(0, 0);
    }
    // memset counts bytes: four of them make a pixel
    forall p | 0 <= p < data.Length / 4 {
      data[p] := TRANSPARENT;
    }
    var lines := PaintLines(text, lib, color, area, data, dateX, dateY);
    ok, size := true, TextSize(area.width, text.size * (lines + 1));
  }

  /** The two tests at the head of the character loop: start a new line, or stop. */
  method StartCharacter(lib: FontLibrary, area: Area, pen0: Pen) returns (fits: bool, pen: Pen)
    ensures fits <==> Fits(lib, area, pen0)
    ensures fits ==> pen == Wrapped(lib, area, pen0)
    ensures !fits ==> pen.lines == StopLines(lib, area, pen0) && pen.cnt == pen0.cnt
  {
    fits, pen := true, pen0;
    if pen.x + lib.size > area.width {
      pen := pen.(x := 0, y := pen.y + lib.size, offset := pen.offset + LinePixels(area, lib.size));
      if pen.y + lib.size > area.height {
        return false, pen;
      }
      pen := pen.(lines := (pen.lines + 1) % TWO16);
    }
    if pen.offset + LinePixels(area, lib.size) > area.dataLen {
      return false, pen.(lines := (pen.lines - 1) % TWO16);
    }
  }

  /** The character loop. */
  method PaintLines(text: TextParams, lib: FontLibrary, color: Pixel, area: Area, data: array<Pixel>,
                    dateX: array?<nat>, dateY: array?<nat>)
    returns (lines: nat)
    requires Convertible(text, lib, area, dateX, dateY) && area.dataLen == data.Length
    requires forall p :: 0 <= p < data.Length ==> data[p] == TRANSPARENT
    modifies data, dateX, dateY
    ensures var plan := PlanOf(text.textStr, text.textLen, lib, area);
            lines == plan.lines && Rendered(text.textStr, lib, color, area, data, dateX, dateY, plan.cells)
  {
    var str := text.textStr;
    ghost var plan := PlanOf(str, text.textLen, lib, area);
    var fits, pen := true, Pen(0, 0, 0, 0, 0);
    ghost var done: seq<Cell> := [];
    ClearShowsNothing(data[..], area.width, color);
    while pen.cnt < text.textLen && fits
      invariant Continues(plan, done,
                          if fits then PlanFrom(str, text.textLen, lib, area, pen) else Plan([], pen.lines, false))
      invariant Rendered(str, lib, color, area, data, dateX, dateY, done)
      invariant forall c :: c in done ==> c.index < pen.cnt
      decreases fits, text.textLen - pen.cnt
    {
      fits, pen, done := LayoutCharacter(str, text.textLen, lib, color, area, data, dateX, dateY, pen, done);
    }
    lines := pen.lines;
    assert plan.cells == done;
  }

  /** One turn of the loop: find the line, paint, move on; or stop when there is no line. */
  method LayoutCharacter(str: seq<byte>, len: nat, lib: FontLibrary, color: Pixel, area: Area, data: array<Pixel>,
                         dateX: array?<nat>, dateY: array?<nat>, pen0: Pen, ghost done0: seq<Cell>)
    returns (fits: bool, pen: Pen, ghost done: seq<Cell>)
    requires LegalLibrary(lib) && pen0.cnt < len < |str| && area.dataLen == data.Length
    requires Drawable(str, lib, PlanOf(str, len, lib, area).cells)
    requires Continues(PlanOf(str, len, lib, area), done0, PlanFrom(str, len, lib, area, pen0))
    requires dateX != null && dateY != null ==> dateX != dateY && len <= dateX.Length && len <= dateY.Length
    requires Rendered(str, lib, color, area, data, dateX, dateY, done0)
    requires forall c :: c in done0 ==> c.index < pen0.cnt
    modifies data, dateX, dateY
    ensures Rendered(str, lib, color, area, data, dateX, dateY, done)
    ensures fits ==>
              Continues(PlanOf(str, len, lib, area), done, PlanFrom(str, len, lib, area, pen)) && pen.cnt > pen0.cnt
    ensures !fits ==> PlanOf(str, len, lib, area) == Plan(done, pen.lines, false)
    ensures forall c :: c in done ==> c.index < pen.cnt
  {
    done := done0;
    fits, pen := StartCharacter(lib, area, pen0);
    if !fits {
      assert PlanOf(str, len, lib, area).cells == done;
      return;
    }
    var cell := CellAt(str, lib, pen);
    CharacterStep(str, len, lib, area, done, pen0);
    CellFits(str, len, lib, area, cell);
    var used := DrawCell(str, lib, color, area, data, cell, done);
    SaveDate(dateX, dateY, cell, done);
    pen := Moved(lib, pen, used);
    done := done + [cell];
  }

  // ------------------------------------------------------------------ where the cells lie

  /** Every cell's rows are inside the pixel buffer. */
  lemma CellFits(text: seq<byte>, len: nat, lib: FontLibrary, area: Area, c: Cell)
    requires c in PlanOf(text, len, lib, area).cells
    ensures area.width * (c.y + lib.size) <= area.dataLen
  {
    CellsFitFrom(text, len, lib, area, Pen(0, 0, 0, 0, 0));
  }

  lemma {:induction false} CellsFitFrom(text: seq<byte>, len: nat, lib: FontLibrary, area: Area, pen: Pen)
    requires pen.offset == area.width * pen.y
    ensures forall c :: c in PlanFrom(text, len, lib, area, pen).cells ==>
              area.width * (c.y + lib.size) <= area.dataLen
    decreases if pen.cnt < len then len - pen.cnt else 0
  {
    var plan := PlanFrom(text, len, lib, area, pen);
    if plan.cells != [] {
      var p := Wrapped(lib, area, pen);
      NextRow(area.width, pen.y, lib.size);
      NextRow(area.width, p.y, lib.size);
      CellsFitFrom(text, len, lib, area, Moved(lib, p, plan.cells[0].bytes));
    }
  }

  lemma NextRow(width: nat, y: nat, rows: nat)
    ensures width * (y + rows) == width * y + width * rows
  {
  }

  /** The width of a cell: a half-width or a full-width character. */
  function CellWidth(lib: FontLibrary, c: Cell): nat {
    if c.bytes == 2 then lib.size else HalfWidth(lib.size)
  }

  /** The cell is inside the box; in a box narrower than a character the painter clips at its right edge. */
  predicate InBox(lib: FontLibrary, area: Area, c: Cell) {
    c.y + lib.size <= area.height && (if lib.size <= area.width then c.x + lib.size <= area.width else c.x == 0)
  }

  /** The cell comes behind the pen: further right on its line, or on a later line. */
  predicate Behind(lib: FontLibrary, pen: Pen, c: Cell) {
    (c.y == pen.y && c.x >= pen.x) || c.y >= pen.y + lib.size
  }

  lemma {:induction false} CellsBehind(text: seq<byte>, len: nat, lib: FontLibrary, area: Area, pen: Pen)
    requires pen.y + lib.size <= area.height
    ensures forall c :: c in PlanFrom(text, len, lib, area, pen).cells ==> InBox(lib, area, c) && Behind(lib, pen, c)
    ensures forall c :: c in PlanFrom(text, len, lib, area, pen).cells ==> c.bytes <= 2 && pen.cnt <= c.index < len
    decreases if pen.cnt < len then len - pen.cnt else 0
  {
    var plan := PlanFrom(text, len, lib, area, pen);
    if plan.cells != [] {
      var next := Moved(lib, Wrapped(lib, area, pen), plan.cells[0].bytes);
      CellsBehind(text, len, lib, area, next);
      assert forall c :: c in plan.cells ==> c == plan.cells[0] || c in PlanFrom(text, len, lib, area, next).cells;
    }
  }

  /** Layout safety: every cell of every text, whatever its mix of characters, is inside the box and the buffer. */
  lemma CellsAreInside(text: seq<byte>, len: nat, lib: FontLibrary, area: Area)
    requires lib.size <= area.height
    ensures forall c :: c in PlanOf(text, len, lib, area).cells ==>
              InBox(lib, area, c) && area.width * (c.y + lib.size) <= area.dataLen
  {
    CellsBehind(text, len, lib, area, Pen(0, 0, 0, 0, 0));
    CellsFitFrom(text, len, lib, area, Pen(0, 0, 0, 0, 0));
  }

  predicate Apart(lib: FontLibrary, c: Cell, d: Cell) {
    || c.x + CellWidth(lib, c) <= d.x || d.x + CellWidth(lib, d) <= c.x
    || c.y + lib.size <= d.y || d.y + lib.size <= c.y
  }

  ghost predicate PairwiseApart(lib: FontLibrary, cells: seq<Cell>) {
    forall i, j :: 0 <= i < j < |cells| ==> Apart(lib, cells[i], cells[j])
  }

  /** A full-width character has one that is at least a pixel wide behind it on its line. */
  ghost predicate FullWidthInLine(lib: FontLibrary, cells: seq<Cell>) {
    exists i, j :: 0 <= i < j < |cells| && InFront(lib, cells[i], cells[j])
  }

  predicate InFront(lib: FontLibrary, c: Cell, d: Cell) { c.bytes == 2 && c.y == d.y && CellWidth(lib, d) > 0 }

  /**
   * No two cells overlap exactly when the font size is even or no full-width character has another one behind it on its
   * line: with an odd size the pen moves one pixel less than such a character is wide.
   */
  lemma CellsAreDisjoint(text: seq<byte>, len: nat, lib: FontLibrary, area: Area)
    requires lib.size <= area.height
    ensures var cells := PlanOf(text, len, lib, area).cells;
            PairwiseApart(lib, cells) <==> lib.size % 2 == 0 || !FullWidthInLine(lib, cells)
  {
    var cells, start := PlanOf(text, len, lib, area).cells, Pen(0, 0, 0, 0, 0);
    if lib.size % 2 == 0 || !FullWidthInLine(lib, cells) {
      CellsDisjointFrom(text, len, lib, area, start);
    } else {
      var i, j :| 0 <= i < j < |cells| && InFront(lib, cells[i], cells[j]);
      if lib.size == 1 {
        FirstColumn(text, len, lib, area, start);
        assert cells[i] in cells && cells[j] in cells;
        assert !Apart(lib, cells[i], cells[j]);
      } else {
        LineHolds(text, len, lib, area, start, i, j);
        NextInLine(text, len, lib, area, start, i);
        assert !Apart(lib, cells[i], cells[i + 1]);
      }
    }
  }

  /** Some text overlaps itself in this box. */
  ghost predicate SomeTextOverlaps(lib: FontLibrary, area: Area) {
    exists text: seq<byte>, len: nat :: !PairwiseApart(lib, PlanOf(text, len, lib, area).cells)
  }

  /**
   * In terms of the font and the box: some text overlaps exactly when the size is odd, the box has room for a
   * full-width character and another one behind it, the first line fits the buffer, and the font has full-width
   * characters.
   */
  lemma OverlapExactly(lib: FontLibrary, area: Area)
    requires lib.size <= area.height
    ensures SomeTextOverlaps(lib, area) <==>
            && lib.size % 2 == 1 && 2 * lib.size - 1 <= area.width && LinePixels(area, lib.size) <= area.dataLen
            && exists a: byte :: lib.UsedBytes(a) == 2
  {
    forall text: seq<byte>, len: nat | !PairwiseApart(lib, PlanOf(text, len, lib, area).cells)
      ensures lib.size % 2 == 1 && 2 * lib.size - 1 <= area.width && LinePixels(area, lib.size) <= area.dataLen
      ensures exists a: byte :: lib.UsedBytes(a) == 2
    {
      OverlapNeeds(text, len, lib, area);
    }
    if lib.size % 2 == 1 && 2 * lib.size - 1 <= area.width && LinePixels(area, lib.size) <= area.dataLen {
      forall a: byte | lib.UsedBytes(a) == 2
        ensures SomeTextOverlaps(lib, area)
      {
        OverlappingText(lib, area, a, 1, a, 1);
      }
    }
  }

  /** A failing text: a full-width character and any other that is at least a pixel wide. */
  lemma OverlappingText(lib: FontLibrary, area: Area, a: byte, x: byte, b: byte, y: byte)
    requires lib.size <= area.height && lib.size % 2 == 1 && lib.UsedBytes(a) == 2
    requires lib.size > 1 || lib.UsedBytes(b) == 2
    requires 2 * lib.size - 1 <= area.width && LinePixels(area, lib.size) <= area.dataLen
    ensures !PairwiseApart(lib, PlanOf([a, x, b, y], 4, lib, area).cells)
  {
    var text: seq<byte> := [a, x, b, y];
    var start := Pen(0, 0, 0, 0, 0);
    var next := Moved(lib, start, 2);
    assert PlanOf(text, 4, lib, area).cells[0] == Cell(0, 2, 0, 0);
    assert PlanFrom(text, 4, lib, area, next).cells[0] == Cell(2, lib.UsedBytes(b), lib.size - 1, 0);
    assert PlanOf(text, 4, lib, area).cells[1] == PlanFrom(text, 4, lib, area, next).cells[0];
    assert !Apart(lib, PlanOf(text, 4, lib, area).cells[0], PlanOf(text, 4, lib, area).cells[1]);
  }

  lemma OverlapNeeds(text: seq<byte>, len: nat, lib: FontLibrary, area: Area)
    requires lib.size <= area.height && !PairwiseApart(lib, PlanOf(text, len, lib, area).cells)
    ensures lib.size % 2 == 1 && 2 * lib.size - 1 <= area.width && LinePixels(area, lib.size) <= area.dataLen
    ensures exists a: byte :: lib.UsedBytes(a) == 2
  {
    var cells, start := PlanOf(text, len, lib, area).cells, Pen(0, 0, 0, 0, 0);
    CellsAreDisjoint(text, len, lib, area);
    var i, j :| 0 <= i < j < |cells| && InFront(lib, cells[i], cells[j]);
    LineHolds(text, len, lib, area, start, i, j);
    NextInLine(text, len, lib, area, start, i);
    assert cells[i] in cells;
    CellBytes(text, len, lib, area, start);
    assert Fits(lib, area, start);
  }

  lemma {:induction false} CellBytes(text: seq<byte>, len: nat, lib: FontLibrary, area: Area, pen: Pen)
    ensures forall c :: c in PlanFrom(text, len, lib, area, pen).cells ==>
              c.index < |text| && c.index < len && c.bytes == lib.UsedBytes(text[c.index])
    decreases if pen.cnt < len then len - pen.cnt else 0
  {
    var cells := PlanFrom(text, len, lib, area, pen).cells;
    if cells != [] {
      CellBytes(text, len, lib, area, Moved(lib, Wrapped(lib, area, pen), cells[0].bytes));
    }
  }

  /** The next cell on the same line is one step of the pen further right. */
  lemma {:induction false} NextInLine(text: seq<byte>, len: nat, lib: FontLibrary, area: Area, pen: Pen, i: nat)
    requires var cells := PlanFrom(text, len, lib, area, pen).cells;
             lib.size > 0 && i + 1 < |cells| && cells[i + 1].y == cells[i].y
    ensures var cells := PlanFrom(text, len, lib, area, pen).cells;
            && cells[i + 1].x == cells[i].x + Advance(lib, cells[i].bytes)
            && cells[i + 1].x + lib.size <= area.width
    decreases i
  {
    var cells := PlanFrom(text, len, lib, area, pen).cells;
    var next := Moved(lib, Wrapped(lib, area, pen), cells[0].bytes);
    var rest := PlanFrom(text, len, lib, area, next).cells;
    assert cells == [cells[0]] + rest;
    if i == 0 {
      assert rest[0] == CellAt(text, lib, Wrapped(lib, area, next));
    } else {
      assert cells[i] == rest[i - 1] && cells[i + 1] == rest[i];
      NextInLine(text, len, lib, area, next, i - 1);
    }
  }

  /** The cells between two on the same line are on it too. */
  lemma {:induction false} LineHolds(text: seq<byte>, len: nat, lib: FontLibrary, area: Area, pen: Pen, i: nat, j: nat)
    requires pen.y + lib.size <= area.height
    requires i < j < |PlanFrom(text, len, lib, area, pen).cells|
    ensures var cells := PlanFrom(text, len, lib, area, pen).cells;
            && cells[i].y <= cells[i + 1].y <= cells[j].y
            && (cells[j].y == cells[i].y ==> cells[i + 1].y == cells[i].y)
    decreases j
  {
    var cells := PlanFrom(text, len, lib, area, pen).cells;
    var next := Moved(lib, Wrapped(lib, area, pen), cells[0].bytes);
    var rest := PlanFrom(text, len, lib, area, next).cells;
    assert cells == [cells[0]] + rest;
    if i == 0 {
      CellsBehind(text, len, lib, area, next);
      assert rest[0] in rest;
      if j > 1 {
        LineHolds(text, len, lib, area, next, 0, j - 1);
      }
    } else {
      LineHolds(text, len, lib, area, next, i - 1, j - 1);
    }
  }

  /** With a font size of one pixel the pen stays in the first column. */
  lemma {:induction false} FirstColumn(text: seq<byte>, len: nat, lib: FontLibrary, area: Area, pen: Pen)
    requires lib.size == 1 && pen.x == 0
    ensures forall c :: c in PlanFrom(text, len, lib, area, pen).cells ==> c.x == 0
    decreases if pen.cnt < len then len - pen.cnt else 0
  {
    var cells := PlanFrom(text, len, lib, area, pen).cells;
    if cells != [] {
      FirstColumn(text, len, lib, area, Moved(lib, Wrapped(lib, area, pen), cells[0].bytes));
    }
  }

  lemma {:induction false} CellsDisjointFrom(text: seq<byte>, len: nat, lib: FontLibrary, area: Area, pen: Pen)
    requires pen.y + lib.size <= area.height && (lib.size == 1 ==> pen.x == 0)
    requires lib.size % 2 == 0 || !FullWidthInLine(lib, PlanFrom(text, len, lib, area, pen).cells)
    ensures PairwiseApart(lib, PlanFrom(text, len, lib, area, pen).cells)
    decreases if pen.cnt < len then len - pen.cnt else 0
  {
    var cells := PlanFrom(text, len, lib, area, pen).cells;
    if cells != [] {
      var c := cells[0];
      var next := Moved(lib, Wrapped(lib, area, pen), c.bytes);
      var rest := PlanFrom(text, len, lib, area, next).cells;
      assert cells == [c] + rest && c == CellAt(text, lib, Wrapped(lib, area, pen));
      if lib.size % 2 == 1 {
        NoneInFront(lib, c, rest);
      }
      if lib.size == 1 {
        FirstColumn(text, len, lib, area, next);
      }
      CellsBehind(text, len, lib, area, next);
      CellsDisjointFrom(text, len, lib, area, next);
      OneMoreApart(lib, c, rest, next);
    }
  }

  lemma NoneInFront(lib: FontLibrary, c: Cell, rest: seq<Cell>)
    requires !FullWidthInLine(lib, [c] + rest)
    ensures !FullWidthInLine(lib, rest) && forall d :: d in rest ==> !InFront(lib, c, d)
  {
    var cells := [c] + rest;
    forall i, j | 0 <= i < j < |rest|
      ensures !InFront(lib, rest[i], rest[j])
    {
      assert !InFront(lib, cells[i + 1], cells[j + 1]);
    }
    forall d | d in rest
      ensures !InFront(lib, c, d)
    {
      var k :| 0 <= k < |rest| && rest[k] == d;
      assert !InFront(lib, cells[0], cells[k + 1]);
    }
  }

  lemma OneMoreApart(lib: FontLibrary, c: Cell, rest: seq<Cell>, next: Pen)
    requires next.y == c.y && next.x == c.x + Advance(lib, c.bytes)
    requires PairwiseApart(lib, rest) && forall d :: d in rest ==> Behind(lib, next, d)
    requires lib.size % 2 == 1 ==> forall d :: d in rest ==> !InFront(lib, c, d)
    requires lib.size == 1 ==> c.x == 0 && forall d :: d in rest ==> d.x == 0
    ensures PairwiseApart(lib, [c] + rest)
  {
    var cells := [c] + rest;
    forall i, j | 0 <= i < j < |cells|
      ensures Apart(lib, cells[i], cells[j])
    {
      assert cells[j] == rest[j - 1] && Behind(lib, next, rest[j - 1]);
      if i > 0 {
        assert cells[i] == rest[i - 1] && Apart(lib, rest[i - 1], rest[j - 1]);
      } else {
        assert rest[j - 1] in rest;
      }
    }
  }

  /**
   * The reported size fits the buffer exactly when the first line does, and then it fits the box
   * too. Otherwise `lines` has run below zero, around 2^16, or the box is too narrow to begin with.
   */
  lemma ReportedSizeFits(text: seq<byte>, len: nat, lib: FontLibrary, area: Area)
    requires lib.size <= area.height
    ensures var height := lib.size * (PlanOf(text, len, lib, area).lines + 1);
            && (area.width * height <= area.dataLen <==> LinePixels(area, lib.size) <= area.dataLen)
            && (LinePixels(area, lib.size) <= area.dataLen ==> height <= area.height)
  {
    var plan := PlanOf(text, len, lib, area);
    var start := Pen(0, 0, 0, 0, 0);
    if lib.size == 0 {
      assert lib.size * (plan.lines + 1) == 0;
    } else if LinePixels(area, lib.size) <= area.dataLen {
      LinesFit(text, len, lib, area, start);
    } else if 0 < len && 0 < |text| {
      assert plan.lines == StopLines(lib, area, start);
      MulMonotone(lib.size, 1, plan.lines + 1);
      MulMonotone(area.width, lib.size, lib.size * (plan.lines + 1));
    }
  }

  /** In a box as wide as a character, `lines` runs below zero exactly when the first line does not fit the buffer. */
  lemma LinesUnderflow(text: seq<byte>, len: nat, lib: FontLibrary, area: Area)
    requires 0 < lib.size <= area.height && lib.size <= area.width && 0 < len && text != []
    ensures PlanOf(text, len, lib, area).lines == TWO16 - 1 <==> LinePixels(area, lib.size) > area.dataLen
  {
    var lines, start := PlanOf(text, len, lib, area).lines, Pen(0, 0, 0, 0, 0);
    if LinePixels(area, lib.size) <= area.dataLen {
      LinesFit(text, len, lib, area, start);
      MulMonotoneLeft(1, lib.size, lines + 1);
    } else {
      assert lines == StopLines(lib, area, start);
    }
  }

  /** For one: a character of size 16 in a box of 32 x 16 pixels, with a buffer of 100. */
  lemma UnderflowExample(lib: FontLibrary)
    requires lib.size == 16
    ensures var plan := PlanOf([48, 0], 1, lib, Area(32, 16, 100));
            plan.lines == 65535 && lib.size * (plan.lines + 1) == 1048576
  {
    LinesUnderflow([48, 0], 1, lib, Area(32, 16, 100));
  }

  /** The pen's line is inside the box and the buffer, and `lines` counts the lines above it. */
  ghost predicate OnLine(lib: FontLibrary, area: Area, pen: Pen) {
    && pen.y == lib.size * pen.lines && pen.offset == area.width * pen.y
    && pen.y + lib.size <= area.height && pen.offset + LinePixels(area, lib.size) <= area.dataLen
  }

  lemma HeightOnLine(lib: FontLibrary, area: Area, pen: Pen)
    requires OnLine(lib, area, pen)
    ensures lib.size * (pen.lines + 1) <= area.height && area.width * (lib.size * (pen.lines + 1)) <= area.dataLen
  {
    NextRow(lib.size, pen.lines, 1);
    assert lib.size * (pen.lines + 1) == pen.y + lib.size;
    NextRow(area.width, pen.y, lib.size);
  }

  lemma NoWrapAround(lib: FontLibrary, area: Area, pen: Pen)
    requires pen.y == lib.size * pen.lines && pen.y + lib.size + lib.size <= area.height && lib.size > 0
    ensures pen.lines + 1 < TWO16 && pen.y + lib.size == lib.size * (pen.lines + 1)
  {
    NextRow(lib.size, pen.lines, 1);
    LinesBounded(lib.size, pen.lines + 1);
  }

  lemma NextLine(lib: FontLibrary, area: Area, pen: Pen)
    requires OnLine(lib, area, pen) && lib.size > 0
    ensures Fits(lib, area, pen) ==> OnLine(lib, area, Wrapped(lib, area, pen))
    ensures !Fits(lib, area, pen) ==> StopLines(lib, area, pen) == pen.lines
  {
    if MustWrap(lib, area, pen) && !BelowBox(lib, area, pen) {
      NoWrapAround(lib, area, pen);
      NextRow(area.width, pen.y, lib.size);
    }
  }

  lemma {:induction false} LinesFit(text: seq<byte>, len: nat, lib: FontLibrary, area: Area, pen: Pen)
    requires OnLine(lib, area, pen) && lib.size > 0
    ensures var height := lib.size * (PlanFrom(text, len, lib, area, pen).lines + 1);
            height <= area.height && area.width * height <= area.dataLen
    decreases if pen.cnt < len then len - pen.cnt else 0
  {
    HeightOnLine(lib, area, pen);
    NextLine(lib, area, pen);
    if pen.cnt < len && pen.cnt < |text| && Fits(lib, area, pen) {
      LinesFit(text, len, lib, area, Moved(lib, Wrapped(lib, area, pen), lib.UsedBytes(text[pen.cnt])));
    }
  }

  lemma {:induction false} LinesToLastCell(text: seq<byte>, len: nat, lib: FontLibrary, area: Area, pen: Pen)
    requires OnLine(lib, area, pen) && lib.size > 0
    ensures var plan := PlanFrom(text, len, lib, area, pen);
            lib.size * plan.lines == if plan.cells == [] then pen.y else plan.cells[|plan.cells| - 1].y
    decreases if pen.cnt < len then len - pen.cnt else 0
  {
    NextLine(lib, area, pen);
    if pen.cnt < len && pen.cnt < |text| && Fits(lib, area, pen) {
      var c := CellAt(text, lib, Wrapped(lib, area, pen));
      var next := Moved(lib, Wrapped(lib, area, pen), c.bytes);
      LinesToLastCell(text, len, lib, area, next);
      assert PlanFrom(text, len, lib, area, pen).cells == [c] + PlanFrom(text, len, lib, area, next).cells;
    }
  }

  /** The reported height ends with the last character that was painted. */
  lemma ReportedHeight(text: seq<byte>, len: nat, lib: FontLibrary, area: Area)
    requires 0 < lib.size <= area.height && PlanOf(text, len, lib, area).cells != []
    ensures var plan := PlanOf(text, len, lib, area);
            lib.size * (plan.lines + 1) == plan.cells[|plan.cells| - 1].y + lib.size
  {
    var start := Pen(0, 0, 0, 0, 0);
    assert Fits(lib, area, start);
    LinesToLastCell(text, len, lib, area, start);
    NextRow(lib.size, PlanOf(text, len, lib, area).lines, 1);
  }

  lemma LinesBounded(size: nat, lines: nat)
    requires size >= 1
    ensures lines <= size * lines
  {
    MulMonotoneLeft(1, size, lines);
  }

  // ------------------------------------------------------------------ text of single-byte characters

  /** The layout depends on how many bytes the painted characters take, and on nothing else of the text. */
  lemma {:induction false} SamePlan(text: seq<byte>, other: seq<byte>, len: nat, lib: FontLibrary, area: Area, pen: Pen)
    requires len <= |text| && len <= |other|
    ensures PlanFrom(text, len, lib, area, pen) == PlanFrom(other, len, lib, area, pen) <==>
            forall c :: c in PlanFrom(text, len, lib, area, pen).cells ==>
              c.index < |other| && c.bytes == lib.UsedBytes(other[c.index])
    decreases if pen.cnt < len then len - pen.cnt else 0
  {
    if pen.cnt < len && Fits(lib, area, pen) {
      var c := CellAt(text, lib, Wrapped(lib, area, pen));
      var next := Moved(lib, Wrapped(lib, area, pen), c.bytes);
      var rest := PlanFrom(text, len, lib, area, next);
      assert PlanFrom(text, len, lib, area, pen).cells == [c] + rest.cells;
      if c.bytes == lib.UsedBytes(other[c.index]) {
        SamePlan(text, other, len, lib, area, next);
        assert ([c] + rest.cells)[1..] == rest.cells;
        assert PlanFrom(other, len, lib, area, pen).cells[1..] == PlanFrom(other, len, lib, area, next).cells;
      } else {
        assert PlanFrom(other, len, lib, area, pen).cells[0].bytes != c.bytes;
        assert c in PlanFrom(text, len, lib, area, pen).cells;
      }
    }
  }

  /** A complete layout of single-byte characters has one cell for each of them, in order. */
  lemma {:induction false} SingleByteCells(text: seq<byte>, len: nat, lib: FontLibrary, area: Area, pen: Pen)
    requires len <= |text| && pen.cnt <= len && forall i :: 0 <= i < len ==> lib.UsedBytes(text[i]) == 1
    requires PlanFrom(text, len, lib, area, pen).complete
    ensures var cells := PlanFrom(text, len, lib, area, pen).cells;
            && |cells| == len - pen.cnt
            && forall i :: 0 <= i < |cells| ==> cells[i].index == pen.cnt + i && cells[i].bytes == 1
    decreases if pen.cnt < len then len - pen.cnt else 0
  {
    if pen.cnt < len {
      var next := Moved(lib, Wrapped(lib, area, pen), 1);
      SingleByteCells(text, len, lib, area, next);
      var cells, rest := PlanFrom(text, len, lib, area, pen).cells, PlanFrom(text, len, lib, area, next).cells;
      assert forall i :: 1 <= i < |cells| ==> cells[i] == rest[i - 1];
    }
  }
}
