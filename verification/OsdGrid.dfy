/** The layout of osd_convert_text in closed form, for texts of single-byte characters: a grid of cells. */
module OsdGrid {
  import opened CIntegers
  import opened OsdCommon
  import opened OsdLayout

  /** How many half-width characters go on a line: as many as leave room for a full-width one in the last place. */
  function PerLine(lib: FontLibrary, area: Area): (n: nat)
    requires 2 <= lib.size <= area.width
    ensures n > 0
  {
    (area.width - lib.size) / HalfWidth(lib.size) + 1
  }

  /** Line `row`, counted from zero, is inside the box and the buffer. */
  predicate LineFits(lib: FontLibrary, area: Area, row: nat) {
    lib.size * (row + 1) <= area.height && area.width * (lib.size * (row + 1)) <= area.dataLen
  }

  /** The pen is behind `col` characters of line `row`, inside the box. */
  predicate OnGrid(lib: FontLibrary, area: Area, pen: Pen, row: nat, col: nat) {
    && pen.x == col * HalfWidth(lib.size) && pen.y == lib.size * row && pen.offset == area.width * (lib.size * row)
    && pen.y + lib.size <= area.height
  }

  lemma FullLine(width: nat, size: nat, col: nat)
    requires 2 <= size <= width
    ensures col * HalfWidth(size) + size > width <==> col > (width - size) / HalfWidth(size)
  {
    var half, q := HalfWidth(size), (width - size) / HalfWidth(size);
    assert width - size == half * q + (width - size) % half;
    if col > q {
      MulMonotoneLeft(q + 1, col, half);
      assert (q + 1) * half == half * q + half;
    } else {
      MulMonotoneLeft(col, q, half);
    }
  }

  lemma NextRows(width: nat, size: nat, row: nat)
    ensures size * (row + 1) == size * row + size && size * (row + 2) == size * row + size + size
    ensures width * (size * (row + 1)) == width * (size * row) + width * size
    ensures width * (size * (row + 2)) == width * (size * row) + width * size + width * size
  {
  }

  /** A pen behind a full line breaks it, any other does not; the next character fits when its line does. */
  lemma FitsOnGrid(lib: FontLibrary, area: Area, pen: Pen, row: nat, col: nat)
    requires 2 <= lib.size <= area.width && OnGrid(lib, area, pen, row, col) && col <= PerLine(lib, area)
    ensures MustWrap(lib, area, pen) <==> col == PerLine(lib, area)
    ensures Fits(lib, area, pen) <==> LineFits(lib, area, if col == PerLine(lib, area) then row + 1 else row)
  {
    FullLine(area.width, lib.size, col);
    NextRows(area.width, lib.size, row);
  }

  lemma NextOnGrid(lib: FontLibrary, area: Area, pen: Pen, row: nat, col: nat)
    requires 2 <= lib.size <= area.width && OnGrid(lib, area, pen, row, col) && col <= PerLine(lib, area)
    requires Fits(lib, area, pen)
    ensures var start := Wrapped(lib, area, pen);
            if col == PerLine(lib, area) then
              OnGrid(lib, area, start, row + 1, 0) && OnGrid(lib, area, Moved(lib, start, 1), row + 1, 1)
            else
              OnGrid(lib, area, start, row, col) && OnGrid(lib, area, Moved(lib, start, 1), row, col + 1)
  {
    FitsOnGrid(lib, area, pen, row, col);
    NextRows(area.width, lib.size, row);
    assert (col + 1) * HalfWidth(lib.size) == col * HalfWidth(lib.size) + HalfWidth(lib.size);
  }

  /** A line that fits has only lines that fit above it. */
  lemma LinesAbove(lib: FontLibrary, area: Area, row: nat, below: nat)
    requires row <= below && LineFits(lib, area, below)
    ensures LineFits(lib, area, row)
  {
    MulMonotone(lib.size, row + 1, below + 1);
    MulMonotone(area.width, lib.size * (row + 1), lib.size * (below + 1));
  }

  lemma DivMonotone(a: nat, b: nat, n: nat)
    requires a <= b && n > 0
    ensures a / n <= b / n
  {
    var d := b / n - a / n;
    assert n * d == b - a + a % n - b % n by {
      assert a == n * (a / n) + a % n && b == n * (b / n) + b % n;
      assert n * d == n * (b / n) - n * (a / n);
    }
    MulBounds(n, d);
  }

  lemma Position(cnt: nat, row: nat, col: nat, per: nat)
    requires 0 < per && col <= per && cnt == row * per + col
    ensures cnt / per == (if col == per then row + 1 else row) && cnt % per == (if col == per then 0 else col)
  {
    if col == per {
      DivModUnique(row + 1, 0, per);
      assert (row + 1) * per == row * per + per;
    } else {
      DivModUnique(row, col, per);
    }
  }

  /** What the closed form says of character `i`, for the cells from character `cnt` on. */
  predicate CellInPlace(lib: FontLibrary, area: Area, cells: seq<Cell>, cnt: nat, i: nat, per: nat)
    requires cnt <= i && 0 < per
  {
    && (i < cnt + |cells| <==> LineFits(lib, area, i / per))
    && (i < cnt + |cells| ==>
          cells[i - cnt] == Cell(i, 1, i % per * HalfWidth(lib.size), lib.size * (i / per)))
  }

  lemma {:induction false} GridFrom(text: seq<byte>, len: nat, lib: FontLibrary, area: Area, pen: Pen, row: nat,
                                    col: nat, i: nat)
    requires 2 <= lib.size <= area.width && OnGrid(lib, area, pen, row, col)
    requires col <= PerLine(lib, area) && pen.cnt == row * PerLine(lib, area) + col
    requires len <= |text| && pen.cnt <= i < len && forall k :: 0 <= k < len ==> lib.UsedBytes(text[k]) == 1
    ensures CellInPlace(lib, area, PlanFrom(text, len, lib, area, pen).cells, pen.cnt, i, PerLine(lib, area))
    decreases i - pen.cnt
  {
    var per, cells := PerLine(lib, area), PlanFrom(text, len, lib, area, pen).cells;
    Position(pen.cnt, row, col, per);
    FitsOnGrid(lib, area, pen, row, col);
    if !Fits(lib, area, pen) {
      DivMonotone(pen.cnt, i, per);
      if LineFits(lib, area, i / per) {
        LinesAbove(lib, area, pen.cnt / per, i / per);
      }
    } else {
      NextOnGrid(lib, area, pen, row, col);
      var start := Wrapped(lib, area, pen);
      var next := Moved(lib, start, 1);
      var rest := PlanFrom(text, len, lib, area, next).cells;
      assert cells == [CellAt(text, lib, start)] + rest;
      if i > pen.cnt {
        NextPosition(row, col, per);
        GridFrom(text, len, lib, area, next, if col == per then row + 1 else row, if col == per then 1 else col + 1, i);
        LaterInPlace(lib, area, CellAt(text, lib, start), rest, pen.cnt, i, per);
      }
    }
  }

  lemma NextPosition(row: nat, col: nat, per: nat)
    ensures (row + 1) * per == row * per + per
  {
  }

  lemma LaterInPlace(lib: FontLibrary, area: Area, c: Cell, rest: seq<Cell>, cnt: nat, i: nat, per: nat)
    requires cnt < i && 0 < per && CellInPlace(lib, area, rest, cnt + 1, i, per)
    ensures CellInPlace(lib, area, [c] + rest, cnt, i, per)
  {
  }

  /**
   * The layout of a text of single-byte characters: character `i` is painted exactly when its line fits the box and the
   * buffer, in column `i % PerLine` of line `i / PerLine`.
   */
  lemma SingleByteGrid(text: seq<byte>, len: nat, lib: FontLibrary, area: Area, i: nat)
    requires 2 <= lib.size <= area.width && lib.size <= area.height
    requires i < len <= |text| && forall k :: 0 <= k < len ==> lib.UsedBytes(text[k]) == 1
    ensures var cells, per := PlanOf(text, len, lib, area).cells, (area.width - lib.size) / (lib.size / 2) + 1;
            && (i < |cells| <==> LineFits(lib, area, i / per))
            && (i < |cells| ==> cells[i] == Cell(i, 1, i % per * (lib.size / 2), lib.size * (i / per)))
  {
    assert OnGrid(lib, area, Pen(0, 0, 0, 0, 0), 0, 0);
    GridFrom(text, len, lib, area, Pen(0, 0, 0, 0, 0), 0, 0, i);
  }
}
