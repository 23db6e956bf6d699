/** The fixed A4-landscape 3 x 3 grid of services/pdfGenerator.ts, in millimetres. */
module Geometry {

  const PAGE_WIDTH: real := 297.0
  const PAGE_HEIGHT: real := 210.0
  const ROWS: nat := 3
  const COLS: nat := 3
  const MARGIN: real := 10.0
  const ITEMS_PER_PAGE: nat := ROWS * COLS

  function ContentWidth(): real { PAGE_WIDTH - MARGIN * 2.0 }

  function ContentHeight(): real { PAGE_HEIGHT - MARGIN * 2.0 }

  /** The columns split the content width evenly. */
  function CellWidth(): (w: real)
    ensures w > 0.0 && w * (COLS as real) == ContentWidth()
  {
    ContentWidth() / COLS as real
  }

  /** The rows split the content height evenly. */
  function CellHeight(): (h: real)
    ensures h > 0.0 && h * (ROWS as real) == ContentHeight()
  {
    ContentHeight() / ROWS as real
  }

  /** Row and column of slot i, row-major. */
  function SlotRow(i: nat): nat { i / COLS }

  function SlotCol(i: nat): nat { i % COLS }

  /** Top-left corner of the cell that shows slot i. */
  function CellX(i: nat): real { MARGIN + SlotCol(i) as real * CellWidth() }

  function CellY(i: nat): real { MARGIN + SlotRow(i) as real * CellHeight() }

  /** Each slot of a page names a distinct (row, column) pair of the grid. */
  lemma SlotRowCol(i: nat)
    requires i < ITEMS_PER_PAGE
    ensures SlotRow(i) < ROWS && SlotCol(i) < COLS && i == SlotRow(i) * COLS + SlotCol(i)
  {
  }

  /** The point (px, py) is inside the half-open cell rectangle of slot i. */
  predicate InCell(i: nat, px: real, py: real)
  {
    CellX(i) <= px < CellX(i) + CellWidth() && CellY(i) <= py < CellY(i) + CellHeight()
  }

  /** The point (px, py) is inside the content area within the margins. */
  predicate InContent(px: real, py: real)
  {
    MARGIN <= px < MARGIN + ContentWidth() && MARGIN <= py < MARGIN + ContentHeight()
  }

  /** Every cell lies within the content area. */
  lemma CellInsideContent(i: nat)
    requires i < ITEMS_PER_PAGE
    ensures MARGIN <= CellX(i) && CellX(i) + CellWidth() <= PAGE_WIDTH - MARGIN
    ensures MARGIN <= CellY(i) && CellY(i) + CellHeight() <= PAGE_HEIGHT - MARGIN
  {
    SlotRowCol(i);
  }

  /** No point belongs to two cells. */
  lemma CellsDisjoint(i: nat, j: nat, px: real, py: real)
    requires i < ITEMS_PER_PAGE && j < ITEMS_PER_PAGE && i != j
    requires InCell(i, px, py)
    ensures !InCell(j, px, py)
  {
    SlotRowCol(i);
    SlotRowCol(j);
  }

  /** The column whose strip holds a horizontal position of the content area. */
  function ColumnAt(px: real): (col: nat)
    requires MARGIN <= px < MARGIN + ContentWidth()
    ensures col < COLS
    ensures MARGIN + col as real * CellWidth() <= px < MARGIN + col as real * CellWidth() + CellWidth()
  {
    if px < MARGIN + CellWidth() then 0 else if px < MARGIN + 2.0 * CellWidth() then 1 else 2
  }

  /** The row whose strip holds a vertical position of the content area. */
  function RowAt(py: real): (row: nat)
    requires MARGIN <= py < MARGIN + ContentHeight()
    ensures row < ROWS
    ensures MARGIN + row as real * CellHeight() <= py < MARGIN + row as real * CellHeight() + CellHeight()
  {
    if py < MARGIN + CellHeight() then 0 else if py < MARGIN + 2.0 * CellHeight() then 1 else 2
  }

  /** The slot whose cell holds a point of the content area: the cells leave no gaps. */
  function SlotAt(px: real, py: real): (i: nat)
    requires InContent(px, py)
    ensures i < ITEMS_PER_PAGE && InCell(i, px, py)
  {
    var col, row := ColumnAt(px), RowAt(py);
    assert SlotRow(row * COLS + col) == row && SlotCol(row * COLS + col) == col;
    row * COLS + col
  }
}
