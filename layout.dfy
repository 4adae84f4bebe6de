/**
  The page geometry: how many byte columns and rows fit the editor body, from
  its pixel size and the `maxColumns`, `maxRows`, `showOffsets` and `showUtf8`
  inputs, with a hysteresis rule against a column flickering in and out.
  Pixel sizes are whole numbers here.
*/
module Layout {

  import opened Wrappers

  /** Margin reserved beside the UTF-8 panel. */
  const PanelMargin := 8
  /** The offset column: 60 pixels wide plus an 8 pixel margin. */
  const OffsetGutter := 68
  /** Left margin of the UTF-8 lane. */
  const Utf8Margin := 8
  /** One hex input: 32 pixels plus a 2 pixel gap. */
  const HexCellWidth := 34
  /** One UTF-8 glyph: 8 pixels plus a 2 pixel margin. */
  const Utf8CellWidth := 10
  /** One row: 24 pixels plus a 4 pixel bottom margin. */
  const RowHeight := 28

  /** The width left for the byte cells (may be negative on a narrow viewport). */
  function AvailableWidth(viewWidth: nat, showOffsets: bool, showUtf8: bool): int {
    viewWidth - PanelMargin
      - (if showOffsets then OffsetGutter else 0)
      - (if showUtf8 then Utf8Margin else 0)
  }

  /** The width one byte takes across the hex lane and, if shown, the UTF-8 lane. */
  function ByteWidth(showUtf8: bool): (w: int)
    ensures w > 0
  {
    HexCellWidth + (if showUtf8 then Utf8CellWidth else 0)
  }

  /** Caps `n` at `limit` when the limit is set (positive). */
  function Cap(n: int, limit: int): int {
    if limit > 0 && n > limit then limit else n
  }

  /**
    The hysteresis test: one column more than before appeared, but the last
    column fits by less than half a byte width. `width % byteWidth` stands for
    the fractional part of `width / byteWidth`; the two agree because the test
    only passes with `width >= byteWidth` (see HysteresisNeedsRoom).
  */
  predicate KeepsPrevious(width: int, byteWidth: int, cols: int, previous: nat)
    requires byteWidth > 0
  {
    cols == previous + 1 && 2 * (width % byteWidth) < byteWidth
  }

  /** The columns before the floor at 1: capped, then held back by hysteresis. */
  function RawColumns(viewWidth: nat, maxColumns: int, showOffsets: bool, showUtf8: bool, previous: nat): int {
    var width := AvailableWidth(viewWidth, showOffsets, showUtf8);
    var byteWidth := ByteWidth(showUtf8);
    var cols := Cap(width / byteWidth, maxColumns);
    if KeepsPrevious(width, byteWidth, cols, previous) then previous else cols
  }

  /** The column count of a page, given the column count currently in use. */
  function Columns(viewWidth: nat, maxColumns: int, showOffsets: bool, showUtf8: bool, previous: nat): (cols: nat)
    ensures cols >= 1
    ensures maxColumns > 0 ==> cols <= maxColumns
  {
    Max(1, RawColumns(viewWidth, maxColumns, showOffsets, showUtf8, previous))
  }

  /** The row count of a page. */
  function Rows(viewHeight: nat, maxRows: int): (rows: nat)
    ensures rows >= 1
    ensures maxRows > 0 ==> rows <= maxRows
    ensures viewHeight >= RowHeight ==> rows * RowHeight <= viewHeight
    ensures (maxRows <= 0 || rows < maxRows) && viewHeight >= RowHeight ==>
      viewHeight < (rows + 1) * RowHeight
    ensures viewHeight < RowHeight ==> rows == 1
  {
    Max(1, Cap(viewHeight / RowHeight, maxRows))
  }

  /** The `[cols, rows]` pair the layout step computes. */
  function Geometry(viewWidth: nat, viewHeight: nat, maxColumns: int, maxRows: int,
                    showOffsets: bool, showUtf8: bool, previousCols: nat): (g: (nat, nat))
    ensures g.0 >= 1 && g.1 >= 1
  {
    (Columns(viewWidth, maxColumns, showOffsets, showUtf8, previousCols), Rows(viewHeight, maxRows))
  }

  // ---------------------------------------------------------------------------
  // Properties

  /** The hysteresis test can only pass when at least one whole byte fits. */
  lemma HysteresisNeedsRoom(viewWidth: nat, maxColumns: int, showOffsets: bool, showUtf8: bool, previous: nat)
    requires KeepsPrevious(AvailableWidth(viewWidth, showOffsets, showUtf8), ByteWidth(showUtf8),
                           Cap(AvailableWidth(viewWidth, showOffsets, showUtf8) / ByteWidth(showUtf8), maxColumns),
                           previous)
    ensures AvailableWidth(viewWidth, showOffsets, showUtf8) >= ByteWidth(showUtf8)
  {
    var width, bw := AvailableWidth(viewWidth, showOffsets, showUtf8), ByteWidth(showUtf8);
    assert width / bw >= 1;
    if width < bw {
      DivBelowDivisor(width, bw);
    }
  }

  lemma DivBelowDivisor(a: int, b: int)
    requires b > 0 && a < b
    ensures a / b <= 0
  {
  }

  /**
    The chosen columns fit in the available width (one column is always shown,
    even when it does not fit), and unless the cap or the hysteresis holds the
    count back, one more column would not fit.
  */
  lemma ColumnsFit(viewWidth: nat, maxColumns: int, showOffsets: bool, showUtf8: bool, previous: nat)
    ensures var cols := Columns(viewWidth, maxColumns, showOffsets, showUtf8, previous);
      var width, bw := AvailableWidth(viewWidth, showOffsets, showUtf8), ByteWidth(showUtf8);
      && (cols == 1 || cols * bw <= width)
      && ((maxColumns <= 0 || cols < maxColumns)
            && !KeepsPrevious(width, bw, Cap(width / bw, maxColumns), previous) && width >= bw ==>
            width < (cols + 1) * bw)
  {
    var cols := Columns(viewWidth, maxColumns, showOffsets, showUtf8, previous);
    var width, bw := AvailableWidth(viewWidth, showOffsets, showUtf8), ByteWidth(showUtf8);
    var q := width / bw;
    assert q * bw <= width < (q + 1) * bw by { DivBounds(width, bw); }
    var capped := Cap(q, maxColumns);
    assert capped <= q;
    if cols != 1 {
      assert cols <= q;
      ScaleMonotone(cols, q, bw);
    }
  }

  /** A cap that binds is the column count, unless the hysteresis keeps the previous one. */
  lemma ColumnsAtCap(viewWidth: nat, maxColumns: int, showOffsets: bool, showUtf8: bool, previous: nat)
    requires maxColumns > 0
    requires var width, bw := AvailableWidth(viewWidth, showOffsets, showUtf8), ByteWidth(showUtf8);
      width / bw >= maxColumns && !KeepsPrevious(width, bw, maxColumns, previous)
    ensures Columns(viewWidth, maxColumns, showOffsets, showUtf8, previous) == maxColumns
  {
    var width, bw := AvailableWidth(viewWidth, showOffsets, showUtf8), ByteWidth(showUtf8);
    assert Cap(width / bw, maxColumns) == maxColumns;
  }

  /** A cap on the rows that binds is the row count; one that does not leaves `floor(height / 28)`. */
  lemma RowsAtCap(viewHeight: nat, maxRows: int)
    requires maxRows > 0 && viewHeight >= RowHeight
    ensures viewHeight / RowHeight >= maxRows ==> Rows(viewHeight, maxRows) == maxRows
    ensures viewHeight / RowHeight < maxRows ==> Rows(viewHeight, maxRows) == viewHeight / RowHeight
  {
    var rows := Rows(viewHeight, maxRows);
    if rows < maxRows {
      assert rows * RowHeight <= viewHeight < (rows + 1) * RowHeight;
      DivBounds(viewHeight, RowHeight);
    }
  }

  lemma DivBounds(a: int, b: int)
    requires b > 0
    ensures (a / b) * b <= a < (a / b + 1) * b
  {
  }

  lemma ScaleMonotone(x: int, y: int, k: int)
    requires x <= y && k >= 0
    ensures x * k <= y * k
  {
  }

  /**
    When the hysteresis keeps the previous count, under any column cap, that
    count is the result and the extra column would have fitted; without a
    cap that binds, it would have fitted with less than half a byte width to
    spare. The test runs on the uncapped ratio, so a binding cap can be held
    back with room to spare.
  */
  lemma HysteresisMargin(viewWidth: nat, maxColumns: int, showOffsets: bool, showUtf8: bool, previous: nat)
    requires var width, bw := AvailableWidth(viewWidth, showOffsets, showUtf8), ByteWidth(showUtf8);
      KeepsPrevious(width, bw, Cap(width / bw, maxColumns), previous)
    ensures var width, bw := AvailableWidth(viewWidth, showOffsets, showUtf8), ByteWidth(showUtf8);
      && Columns(viewWidth, maxColumns, showOffsets, showUtf8, previous) == Max(1, previous)
      && (previous + 1) * bw <= width
      && ((maxColumns <= 0 || width / bw <= maxColumns) ==> 2 * (width - (previous + 1) * bw) < bw)
  {
    var width, bw := AvailableWidth(viewWidth, showOffsets, showUtf8), ByteWidth(showUtf8);
    DivBounds(width, bw);
    assert width - (width / bw) * bw == width % bw;
    ScaleMonotone(previous + 1, width / bw, bw);
  }
}
