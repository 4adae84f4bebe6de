/**
  Pagination and the rendered grid: the page count, the stale-page clamp, the
  rows of the current page with their offset labels, the data offset behind
  each cell, and where focus goes after a cell is committed.
*/
module Paging {

  import opened Wrappers
  import opened Arith
  import opened Hex
  import opened ByteRender

  /** One rendered row: its cells and the 8-digit hex offset of its first byte. */
  datatype Row = Row(cells: seq<Cell>, offset: string)

  /** A cell to focus: a page, and a row and column of that page's grid. */
  datatype Focus = Focus(page: nat, row: nat, col: nat)

  /** `Math.max(1, Math.ceil(Math.ceil(length / cols) / rows))`. */
  function TotalPages(length: nat, cols: nat, rows: nat): (total: nat)
    requires cols >= 1 && rows >= 1
    ensures total >= 1
  {
    Max(1, CeilDiv(CeilDiv(length, cols), rows))
  }

  /** Page navigation: `Math.min(Math.max(page, 0), totalPages - 1)`. */
  function ClampPage(page: int, totalPages: nat): (p: nat)
    requires totalPages >= 1
    ensures p < totalPages
    ensures 0 <= page < totalPages ==> p == page
    ensures page < 0 ==> p == 0
    ensures page >= totalPages ==> p == totalPages - 1
  {
    Min(Max(page, 0), totalPages - 1)
  }

  /** The bytes one page holds, `cols * rows`. */
  function Capacity(cols: nat, rows: nat): nat {
    Mul(rows, cols)
  }

  /** The first offset of a page, `page * cols * rows`. */
  function PageStart(page: nat, cols: nat, rows: nat): nat {
    Mul(Mul(page, rows), cols)
  }

  /** The bound the row loop runs to: `Math.min(length, (page + 1) * cols * rows)`. */
  function PageEnd(length: nat, page: nat, cols: nat, rows: nat): nat {
    Min(length, Mul(Mul(page + 1, rows), cols))
  }

  /** How many rows the row loop emits: row starts step by `cols` below `PageEnd`. */
  function RowCount(length: nat, page: nat, cols: nat, rows: nat): nat
    requires cols >= 1
  {
    var start, end := PageStart(page, cols, rows), PageEnd(length, page, cols, rows);
    if start < end then CeilDiv(end - start, cols) else 0
  }

  /** The data offset an input writes to: `(page * rows + row) * cols + col`. */
  function CellOffset(page: nat, rows: nat, cols: nat, row: nat, col: nat): nat {
    Mul(Mul(page, rows) + row, cols) + col
  }

  /** `data[i]` of a `Uint8Array`: absent past the end. */
  function ByteAt(data: seq<byte>, i: nat): Option<byte> {
    if i < |data| then Some(data[i]) else None
  }

  /** The row whose first offset is `start`: `cols` cells and the offset label. */
  function RowAt(data: seq<byte>, start: nat, cols: nat): (r: Row)
    ensures |r.cells| == cols
  {
    Row(seq(cols, j requires 0 <= j < cols => RenderValue(ByteAt(data, start + j))), HexString(start, 8))
  }

  /** `count` consecutive rows, the first starting at `start`. */
  function RowsFrom(data: seq<byte>, start: nat, cols: nat, count: nat): (rs: seq<Row>)
    ensures |rs| == count
    ensures forall k :: 0 <= k < count ==> |rs[k].cells| == cols
    decreases count
  {
    if count == 0 then [] else [RowAt(data, start, cols)] + RowsFrom(data, start + cols, cols, count - 1)
  }

  /** The rows the render pass builds for a page. */
  function PageRows(data: seq<byte>, page: nat, cols: nat, rows: nat): (grid: seq<Row>)
    requires cols >= 1
    ensures |grid| == RowCount(|data|, page, cols, rows)
    ensures forall k :: 0 <= k < |grid| ==> |grid[k].cells| == cols
  {
    RowsFrom(data, PageStart(page, cols, rows), cols, RowCount(|data|, page, cols, rows))
  }

  /**
    The input `goToNextInput` stops at after a commit at (`row`, `col`) of
    `page`, trying in turn: the next column if the row has it, the first cell
    of the next row if that row was rendered, the first cell of the next page
    if there is one; `None` when it finds none. An input past the end of the
    data exists but is disabled, so `goToNextInput` stops there while the
    focus itself stays on the edited cell (see FocusMovesIffByteFollows).
  */
  function NextFocus(page: nat, row: nat, col: nat, cols: nat, renderedRows: nat, totalPages: nat): Option<Focus> {
    if col + 1 < cols then Some(Focus(page, row, col + 1))
    else if row + 1 < renderedRows then Some(Focus(page, row + 1, 0))
    else if page + 1 < totalPages then Some(Focus(page + 1, 0, 0))
    else None
  }

  // ---------------------------------------------------------------------------
  // The row loop of the render pass

  /** The inner loop: renders the `cols` cells of the row starting at `i`. */
  method ProjectRow(data: array<byte>, i: nat, cols: nat) returns (cells: seq<Cell>)
    ensures cells == RowAt(data[..], i, cols).cells
  {
    cells := [];
    var j := 0;
    while j < cols
      invariant 0 <= j <= cols
      invariant |cells| == j
      invariant forall jj :: 0 <= jj < j ==> cells[jj] == RenderValue(ByteAt(data[..], i + jj))
    {
      var b := if i + j < data.Length then Some(data[i + j]) else None;
      cells := cells + [RenderValue(b)];
      j := j + 1;
    }
  }

  /** Builds the current page's rows with the source's two nested loops. */
  method ProjectPage(data: array<byte>, page: nat, cols: nat, rows: nat) returns (grid: seq<Row>)
    requires cols >= 1
    ensures grid == PageRows(data[..], page, cols, rows)
  {
    var start := PageStart(page, cols, rows);
    var end := PageEnd(data.Length, page, cols, rows);
    grid := [];
    var i := start;
    while i < end
      invariant i == start + Mul(|grid|, cols)
      invariant |grid| <= RowCount(data.Length, page, cols, rows)
      invariant grid == RowsFrom(data[..], start, cols, |grid|)
      decreases end - i
    {
      RowStartBelowEnd(data.Length, page, cols, rows, |grid|);
      var cells := ProjectRow(data, i, cols);
      RowsFromSnoc(data[..], start, cols, |grid|);
      grid := grid + [Row(cells, HexString(i, 8))];
      i := i + cols;
    }
    RowStartBelowEnd(data.Length, page, cols, rows, |grid|);
  }

  // ---------------------------------------------------------------------------
  // Offset arithmetic

  /** Row `k` of a run of rows starts `k * cols` bytes after the first. */
  lemma {:induction false} RowsFromAt(data: seq<byte>, start: nat, cols: nat, count: nat, k: nat)
    requires k < count
    ensures |RowsFrom(data, start, cols, count)| == count
    ensures RowsFrom(data, start, cols, count)[k] == RowAt(data, start + Mul(k, cols), cols)
    decreases count
  {
    var rs := RowsFrom(data, start, cols, count);
    if k == 0 {
      assert rs[0] == RowAt(data, start, cols);
    } else {
      var rest := RowsFrom(data, start + cols, cols, count - 1);
      assert rs == [RowAt(data, start, cols)] + rest;
      assert rs[k] == rest[k - 1];
      RowsFromAt(data, start + cols, cols, count - 1, k - 1);
      assert start + cols + Mul(k - 1, cols) == start + Mul(k, cols);
    }
  }

  /** A run of rows grows at its end by the row `count * cols` bytes further on. */
  lemma {:induction false} RowsFromSnoc(data: seq<byte>, start: nat, cols: nat, count: nat)
    ensures RowsFrom(data, start, cols, count + 1) ==
      RowsFrom(data, start, cols, count) + [RowAt(data, start + Mul(count, cols), cols)]
    decreases count
  {
    if count > 0 {
      var first := RowAt(data, start, cols);
      var middle := RowsFrom(data, start + cols, cols, count - 1);
      assert RowsFrom(data, start, cols, count + 1) == [first] + RowsFrom(data, start + cols, cols, count);
      assert RowsFrom(data, start, cols, count) == [first] + middle;
      RowsFromSnoc(data, start + cols, cols, count - 1);
      assert start + cols + Mul(count - 1, cols) == start + Mul(count, cols);
    }
  }

  /** A cell's offset is its page's start plus `row * cols + col`. */
  lemma CellOffsetSplit(page: nat, rows: nat, cols: nat, row: nat, col: nat)
    ensures CellOffset(page, rows, cols, row, col) == PageStart(page, cols, rows) + Mul(row, cols) + col
  {
    MulAddLeft(Mul(page, rows), row, cols);
  }

  /** The next page starts one capacity after this one. */
  lemma NextPageStart(page: nat, cols: nat, rows: nat)
    ensures Mul(Mul(page + 1, rows), cols) == PageStart(page, cols, rows) + Mul(rows, cols)
    ensures PageStart(page + 1, cols, rows) == PageStart(page, cols, rows) + Mul(rows, cols)
  {
    MulAddLeft(page, 1, rows);
    MulOne(rows);
    MulAddLeft(Mul(page, rows), rows, cols);
  }

  /** A page starts at `page` capacities. */
  lemma PageStartIsMultiple(page: nat, cols: nat, rows: nat)
    ensures PageStart(page, cols, rows) == Mul(page, Capacity(cols, rows))
  {
    MulAssoc(page, rows, cols);
  }

  // ---------------------------------------------------------------------------
  // Properties

  /** Nested ceilings collapse: ceil(ceil(L / cols) / rows) == ceil(L / (cols * rows)). */
  lemma NestedCeil(length: nat, cols: nat, rows: nat)
    requires cols >= 1 && rows >= 1
    ensures CeilDiv(CeilDiv(length, cols), rows) == CeilDiv(length, Capacity(cols, rows))
  {
    var q1 := CeilDiv(length, cols);
    var q2 := CeilDiv(q1, rows);
    var cap := Capacity(cols, rows);
    MulAssoc(q2, rows, cols);
    // Upper bound: length <= q1 * cols <= q2 * rows * cols.
    MulMonotone(q1, Mul(q2, rows), cols);
    // Lower bound: q2 * rows * cols <= (q1 + rows - 1) * cols < length + rows * cols.
    MulMonotone(Mul(q2, rows), q1 + (rows - 1), cols);
    MulAddLeft(q1, rows - 1, cols);
    MulAddLeft(rows - 1, 1, cols);
    MulOne(cols);
    CeilDivUnique(length, cap, q2);
  }

  /**
    The page count is at least 1 and tight: the pages hold all `length`
    bytes, one page fewer would not, and empty data has exactly one page.
  */
  lemma TotalPagesTight(length: nat, cols: nat, rows: nat)
    requires cols >= 1 && rows >= 1
    ensures var total, cap := TotalPages(length, cols, rows), Capacity(cols, rows);
      && length <= Mul(total, cap)
      && (length > 0 ==> Mul(total - 1, cap) < length)
      && (length == 0 ==> total == 1)
  {
    NestedCeil(length, cols, rows);
    var cap := Capacity(cols, rows);
    var q := CeilDiv(length, cap);
    MulPositive(rows, cols);
    MulOne(cap);
    if length == 0 {
      MulStrictInverse(q, 1, cap);
    } else {
      if q == 0 {
        MulZero(cap);
      }
      MulAddLeft(q - 1, 1, cap);
    }
  }

  /** A row start lies below the loop bound exactly for the rows the loop emits. */
  lemma RowStartBelowEnd(length: nat, page: nat, cols: nat, rows: nat, k: nat)
    requires cols >= 1
    ensures k < RowCount(length, page, cols, rows) <==>
      PageStart(page, cols, rows) + Mul(k, cols) < PageEnd(length, page, cols, rows)
  {
    var start, end := PageStart(page, cols, rows), PageEnd(length, page, cols, rows);
    if start < end {
      var q := CeilDiv(end - start, cols);
      if k < q {
        MulMonotone(k, q - 1, cols);
        MulAddLeft(q - 1, 1, cols);
        MulOne(cols);
      } else {
        MulMonotone(q, k, cols);
      }
    }
  }

  /**
    The shape of a rendered page: at most `rows` rows; every page but the last
    is full; a page that exists shows at least one row unless the data is
    empty; a page past the end shows none.
  */
  lemma RowCountBounds(length: nat, page: nat, cols: nat, rows: nat)
    requires cols >= 1 && rows >= 1
    ensures RowCount(length, page, cols, rows) <= rows
    ensures page + 1 < TotalPages(length, cols, rows) ==> RowCount(length, page, cols, rows) == rows
    ensures page < TotalPages(length, cols, rows) && length > 0 ==> RowCount(length, page, cols, rows) >= 1
    ensures page >= TotalPages(length, cols, rows) ==> RowCount(length, page, cols, rows) == 0
  {
    var start, end := PageStart(page, cols, rows), PageEnd(length, page, cols, rows);
    var total, cap := TotalPages(length, cols, rows), Capacity(cols, rows);
    var count := RowCount(length, page, cols, rows);
    // The slot of this page ends one capacity after its start.
    var slotEnd := Mul(Mul(page + 1, rows), cols);
    assert slotEnd == start + Mul(rows, cols) && start == Mul(page, cap) && slotEnd == Mul(page + 1, cap) by {
      NextPageStart(page, cols, rows);
      PageStartIsMultiple(page, cols, rows);
      PageStartIsMultiple(page + 1, cols, rows);
    }
    assert Mul(total - 1, cap) < length <= Mul(total, cap) || (length == 0 && total == 1) by {
      TotalPagesTight(length, cols, rows);
    }
    assert count <= rows by {
      RowStartBelowEnd(length, page, cols, rows, rows);
    }
    if page + 1 < total {
      assert end == slotEnd by {
        MulMonotone(page + 1, total - 1, cap);
      }
      assert count == rows by {
        RowStartBelowEnd(length, page, cols, rows, rows - 1);
        MulAddLeft(rows - 1, 1, cols);
        MulOne(cols);
      }
    }
    if page < total && length > 0 {
      assert count >= 1 by {
        MulMonotone(page, total - 1, cap);
        MulPositive(rows, cols);
        RowStartBelowEnd(length, page, cols, rows, 0);
        MulZero(cols);
      }
    }
    if page >= total {
      assert count == 0 by {
        MulMonotone(total, page, cap);
      }
    }
  }

  /** Row `k` of a page is the row starting `k * cols` bytes into the page. */
  lemma PageRowAt(data: seq<byte>, page: nat, cols: nat, rows: nat, k: nat)
    requires cols >= 1
    requires k < RowCount(|data|, page, cols, rows)
    ensures |PageRows(data, page, cols, rows)| == RowCount(|data|, page, cols, rows)
    ensures PageRows(data, page, cols, rows)[k] == RowAt(data, PageStart(page, cols, rows) + Mul(k, cols), cols)
  {
    RowsFromAt(data, PageStart(page, cols, rows), cols, RowCount(|data|, page, cols, rows), k);
  }

  /** The offset of a rendered cell lies in the page's slot: below the next page's start. */
  lemma CellOffsetInPage(length: nat, page: nat, cols: nat, rows: nat, k: nat, j: nat)
    requires cols >= 1 && rows >= 1
    requires k < RowCount(length, page, cols, rows) && j < cols
    ensures CellOffset(page, rows, cols, k, j) == PageStart(page, cols, rows) + Mul(k, cols) + j
    ensures CellOffset(page, rows, cols, k, j) < Mul(Mul(page + 1, rows), cols)
  {
    CellOffsetSplit(page, rows, cols, k, j);
    RowCountBounds(length, page, cols, rows);
    NextPageStart(page, cols, rows);
    MulMonotone(k, rows - 1, cols);
    MulAddLeft(rows - 1, 1, cols);
    MulOne(cols);
  }

  /**
    Each rendered cell shows the byte at the offset the edit handler writes
    to: rows have exactly `cols` cells, a cell is absent exactly when its offset is past the data, and
    every present cell lies within the page's range.
  */
  lemma PageRowsCell(data: seq<byte>, page: nat, cols: nat, rows: nat, k: nat, j: nat)
    requires cols >= 1 && rows >= 1
    requires k < RowCount(|data|, page, cols, rows) && j < cols
    ensures |PageRows(data, page, cols, rows)| == RowCount(|data|, page, cols, rows)
    ensures var grid := PageRows(data, page, cols, rows);
      var off := CellOffset(page, rows, cols, k, j);
      && |grid[k].cells| == cols
      && grid[k].cells[j] == RenderValue(ByteAt(data, off))
      && (grid[k].cells[j].hex.None? <==> off >= |data|)
      && (off < |data| ==> PageStart(page, cols, rows) <= off < PageEnd(|data|, page, cols, rows))
  {
    PageRowAt(data, page, cols, rows, k);
    CellOffsetInPage(|data|, page, cols, rows, k, j);
  }

  /**
    A row's label is the offset of its first cell in upper-case hex, at
    least eight digits, which parses back to that offset.
  */
  lemma PageRowLabel(data: seq<byte>, page: nat, cols: nat, rows: nat, k: nat)
    requires cols >= 1
    requires k < RowCount(|data|, page, cols, rows)
    ensures |PageRows(data, page, cols, rows)| == RowCount(|data|, page, cols, rows)
    ensures var text := PageRows(data, page, cols, rows)[k].offset;
      && text == HexString(CellOffset(page, rows, cols, k, 0), 8)
      && AllUpperHex(text) && ParseHex(text) == CellOffset(page, rows, cols, k, 0) && |text| >= 8
  {
    var off := CellOffset(page, rows, cols, k, 0);
    assert PageRows(data, page, cols, rows)[k].offset == HexString(off, 8) by {
      PageRowAt(data, page, cols, rows, k);
      CellOffsetSplit(page, rows, cols, k, 0);
    }
    HexStringSpec(off, 8);
  }

  /** Offset labels are eight digits wide for every offset below 2^32. */
  lemma OffsetLabelWidth(start: nat)
    requires start < 0x1_0000_0000
    ensures |HexString(start, 8)| == 8
  {
    assert Pow16(8) == 0x1_0000_0000;
    HexStringSpec(start, 8);
  }

  /**
    Every byte of the page's range is shown, in the cell whose offset it is
    (row and column being its distance from the page start divided by and
    modulo `cols`).
  */
  lemma PageRowsCover(data: seq<byte>, page: nat, cols: nat, rows: nat, off: nat)
    requires cols >= 1 && rows >= 1
    requires PageStart(page, cols, rows) <= off < PageEnd(|data|, page, cols, rows)
    ensures |PageRows(data, page, cols, rows)| == RowCount(|data|, page, cols, rows)
    ensures exists k: nat, j: nat ::
      && k < RowCount(|data|, page, cols, rows) && j < cols
      && CellOffset(page, rows, cols, k, j) == off
      && PageRows(data, page, cols, rows)[k].cells[j] == RenderValue(Some(data[off]))
  {
    var start := PageStart(page, cols, rows);
    var k, j := (off - start) / cols, (off - start) % cols;
    DivMod(off - start, cols);
    RowStartBelowEnd(|data|, page, cols, rows, k);
    CellOffsetSplit(page, rows, cols, k, j);
    PageRowsCell(data, page, cols, rows, k, j);
  }

  /** Distinct cells of one page have distinct offsets. */
  lemma CellOffsetInjective(page: nat, rows: nat, cols: nat, k1: nat, j1: nat, k2: nat, j2: nat)
    requires j1 < cols && j2 < cols
    requires CellOffset(page, rows, cols, k1, j1) == CellOffset(page, rows, cols, k2, j2)
    ensures k1 == k2 && j1 == j2
  {
    CellOffsetSplit(page, rows, cols, k1, j1);
    CellOffsetSplit(page, rows, cols, k2, j2);
    MulAddLeft(k1, 1, cols);
    MulAddLeft(k2, 1, cols);
    MulOne(cols);
    if k1 < k2 {
      MulMonotone(k1 + 1, k2, cols);
    } else if k2 < k1 {
      MulMonotone(k2 + 1, k1, cols);
    }
  }

  /** Writing one byte changes a row only in the cell that shows it. */
  lemma RowAtAfterWrite(data: seq<byte>, start: nat, cols: nat, off: nat, v: byte)
    requires off < |data|
    ensures var r := RowAt(data, start, cols);
      RowAt(data[off := v], start, cols) ==
        if start <= off < start + cols then r.(cells := r.cells[off - start := RenderValue(Some(v))]) else r
  {
    var r, r' := RowAt(data, start, cols), RowAt(data[off := v], start, cols);
    forall jj | 0 <= jj < cols
      ensures r'.cells[jj] == if start + jj == off then RenderValue(Some(v)) else r.cells[jj]
    {
      assert r'.cells[jj] == RenderValue(ByteAt(data[off := v], start + jj));
      assert r.cells[jj] == RenderValue(ByteAt(data, start + jj));
    }
    if start <= off < start + cols {
      assert r'.cells == r.cells[off - start := RenderValue(Some(v))];
    } else {
      assert r'.cells == r.cells;
    }
  }

  /**
    Writing one byte behind a rendered cell and patching that cell with the
    byte's rendering gives exactly the rows a fresh render pass would build.
  */
  lemma PageRowsAfterWrite(data: seq<byte>, page: nat, cols: nat, rows: nat, k: nat, j: nat, v: byte)
    requires cols >= 1 && rows >= 1
    requires k < RowCount(|data|, page, cols, rows) && j < cols
    requires CellOffset(page, rows, cols, k, j) < |data|
    ensures var grid := PageRows(data, page, cols, rows);
      k < |grid| &&
      PageRows(data[CellOffset(page, rows, cols, k, j) := v], page, cols, rows) ==
        grid[k := grid[k].(cells := grid[k].cells[j := RenderValue(Some(v))])]
  {
    var off := CellOffset(page, rows, cols, k, j);
    var data' := data[off := v];
    var start := PageStart(page, cols, rows);
    var grid := PageRows(data, page, cols, rows);
    var grid' := PageRows(data', page, cols, rows);
    CellOffsetInPage(|data|, page, cols, rows, k, j);
    var patched := grid[k := grid[k].(cells := grid[k].cells[j := RenderValue(Some(v))])];
    forall k' | 0 <= k' < |grid'|
      ensures grid'[k'] == patched[k']
    {
      var rowStart := start + Mul(k', cols);
      PageRowAt(data, page, cols, rows, k');
      PageRowAt(data', page, cols, rows, k');
      RowAtAfterWrite(data, rowStart, cols, off, v);
      if rowStart <= off < rowStart + cols {
        CellOffsetSplit(page, rows, cols, k', off - rowStart);
        CellOffsetInjective(page, rows, cols, k', off - rowStart, k, j);
      } else if k' == k {
        assert false;
      }
    }
  }

  /**
    After a commit, `goToNextInput` stops at the cell of the very next data
    offset, a cell of its page's grid on this page or the next; it finds no
    input only when no byte follows the edited one.
  */
  lemma NextFocusAdvancesOffset(length: nat, page: nat, cols: nat, rows: nat, row: nat, col: nat)
    requires cols >= 1 && rows >= 1
    requires page < TotalPages(length, cols, rows)
    requires row < RowCount(length, page, cols, rows) && col < cols
    ensures var f := NextFocus(page, row, col, cols, RowCount(length, page, cols, rows), TotalPages(length, cols, rows));
      var off := CellOffset(page, rows, cols, row, col);
      && (f.None? ==> off + 1 >= length)
      && (f.Some? ==>
            && CellOffset(f.value.page, rows, cols, f.value.row, f.value.col) == off + 1
            && (f.value.page == page || f.value.page == page + 1)
            && f.value.row < RowCount(length, f.value.page, cols, rows)
            && f.value.col < cols)
  {
    var total := TotalPages(length, cols, rows);
    var count := RowCount(length, page, cols, rows);
    var f := NextFocus(page, row, col, cols, count, total);
    var off := CellOffset(page, rows, cols, row, col);
    if col + 1 < cols {
      assert f == Some(Focus(page, row, col + 1));
    } else if row + 1 < count {
      assert f == Some(Focus(page, row + 1, 0));
      assert CellOffset(page, rows, cols, row + 1, 0) == off + 1 by {
        MulAddLeft(Mul(page, rows) + row, 1, cols);
        MulOne(cols);
      }
    } else if page + 1 < total {
      assert f == Some(Focus(page + 1, 0, 0));
      assert row == rows - 1 by {
        RowCountBounds(length, page, cols, rows);
      }
      assert CellOffset(page + 1, rows, cols, 0, 0) == off + 1 by {
        MulAddLeft(page, 1, rows);
        MulOne(rows);
        MulAddLeft(Mul(page, rows) + row, 1, cols);
        MulOne(cols);
      }
      assert RowCount(length, page + 1, cols, rows) >= 1 by {
        TotalPagesTight(length, cols, rows);
        RowCountBounds(length, page + 1, cols, rows);
      }
    } else {
      assert f.None?;
      var start := PageStart(page, cols, rows);
      assert off + 1 == start + Mul(count, cols) by {
        CellOffsetSplit(page, rows, cols, row, col);
        MulAddLeft(row, 1, cols);
        MulOne(cols);
      }
      assert PageEnd(length, page, cols, rows) == length by {
        TotalPagesTight(length, cols, rows);
        PageStartIsMultiple(page + 1, cols, rows);
      }
      RowStartBelowEnd(length, page, cols, rows, count);
    }
  }

  /**
    Focus really moves after a commit exactly when a byte follows the edited
    one: the input `goToNextInput` stops at is then an enabled cell showing
    that byte, and otherwise it is a disabled cell or there is none.
  */
  lemma FocusMovesIffByteFollows(data: seq<byte>, page: nat, cols: nat, rows: nat, row: nat, col: nat)
    requires cols >= 1 && rows >= 1
    requires page < TotalPages(|data|, cols, rows)
    requires row < RowCount(|data|, page, cols, rows) && col < cols
    ensures var f := NextFocus(page, row, col, cols, RowCount(|data|, page, cols, rows), TotalPages(|data|, cols, rows));
      var off := CellOffset(page, rows, cols, row, col);
      && (off + 1 < |data| ==> f.Some?)
      && (f.Some? ==>
            var grid := PageRows(data, f.value.page, cols, rows);
            && f.value.row < |grid| && f.value.col < |grid[f.value.row].cells|
            && (grid[f.value.row].cells[f.value.col].hex.Some? <==> off + 1 < |data|)
            && (off + 1 < |data| ==> grid[f.value.row].cells[f.value.col] == RenderValue(Some(data[off + 1]))))
  {
    var f := NextFocus(page, row, col, cols, RowCount(|data|, page, cols, rows), TotalPages(|data|, cols, rows));
    NextFocusAdvancesOffset(|data|, page, cols, rows, row, col);
    if f.Some? {
      PageRowsCell(data, f.value.page, cols, rows, f.value.row, f.value.col);
    }
  }
}
