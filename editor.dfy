/**
  The editor component: the state its observables hold, and the handlers that
  change that state. The two subscriptions become `UpdateLayout` (the column
  and row count) and `Render` (the page count, the page clamp and the row
  loop); the Previous/Next buttons call `ChangePage`; the `data` input setter
  is `SetData`; a keystroke in a cell is `HexInput`.
*/
module Editor {

  import opened Wrappers
  import opened Hex
  import opened ByteRender
  import opened Layout
  import opened Paging

  class HexEditor {
    /** The edited bytes (`_data$`); edits write into this very array. */
    var data: array<byte>
    var readOnly: bool
    /** `currentPage$`. */
    var currentPage: nat
    /** `totalPages$`. */
    var totalPages: nat
    /** `pageSize$`: `(cols, rows)`, `(0, 0)` until the first layout. */
    var pageSize: (nat, nat)
    /** `renderedRows$`: the rows of the current page as displayed. */
    var renderedRows: seq<Row>
    /** How many times `dataChange` has been emitted. */
    var dataChanges: nat

    /** A page size is known: the layout step has run at least once. */
    predicate LaidOut()
      reads this
    {
      pageSize.0 >= 1 && pageSize.1 >= 1
    }

    /**
      What holds between render passes whatever the data: the page size is
      unset or positive in both dimensions, and before the first layout
      nothing is paged or shown.
    */
    predicate Sound()
      reads this
    {
      && totalPages >= 1
      && (pageSize == (0, 0) || LaidOut())
      && (!LaidOut() ==> currentPage == 0 && totalPages == 1 && renderedRows == [])
    }

    /**
      The displayed state agrees with the data: the page count is the one the
      data needs, the current page exists, and the rows shown are exactly the
      rows the render pass builds for that page.
    */
    predicate Valid()
      reads this, data
    {
      && Sound()
      && (LaidOut() ==>
            && totalPages == TotalPages(data.Length, pageSize.0, pageSize.1)
            && currentPage < totalPages
            && renderedRows == PageRows(data[..], currentPage, pageSize.0, pageSize.1))
    }

    /** A fresh editor: empty data, page 0 of 1, no page size yet, nothing shown. */
    constructor ()
      ensures Valid() && fresh(data)
      ensures data.Length == 0 && !readOnly && currentPage == 0 && totalPages == 1
      ensures pageSize == (0, 0) && renderedRows == [] && dataChanges == 0
    {
      data := new byte[0];
      readOnly := false;
      currentPage := 0;
      totalPages := 1;
      pageSize := (0, 0);
      renderedRows := [];
      dataChanges := 0;
    }

    /**
      The render pass. Without a page size it does nothing. Otherwise it
      publishes the page count; a stale page is clamped to the last one, and
      publishing that page re-runs the pass, which renders it.
    */
    method Render()
      requires Sound()
      modifies this
      ensures Valid()
      ensures data == old(data) && readOnly == old(readOnly) && pageSize == old(pageSize)
      ensures dataChanges == old(dataChanges)
      ensures !LaidOut() ==> currentPage == old(currentPage) && renderedRows == old(renderedRows)
      ensures LaidOut() ==> currentPage == Min(old(currentPage), totalPages - 1)
      decreases if LaidOut() && currentPage >= TotalPages(data.Length, pageSize.0, pageSize.1) then 1 else 0
    {
      var (cols, rows) := pageSize;
      if cols == 0 || rows == 0 {
        return;
      }
      var total := TotalPages(data.Length, cols, rows);
      if totalPages != total {
        totalPages := total;
      }
      if currentPage >= total {
        currentPage := total - 1;
        Render();
        return;
      }
      renderedRows := ProjectPage(data, currentPage, cols, rows);
    }

    /**
      The layout step for a viewport of `viewWidth` by `viewHeight` pixels:
      computes the page size from the column count in use, and only a change
      of size is published (and re-renders).
    */
    method UpdateLayout(viewWidth: nat, viewHeight: nat, maxColumns: int, maxRows: int,
                        showOffsets: bool, showUtf8: bool)
      requires Valid()
      modifies this
      ensures Valid()
      ensures pageSize == Geometry(viewWidth, viewHeight, maxColumns, maxRows, showOffsets, showUtf8, old(pageSize).0)
      ensures data == old(data) && readOnly == old(readOnly) && dataChanges == old(dataChanges)
      ensures pageSize == old(pageSize) ==> currentPage == old(currentPage) && renderedRows == old(renderedRows)
      ensures currentPage == Min(old(currentPage), totalPages - 1)
    {
      var size := Geometry(viewWidth, viewHeight, maxColumns, maxRows, showOffsets, showUtf8, pageSize.0);
      if size != pageSize {
        pageSize := size;
        Render();
      }
    }

    /**
      The Previous (`-1`) and Next (`+1`) buttons: moves to the clamped page
      and re-renders when that is a different page.
    */
    method ChangePage(direction: int)
      requires Valid()
      modifies this
      ensures Valid()
      ensures currentPage == ClampPage(old(currentPage) + direction, old(totalPages))
      ensures data == old(data) && readOnly == old(readOnly) && pageSize == old(pageSize)
      ensures totalPages == old(totalPages) && dataChanges == old(dataChanges)
      ensures currentPage == old(currentPage) ==> renderedRows == old(renderedRows)
    {
      var newPage := ClampPage(currentPage + direction, totalPages);
      if currentPage != newPage {
        currentPage := newPage;
        Render();
      }
    }

    /**
      The `data` input. The array already held, or any array of the same
      length, is ignored; an array of another length replaces the data and
      re-renders.
    */
    method SetData(value: array<byte>)
      requires Valid()
      modifies this
      ensures Valid()
      ensures value == old(data) || value.Length == old(data).Length ==>
        data == old(data) && currentPage == old(currentPage) && renderedRows == old(renderedRows)
      ensures value != old(data) && value.Length != old(data).Length ==> data == value
      ensures LaidOut() ==> currentPage == Min(old(currentPage), totalPages - 1)
      ensures readOnly == old(readOnly) && pageSize == old(pageSize) && dataChanges == old(dataChanges)
    {
      if value == data {
        return;
      } else if value.Length == data.Length {
        return;
      }
      data := value;
      Render();
    }

    /**
      A keystroke in the hex input at (`row`, `col`) of the current page,
      whose text is now `text`. Returns the text left in the input and the
      input `goToNextInput` stops at (`None`: it finds none). Focus moves
      there only when that cell is enabled, that is when a byte follows the
      edited one; a disabled cell does not take focus.

      Read-only: the cell's rendered text is restored. Otherwise the text is
      reduced to its hex digits and upper-cased; once two digits remain, they
      are written to the byte behind the cell, the cell is re-rendered,
      `dataChange` is emitted and `goToNextInput` looks for the next input,
      turning the page when the cell was the last one shown.
    */
    method HexInput(text: string, row: nat, col: nat) returns (shown: string, next: Option<Focus>)
      requires Valid()
      requires row < |renderedRows| && col < |renderedRows[row].cells|
      requires renderedRows[row].cells[col].hex.Some?
      modifies this, data
      ensures Valid()
      ensures data == old(data) && readOnly == old(readOnly) && pageSize == old(pageSize)
      ensures totalPages == old(totalPages)
      ensures readOnly ==>
        && shown == old(renderedRows[row].cells[col].hex.value)
        && next.None?
        && data[..] == old(data[..]) && renderedRows == old(renderedRows)
        && currentPage == old(currentPage) && dataChanges == old(dataChanges)
      ensures !readOnly ==> shown == Upper(FilterHex(text))
      ensures !readOnly && |FilterHex(text)| != 2 ==>
        && next.None?
        && data[..] == old(data[..]) && renderedRows == old(renderedRows)
        && currentPage == old(currentPage) && dataChanges == old(dataChanges)
      ensures !readOnly && |FilterHex(text)| == 2 ==>
        var off := CellOffset(old(currentPage), pageSize.1, pageSize.0, row, col);
        && ParseHex(FilterHex(text)) < 256
        && off < data.Length
        && data[..] == old(data[..])[off := ParseHex(FilterHex(text)) as byte]
        && dataChanges == old(dataChanges) + 1
        && next == NextFocus(old(currentPage), row, col, pageSize.0, |old(renderedRows)|, totalPages)
        && currentPage == (if next.Some? then next.value.page else old(currentPage))
        && (currentPage == old(currentPage) ==> renderedRows[row].cells[col].hex == Some(shown))
    {
      if readOnly {
        shown := renderedRows[row].cells[col].hex.value;
        next := None;
        return;
      }
      var digits := FilterHex(text);
      shown := Upper(digits);
      next := None;
      if |digits| == 2 {
        CommitTextRoundTrip(digits);
        var page, count := currentPage, |renderedRows|;
        var v := ParseHex(digits) as byte;
        WriteCell(row, col, v);
        assert renderedRows[row].cells[col].hex == Some(shown);
        next := NextFocus(page, row, col, pageSize.0, count, totalPages);
        if next.Some? && next.value.page != page {
          ChangePage(1);
        }
      }
    }

    /**
      The commit of a parsed byte `v` from the present cell at (`row`, `col`):
      the byte is written in place at the cell's offset, the rendered cell is
      replaced by the byte's rendering, and `dataChange` is emitted. The rows
      shown stay exactly those a fresh render pass would build.
    */
    method WriteCell(row: nat, col: nat, v: byte)
      requires Valid()
      requires row < |renderedRows| && col < |renderedRows[row].cells|
      requires renderedRows[row].cells[col].hex.Some?
      modifies this, data
      ensures Valid()
      ensures data == old(data) && readOnly == old(readOnly) && pageSize == old(pageSize)
      ensures currentPage == old(currentPage) && totalPages == old(totalPages)
      ensures var off := CellOffset(currentPage, pageSize.1, pageSize.0, row, col);
        off < data.Length && data[..] == old(data[..])[off := v]
      ensures renderedRows ==
        old(renderedRows)[row := old(renderedRows)[row].(cells := old(renderedRows)[row].cells[col := RenderValue(Some(v))])]
      ensures dataChanges == old(dataChanges) + 1
    {
      var (cols, rows) := pageSize;
      var off := CellOffset(currentPage, rows, cols, row, col);
      PageRowsCell(data[..], currentPage, cols, rows, row, col);
      PageRowsAfterWrite(data[..], currentPage, cols, rows, row, col, v);
      data[off] := v;
      renderedRows := renderedRows[row := renderedRows[row].(cells := renderedRows[row].cells[col := RenderValue(Some(v))])];
      dataChanges := dataChanges + 1;
    }
  }
}
