/** Concrete cases of the layout, paging and focus rules. */
module Scenarios {

  import opened Wrappers
  import opened Arith
  import opened ByteRender
  import opened Layout
  import opened Paging

  /**
    A 222 pixel viewport without offsets or UTF-8 lane leaves 214 pixels: six
    34 pixel cells with 10 pixels over. Coming from five columns, the sixth is
    held back; from any other count, six are laid out.
  */
  lemma HysteresisKeepsFive()
    ensures Columns(222, 0, false, false, 5) == 5
    ensures Columns(222, 0, false, false, 4) == 6
    ensures Columns(222, 0, false, false, 6) == 6
  {
  }

  /**
    A 398 pixel viewport without offsets or UTF-8 lane leaves 390 pixels:
    eleven 34 pixel cells with 16 pixels over. With at most six columns and
    five in use, the cap of six is held back to five, because the test looks
    at the uncapped ratio; two pixels more leave 18 over and give six.
  */
  lemma CappedHysteresisKeepsFive()
    ensures Columns(398, 6, false, false, 5) == 5
    ensures Columns(400, 6, false, false, 5) == 6
    ensures Columns(398, 6, false, false, 6) == 6
  {
  }

  /**
    Ten bytes in 4 by 2 pages: two pages; the first shows two full rows, the
    second one row.
  */
  lemma TenBytesFourByTwo()
    ensures TotalPages(10, 4, 2) == 2
    ensures RowCount(10, 0, 4, 2) == 2 && RowCount(10, 1, 4, 2) == 1
  {
    assert TotalPages(10, 4, 2) == 2 by {
      CeilDivUnique(10, 4, 3);
      CeilDivUnique(3, 2, 2);
    }
    assert PageStart(0, 4, 2) == 0 && PageEnd(10, 0, 4, 2) == 8;
    assert PageStart(1, 4, 2) == 8 && PageEnd(10, 1, 4, 2) == 10;
    assert RowCount(10, 0, 4, 2) == 2 by { CeilDivUnique(8, 4, 2); }
    assert RowCount(10, 1, 4, 2) == 1 by { CeilDivUnique(2, 4, 1); }
  }

  /**
    The second page of ten bytes in 4 by 2 pages holds offsets 8 and 9 and two
    absent cells.
  */
  lemma TenBytesLastPage(data: seq<byte>, j: nat)
    requires |data| == 10 && j < 4
    ensures |PageRows(data, 1, 4, 2)| == 1
    ensures PageRows(data, 1, 4, 2)[0].cells[j] == RenderValue(if j < 2 then Some(data[8 + j]) else None)
  {
    TenBytesFourByTwo();
    PageRowsCell(data, 1, 4, 2, 0, j);
    assert CellOffset(1, 2, 4, 0, j) == 8 + j;
  }

  /**
    Committing the last byte of ten in 4 by 2 pages (page 1, row 0, column 1)
    makes `goToNextInput` stop at column 2, an absent cell: the input there
    exists but is disabled, so focus stays on the edited cell. After the last
    cell of the grid's last row on the last page it finds no input; after the
    last cell of a full page it turns to the next page.
  */
  lemma FocusAfterLastByte()
    ensures NextFocus(1, 0, 1, 4, 1, 2) == Some(Focus(1, 0, 2))
    ensures NextFocus(1, 0, 3, 4, 1, 2) == None
    ensures NextFocus(0, 1, 3, 4, 2, 2) == Some(Focus(1, 0, 0))
  {
  }
}
