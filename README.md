# ngx-hex-editor: a verified model of the hex editor component

`HexEditorComponent` shows a `Uint8Array` as pages of editable two-digit hex
cells. Each row is labelled with its offset, and an optional lane beside it
shows each byte as a printable character. The component sizes its pages to
the viewport, lets the user page through the data, and writes each completed
pair of typed hex digits back into the array in place.

The model covers the component's logic:

- **Byte rendering.** `ByteRender.RenderValue` is `renderValue`: the hex text and the glyph of one byte, or of a position past the end.
- **Layout.** `Layout` is the first subscription of `ngAfterViewInit`. It turns the viewport size, `maxColumns`, `maxRows`, `showOffsets` and `showUtf8` into `[cols, rows]`, with a hysteresis rule that holds back one extra column. Pixel sizes are whole numbers. The source's test "fractional part of `width / byteWidth` below 0.5" is written `2 * (width % byteWidth) < byteWidth`.
- **Paging.** `Paging` is the second subscription: the page count, the stale-page clamp, and the rows of the current page. Each row has exactly `cols` cells and an offset label, and cells past the end are absent. The module also holds the offset a cell writes to, and the input `goToNextInput` stops at after an edit. The source's nested row loops are two methods. `ProjectPage` is proved equal to the function `PageRows`, and its inner loop `ProjectRow` to the cells of `RowAt`.
- **Hex text.** `Hex` holds `toString(16)`, `padStart`, `toUpperCase`, `parseInt(_, 16)` and the keystroke filter. The editor formats numbers digit by digit (`HexString`), and `HexStringMatchesFormatting` proves this equals the source's chain of calls.
- **The component.** `Editor.HexEditor` is a class whose fields are the component's subjects:
  - `data` is `_data$`, an array that edits write into;
  - `currentPage` is `currentPage$`;
  - `totalPages` is `totalPages$`;
  - `pageSize` is `pageSize$`;
  - `renderedRows` is `renderedRows$`;
  - `readOnly` is the input of that name;
  - `dataChanges` counts `dataChange` emissions.

  The handlers are:
  - `UpdateLayout` is the layout step.
  - `Render` is the render pass.
  - `ChangePage` is the Previous/Next buttons.
  - `SetData` is the `data` setter.
  - `HexInput` is `onHexInput` together with `goToNextInput`.
  - `WriteCell` is the write-and-patch step of `onHexInput`.

  Every handler preserves `Valid()`: the page count fits the data, the current page exists, and the rows shown are exactly what a fresh render pass would build.
- **Concrete cases.** `Scenarios` holds worked examples: the hysteresis rule at 222 pixels and under a cap at 398 pixels, ten bytes in 4 by 2 pages, and where focus goes after the last byte.

Some things the model states are easy to miss in the source:

- **The clamp re-renders.** When the render pass finds a stale page, it publishes the last page through `currentPage$.next` (line 278). The rows are not empty afterwards, because that emission synchronously re-runs the same subscription, which renders the clamped page. `Render` therefore calls itself once after the clamp.
- **Same-length arrays are ignored.** The `data` setter ignores any array that has the current array's length, even when its contents differ. The comparison loop at lines 160-164 has no effect, because line 165 returns whatever it finds. `SetData` follows the code. It does not follow the reading "a replaced buffer is re-rendered".
- **The focus search can stop at an absent cell.** `blurInput` finds disabled inputs too, so after an edit `goToNextInput` can stop at an absent cell, such as the cell after the last byte (`Scenarios.FocusAfterLastByte`). A disabled input does not take focus, so focus then stays on the edited cell. It does not move on to a later cell or page. `NextFocus` follows the code: it is the input the search stops at. `Paging.FocusMovesIffByteFollows` proves that focus really moves exactly when a byte follows the edited one.
- **The hysteresis can hold back a cap.** The hysteresis test (lines 246-249) runs after the cap, but on the uncapped ratio `width / byteWidth`. With a cap that binds, the count one above the previous one can be held back even though many more columns fit (`Scenarios.CappedHysteresisKeepsFive`). `Layout.HysteresisMargin` states the kept count under any cap.
- **The range check always passes.** Two hex digits always parse to a value in [0, 255], so the `isNaN`/range check at line 354 always passes (`Hex.CommitTextRoundTrip`).
- **Committing keeps the text.** After a commit, the cell shows exactly the upper-cased text that was typed (`HexInput`).

## Model

| member | source | states |
|---|---|---|
| ByteRender.RenderValue | projects/ngx-hex-editor/src/lib/hex-editor.component.ts:197-206 | a cell has no hex text exactly when its byte is absent |
| ByteRender.RenderValueSpec | projects/ngx-hex-editor/src/lib/hex-editor.component.ts:197-206 | a present byte shows exactly two upper-case hex digits that parse back to the byte, and a one-character glyph that is the byte's own character for 32..126 and "." otherwise; an absent byte shows no text and the placeholder glyph |
| ByteRender.RenderValueInjective | projects/ngx-hex-editor/src/lib/hex-editor.component.ts:201-204 | two bytes that render alike are equal |
| Hex.HexString | projects/ngx-hex-editor/src/lib/hex-editor.component.ts:202 | the formatted text consists of upper-case hex digits only |
| Hex.HexStringSpec | projects/ngx-hex-editor/src/lib/hex-editor.component.ts:293 | the formatted text parses back to the number, has at least `w` digits (and at least one), and has exactly `max(w, 1)` digits when the number is below 16^w |
| Hex.HexStringMatchesFormatting | projects/ngx-hex-editor/src/lib/hex-editor.component.ts:202 | the digit-by-digit formatting equals `toString(16)`, then `padStart(w, '0')`, then `toUpperCase()` for every number and width |
| Hex.PadStart | projects/ngx-hex-editor/src/lib/hex-editor.component.ts:293 | `padStart` never truncates: the result has length `w` or the text's own length, whichever is larger, and is the original text preceded by `fill` characters only |
| Hex.ToHexLower | projects/ngx-hex-editor/src/lib/hex-editor.component.ts:202 | `toString(16)` of a non-negative integer is at least one hex digit |
| Hex.ParseHex | projects/ngx-hex-editor/src/lib/hex-editor.component.ts:353 | `parseInt(s, 16)` of k hex digits is below 16^k |
| Hex.ParseHexInjective | projects/ngx-hex-editor/src/lib/hex-editor.component.ts:353 | two upper-case hex texts of one length with the same value are equal |
| Hex.FilterHex | projects/ngx-hex-editor/src/lib/hex-editor.component.ts:350 | the filtered text is all hex digits and no longer than the input |
| Hex.FilterHexMembers | projects/ngx-hex-editor/src/lib/hex-editor.component.ts:350 | a character survives the filter if and only if it occurs in the input and is a hex digit |
| Hex.FilterHexAppend | projects/ngx-hex-editor/src/lib/hex-editor.component.ts:350 | filtering a concatenation is filtering each part, so the kept digits keep their order and count |
| Hex.FilterHexChar | projects/ngx-hex-editor/src/lib/hex-editor.component.ts:350 | a single character is kept exactly when it is a hex digit |
| Hex.FilterHexKeepsHex | projects/ngx-hex-editor/src/lib/hex-editor.component.ts:350 | text that is already all hex digits passes the filter unchanged |
| Hex.Upper | projects/ngx-hex-editor/src/lib/hex-editor.component.ts:351 | upper-casing hex text keeps its length and leaves only upper-case hex digits |
| Hex.UpperKeepsValue | projects/ngx-hex-editor/src/lib/hex-editor.component.ts:351-353 | upper-casing hex text does not change the value it parses to |
| Hex.CommitTextRoundTrip | projects/ngx-hex-editor/src/lib/hex-editor.component.ts:352-357 | two typed hex digits parse to a byte in [0, 255], so the check at line 354 always passes, and that byte renders as exactly the upper-cased digits |
| Layout.ByteWidth | projects/ngx-hex-editor/src/lib/hex-editor.component.ts:236-240 | one byte takes a positive width |
| Layout.AvailableWidth | projects/ngx-hex-editor/src/lib/hex-editor.component.ts:232-240 | the width left for the byte cells after the panel margin, offset gutter and UTF-8 margin; what fits in it is stated by ColumnsFit |
| Layout.KeepsPrevious | projects/ngx-hex-editor/src/lib/hex-editor.component.ts:246-247 | the hysteresis test; HysteresisNeedsRoom and HysteresisMargin state when it passes and what it keeps |
| Layout.Columns | projects/ngx-hex-editor/src/lib/hex-editor.component.ts:242-250 | the column count is at least 1, and at most `maxColumns` when that is set; ColumnsFit, ColumnsAtCap and HysteresisMargin together state its exact value, with or without a cap |
| Layout.Rows | projects/ngx-hex-editor/src/lib/hex-editor.component.ts:251-255 | the row count is at least 1 and at most `maxRows` when set; when a row fits, the rows fit the height, and one more row would fit only if the cap holds it back; below one row's height it is 1 |
| Layout.Geometry | projects/ngx-hex-editor/src/lib/hex-editor.component.ts:231-255 | the page size has both dimensions at least 1 |
| Layout.ColumnsFit | projects/ngx-hex-editor/src/lib/hex-editor.component.ts:242-250 | the chosen columns fit the available width (a single column is always allowed); unless the count reached the cap or the hysteresis test passed, one more column would not fit |
| Layout.ColumnsAtCap | projects/ngx-hex-editor/src/lib/hex-editor.component.ts:242-245 | a cap that the fitting count reaches is the column count, unless the hysteresis keeps the previous count |
| Layout.RowsAtCap | projects/ngx-hex-editor/src/lib/hex-editor.component.ts:251-255 | with a cap and a height of at least one row, the row count is the cap when `floor(height / 28)` reaches it, and that floor otherwise |
| Layout.HysteresisNeedsRoom | projects/ngx-hex-editor/src/lib/hex-editor.component.ts:246-249 | the hysteresis test passes only when at least one whole byte fits, so the integer remainder stands for the source's fractional part |
| Layout.HysteresisMargin | projects/ngx-hex-editor/src/lib/hex-editor.component.ts:246-249 | under any column cap, when the hysteresis test passes the previous count is the result and the extra column would have fitted; when no cap binds, it would have fitted with less than half a byte width to spare |
| Arith.CeilDiv | projects/ngx-hex-editor/src/lib/hex-editor.component.ts:272 | `Math.ceil(a / b)` is the multiple count q with `a <= q*b < a + b` |
| Arith.CeilDivUnique | projects/ngx-hex-editor/src/lib/hex-editor.component.ts:272 | that count is unique |
| Paging.TotalPages | projects/ngx-hex-editor/src/lib/hex-editor.component.ts:272 | there is always at least one page |
| Paging.NestedCeil | projects/ngx-hex-editor/src/lib/hex-editor.component.ts:272 | `ceil(ceil(L / cols) / rows)` equals `ceil(L / (cols * rows))` |
| Paging.TotalPagesTight | projects/ngx-hex-editor/src/lib/hex-editor.component.ts:269-272 | the pages hold all L bytes; for L > 0, one page fewer would not; empty data has exactly one page |
| Paging.ClampPage | projects/ngx-hex-editor/src/lib/hex-editor.component.ts:302-305 | the new page is always a valid page; a valid target is kept, a negative one becomes 0, one past the end becomes the last page |
| Paging.RowStartBelowEnd | projects/ngx-hex-editor/src/lib/hex-editor.component.ts:282-285 | the k-th row start lies below the loop bound exactly when k is below the number of rows the loop emits |
| Paging.RowCountBounds | projects/ngx-hex-editor/src/lib/hex-editor.component.ts:281-295 | a page shows at most `rows` rows; every page but the last shows exactly `rows`; an existing page shows at least one row unless the data is empty; a page past the end shows none |
| Paging.RowsFromAt | projects/ngx-hex-editor/src/lib/hex-editor.component.ts:282-294 | the k-th of a run of rows is the row starting k*cols bytes after the first |
| Paging.RowsFromSnoc | projects/ngx-hex-editor/src/lib/hex-editor.component.ts:282-295 | a run of rows grows at its end by the next row, as the loop pushes it |
| Paging.PageRowAt | projects/ngx-hex-editor/src/lib/hex-editor.component.ts:282-294 | row k of a page is the row starting `page*cols*rows + k*cols` |
| Paging.CellOffset | projects/ngx-hex-editor/src/lib/hex-editor.component.ts:355 | `dataIndex`: its place in the page is stated by CellOffsetInPage, and that distinct cells get distinct offsets by CellOffsetInjective |
| Paging.RowCount | projects/ngx-hex-editor/src/lib/hex-editor.component.ts:282-285 | the number of rows the loop emits; RowStartBelowEnd and RowCountBounds state it |
| Paging.RowAt | projects/ngx-hex-editor/src/lib/hex-editor.component.ts:287-294 | a row has exactly `cols` cells; PageRowsCell and PageRowLabel state their contents and the label |
| Paging.PageRows | projects/ngx-hex-editor/src/lib/hex-editor.component.ts:281-296 | the page has RowCount rows of `cols` cells each; PageRowsCell, PageRowsCover and PageRowLabel state what they show |
| Paging.NextFocus | projects/ngx-hex-editor/src/lib/hex-editor.component.ts:330-342 | the input `goToNextInput` stops at; NextFocusAdvancesOffset and FocusMovesIffByteFollows state where it is |
| Paging.CellOffsetInPage | projects/ngx-hex-editor/src/lib/hex-editor.component.ts:355 | the offset the handler writes to is the page start plus `row*cols + col`, and lies below the next page's start |
| Paging.PageRowsCell | projects/ngx-hex-editor/src/lib/hex-editor.component.ts:281-295 | each rendered row has `cols` cells; the cell at (row, col) renders the byte at the offset the edit handler writes to; it is absent exactly when that offset is past the data; a present cell lies within the page's range |
| Paging.PageRowLabel | projects/ngx-hex-editor/src/lib/hex-editor.component.ts:293 | a row's label is its first offset in upper-case hex, at least eight digits, which parses back to that offset |
| Paging.OffsetLabelWidth | projects/ngx-hex-editor/src/lib/hex-editor.component.ts:293 | labels are exactly eight digits for offsets below 2^32 |
| Paging.PageRowsCover | projects/ngx-hex-editor/src/lib/hex-editor.component.ts:282-290 | every byte in the page's range is shown in the cell whose offset it is |
| Paging.CellOffsetInjective | projects/ngx-hex-editor/src/lib/hex-editor.component.ts:355 | distinct cells of a page write to distinct offsets |
| Paging.RowAtAfterWrite | projects/ngx-hex-editor/src/lib/hex-editor.component.ts:356-357 | writing one byte changes a row only in the cell showing that byte |
| Paging.PageRowsAfterWrite | projects/ngx-hex-editor/src/lib/hex-editor.component.ts:355-357 | writing a byte behind a rendered cell and patching that one cell gives exactly the rows a fresh render pass would build |
| Paging.NextFocusAdvancesOffset | projects/ngx-hex-editor/src/lib/hex-editor.component.ts:330-342 | after a commit, `goToNextInput` stops at the cell of the next data offset, on this page or the next, inside that page's grid; it finds no input only when no byte follows |
| Paging.FocusMovesIffByteFollows | projects/ngx-hex-editor/src/lib/hex-editor.component.ts:321-342 | the cell `goToNextInput` stops at is enabled, and shows the next byte, exactly when a byte follows the edited one; otherwise the cell is disabled and focus stays |
| Paging.ProjectRow | projects/ngx-hex-editor/src/lib/hex-editor.component.ts:287-290 | the inner loop builds exactly the cells of the row starting at `i` |
| Paging.ProjectPage | projects/ngx-hex-editor/src/lib/hex-editor.component.ts:281-295 | the nested loops build exactly the rows of the page |
| Editor.HexEditor.constructor | projects/ngx-hex-editor/src/lib/hex-editor.component.ts:154-188 | the editor starts with empty data, page 0 of 1, page size `[0, 0]`, no rows, and a consistent state |
| Editor.HexEditor.Render | projects/ngx-hex-editor/src/lib/hex-editor.component.ts:268-298 | without a page size nothing changes; otherwise the page count fits the data, a stale page becomes the last page, and the rows shown are that page's rows |
| Editor.HexEditor.UpdateLayout | projects/ngx-hex-editor/src/lib/hex-editor.component.ts:231-258 | the page size becomes the computed geometry from the columns in use; an unchanged size changes nothing else; a page that still exists is kept and a stale one becomes the last page; the state stays consistent |
| Editor.HexEditor.ChangePage | projects/ngx-hex-editor/src/lib/hex-editor.component.ts:301-310 | the page becomes the clamped target; if it is the same page, nothing is re-rendered; the rows shown are the new page's rows |
| Editor.HexEditor.SetData | projects/ngx-hex-editor/src/lib/hex-editor.component.ts:156-168 | the same array, or any array of the same length, changes nothing; an array of another length replaces the data; the page is clamped and re-rendered |
| Editor.HexEditor.HexInput | projects/ngx-hex-editor/src/lib/hex-editor.component.ts:344-364 | read-only restores the rendered text and changes nothing; otherwise the input shows the upper-cased hex digits; only with exactly two digits is the parsed byte written at the cell's offset, with every other byte kept, `dataChange` emitted once, and the input `goToNextInput` stops at returned (turning the page if needed); the committed cell then shows the typed text |
| Editor.HexEditor.WriteCell | projects/ngx-hex-editor/src/lib/hex-editor.component.ts:355-360 | the byte is written in place at the cell's offset, the rendered cell is replaced by the byte's rendering, one `dataChange` is counted, and the rows shown still match the data |
| Scenarios.HysteresisKeepsFive | projects/ngx-hex-editor/src/lib/hex-editor.component.ts:246-249 | at 222 pixels without offsets or UTF-8 lane, six columns fit but the count stays five when five were in use |
| Scenarios.CappedHysteresisKeepsFive | projects/ngx-hex-editor/src/lib/hex-editor.component.ts:243-249 | at 398 pixels with at most six columns, eleven fit but the count stays five when five were in use; at 400 pixels it is six |
| Scenarios.TenBytesFourByTwo | projects/ngx-hex-editor/src/lib/hex-editor.component.ts:272-285 | ten bytes in 4 by 2 pages make two pages, of two rows and one row |
| Scenarios.TenBytesLastPage | projects/ngx-hex-editor/src/lib/hex-editor.component.ts:281-295 | the second page of ten bytes shows bytes 8 and 9, then two absent cells |
| Scenarios.FocusAfterLastByte | projects/ngx-hex-editor/src/lib/hex-editor.component.ts:330-342 | after the last byte, `goToNextInput` stops at the absent, disabled cell beside it, so focus stays; after the grid's last cell on the last page it finds no input; after the last cell of a full page it turns to the next page |

## Left out

- **Event plumbing.** `ResizeObserver`, `combineLatest`, the `auditTime(50)` debounce, `takeUntil` and `ngOnDestroy` are left out: they are event plumbing and timing. Their effect is the explicit calls `UpdateLayout` and `Render`.
- **Angular glue.** The Angular template, styles, `ChangeDetectorRef.detectChanges`, `trackByIndex`, and the `@Input`/`@Output` decorators are left out. They are framework glue with no logic of the editor.
- **DOM focus and highlighting.** `querySelector`, `focus` and `select`, and the highlight toggling in `onHexFocus`/`onHexBlur`, are left out. The model returns the input `goToNextInput` stops at, as a `Focus` value. Whether focus then moves depends on that cell being enabled (`FocusMovesIffByteFollows`). An input "exists" when its row was rendered and its column is below `cols`.
- **Pixel sizes and numbers.**
  - Viewport sizes and the `maxColumns`/`maxRows` inputs are whole numbers here; `contentRect` gives floating point.
  - Offsets are unbounded integers, so JavaScript's double precision beyond 2^53 is not modelled.
- **The placeholder glyph** is the constant U+2205. The source file holds a mis-encoded copy of that sign (line 199), and its bytes are not modelled.
- **The comparison loop** in the `data` setter (lines 160-164) is omitted. It has no observable effect.
- **The `maxlength="2"` attribute** of the inputs (line 32) is not modelled. `HexInput` accepts any text, and the filter and the two-digit test handle it.
- Editor.HexEditor.HexInput: requires the edited cell to be rendered and present. The source does not check this, but inputs of absent cells are disabled (line 31), so they receive no input events.
- **The `dataChange` payload.** `dataChange` carries the edited array itself. The model counts emissions in `dataChanges`, and the array's new contents are stated by `HexInput`.
- `projects/ngx-hex-editor/src/lib/hex-editor.module.ts` is not part of this model. It only declares the Angular module.
