# Spreadsheet range write and pension table shaping

This project models the two parts of the finance-spreadsheet updater that are
more than browser or library glue:

- the range write of the Google Sheets connector (`GoogleSheets.write_range`).
  The A1 range address is split into its two corners. The corners become row
  and column numbers. The flat list of values is cut into rows as wide as the
  range. The shape of that block is checked against the range. Only then is
  the block passed to the worksheet's `update` call, with input option
  `USER_ENTERED`;
- the Standard Life scraper's handling of the activity table. Each table row
  becomes a list of strings. A cell with neither text nor accessible name is
  skipped. Any other cell contributes its text, or its accessible name when
  the text is empty. The scraper also returns an all-zero record when any
  step of the scrape raises.

Module `GSheet` (gsheet.dfy) is pure: functions and lemmas. Module
`StandardLife` (standardlife.dfy) builds the table with a method whose two
nested `for` loops mirror the source's loops, proved against the function
`RowData`. Module `Wrappers` (wrappers.dfy) holds the shared `Option` type.

Foreign calls are parameters or results. gspread's `a1_to_rowcol` is the
parameter `toRowCol` of `WriteRange`; `None` stands for the call raising.
The worksheet `update` is the `Update(...)` value that `WriteRange` returns,
and an exception is `Raised(...)`. The browser session of `scrape_data` is
summed up by a `Page` (the three summary strings and the table cells as
`(text, accessible name)` pairs), or by `None` when some driver step raised.

Only the number of rows and the width of the first row are checked
(connectors/gsheet.py:69), so a value count that does not divide evenly into
rows is still sent: five values aimed at a two-row, three-column range are
sent as `[[1,2,3],[4,5]]`
(`FiveValuesIntoTwoByThree`, `ShortFinalRowAccepted`).

Python edge cases that the model keeps:
- a range zero columns wide makes `range()` raise on its zero step (`ZeroStep`);
- a negative width gives an empty comprehension;
- an empty block aimed at zero rows passes the row-count test and then fails
  on `values_2d[0]` (`EmptyIndex`);
- with one row or more and a non-zero width, an empty value list fails the row-count test first,
  and `or` short-circuits, so `values_2d[0]` is never read (`DimensionMismatch`).

## Model

| member | source | states |
|---|---|---|
| `GSheet.Split` | connectors/gsheet.py:58 | `str.split` on one separator yields at least one piece and no piece contains the separator |
| `GSheet.JoinSplit` | connectors/gsheet.py:58 | joining the pieces of a split with the separator gives back the address |
| `GSheet.SplitJoin` | connectors/gsheet.py:58 | splitting a join of separator-free pieces gives back the pieces |
| `GSheet.SplitCount` | connectors/gsheet.py:58 | the number of pieces is the number of separators plus one |
| `GSheet.Corners` | connectors/gsheet.py:58 | unpacking into two corners succeeds exactly when the address holds one `:`; the corners are the text either side of it and hold no `:` |
| `GSheet.CornersAtColon` | connectors/gsheet.py:58 | with the single `:` at index i, the corners are `address[..i]` and `address[i+1..]` |
| `GSheet.FlattenChunks` | connectors/gsheet.py:66 | round trip: concatenating the rows of `values_2d` gives back `values` exactly, in order |
| `GSheet.ChunksShape` | connectors/gsheet.py:66 | no rows exactly for no values; every row but the last has exactly `num_cols` values; the last has 1 to `num_cols`; the first has `min(num_cols, len)` |
| `GSheet.ChunksCountBounds` | connectors/gsheet.py:66 | the row count n is the least with `n * num_cols >= len`: `(n-1)*num_cols < len <= n*num_cols` |
| `GSheet.ChunksCount` | connectors/gsheet.py:66 | the row count is `ceil(len / num_cols)` |
| `GSheet.ChunkAt` | connectors/gsheet.py:66 | row j is the slice `values[j*num_cols : j*num_cols + num_cols]`, clipped at the end, as the comprehension takes it |
| `GSheet.AcceptedBlockShape` | connectors/gsheet.py:66-69 | a block with the range's row count flattens to the values, has full rows except a last of 1 to `num_cols` values |
| `GSheet.CheckAccepts` | connectors/gsheet.py:69-73 | the check passes exactly when `num_cols <= len` and `(num_rows-1)*num_cols < len <= num_rows*num_cols` |
| `GSheet.CheckRejects` | connectors/gsheet.py:69-73 | a block whose row count or first-row width differs from the range fails that closed form |
| `GSheet.WriteBlock` | connectors/gsheet.py:62-76 | the update is reached exactly when the closed form holds, and then sends `values_2d` (full rows, short last row allowed, flattening to the values) with `USER_ENTERED` for the same worksheet and address; a zero width raises on `range()`; an empty block against zero rows raises `IndexError`; every other mismatch raises the dimension `ValueError` |
| `GSheet.WriteRange` | connectors/gsheet.py:51-76 | an address without exactly one `:` fails at unpacking, before any dimension is computed; a corner that does not convert raises the cell-label error and sends nothing; an update that is reached carries the same worksheet and address, `USER_ENTERED`, and a block that flattens to the values |
| `GSheet.WriteRangeDimensions` | connectors/gsheet.py:58-76 | once both corners convert, the range is `end_row - start_row + 1` high and `end_col - start_col + 1` wide; the update is reached exactly when the closed form holds for those numbers; an empty value list against one row or more raises the dimension error |
| `GSheet.ShortFinalRowAccepted` | connectors/gsheet.py:66-76 | only the first row's width is checked: values that leave the last row short are still sent, with a last row of `len - (num_rows-1)*num_cols` values |
| `GSheet.FiveValuesIntoTwoByThree` | connectors/gsheet.py:66-76 | five values into a 2-row, 3-column range are sent as `[[1,2,3],[4,5]]` |
| `StandardLife.SelectCell` | scrapers/standardlife.py:167-171 | a cell with empty text and empty accessible name contributes nothing; non-empty text wins even over a non-empty accessible name; otherwise the accessible name is used |
| `StandardLife.RowData` | scrapers/standardlife.py:164-171 | a row is never longer than its cell list and holds no empty string |
| `StandardLife.RowDataKeepsOrder` | scrapers/standardlife.py:164-171 | entry j of a row comes from the j-th cell that is not dropped; those cells appear in increasing table order; every cell that is not dropped is among them |
| `StandardLife.RowDataAppend` | scrapers/standardlife.py:167-171 | the row of two cell lists put together is the row of the first followed by the row of the second |
| `StandardLife.RowDataEmpty` | scrapers/standardlife.py:164-174 | a row comes out as an empty list exactly when all its cells are dropped |
| `StandardLife.GetTransactionData` | scrapers/standardlife.py:156-177 | exactly one output list per table row, in table order, each equal to `RowData` of that row's cells, rows with every cell dropped included |
| `StandardLife.ScrapeData` | scrapers/standardlife.py:17-70 | when any step raises, all four fields are 0; otherwise the three figures are passed through and the transaction data is the shaped table |

## Left out

- `GoogleSheets.__init__`, `read_cell`, `write_cell`, `read_range`: thin calls into gspread (OAuth, opening the sheet, cell access), whose code is not part of this model.
- The worksheet lookup at connectors/gsheet.py:55 and the `update` call itself are gspread calls; an unknown worksheet name raising is not modelled, and the update is returned as a value rather than performed.
- `a1_to_rowcol` (connectors/gsheet.py:59-60) is not reimplemented; it is the parameter `toRowCol`, and any exception it raises is the single `CellLabelError`.
- The navigation of `scrape_data` and its helpers (login, cookie banner, clicks, waits, `time.sleep`, the XPath lookups of the three summary figures and of the table rows and cells): browser automation against an external site, summed up by `Page` or `None`.
- `logging.error` in the fallback branch of `scrape_data`: logging only.
- The other scrapers (Nutmeg, Shareworks, Hargreaves Lansdown): browser automation with no data shaping beyond plain copies.
- The reconciliation layer in middleware/moverperfect.py: every insert method there is a bare `return`, so there is no behaviour to model.
- main.py (fixed call sequence) and utils/secrets.py (reading a JSON file).
