/**
 * The data shaping of the pension scraper (class StandardLife): how the
 * rows of the activity table become lists of strings, and the record that
 * scrape_data returns, including the zeroed record it falls back to when
 * any step of the scrape raises.
 *
 * The browser is not part of this model: a table cell is the pair of
 * strings Selenium reports for it, and the navigation is summed up by the
 * page it reaches, or by None when some driver step raised.
 */
module StandardLife {
  import opened Wrappers

  /** A <td> element as Selenium reports it: its text and its accessible name. */
  datatype Cell = Cell(text: string, accessibleName: string)

  /** A cell that is skipped: no text and no accessible name. */
  predicate Dropped(c: Cell)
  {
    c.text == "" && c.accessibleName == ""
  }

  /** What one cell contributes to its row: its text, else its accessible name, else nothing. */
  function SelectCell(c: Cell): (r: Option<string>)
    ensures r.None? <==> Dropped(c)
    ensures c.text != "" ==> r == Some(c.text)
    ensures c.text == "" && c.accessibleName != "" ==> r == Some(c.accessibleName)
  {
    if Dropped(c) then None
    else Some(if c.text == "" then c.accessibleName else c.text)
  }

  /** The list of strings one table row yields, cell by cell in table order. */
  function RowData(cells: seq<Cell>): (row: seq<string>)
    ensures |row| <= |cells|
    ensures forall k :: 0 <= k < |row| ==> row[k] != ""
  {
    if cells == [] then []
    else
      var init := RowData(cells[..|cells| - 1]);
      match SelectCell(cells[|cells| - 1])
      case None => init
      case Some(v) => init + [v]
  }

  /** The positions of the cells that are not dropped, in increasing order. */
  function Survivors(cells: seq<Cell>): seq<nat>
  {
    if cells == [] then []
    else
      var init := Survivors(cells[..|cells| - 1]);
      if Dropped(cells[|cells| - 1]) then init else init + [|cells| - 1]
  }

  /**
   * A row keeps exactly the cells that are not dropped, in their table
   * order: entry j of the row comes from the j-th surviving cell.
   */
  lemma {:induction false} RowDataKeepsOrder(cells: seq<Cell>)
    ensures var idx, row := Survivors(cells), RowData(cells);
      && |idx| == |row|
      && (forall j :: 0 <= j < |idx| ==> idx[j] < |cells| && SelectCell(cells[idx[j]]) == Some(row[j]))
      && (forall j, l :: 0 <= j < l < |idx| ==> idx[j] < idx[l])
      && (forall i :: 0 <= i < |cells| && !Dropped(cells[i]) ==> i in idx)
  {
    if cells != [] {
      var init := cells[..|cells| - 1];
      RowDataKeepsOrder(init);
      assert forall i :: 0 <= i < |init| ==> init[i] == cells[i];
    }
  }

  /** Rows are built cell by cell: the row of a + b is the row of a followed by that of b. */
  lemma {:induction false} RowDataAppend(a: seq<Cell>, b: seq<Cell>)
    ensures RowData(a + b) == RowData(a) + RowData(b)
    decreases |b|
  {
    if b == [] {
      assert a + b == a;
    } else {
      var b' := b[..|b| - 1];
      RowDataAppend(a, b');
      assert (a + b)[..|a + b| - 1] == a + b';
    }
  }

  /** A row comes out empty exactly when every one of its cells is dropped. */
  lemma {:induction false} RowDataEmpty(cells: seq<Cell>)
    ensures RowData(cells) == [] <==> forall i :: 0 <= i < |cells| ==> Dropped(cells[i])
  {
    if cells != [] {
      var init := cells[..|cells| - 1];
      RowDataEmpty(init);
      assert forall i :: 0 <= i < |init| ==> init[i] == cells[i];
    }
  }

  /**
   * __get_transaction_data, from the located rows on: one list per table
   * row, in table order, each built by skipping the dropped cells.
   */
  method GetTransactionData(rows: seq<seq<Cell>>) returns (transactionData: seq<seq<string>>)
    ensures |transactionData| == |rows|
    ensures forall r :: 0 <= r < |rows| ==> transactionData[r] == RowData(rows[r])
  {
    transactionData := [];
    for r := 0 to |rows|
      invariant |transactionData| == r
      invariant forall q :: 0 <= q < r ==> transactionData[q] == RowData(rows[q])
    {
      var cells := rows[r];
      var rowData: seq<string> := [];
      for c := 0 to |cells|
        invariant rowData == RowData(cells[..c])
      {
        var cell := cells[c];
        assert cells[..c + 1][..c] == cells[..c];
        if cell.text == "" && cell.accessibleName == "" {
          continue;
        }
        rowData := rowData + [if cell.text == "" then cell.accessibleName else cell.text];
      }
      assert cells[..|cells|] == cells;
      transactionData := transactionData + [rowData];
    }
  }

  /** What the browser reaches: the three summary figures and the activity table's cells. */
  datatype Page = Page(totalPayments: string, investmentGrowth: string, totalValue: string, rows: seq<seq<Cell>>)

  /** A field of the returned dictionary: the scraped value, or the integer 0 of the fallback. */
  datatype Field<T> = Value(value: T) | Zero

  /** The dictionary scrape_data returns. */
  datatype Record = Record(
    transactionData: Field<seq<seq<string>>>,
    totalPayments: Field<string>,
    investmentGrowth: Field<string>,
    totalValue: Field<string>)

  /**
   * scrape_data: `browse` is the outcome of the navigation (None when any
   * driver step raised). On failure every field is 0; otherwise the three
   * figures are passed through and the table is shaped row by row.
   */
  method ScrapeData(browse: Option<Page>) returns (record: Record)
    ensures browse.None? ==> record == Record(Zero, Zero, Zero, Zero)
    ensures browse.Some? ==>
      && record.totalPayments == Value(browse.value.totalPayments)
      && record.investmentGrowth == Value(browse.value.investmentGrowth)
      && record.totalValue == Value(browse.value.totalValue)
      && record.transactionData.Value?
      && |record.transactionData.value| == |browse.value.rows|
      && forall r :: 0 <= r < |browse.value.rows| ==>
           record.transactionData.value[r] == RowData(browse.value.rows[r])
  {
    if browse.None? {
      return Record(Zero, Zero, Zero, Zero);
    }
    var page := browse.value;
    var transactionData := GetTransactionData(page.rows);
    record := Record(Value(transactionData), Value(page.totalPayments), Value(page.investmentGrowth), Value(page.totalValue));
  }
}
