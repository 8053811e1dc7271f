/**
 * The range write of the spreadsheet connector (GoogleSheets.write_range):
 * the range address is split into its two corners, the corners are turned
 * into row and column numbers, the flat list of values is cut into rows as
 * wide as the range, the shape of that block is compared with the range,
 * and only then is the block handed to the worksheet's update call.
 *
 * The spreadsheet library is not part of this model: its corner conversion
 * (a1_to_rowcol) is a parameter, and its update call is the value returned.
 */
module GSheet {
  import opened Wrappers

  /** A cell position as the spreadsheet library reports it. */
  datatype RowCol = RowCol(row: int, col: int)

  /** The exceptions write_range can raise. */
  datatype WriteError =
    | UnpackError        // the address does not split into exactly two corners
    | CellLabelError     // a corner is not a cell label the library accepts
    | ZeroStep           // range() with step 0: the range is zero columns wide
    | DimensionMismatch  // the ValueError raised when the shapes differ
    | EmptyIndex         // values_2d[0] on an empty list (IndexError)

  /** What a call of write_range ends in. */
  datatype WriteOutcome<V> =
    | Update(worksheet: string, rangeAddress: string, block: seq<seq<V>>, inputOption: string)
    | Raised(error: WriteError)

  /** The value input option passed to every update. */
  const UserEntered: string := "USER_ENTERED"

  // ---------------------------------------------------------------------
  // Splitting the address on ':'

  /** Python's s.split(sep) for a one-character separator: the pieces between separators. */
  function Split(s: string, sep: char): (parts: seq<string>)
    ensures |parts| >= 1
    ensures forall i :: 0 <= i < |parts| ==> sep !in parts[i]
    decreases |s|
  {
    if |s| == 0 then [""]
    else
      var rest := Split(s[1..], sep);
      if s[0] == sep then [""] + rest
      else [[s[0]] + rest[0]] + rest[1..]
  }

  /** sep.join(parts) */
  function Join(parts: seq<string>, sep: char): string
    requires |parts| >= 1
  {
    if |parts| == 1 then parts[0] else parts[0] + [sep] + Join(parts[1..], sep)
  }

  /** Joining the pieces of a split gives back the string. */
  lemma {:induction false} JoinSplit(s: string, sep: char)
    ensures Join(Split(s, sep), sep) == s
    decreases |s|
  {
    if |s| > 0 {
      var rest := Split(s[1..], sep);
      JoinSplit(s[1..], sep);
      if s[0] == sep {
        assert ([""] + rest)[1..] == rest;
      } else {
        var parts := [[s[0]] + rest[0]] + rest[1..];
        if |rest| > 1 {
          assert parts[1..] == rest[1..];
          assert Join(rest, sep) == rest[0] + [sep] + Join(rest[1..], sep);
        }
      }
    }
  }

  /** Splitting the join of separator-free pieces gives back the pieces. */
  lemma {:induction false} SplitJoin(parts: seq<string>, sep: char)
    requires |parts| >= 1
    requires forall i :: 0 <= i < |parts| ==> sep !in parts[i]
    ensures Split(Join(parts, sep), sep) == parts
    decreases |parts|, |parts[0]|
  {
    var p := parts[0];
    if |p| > 0 {
      // peel the first character off the first piece
      var parts' := [p[1..]] + parts[1..];
      assert Join(parts, sep) == [p[0]] + Join(parts', sep) by {
        if |parts| > 1 {
          assert parts'[1..] == parts[1..];
        }
      }
      forall i | 0 <= i < |parts'| ensures sep !in parts'[i] {
        if i == 0 { assert forall c :: c in p[1..] ==> c in p; } else { assert parts'[i] == parts[i]; }
      }
      SplitJoin(parts', sep);
      assert p[0] != sep;
      assert [p[0]] + p[1..] == p;
      assert [[p[0]] + parts'[0]] + parts'[1..] == parts;
    } else if |parts| > 1 {
      var s := Join(parts, sep);
      assert s == [sep] + Join(parts[1..], sep);
      assert s[1..] == Join(parts[1..], sep);
      SplitJoin(parts[1..], sep);
      assert [""] + parts[1..] == parts;
    }
  }

  /** A string splits into one piece more than it has separators. */
  lemma {:induction false} SplitCount(s: string, sep: char)
    ensures |Split(s, sep)| == multiset(s)[sep] + 1
    decreases |s|
  {
    if |s| > 0 {
      SplitCount(s[1..], sep);
      assert s == [s[0]] + s[1..];
      assert multiset(s) == multiset([s[0]]) + multiset(s[1..]);
    }
  }

  /** The address split on ':' and unpacked into its two corners: None when the unpacking raises. */
  function Corners(rangeAddress: string): (corners: Option<(string, string)>)
    ensures corners.Some? <==> multiset(rangeAddress)[':'] == 1
    ensures corners.Some? ==> rangeAddress == corners.value.0 + ":" + corners.value.1
    ensures corners.Some? ==> ':' !in corners.value.0 && ':' !in corners.value.1
  {
    SplitCount(rangeAddress, ':');
    JoinSplit(rangeAddress, ':');
    var parts := Split(rangeAddress, ':');
    if |parts| == 2 then
      assert parts[1..] == [parts[1]];
      Some((parts[0], parts[1]))
    else None
  }

  /** With a single ':' at index i, the corners are the text on either side of it. */
  lemma CornersAtColon(rangeAddress: string, i: nat)
    requires i < |rangeAddress| && rangeAddress[i] == ':'
    requires multiset(rangeAddress)[':'] == 1
    ensures Corners(rangeAddress) == Some((rangeAddress[..i], rangeAddress[i + 1..]))
  {
    var c := Corners(rangeAddress).value;
    var a, b := c.0, c.1;
    assert rangeAddress == a + ":" + b;
    assert rangeAddress[|a|] == ':';
    assert a == rangeAddress[..i];
    assert b == rangeAddress[i + 1..];
  }

  // ---------------------------------------------------------------------
  // Cutting the values into rows

  function Min(a: int, b: int): int { if a <= b then a else b }

  /** The concatenation of a list of rows. */
  function Flatten<V>(rows: seq<seq<V>>): seq<V>
  {
    if rows == [] then [] else rows[0] + Flatten(rows[1..])
  }

  /**
   * The rows cut from the values for a positive width k: consecutive
   * slices of k values, taken at every k-th index, the last one possibly shorter.
   */
  function Chunks<V>(values: seq<V>, k: nat): seq<seq<V>>
    requires k > 0
    decreases |values|
  {
    if |values| == 0 then []
    else if |values| <= k then [values]
    else [values[..k]] + Chunks(values[k..], k)
  }

  /** Round trip: the rows put back together are the values, in order. */
  lemma {:induction false} FlattenChunks<V>(values: seq<V>, k: nat)
    requires k > 0
    ensures Flatten(Chunks(values, k)) == values
    decreases |values|
  {
    if |values| == 0 {
    } else if |values| <= k {
      assert Flatten([values]) == values + Flatten([values][1..]);
    } else {
      var rest := Chunks(values[k..], k);
      FlattenChunks(values[k..], k);
      assert ([values[..k]] + rest)[1..] == rest;
      assert values[..k] + values[k..] == values;
    }
  }

  /** Every row but the last is exactly k wide; the last holds 1 to k values. */
  lemma {:induction false} ChunksShape<V>(values: seq<V>, k: nat)
    requires k > 0
    ensures var c := Chunks(values, k);
      && (c == [] <==> values == [])
      && (forall j :: 0 <= j < |c| - 1 ==> |c[j]| == k)
      && (c != [] ==> 1 <= |c[|c| - 1]| <= k)
      && (c != [] ==> |c[0]| == Min(k, |values|))
    decreases |values|
  {
    if |values| > k {
      var rest := Chunks(values[k..], k);
      ChunksShape(values[k..], k);
      var c := [values[..k]] + rest;
      assert forall j :: 1 <= j < |c| ==> c[j] == rest[j - 1];
    }
  }

  /** The number of rows is the least n with n * k >= len(values). */
  lemma {:induction false} ChunksCountBounds<V>(values: seq<V>, k: nat)
    requires k > 0
    ensures var n := |Chunks(values, k)|;
      (n - 1) * k < |values| <= n * k || (n == 0 && values == [])
    decreases |values|
  {
    if |values| > k {
      ChunksCountBounds(values[k..], k);
      var n' := |Chunks(values[k..], k)|;
      assert (n' + 1) * k == n' * k + k;
    }
  }

  /** If n * k <= m < n * k + k, then m / k == n. */
  lemma DivUnique(m: int, k: int, n: int)
    requires k > 0 && n * k <= m < n * k + k
    ensures m / k == n
  {
    var q, r := m / k, m % k;
    assert m == q * k + r && 0 <= r < k;
    if q < n {
      MulMonotone(q + 1, n, k);
    } else if q > n {
      MulMonotone(n + 1, q, k);
    }
  }

  lemma MulMonotone(a: int, b: int, k: int)
    requires a <= b && k >= 0
    ensures a * k <= b * k
  {
  }

  /** The number of rows is ceil(len(values) / k). */
  lemma ChunksCount<V>(values: seq<V>, k: nat)
    requires k > 0
    ensures |Chunks(values, k)| == (|values| + k - 1) / k
  {
    ChunksCountBounds(values, k);
    var n := |Chunks(values, k)|;
    assert (n - 1) * k == n * k - k;
    DivUnique(|values| + k - 1, k, n);
  }

  /** Row j is the slice values[j*k : j*k + k], as the comprehension reads it. */
  lemma {:induction false} ChunkAt<V>(values: seq<V>, k: nat, j: nat)
    requires k > 0 && j < |Chunks(values, k)|
    ensures j * k < |values|
    ensures Chunks(values, k)[j] == values[j * k .. Min(j * k + k, |values|)]
    decreases j
  {
    if j > 0 {
      assert |values| > k;
      var rest := Chunks(values[k..], k);
      assert Chunks(values, k)[j] == rest[j - 1];
      ChunkAt(values[k..], k, j - 1);
      var lo := (j - 1) * k;
      MulSucc(j - 1, k);
      assert lo + k == j * k;
      var hi := Min(lo + k, |values| - k);
      assert values[k..][lo..hi] == values[lo + k .. hi + k];
    }
  }

  lemma MulSucc(a: int, k: int)
    ensures a * k + k == (a + 1) * k
  {
  }

  // ---------------------------------------------------------------------
  // The dimension check and the update

  /** The closed form of the check at line 69: when a block of len values is accepted. */
  predicate Accepts(numRows: int, numCols: int, len: nat)
  {
    numCols > 0 && len >= numCols && (numRows - 1) * numCols < len <= numRows * numCols
  }

  /**
   * From the range's height and width on: build values_2d, check its shape
   * (row count first, then the first row's width, short-circuiting), and
   * send it when both agree.
   */
  function WriteBlock<V>(worksheet: string, rangeAddress: string, values: seq<V>, numRows: int, numCols: int): (out: WriteOutcome<V>)
    ensures out.Update? <==> Accepts(numRows, numCols, |values|)
    ensures out.Update? ==>
      && out.worksheet == worksheet && out.rangeAddress == rangeAddress
      && out.inputOption == UserEntered
      && out.block == Chunks(values, numCols)
      && Flatten(out.block) == values
      && |out.block| == numRows
      && (forall j :: 0 <= j < numRows - 1 ==> |out.block[j]| == numCols)
      && 1 <= |out.block[numRows - 1]| <= numCols
    ensures out == Raised(ZeroStep) <==> numCols == 0
    ensures out == Raised(EmptyIndex) <==> numCols != 0 && numRows == 0 && (numCols < 0 || values == [])
    ensures out.Raised? ==> out.error in {ZeroStep, EmptyIndex, DimensionMismatch}
  {
    if numCols == 0 then Raised(ZeroStep)
    else
      var values2d := if numCols > 0 then Chunks(values, numCols) else [];
      if |values2d| != numRows then
        CheckRejects(values, numRows, numCols);
        Raised(DimensionMismatch)
      else if |values2d| == 0 then Raised(EmptyIndex)
      else if |values2d[0]| != numCols then
        CheckRejects(values, numRows, numCols);
        Raised(DimensionMismatch)
      else
        CheckAccepts(values, numRows, numCols);
        AcceptedBlockShape(values, numRows, numCols);
        Update(worksheet, rangeAddress, values2d, UserEntered)
  }

  /** A rejected shape fails the closed form. */
  lemma CheckRejects<V>(values: seq<V>, numRows: int, numCols: int)
    requires numCols != 0
    requires var c := if numCols > 0 then Chunks(values, numCols) else [];
      |c| != numRows || (c != [] && |c[0]| != numCols)
    ensures !Accepts(numRows, numCols, |values|)
  {
    if numCols > 0 && Accepts(numRows, numCols, |values|) {
      CheckAccepts(values, numRows, numCols);
    }
  }

  /** The shape of a block the check lets through. */
  lemma AcceptedBlockShape<V>(values: seq<V>, numRows: int, numCols: int)
    requires numCols > 0 && |Chunks(values, numCols)| == numRows && numRows > 0
    ensures var c := Chunks(values, numCols);
      && Flatten(c) == values
      && (forall j :: 0 <= j < numRows - 1 ==> |c[j]| == numCols)
      && 1 <= |c[numRows - 1]| <= numCols
  {
    FlattenChunks(values, numCols);
    ChunksShape(values, numCols);
  }

  /** The closed form holds exactly of the shapes the check lets through. */
  lemma CheckAccepts<V>(values: seq<V>, numRows: int, numCols: int)
    requires numCols > 0
    ensures var c := Chunks(values, numCols);
      Accepts(numRows, numCols, |values|) <==> (|c| == numRows && c != [] && |c[0]| == numCols)
  {
    var c := Chunks(values, numCols);
    var n := |values|;
    ChunksShape(values, numCols);
    ChunksCountBounds(values, numCols);
    if Accepts(numRows, numCols, n) {
      var m := |c|;
      assert values != [];
      if m < numRows {
        MulMonotone(m, numRows - 1, numCols);
      } else if m > numRows {
        MulMonotone(numRows, m - 1, numCols);
      }
    }
  }

  /**
   * GoogleSheets.write_range: `toRowCol` stands for the library's
   * a1_to_rowcol (None when it raises); the result is either the update
   * that reaches the worksheet or the exception raised before it.
   */
  function WriteRange<V>(worksheet: string, rangeAddress: string, values: seq<V>, toRowCol: string -> Option<RowCol>): (out: WriteOutcome<V>)
    ensures out == Raised(UnpackError) <==> multiset(rangeAddress)[':'] != 1
    ensures Corners(rangeAddress).Some?
      && (toRowCol(Corners(rangeAddress).value.0).None? || toRowCol(Corners(rangeAddress).value.1).None?)
      ==> out == Raised(CellLabelError)
    ensures out.Update? ==>
      && out.worksheet == worksheet && out.rangeAddress == rangeAddress
      && out.inputOption == UserEntered && Flatten(out.block) == values
  {
    match Corners(rangeAddress)
    case None => Raised(UnpackError)
    case Some((startCell, endCell)) =>
      match toRowCol(startCell)
      case None => Raised(CellLabelError)
      case Some(start) =>
        match toRowCol(endCell)
        case None => Raised(CellLabelError)
        case Some(end) =>
          WriteBlock(worksheet, rangeAddress, values, end.row - start.row + 1, end.col - start.col + 1)
  }

  /**
   * When both corners convert, the range is end.row - start.row + 1 rows
   * high and end.col - start.col + 1 columns wide, and the update is
   * reached exactly when the values fit that shape by the closed form.
   */
  lemma WriteRangeDimensions<V>(worksheet: string, rangeAddress: string, values: seq<V>,
                                toRowCol: string -> Option<RowCol>, start: RowCol, end: RowCol)
    requires Corners(rangeAddress).Some?
    requires toRowCol(Corners(rangeAddress).value.0) == Some(start)
    requires toRowCol(Corners(rangeAddress).value.1) == Some(end)
    ensures var out := WriteRange(worksheet, rangeAddress, values, toRowCol);
      var numRows, numCols := end.row - start.row + 1, end.col - start.col + 1;
      && (out.Update? <==> Accepts(numRows, numCols, |values|))
      && (out.Update? ==> |out.block| == numRows && out.block == Chunks(values, numCols))
      && (values == [] && numRows >= 1 && numCols != 0 ==> out == Raised(DimensionMismatch))
  {
  }

  /**
   * Only the first row's width is checked: any count of values that fills
   * all rows but leaves the last one short by up to numCols - 1 is sent.
   */
  lemma ShortFinalRowAccepted<V>(values: seq<V>, numRows: int, numCols: int)
    requires numRows >= 2 && numCols >= 2
    requires (numRows - 1) * numCols < |values| < numRows * numCols
    ensures var out := WriteBlock("", "", values, numRows, numCols);
      out.Update? && |out.block[numRows - 1]| == |values| - (numRows - 1) * numCols < numCols
  {
    var out := WriteBlock("", "", values, numRows, numCols);
    MulMonotone(1, numRows - 1, numCols);
    assert out.Update?;
    ChunkAt(values, numCols, numRows - 1);
    assert (numRows - 1) * numCols + numCols == numRows * numCols;
  }

  /** Five values aimed at a two-row, three-column range are sent as [[1,2,3],[4,5]]. */
  lemma FiveValuesIntoTwoByThree()
    ensures WriteBlock("Sheet", "A1:C2", [1, 2, 3, 4, 5], 2, 3)
         == Update("Sheet", "A1:C2", [[1, 2, 3], [4, 5]], UserEntered)
  {
    assert [1, 2, 3, 4, 5][..3] == [1, 2, 3];
    assert [1, 2, 3, 4, 5][3..] == [4, 5];
  }
}
