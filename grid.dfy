/** The coordinate generator `get_grid_coordinates`: the cells of a
    `numRows` by `numCols` block whose top-left cell is
    (`startRow`, `startCol`), in row-major order. A negative count behaves
    like Python's `range` of a negative number: it yields nothing. */
module GridCoordinates {

  /** The number of values `range(count)` yields. */
  function RangeLength(count: int): nat {
    if count <= 0 then 0 else count
  }

  lemma SmallMultiple(d: int, n: int)
    requires n > 0 && -n < d * n < n
    ensures d == 0
  {
  }

  lemma DivModOfRowMajor(i: int, j: int, numCols: int)
    requires 0 <= i && 0 <= j < numCols
    ensures (i * numCols + j) / numCols == i
    ensures (i * numCols + j) % numCols == j
  {
    var k := i * numCols + j;
    var q, m := k / numCols, k % numCols;
    assert q * numCols + m == k;
    assert (q - i) * numCols == j - m;
    SmallMultiple(q - i, numCols);
  }

  /** The generator, collected into a sequence; the k-th coordinate yielded
      lies in row `k / numCols` and column `k % numCols` of the block. */
  method GetGridCoordinates(startRow: int, startCol: int, numRows: int, numCols: int)
    returns (coords: seq<(int, int)>)
    ensures |coords| == RangeLength(numRows) * RangeLength(numCols)
    ensures forall k :: 0 <= k < |coords| ==>
      coords[k] == (startRow + k / numCols, startCol + k % numCols)
  {
    coords := [];
    var i := 0;
    while i < numRows
      invariant 0 <= i <= RangeLength(numRows)
      invariant |coords| == i * RangeLength(numCols)
      invariant forall k :: 0 <= k < |coords| ==>
        coords[k] == (startRow + k / numCols, startCol + k % numCols)
    {
      var j := 0;
      while j < numCols
        invariant 0 <= j <= RangeLength(numCols)
        invariant |coords| == i * RangeLength(numCols) + j
        invariant forall k :: 0 <= k < |coords| ==>
          coords[k] == (startRow + k / numCols, startCol + k % numCols)
      {
        DivModOfRowMajor(i, j, numCols);
        coords := coords + [(startRow + i, startCol + j)];
        j := j + 1;
      }
      i := i + 1;
    }
  }

  lemma RowOfIndexInBlock(k: int, numRows: int, numCols: int)
    requires 0 < numCols && 0 <= k < numRows * numCols
    ensures 0 <= k / numCols < numRows
  {
    var q := k / numCols;
    assert q * numCols + k % numCols == k;
  }

  lemma IndexInBlock(i: int, j: int, numRows: int, numCols: int)
    requires 0 <= i < numRows && 0 <= j < numCols
    ensures 0 <= i * numCols + j < numRows * numCols
  {
    assert i * numCols + j < (i + 1) * numCols;
    assert (i + 1) * numCols <= numRows * numCols;
  }

  /** Every yielded coordinate lies in the block. */
  lemma InsideBlock(coords: seq<(int, int)>, startRow: int, startCol: int, numRows: int, numCols: int)
    requires |coords| == RangeLength(numRows) * RangeLength(numCols)
    requires forall k :: 0 <= k < |coords| ==>
      coords[k] == (startRow + k / numCols, startCol + k % numCols)
    ensures forall k :: 0 <= k < |coords| ==>
      startRow <= coords[k].0 < startRow + numRows && startCol <= coords[k].1 < startCol + numCols
  {
    forall k | 0 <= k < |coords|
      ensures startRow <= coords[k].0 < startRow + numRows && startCol <= coords[k].1 < startCol + numCols
    {
      RowOfIndexInBlock(k, numRows, numCols);
    }
  }

  /** Every coordinate of the block is yielded, the one in block row `i`
      and block column `j` at position `i * numCols + j`. */
  lemma CoversBlock(coords: seq<(int, int)>, startRow: int, startCol: int, numRows: int, numCols: int)
    requires |coords| == RangeLength(numRows) * RangeLength(numCols)
    requires forall k :: 0 <= k < |coords| ==>
      coords[k] == (startRow + k / numCols, startCol + k % numCols)
    ensures forall r, c :: startRow <= r < startRow + numRows && startCol <= c < startCol + numCols ==>
      (r, c) in coords
  {
    forall r, c | startRow <= r < startRow + numRows && startCol <= c < startCol + numCols
      ensures (r, c) in coords
    {
      var i, j := r - startRow, c - startCol;
      IndexInBlock(i, j, numRows, numCols);
      DivModOfRowMajor(i, j, numCols);
      assert coords[i * numCols + j] == (r, c);
    }
  }
}
