/** Game settings, tile values and the geometry of the flat board of
    Columns * Rows cells (cell i lies at column i % Columns, row i / Columns). */
module Board {

  // Game settings
  const NumMines: nat := 10
  const Columns: int := 10
  const Rows: int := 10
  const TileSize: int := 30
  const Cells: int := Columns * Rows

  // Tile values; 1..8 are the hint numbers
  const EmptyId: int := 0
  const MineId: int := 9
  const CoverId: int := 10
  const FlagId: int := 11
  const QuestionMarkId: int := 12
  const ExplosionId: int := 13

  function Col(i: int): int { i % Columns }
  function Row(i: int): int { i / Columns }

  /** The positions relative to one cell of its eight neighbours. */
  const Offsets: seq<int> := [-Columns - 1, -Columns, -Columns + 1, -1, 1, Columns - 1, Columns, Columns + 1]

  /** Whether index2 lies within one tile of index1, measured in screen
      pixels (columns and rows scaled by TileSize). */
  function NextToField(index1: int, index2: int): (r: bool)
    ensures r <==> -1 <= Col(index2) - Col(index1) <= 1 && -1 <= Row(index2) - Row(index1) <= 1
  {
    var x1 := Col(index1) * TileSize;
    var y1 := Row(index1) * TileSize;
    var x2 := Col(index2) * TileSize;
    var y2 := Row(index2) * TileSize;
    x1 - TileSize <= x2 < x1 + TileSize + 1 && y1 - TileSize <= y2 < y1 + TileSize + 1
  }

  lemma NextToFieldSymmetric(a: int, b: int)
    ensures NextToField(a, b) == NextToField(b, a)
    ensures NextToField(a, a)
  {
  }

  /** Two distinct cells of the board whose columns and rows differ by at most one. */
  predicate Adjacent(i: int, j: int) {
    0 <= i < Cells && 0 <= j < Cells && i != j && NextToField(i, j)
  }

  lemma AdjacentSymmetric(i: int, j: int)
    ensures Adjacent(i, j) == Adjacent(j, i)
  {
    NextToFieldSymmetric(i, j);
  }

  /** The offset list joined with the range test and NextToField admits
      exactly the geometric neighbours of a cell. */
  lemma NeighbourOffsets(i: int, j: int)
    requires 0 <= i < Cells
    ensures Adjacent(i, j) <==> (j - i in Offsets && 0 <= j < Cells && NextToField(i, j))
  {
    if Adjacent(i, j) {
      assert i == Columns * Row(i) + Col(i);
      assert j == Columns * Row(j) + Col(j);
      var dc, dr := Col(j) - Col(i), Row(j) - Row(i);
      assert j - i == Columns * dr + dc;
    }
  }

  /** A neighbour offset is not the offset of any earlier position in the list. */
  lemma OffsetsDistinct(k: int)
    requires 0 <= k < |Offsets|
    ensures Offsets[k] !in Offsets[..k]
    ensures Offsets[k] != 0
  {
    assert forall p :: 0 <= p < k ==> Offsets[p] < Offsets[k];
  }

  /** The offsets that would wrap round a row are rejected: from the last
      column the three that step right, from the first column the three
      that step left. */
  lemma NoRowWrap(i: int)
    requires 0 <= i < Cells
    ensures Col(i) == Columns - 1 ==>
      !NextToField(i, i - Columns + 1) && !NextToField(i, i + 1) && !NextToField(i, i + Columns + 1)
    ensures Col(i) == 0 ==>
      !NextToField(i, i - Columns - 1) && !NextToField(i, i - 1) && !NextToField(i, i + Columns - 1)
  {
  }
}
