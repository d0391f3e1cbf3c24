/** Grid cells, the falling block, the spawner, the collision predicate and the effect of a lock. */
module Board {
  import opened Tetrominoes

  /** A grid cell: empty (the number 0 in the game) or the kind of the piece locked there. */
  datatype Cell = Empty | Filled(kind: Kind)

  type Row = seq<Cell>

  /** Rows listed from the top (index 0) to the bottom. */
  type Grid = seq<Row>

  /** The grid has h rows of w cells each. */
  predicate IsGrid(g: Grid, w: int, h: int)
  {
    |g| == h && forall r :: 0 <= r < |g| ==> |g[r]| == w
  }

  function EmptyRow(w: nat): (row: Row)
    ensures |row| == w
    ensures forall c :: 0 <= c < w ==> row[c] == Empty
  {
    seq(w, _ => Empty)
  }

  /** k empty rows of width w. */
  function Empties(k: nat, w: nat): (g: Grid)
    ensures IsGrid(g, w, k)
    ensures forall r :: 0 <= r < k ==> g[r] == EmptyRow(w)
  {
    seq(k, _ => EmptyRow(w))
  }

  /** Every cell of the row is occupied: no cell of it is empty. */
  predicate Full(row: Row)
  {
    Empty !in row
  }

  /** The falling block: its kind, its occupancy matrix and the grid position of the matrix's top-left entry. */
  datatype Block = Block(kind: Kind, shape: Shape, x: int, y: int)

  /**
   * The spawner. The two random draws of the game are the parameters: typeIndex picks the
   * kind from the key list, rotIndex picks a variant from that kind's list (which has one entry).
   * The block starts on row 0, at column floor(w/2) - floor(width/2); the grid is not consulted.
   */
  function CreateBlock(w: int, typeIndex: nat, rotIndex: nat): (b: Block)
    requires typeIndex < |Keys|
    requires rotIndex < |Rotations(Keys[typeIndex])|
    ensures b.kind == Keys[typeIndex] && b.kind in Keys
    ensures b.shape == Rotations(b.kind)[0] && WellFormed(b.shape)
    ensures b.y == 0
  {
    var kind := Keys[typeIndex];
    var shape := Rotations(kind)[rotIndex];
    Block(kind, shape, w / 2 - |shape[0]| / 2, 0)
  }

  /**
   * A square of a block at (col, row) is blocked: outside the columns [0, w), at or below row h,
   * or on an occupied cell of a visible row. Rows above the grid are never blocked by contents.
   */
  predicate CellBlocked(g: Grid, w: int, h: int, col: int, row: int)
    requires IsGrid(g, w, h)
  {
    col < 0 || col >= w || row >= h || (row >= 0 && g[row][col] != Empty)
  }

  /** Some set entry of the block's matrix lands on a blocked square. */
  ghost predicate Collides(g: Grid, w: int, h: int, b: Block)
    requires IsGrid(g, w, h)
  {
    exists i, j :: Occupied(b.shape, i, j) && CellBlocked(g, w, h, b.x + j, b.y + i)
  }

  /** Every square of the block lies within the columns [0, w) and above row h; it may stick out at the top. */
  ghost predicate InBounds(b: Block, w: int, h: int)
  {
    forall i, j :: Occupied(b.shape, i, j) ==> 0 <= b.x + j < w && b.y + i < h
  }

  /** The block has a square on grid cell (r, c). */
  predicate Covers(b: Block, r: int, c: int)
  {
    Occupied(b.shape, r - b.y, c - b.x)
  }

  /** The grid after the block is locked: every visible cell the block covers holds its kind. */
  function Merged(g: Grid, b: Block): (m: Grid)
    ensures |m| == |g|
    ensures forall r :: 0 <= r < |g| ==> |m[r]| == |g[r]|
  {
    seq(|g|, r requires 0 <= r < |g| =>
      seq(|g[r]|, c requires 0 <= c < |g[r]| => if Covers(b, r, c) then Filled(b.kind) else g[r][c]))
  }

  /** Two grids of the same dimensions that agree on every cell are equal. */
  lemma GridsEqual(a: Grid, b: Grid, w: int, h: int)
    requires IsGrid(a, w, h) && IsGrid(b, w, h)
    requires forall r, c :: 0 <= r < h && 0 <= c < w ==> a[r][c] == b[r][c]
    ensures a == b
  {
    forall r | 0 <= r < h
      ensures a[r] == b[r]
    {
      assert |a[r]| == |b[r]| == w;
    }
  }

  /** A block that does not collide lies within the grid's columns and above its floor. */
  lemma NoCollisionInBounds(g: Grid, w: int, h: int, b: Block)
    requires IsGrid(g, w, h)
    requires !Collides(g, w, h, b)
    ensures InBounds(b, w, h)
  {
    forall i, j | Occupied(b.shape, i, j)
      ensures 0 <= b.x + j < w && b.y + i < h
    {
      assert !CellBlocked(g, w, h, b.x + j, b.y + i);
    }
  }

  /** Squares above the grid never collide with its contents: a block entirely above row 0, within the columns, fits on any grid. */
  lemma AboveGridNeverCollides(g: Grid, w: int, h: int, b: Block)
    requires IsGrid(g, w, h) && 0 <= h
    requires forall i, j :: Occupied(b.shape, i, j) ==> 0 <= b.x + j < w && b.y + i < 0
    ensures !Collides(g, w, h, b)
  {
  }

  /**
   * The spawn column is floor(w/2) - floor(width/2). That is within one column of
   * floor((w - width)/2), but not always equal to it (an odd width on an even grid is off by one).
   */
  lemma SpawnColumn(w: int, typeIndex: nat, rotIndex: nat)
    requires typeIndex < |Keys|
    requires rotIndex < |Rotations(Keys[typeIndex])|
    ensures var b := CreateBlock(w, typeIndex, rotIndex);
      var width := |b.shape[0]|;
      && b.x == w / 2 - width / 2
      && (w - width) / 2 <= b.x <= (w - width) / 2 + 1
  {
  }

  /** On the game's ten-column grid a T piece spawns at column 4, not at floor((10 - 3)/2) = 3. */
  lemma SpawnColumnNotHalfTheSlack()
    ensures CreateBlock(10, 5, 0).kind == T
    ensures CreateBlock(10, 5, 0).x == 4 != (10 - 3) / 2
  {
  }

  /** On a grid at least as wide and tall as every catalog piece, a spawned block is in bounds. */
  lemma SpawnInBounds(w: int, h: int, typeIndex: nat, rotIndex: nat)
    requires MaxWidth <= w && MaxHeight <= h
    requires typeIndex < |Keys|
    requires rotIndex < |Rotations(Keys[typeIndex])|
    ensures InBounds(CreateBlock(w, typeIndex, rotIndex), w, h)
  {
    var b := CreateBlock(w, typeIndex, rotIndex);
    var width := |b.shape[0]|;
    assert 0 <= b.x && b.x + width <= w;
    forall i, j | Occupied(b.shape, i, j)
      ensures 0 <= b.x + j < w && b.y + i < h
    {
      assert |b.shape[i]| == width;
    }
  }

  /** On an empty grid a freshly spawned block never collides. */
  lemma SpawnFitsEmptyGrid(w: int, h: int, typeIndex: nat, rotIndex: nat)
    requires MaxWidth <= w && MaxHeight <= h
    requires typeIndex < |Keys|
    requires rotIndex < |Rotations(Keys[typeIndex])|
    ensures !Collides(Empties(h, w), w, h, CreateBlock(w, typeIndex, rotIndex))
  {
    SpawnInBounds(w, h, typeIndex, rotIndex);
  }

  /**
   * A spawned block collides as soon as the cells of the spawn area are occupied: the first
   * MaxHeight rows, in the three columns around the middle of the grid. Those rows need not be
   * full. The game spawns without looking, so such a block becomes the falling block anyway.
   */
  lemma SpawnCollidesOnOccupiedSpawnArea(g: Grid, w: int, h: int, typeIndex: nat, rotIndex: nat)
    requires MaxWidth <= w && MaxHeight <= h && IsGrid(g, w, h)
    requires forall r, c :: 0 <= r < MaxHeight && w / 2 - 1 <= c <= w / 2 + 1 ==> g[r][c] != Empty
    requires typeIndex < |Keys|
    requires rotIndex < |Rotations(Keys[typeIndex])|
    ensures Collides(g, w, h, CreateBlock(w, typeIndex, rotIndex))
  {
    var b := CreateBlock(w, typeIndex, rotIndex);
    SpawnInBounds(w, h, typeIndex, rotIndex);
    var i, j :| Occupied(b.shape, i, j);
    var width := |b.shape[0]|;
    assert |b.shape[i]| == width;
    assert w / 2 - 1 <= b.x + j <= w / 2 + 1;
    assert 0 <= b.y + i < MaxHeight;
    assert g[b.y + i][b.x + j] != Empty;
    assert CellBlocked(g, w, h, b.x + j, b.y + i);
  }

  /** Locking writes the block's kind on the visible cells it covers and leaves every other cell as it was. */
  lemma MergedCells(g: Grid, w: int, h: int, b: Block)
    requires IsGrid(g, w, h)
    ensures IsGrid(Merged(g, b), w, h)
    ensures forall r, c :: 0 <= r < h && 0 <= c < w && Covers(b, r, c) ==> Merged(g, b)[r][c] == Filled(b.kind)
    ensures forall r, c :: 0 <= r < h && 0 <= c < w && !Covers(b, r, c) ==> Merged(g, b)[r][c] == g[r][c]
  {
  }

  /** Locking never empties a cell: occupancy only grows. */
  lemma MergeKeepsOccupancy(g: Grid, w: int, h: int, b: Block)
    requires IsGrid(g, w, h)
    ensures forall r, c :: 0 <= r < h && 0 <= c < w && g[r][c] != Empty ==> Merged(g, b)[r][c] != Empty
  {
  }

  /** After a lock the same block at the same place collides, provided one of its squares is on a visible row. */
  lemma MergeThenCollides(g: Grid, w: int, h: int, b: Block)
    requires IsGrid(g, w, h) && InBounds(b, w, h)
    requires exists i, j :: Occupied(b.shape, i, j) && b.y + i >= 0
    ensures Collides(Merged(g, b), w, h, b)
  {
    var m := Merged(g, b);
    var i, j :| Occupied(b.shape, i, j) && b.y + i >= 0;
    var r, c := b.y + i, b.x + j;
    assert Covers(b, r, c);
    assert m[r][c] == Filled(b.kind);
    assert CellBlocked(m, w, h, c, r);
  }
}
