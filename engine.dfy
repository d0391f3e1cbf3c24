/** The game state and the operations that change it: moves, collision test, lock and row clear. */
module Engine {
  import opened Tetrominoes
  import opened Board
  import opened RowClear

  /** The running game: the occupancy grid, the falling block, the row counter and the game-over flag. */
  class Game {
    /** Columns and rows of the grid. */
    const W: int
    const H: int
    var grid: Grid
    var current: Block
    var score: nat
    var gameOver: bool

    /**
     * The grid has H rows of W cells, every catalog piece fits its width and height, the falling block
     * carries its kind's matrix and lies within the columns and above the floor, and the game-over flag
     * is down (nothing ever raises it).
     */
    ghost predicate Valid()
      reads this
    {
      && MaxWidth <= W && MaxHeight <= H
      && IsGrid(grid, W, H)
      && current.shape == Rotations(current.kind)[0]
      && InBounds(current, W, H)
      && !gameOver
    }

    /** A new game: a spawned block, an empty grid, a zero counter. */
    constructor (w: int, h: int, typeIndex: nat, rotIndex: nat)
      requires MaxWidth <= w && MaxHeight <= h
      requires typeIndex < |Keys|
      requires rotIndex < |Rotations(Keys[typeIndex])|
      ensures Valid()
      ensures W == w && H == h
      ensures current == CreateBlock(w, typeIndex, rotIndex)
      ensures grid == Empties(h, w)
      ensures score == 0
    {
      W, H := w, h;
      current := CreateBlock(w, typeIndex, rotIndex);
      grid := Empties(h, w);
      score := 0;
      gameOver := false;
      new;
      SpawnInBounds(w, h, typeIndex, rotIndex);
    }

    /** Whether the falling block, where it stands now, collides with the walls, the floor or the locked cells. */
    method IsCollision() returns (hit: bool)
      requires IsGrid(grid, W, H)
      ensures hit == Collides(grid, W, H, current)
    {
      var shape, x, y := current.shape, current.x, current.y;
      var i := 0;
      while i < |shape|
        invariant 0 <= i <= |shape|
        invariant forall i', j' :: Occupied(shape, i', j') && i' < i ==> !CellBlocked(grid, W, H, x + j', y + i')
      {
        var j := 0;
        while j < |shape[i]|
          invariant 0 <= j <= |shape[i]|
          invariant forall i', j' :: Occupied(shape, i', j') && i' < i ==> !CellBlocked(grid, W, H, x + j', y + i')
          invariant forall j' :: Occupied(shape, i, j') && j' < j ==> !CellBlocked(grid, W, H, x + j', y + i)
        {
          if shape[i][j] != 0 {
            var blockX := x + j;
            var blockY := y + i;
            if blockX < 0 || blockX >= W || blockY >= H || (blockY >= 0 && grid[blockY][blockX] != Empty) {
              assert Occupied(shape, i, j) && CellBlocked(grid, W, H, x + j, y + i);
              return true;
            }
          }
          j := j + 1;
        }
        i := i + 1;
      }
      return false;
    }

    /** Shift the block one column left; undo the shift if it collides there. */
    method MoveLeft()
      requires Valid()
      modifies this
      ensures Valid()
      ensures grid == old(grid) && score == old(score) && gameOver == old(gameOver)
      ensures var moved := old(current).(x := old(current).x - 1);
        current == if Collides(grid, W, H, moved) then old(current) else moved
      ensures current.kind == old(current).kind && current.shape == old(current).shape && current.y == old(current).y
      ensures !Collides(grid, W, H, old(current)) ==> !Collides(grid, W, H, current)
    {
      current := current.(x := current.x - 1);
      var hit := IsCollision();
      if hit {
        current := current.(x := current.x + 1);
      } else {
        NoCollisionInBounds(grid, W, H, current);
      }
    }

    /** Shift the block one column right; undo the shift if it collides there. */
    method MoveRight()
      requires Valid()
      modifies this
      ensures Valid()
      ensures grid == old(grid) && score == old(score) && gameOver == old(gameOver)
      ensures var moved := old(current).(x := old(current).x + 1);
        current == if Collides(grid, W, H, moved) then old(current) else moved
      ensures current.kind == old(current).kind && current.shape == old(current).shape && current.y == old(current).y
      ensures !Collides(grid, W, H, old(current)) ==> !Collides(grid, W, H, current)
    {
      current := current.(x := current.x + 1);
      var hit := IsCollision();
      if hit {
        current := current.(x := current.x - 1);
      } else {
        NoCollisionInBounds(grid, W, H, current);
      }
    }

    /**
     * Drop the block one row. If it collides there it goes back up, is locked into the grid where it
     * stood, a new block is spawned from the two draws typeIndex and rotIndex (without a collision test),
     * and full rows are cleared. A timer tick is this same call.
     */
    method MoveDown(typeIndex: nat, rotIndex: nat)
      requires Valid()
      requires typeIndex < |Keys|
      requires rotIndex < |Rotations(Keys[typeIndex])|
      modifies this
      ensures Valid()
      ensures gameOver == old(gameOver)
      ensures var moved := old(current).(y := old(current).y + 1);
        if !Collides(old(grid), W, H, moved) then
          current == moved && grid == old(grid) && score == old(score)
        else
          var merged := Merged(old(grid), old(current));
          && grid == Cleared(merged, W)
          && score == old(score) + RemovedCount(merged)
          && current == CreateBlock(W, typeIndex, rotIndex)
    {
      current := current.(y := current.y + 1);
      var hit := IsCollision();
      if hit {
        current := current.(y := current.y - 1);
        MergeBlock();
        current := CreateBlock(W, typeIndex, rotIndex);
        SpawnInBounds(W, H, typeIndex, rotIndex);
        RemoveFullRows();
      } else {
        NoCollisionInBounds(grid, W, H, current);
      }
    }

    /** Lock the block: write its kind on every visible cell it covers. */
    method MergeBlock()
      requires IsGrid(grid, W, H) && InBounds(current, W, H)
      modifies this`grid
      ensures grid == Merged(old(grid), current)
      ensures IsGrid(grid, W, H)
    {
      var shape, x, y, kind := current.shape, current.x, current.y, current.kind;
      ghost var before := grid;
      MergedCells(before, W, H, current);
      var i := 0;
      while i < |shape|
        invariant 0 <= i <= |shape|
        invariant IsGrid(grid, W, H)
        invariant forall r, c :: 0 <= r < H && 0 <= c < W ==>
          grid[r][c] == if Covers(current, r, c) && r - y < i then Filled(kind) else before[r][c]
      {
        var j := 0;
        while j < |shape[i]|
          invariant 0 <= j <= |shape[i]|
          invariant IsGrid(grid, W, H)
          invariant forall r, c :: 0 <= r < H && 0 <= c < W ==>
            grid[r][c] == if Covers(current, r, c) && (r - y < i || (r - y == i && c - x < j)) then Filled(kind) else before[r][c]
        {
          if shape[i][j] != 0 {
            var blockX := x + j;
            var blockY := y + i;
            if blockY >= 0 {
              assert Occupied(shape, i, j);
              grid := grid[blockY := grid[blockY][blockX := Filled(kind)]];
            }
          }
          j := j + 1;
        }
        i := i + 1;
      }
      GridsEqual(grid, Merged(before, current), W, H);
    }

    /**
     * Scan the rows from the bottom up; a full row is cut out, an empty row is put on top, and the
     * counter goes up by one. The index moves up after a removal too.
     */
    method RemoveFullRows()
      requires IsGrid(grid, W, H) && 0 < W
      modifies this`grid, this`score
      ensures grid == Cleared(old(grid), W)
      ensures score == old(score) + RemovedCount(old(grid))
      ensures IsGrid(grid, W, H)
    {
      ghost var orig, target := grid, Survivors(grid);
      ghost var k, m, settled := ScanStart(orig, W);
      var i := H - 1;
      while i >= 0
        invariant -1 <= i < H
        invariant ScanState(grid, orig, W, i, k, m, settled, target)
        invariant score == old(score) + k
      {
        ghost var before := grid;
        if Full(grid[i]) {
          grid := grid[..i] + grid[i + 1..];
          grid := [EmptyRow(W)] + grid;
          score := score + 1;
          m, settled := ScanRemove(before, grid, orig, W, i, k, m, settled, target);
          k := k + 1;
        } else {
          m, settled := ScanKeep(grid, orig, W, i, k, m, settled, target);
        }
        i := i - 1;
      }
      ScanDone(grid, orig, W, k, m, settled, target);
      ClearedShape(orig, W, H);
    }
  }

  /**
   * The bookkeeping of the row clear while the index stands at i: on top are the k empty rows put in so
   * far (one per removal), then the first m original rows, not yet looked at, then the rows already
   * passed over. The survivors of the whole grid are the survivors of those m rows followed by the
   * rows passed over. Once the m original rows are used up, the index is among the empty rows.
   */
  ghost predicate ScanState(g: Grid, orig: Grid, w: nat, i: int, k: nat, m: nat, settled: seq<Row>, target: seq<Row>)
  {
    && m <= |orig|
    && |g| == |orig| == k + m + |settled|
    && (m == i + 1 - k || (m == 0 && i < k))
    && g == Empties(k, w) + orig[..m] + settled
    && target == Survivors(orig[..m]) + settled
  }

  /** Before the scan nothing is put in and nothing passed over. */
  lemma ScanStart(orig: Grid, w: nat) returns (k: nat, m: nat, settled: seq<Row>)
    ensures k == 0
    ensures ScanState(orig, orig, w, |orig| - 1, k, m, settled, Survivors(orig))
  {
    k, m, settled := 0, |orig|, [];
    assert orig[..|orig|] == orig;
  }

  /** A full row at index i is cut out and an empty row goes on top. */
  lemma ScanRemove(g: Grid, g': Grid, orig: Grid, w: nat, i: int, k: nat, m: nat, settled: seq<Row>, target: seq<Row>)
    returns (m': nat, settled': seq<Row>)
    requires 0 < w && 0 <= i
    requires ScanState(g, orig, w, i, k, m, settled, target)
    requires Full(g[i])
    requires g' == [EmptyRow(w)] + (g[..i] + g[i + 1..])
    ensures ScanState(g', orig, w, i - 1, k + 1, m', settled', target)
  {
    ExaminedRow(orig, w, k, m, settled, i);
    RemoveStep(orig, w, k, m, settled, target);
    m' := if m >= 2 then m - 2 else 0;
    settled' := if m >= 2 then [orig[m - 2]] + settled else settled;
  }

  /** A row at index i that is not full is passed over. */
  lemma ScanKeep(g: Grid, orig: Grid, w: nat, i: int, k: nat, m: nat, settled: seq<Row>, target: seq<Row>)
    returns (m': nat, settled': seq<Row>)
    requires 0 < w && 0 <= i
    requires ScanState(g, orig, w, i, k, m, settled, target)
    requires !Full(g[i])
    ensures ScanState(g, orig, w, i - 1, k, m', settled', target)
  {
    ExaminedRow(orig, w, k, m, settled, i);
    if m > 0 {
      KeepStep(orig, w, k, m, settled, target);
      m', settled' := m - 1, [orig[m - 1]] + settled;
    } else {
      m', settled' := m, settled;
    }
  }

  /** When the index has passed the top row, the grid is the cleared grid and k rows were removed. */
  lemma ScanDone(g: Grid, orig: Grid, w: nat, k: nat, m: nat, settled: seq<Row>, target: seq<Row>)
    requires ScanState(g, orig, w, -1, k, m, settled, target)
    requires target == Survivors(orig)
    ensures g == Cleared(orig, w)
    ensures k == RemovedCount(orig)
  {
    assert m == 0 && orig[..0] == [];
  }

  /**
   * The row the scan looks at: while the original rows above the settled part are not used up it is the
   * lowest of them, afterwards it is one of the empty rows on top.
   */
  lemma ExaminedRow(orig: Grid, w: nat, k: nat, m: nat, settled: seq<Row>, i: int)
    requires 0 < w && m <= |orig|
    requires 0 <= i < k + m + |settled|
    requires m == i + 1 - k || (m == 0 && i < k)
    ensures var g := Empties(k, w) + orig[..m] + settled;
      if m == 0 then g[i] == EmptyRow(w) && !Full(g[i]) else g[i] == orig[m - 1]
  {
    var g := Empties(k, w) + orig[..m] + settled;
    if m == 0 {
      assert g[i] == Empties(k, w)[i];
      assert g[i][0] == Empty;
    } else {
      assert g[i] == orig[..m][m - 1];
    }
  }

  /** Cutting out a full original row and putting an empty row on top, in terms of the scan's bookkeeping. */
  lemma RemoveStep(orig: Grid, w: nat, k: nat, m: nat, settled: seq<Row>, target: seq<Row>)
    requires 1 <= m <= |orig|
    requires Full(orig[m - 1])
    requires target == Survivors(orig[..m]) + settled
    ensures var g := Empties(k, w) + orig[..m] + settled;
      var i := k + m - 1;
      var m' := if m >= 2 then m - 2 else 0;
      var s' := if m >= 2 then [orig[m - 2]] + settled else settled;
      && [EmptyRow(w)] + (g[..i] + g[i + 1..]) == Empties(k + 1, w) + orig[..m'] + s'
      && target == Survivors(orig[..m']) + s'
  {
    var g := Empties(k, w) + orig[..m] + settled;
    var i := k + m - 1;
    assert g[..i] == Empties(k, w) + orig[..m - 1];
    assert g[i + 1..] == settled;
    EmptiesCons(k, w);
    SurvivorsLast(orig[..m]);
    if m >= 2 {
      assert orig[..m][..m - 2] == orig[..m - 2];
      assert orig[..m - 1] == orig[..m - 2] + [orig[m - 2]];
    }
  }

  /** Passing over a row that is not full, in terms of the scan's bookkeeping. */
  lemma KeepStep(orig: Grid, w: nat, k: nat, m: nat, settled: seq<Row>, target: seq<Row>)
    requires 1 <= m <= |orig|
    requires !Full(orig[m - 1])
    requires target == Survivors(orig[..m]) + settled
    ensures Empties(k, w) + orig[..m] + settled == Empties(k, w) + orig[..m - 1] + ([orig[m - 1]] + settled)
    ensures target == Survivors(orig[..m - 1]) + ([orig[m - 1]] + settled)
  {
    SurvivorsLast(orig[..m]);
    assert orig[..m][..m - 1] == orig[..m - 1];
    assert orig[..m] == orig[..m - 1] + [orig[m - 1]];
  }

  /** An empty row on top of k empty rows is k + 1 empty rows. */
  lemma EmptiesCons(k: nat, w: nat)
    ensures [EmptyRow(w)] + Empties(k, w) == Empties(k + 1, w)
  {
  }
}
