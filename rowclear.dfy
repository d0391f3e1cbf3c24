/**
 * What one pass of the row clear does to the grid, stated on the original rows.
 * The pass looks at rows from the bottom up. A full row is removed; the row directly above it then
 * moves into the index just looked at and is kept without being looked at. Any other row is kept.
 */
module RowClear {
  import opened Board

  /** The rows of `rows` that survive one pass, in their original order. */
  function Survivors(rows: seq<Row>): (kept: seq<Row>)
    ensures |kept| <= |rows|
    decreases |rows|
  {
    var n := |rows|;
    if n == 0 then []
    else if Full(rows[n - 1]) then
      if n == 1 then [] else Survivors(rows[..n - 2]) + [rows[n - 2]]
    else Survivors(rows[..n - 1]) + [rows[n - 1]]
  }

  /** One step of the definition, from the bottom row of a non-empty list. */
  lemma SurvivorsLast(rows: seq<Row>)
    requires |rows| >= 1
    ensures var n := |rows|;
      if !Full(rows[n - 1]) then Survivors(rows) == Survivors(rows[..n - 1]) + [rows[n - 1]]
      else if n == 1 then Survivors(rows) == []
      else Survivors(rows) == Survivors(rows[..n - 2]) + [rows[n - 2]]
  {
  }

  /** How many rows one pass removes. */
  function RemovedCount(g: Grid): (n: nat)
  {
    |g| - |Survivors(g)|
  }

  /** The grid after one pass: one empty row on top per removed row, then the survivors. */
  function Cleared(g: Grid, w: nat): (c: Grid)
  {
    Empties(RemovedCount(g), w) + Survivors(g)
  }

  /**
   * `kept` is the list of rows of `rows` at the strictly increasing indices `idx`; every row whose index
   * is not listed is full; and a listed full row sits directly above an index that is not listed.
   */
  ghost predicate Embedding(rows: seq<Row>, kept: seq<Row>, idx: seq<int>)
  {
    && |idx| == |kept|
    && (forall t :: 0 <= t < |idx| ==> 0 <= idx[t] < |rows| && kept[t] == rows[idx[t]])
    && (forall s, t :: 0 <= s < t < |idx| ==> idx[s] < idx[t])
    && (forall j :: 0 <= j < |rows| && j !in idx ==> Full(rows[j]))
    && (forall t :: 0 <= t < |idx| && Full(rows[idx[t]]) ==> idx[t] + 1 < |rows| && idx[t] + 1 !in idx)
  }

  /** Keeping row p on top of an embedding of the rows above it, when every row below p is full. */
  lemma EmbeddingExtends(rows: seq<Row>, p: int, kept: seq<Row>, pre: seq<int>)
    requires 0 <= p < |rows| <= p + 2
    requires Embedding(rows[..p], kept, pre)
    requires forall j :: p < j < |rows| ==> Full(rows[j])
    requires Full(rows[p]) ==> p + 1 < |rows|
    ensures Embedding(rows, kept + [rows[p]], pre + [p])
  {
    var front := rows[..p];
    var idx := pre + [p];
    forall t | 0 <= t < |pre|
      ensures idx[t] < p
    {
      assert idx[t] == pre[t] && pre[t] < |front|;
    }
    forall j | 0 <= j < |rows| && j !in idx
      ensures Full(rows[j])
    {
      if j < p {
        assert j !in pre && front[j] == rows[j];
      }
    }
    forall t | 0 <= t < |pre| && Full(rows[idx[t]])
      ensures idx[t] + 1 < |rows| && idx[t] + 1 !in idx
    {
      assert front[pre[t]] == rows[pre[t]];
    }
  }

  /**
   * The survivors are the rows at a strictly increasing list of indices; every row not in the
   * list was full; and a full row that survives sits directly above a removed row.
   */
  lemma {:induction false} SurvivorsEmbedding(rows: seq<Row>) returns (idx: seq<int>)
    ensures Embedding(rows, Survivors(rows), idx)
    decreases |rows|
  {
    var n := |rows|;
    if n == 0 {
      idx := [];
    } else if Full(rows[n - 1]) && n == 1 {
      idx := [];
    } else {
      var p := if Full(rows[n - 1]) then n - 2 else n - 1;
      var pre := SurvivorsEmbedding(rows[..p]);
      EmbeddingExtends(rows, p, Survivors(rows[..p]), pre);
      idx := pre + [p];
    }
  }

  /** On rows none of which is full, every row survives. */
  lemma {:induction false} NoFullRowAllSurvive(rows: seq<Row>)
    requires forall r :: 0 <= r < |rows| ==> !Full(rows[r])
    ensures Survivors(rows) == rows
    decreases |rows|
  {
    var n := |rows|;
    if n > 0 {
      var front := rows[..n - 1];
      NoFullRowAllSurvive(front);
      assert front + [rows[n - 1]] == rows;
    }
  }

  /** A pass over a grid with no full row removes nothing and changes nothing. */
  lemma ClearWithoutFullRowIsIdentity(g: Grid, w: nat)
    requires forall r :: 0 <= r < |g| ==> !Full(g[r])
    ensures RemovedCount(g) == 0
    ensures Cleared(g, w) == g
  {
    NoFullRowAllSurvive(g);
  }

  /** A pass keeps the grid at h rows of w cells. */
  lemma ClearedShape(g: Grid, w: nat, h: int)
    requires IsGrid(g, w, h)
    ensures IsGrid(Cleared(g, w), w, h)
  {
    var c := Cleared(g, w);
    var k := RemovedCount(g);
    var idx := SurvivorsEmbedding(g);
    forall r | 0 <= r < |c|
      ensures |c[r]| == w
    {
      if r >= k {
        assert c[r] == Survivors(g)[r - k] == g[idx[r - k]];
      }
    }
  }

  /**
   * Two full rows at the bottom are not both removed by one pass: the upper one moves down to the
   * bottom and stays there.
   */
  lemma AdjacentFullRowsNotBothCleared(g: Grid, w: nat)
    requires |g| >= 2 && Full(g[|g| - 1]) && Full(g[|g| - 2])
    ensures RemovedCount(g) >= 1
    ensures Cleared(g, w)[|g| - 1] == g[|g| - 2]
    ensures Full(Cleared(g, w)[|g| - 1])
  {
    var n := |g|;
    assert Survivors(g) == Survivors(g[..n - 2]) + [g[n - 2]];
  }

  /** A one-row grid whose row is full: the pass removes it and leaves one empty row. */
  lemma SingleFullRowCleared(g: Grid, w: nat)
    requires IsGrid(g, w, 1) && Full(g[0])
    ensures RemovedCount(g) == 1
    ensures Cleared(g, w) == [EmptyRow(w)]
  {
  }
}
