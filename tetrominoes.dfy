/** The shape catalog: the seven piece kinds, their occupancy matrices and their colours. */
module Tetrominoes {

  /** The seven piece kinds. The game uses their letters both as catalog keys and as grid cell values. */
  datatype Kind = I | J | L | O | S | T | Z

  /** An occupancy matrix, rows listed top to bottom; an entry is 1 where the piece has a square. */
  type Shape = seq<seq<int>>

  /** The catalog keys in declaration order, as the spawner enumerates them. */
  const Keys: seq<Kind> := [I, J, L, O, S, T, Z]

  /** The widest and the tallest matrix of the catalog. */
  const MaxWidth := 3
  const MaxHeight := 4

  /** Entry (i, j) lies inside the matrix and is set. */
  predicate Occupied(s: Shape, i: int, j: int)
  {
    0 <= i < |s| && 0 <= j < |s[i]| && s[i][j] != 0
  }

  /** A non-empty rectangular 0/1 matrix with at least one set entry. */
  ghost predicate WellFormed(s: Shape)
  {
    && |s| > 0
    && |s[0]| > 0
    && (forall i :: 0 <= i < |s| ==> |s[i]| == |s[0]|)
    && (forall i, j :: 0 <= i < |s| && 0 <= j < |s[i]| ==> s[i][j] == 0 || s[i][j] == 1)
    && (exists i, j :: Occupied(s, i, j))
  }

  /** The list of variants the catalog holds for a kind: one matrix each. */
  function Rotations(k: Kind): (rs: seq<Shape>)
    ensures |rs| == 1
    ensures WellFormed(rs[0])
    ensures |rs[0]| <= MaxHeight && |rs[0][0]| <= MaxWidth
  {
    var s: Shape :=
      match k
      case I => [[1], [1], [1], [1]]
      case J => [[0, 1], [0, 1], [1, 1]]
      case L => [[1, 0], [1, 0], [1, 1]]
      case O => [[1, 1], [1, 1]]
      case S => [[0, 1, 1], [1, 1, 0]]
      case T => [[0, 1, 0], [1, 1, 1]]
      case Z => [[1, 1, 0], [0, 1, 1]];
    assert Occupied(s, |s| - 1, 1) || Occupied(s, 0, 0);
    [s]
  }

  /** The colour each kind is painted in. */
  const Colours: map<Kind, string> :=
    map[I := "cyan", J := "blue", L := "orange", O := "yellow", S := "green", T := "purple", Z := "red"]

  /** The key list names every kind exactly once, so the spawner can produce any kind. */
  lemma KeysEnumerateKinds(k: Kind)
    ensures k in Keys
    ensures forall a, b :: 0 <= a < b < |Keys| ==> Keys[a] != Keys[b]
  {
  }

  /** Every kind has a colour entry. */
  lemma EveryKindHasColour(k: Kind)
    ensures k in Colours
  {
  }
}
