/** The piece catalogue and the arena factory (PiecesService). */
module Pieces {
  import opened Matrix

  /** The seven piece names, in the order AppComponent.getPiece indexes them. */
  const Keys: string := "OIZSLJT"

  /** The same seven names as a set. */
  const Names: set<char> := {'O', 'I', 'Z', 'S', 'L', 'J', 'T'}

  /** The constant piece table: the matrix each name starts out with. */
  function Table(k: char): Grid
    requires k in Names
  {
    match k
    case 'O' => [[1, 1],
                 [1, 1]]
    case 'I' => [[0, 2, 0, 0],
                 [0, 2, 0, 0],
                 [0, 2, 0, 0],
                 [0, 2, 0, 0]]
    case 'Z' => [[3, 3, 0],
                 [0, 3, 3],
                 [0, 0, 0]]
    case 'S' => [[0, 4, 4],
                 [4, 4, 0],
                 [0, 0, 0]]
    case 'L' => [[0, 5, 0],
                 [0, 5, 0],
                 [0, 5, 5]]
    case 'J' => [[0, 6, 0],
                 [0, 6, 0],
                 [6, 6, 0]]
    case 'T' => [[0, 0, 0],
                 [7, 7, 7],
                 [0, 7, 0]]
  }

  /** The cell value a piece is drawn with: its position in Keys, counted from 1. */
  function Id(k: char): int
    requires k in Names
  {
    match k
    case 'O' => 1
    case 'I' => 2
    case 'Z' => 3
    case 'S' => 4
    case 'L' => 5
    case 'J' => 6
    case 'T' => 7
  }

  /** Number of nonzero cells in a row, and in a grid. */
  function RowWeight(row: seq<int>): nat {
    if row == [] then 0 else (if row[0] != 0 then 1 else 0) + RowWeight(row[1..])
  }

  function Weight(m: Grid): nat {
    if m == [] then 0 else RowWeight(m[0]) + Weight(m[1..])
  }

  /** Every table entry is a square of side 2, 3 or 4, which rotate's in-place transpose needs. */
  lemma TableSquare(k: char)
    requires k in Names
    ensures IsSquare(Table(k)) && 2 <= |Table(k)| <= 4
  {
  }

  /** Every table entry has exactly four occupied cells. */
  lemma TableWeight(k: char)
    requires k in Names
    ensures Weight(Table(k)) == 4
  {
    WeightByRows(Table(k));
    match k
    case 'O' =>
    case 'I' =>
    case 'Z' =>
    case 'S' =>
    case 'L' =>
    case 'J' =>
    case 'T' =>
  }

  /** Every occupied cell of a table entry holds that piece's own id. */
  lemma TableIds(k: char)
    requires k in Names
    ensures forall i, j :: 0 <= i < |Table(k)| && 0 <= j < |Table(k)[i]| && Table(k)[i][j] != 0 ==>
      Table(k)[i][j] == Id(k)
  {
    match k
    case 'O' =>
    case 'I' =>
    case 'Z' =>
    case 'S' =>
    case 'L' =>
    case 'J' =>
    case 'T' =>
  }

  /** A grid of one to four rows weighs the sum of its rows. */
  lemma {:induction false} WeightByRows(m: Grid)
    requires 1 <= |m| <= 4
    ensures Weight(m) == RowWeight(m[0]) + (if |m| > 1 then RowWeight(m[1]) else 0)
      + (if |m| > 2 then RowWeight(m[2]) else 0) + (if |m| > 3 then RowWeight(m[3]) else 0)
  {
    if |m| > 1 {
      WeightByRows(m[1..]);
    } else {
      assert m[1..] == [];
    }
  }

  /** Ids are 1..7, one per name, following the order of Keys. */
  lemma IdsFollowKeys()
    ensures |Keys| == |Names| == 7
    ensures forall i :: 0 <= i < |Keys| ==> Keys[i] in Names && Id(Keys[i]) == i + 1
  {
  }

  /** A fresh square array2 holding the given grid. */
  method FromGrid(g: Grid) returns (m: array2<int>)
    requires IsSquare(g)
    ensures fresh(m) && m.Length0 == m.Length1 == |g|
    ensures GridOf(m) == g
  {
    var n := |g|;
    m := new int[n, n];
    forall i, j | 0 <= i < n && 0 <= j < n {
      m[i, j] := g[i][j];
    }
    forall i | 0 <= i < n
      ensures GridOf(m)[i] == g[i]
    {
    }
  }

  /** Fresh matrices for O, I, Z and S holding their table entries. */
  method NewFourPieces() returns (o: array2<int>, i: array2<int>, z: array2<int>, s: array2<int>)
    ensures fresh(o) && fresh(i) && fresh(z) && fresh(s)
    ensures o != i && o != z && o != s && i != z && i != s && z != s
    ensures o.Length0 == o.Length1 == 2 && i.Length0 == i.Length1 == 4
    ensures z.Length0 == z.Length1 == 3 && s.Length0 == s.Length1 == 3
    ensures GridOf(o) == Table('O') && GridOf(i) == Table('I')
    ensures GridOf(z) == Table('Z') && GridOf(s) == Table('S')
  {
    o := FromGrid(Table('O'));
    i := FromGrid(Table('I'));
    z := FromGrid(Table('Z'));
    s := FromGrid(Table('S'));
  }

  /** Fresh matrices for L, J and T holding their table entries. */
  method NewThreePieces() returns (l: array2<int>, j: array2<int>, t: array2<int>)
    ensures fresh(l) && fresh(j) && fresh(t)
    ensures l != j && l != t && j != t
    ensures l.Length0 == l.Length1 == 3 && j.Length0 == j.Length1 == 3 && t.Length0 == t.Length1 == 3
    ensures GridOf(l) == Table('L') && GridOf(j) == Table('J') && GridOf(t) == Table('T')
  {
    l := FromGrid(Table('L'));
    j := FromGrid(Table('J'));
    t := FromGrid(Table('T'));
  }

  class PiecesService {
    /** One matrix object per piece name; getPiece hands out these objects themselves. */
    const pieces: map<char, array2<int>>

    /** The catalogue has exactly the seven names, each a distinct square matrix of side 2..4. */
    predicate Valid() {
      && pieces.Keys == Names
      && (forall k :: k in pieces ==> pieces[k].Length0 == pieces[k].Length1 && 2 <= pieces[k].Length0 <= 4)
      && (forall k, k' :: k in pieces && k' in pieces && k != k' ==> pieces[k] != pieces[k'])
    }

    constructor ()
      ensures Valid()
      ensures forall k :: k in pieces ==> fresh(pieces[k]) && GridOf(pieces[k]) == Table(k)
    {
      var o, i, z, s := NewFourPieces();
      var l, j, t := NewThreePieces();
      assert o != i && o != z && o != s && i != z && i != s && z != s;
      assert l != j && l != t && j != t;
      pieces := map['O' := o, 'I' := i, 'Z' := z, 'S' := s, 'L' := l, 'J' := j, 'T' := t];
    }

    /** getPiece(n): the stored matrix object for n, not a copy; nothing for an unknown name. */
    function GetPiece(n: char): (m: array2?<int>)
      requires Valid()
      ensures m != null <==> n in Names
      ensures m != null ==> m == pieces[n]
    {
      if n in pieces then pieces[n] else null
    }

    /** createArena(w, h): h rows of w zeros, each row a freshly allocated array. */
    method CreateArena(w: nat, h: nat) returns (arena: seq<array<int>>)
      ensures |arena| == h
      ensures forall r :: 0 <= r < h ==> fresh(arena[r]) && arena[r].Length == w
      ensures forall r, c :: 0 <= r < h && 0 <= c < w ==> arena[r][c] == 0
      ensures forall r, r' :: 0 <= r < r' < h ==> arena[r] != arena[r']
    {
      arena := [];
      var left := h;
      while left != 0
        invariant 0 <= left <= h && |arena| == h - left
        invariant forall r :: 0 <= r < |arena| ==> fresh(arena[r]) && arena[r].Length == w
        invariant forall r, c :: 0 <= r < |arena| && 0 <= c < w ==> arena[r][c] == 0
        invariant forall r, r' :: 0 <= r < r' < |arena| ==> arena[r] != arena[r']
      {
        left := left - 1;
        var row := new int[w](_ => 0);
        arena := arena + [row];
      }
    }
  }
}
