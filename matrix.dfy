/** Two-dimensional number grids shared by the arena and the pieces
    (IRow, IArena and IPiece in pieces.service.ts), their views as values,
    and the in-place quarter turn of a square piece matrix (AppComponent.rotate). */
module Matrix {

  /** A grid as a value: a sequence of rows, top to bottom. */
  type Grid = seq<seq<int>>

  /** n rows of n cells each. */
  predicate IsSquare(m: Grid) {
    forall i :: 0 <= i < |m| ==> |m[i]| == |m|
  }

  /** The current contents of a piece matrix held in an array2. */
  ghost function GridOf(m: array2<int>): (g: Grid)
    reads m
    ensures |g| == m.Length0
    ensures forall i :: 0 <= i < |g| ==> |g[i]| == m.Length1
    ensures forall i, j :: 0 <= i < m.Length0 && 0 <= j < m.Length1 ==> g[i][j] == m[i, j]
    ensures m.Length0 == m.Length1 ==> IsSquare(g)
  {
    seq(m.Length0, i requires 0 <= i < m.Length0 reads m =>
      seq(m.Length1, j requires 0 <= j < m.Length1 reads m => m[i, j]))
  }

  /** The current contents of an arena held as a sequence of row arrays. */
  ghost function RowsOf(a: seq<array<int>>): (g: Grid)
    reads set r | r in a
    ensures |g| == |a|
    ensures forall i :: 0 <= i < |a| ==> g[i] == a[i][..]
  {
    seq(|a|, i requires 0 <= i < |a| reads set r | r in a => a[i][..])
  }

  /** A quarter turn: clockwise when dir > 0, counter-clockwise otherwise. */
  function Turn(m: Grid, dir: int): (r: Grid)
    requires IsSquare(m)
    ensures |r| == |m| && IsSquare(r)
  {
    var n := |m|;
    seq(n, i requires 0 <= i < n =>
      seq(n, j requires 0 <= j < n =>
        if dir > 0 then m[n - 1 - j][i] else m[j][n - 1 - i]))
  }

  /** A turn in the opposite direction undoes a turn. */
  lemma TurnUndo(m: Grid, dir: int)
    requires IsSquare(m) && dir != 0
    ensures Turn(Turn(m, dir), -dir) == m
  {
    var n := |m|;
    var r := Turn(Turn(m, dir), -dir);
    forall i | 0 <= i < n
      ensures r[i] == m[i]
    {
      assert |r[i]| == |m[i]|;
      forall j | 0 <= j < n
        ensures r[i][j] == m[i][j]
      {
      }
    }
  }

  /** Two turns in the same direction are a half turn, whichever the direction. */
  lemma HalfTurn(m: Grid, dir: int)
    requires IsSquare(m)
    ensures var h := Turn(Turn(m, dir), dir);
      |h| == |m| && forall i, j :: 0 <= i < |m| && 0 <= j < |m| ==> h[i][j] == m[|m| - 1 - i][|m| - 1 - j]
  {
  }

  /** A turn moves cells and nothing else: cell (i, j) goes to (j, n-1-i) clockwise and to
      (n-1-j, i) counter-clockwise, a bijection of the positions, so the dimensions and the
      multiset of cell values are kept. */
  lemma TurnPermutes(m: Grid, dir: int)
    requires IsSquare(m)
    ensures var n := |m|; var r := Turn(m, dir);
      && (forall i, j :: 0 <= i < n && 0 <= j < n ==>
            (dir > 0 ==> r[j][n - 1 - i] == m[i][j]) && (dir <= 0 ==> r[n - 1 - j][i] == m[i][j]))
      && (forall i, j :: 0 <= i < n && 0 <= j < n ==>
            (dir > 0 ==> r[i][j] == m[n - 1 - j][i]) && (dir <= 0 ==> r[i][j] == m[j][n - 1 - i]))
  {
  }

  /** Four turns in the same direction give back the original matrix. */
  lemma FourTurns(m: Grid, dir: int)
    requires IsSquare(m)
    ensures Turn(Turn(Turn(Turn(m, dir), dir), dir), dir) == m
  {
    var n := |m|;
    var h := Turn(Turn(m, dir), dir);
    HalfTurn(m, dir);
    HalfTurn(h, dir);
    var r := Turn(Turn(h, dir), dir);
    forall i | 0 <= i < n
      ensures r[i] == m[i]
    {
      assert |r[i]| == |m[i]|;
    }
  }

  /** Swaps m[x, y] and m[y, x] for every x < y, row by row (rotate's nested loops). */
  method Transpose(m: array2<int>)
    requires m.Length0 == m.Length1
    modifies m
    ensures forall i, j :: 0 <= i < m.Length0 && 0 <= j < m.Length1 ==> m[i, j] == old(m[j, i])
  {
    var n := m.Length0;
    var y := 0;
    while y < n
      invariant 0 <= y <= n
      invariant forall i, j :: 0 <= i < y && 0 <= j < y ==> m[i, j] == old(m[j, i])
      invariant forall i, j :: 0 <= i < n && 0 <= j < n && (i >= y || j >= y) ==> m[i, j] == old(m[i, j])
    {
      var x := 0;
      while x < y
        invariant 0 <= x <= y
        invariant forall i, j :: 0 <= i < y && 0 <= j < y ==> m[i, j] == old(m[j, i])
        invariant forall k :: 0 <= k < x ==> m[k, y] == old(m[y, k]) && m[y, k] == old(m[k, y])
        invariant forall i, j :: 0 <= i < n && 0 <= j < n && (i > y || j > y || (i == y && j >= x) || (j == y && i >= x)) ==>
          m[i, j] == old(m[i, j])
      {
        m[x, y], m[y, x] := m[y, x], m[x, y];
        x := x + 1;
      }
      y := y + 1;
    }
  }

  /** Reverses every row in place (row.reverse() on each row). */
  method ReverseEachRow(m: array2<int>)
    modifies m
    ensures forall i, j :: 0 <= i < m.Length0 && 0 <= j < m.Length1 ==> m[i, j] == old(m[i, m.Length1 - 1 - j])
  {
    forall i, j | 0 <= i < m.Length0 && 0 <= j < m.Length1 {
      m[i, j] := m[i, m.Length1 - 1 - j];
    }
  }

  /** Reverses the order of the rows (matrix.reverse()). */
  method ReverseRowOrder(m: array2<int>)
    modifies m
    ensures forall i, j :: 0 <= i < m.Length0 && 0 <= j < m.Length1 ==> m[i, j] == old(m[m.Length0 - 1 - i, j])
  {
    forall i, j | 0 <= i < m.Length0 && 0 <= j < m.Length1 {
      m[i, j] := m[m.Length0 - 1 - i, j];
    }
  }

  /** A transpose followed by reversing each row (dir > 0) or the row order is a Turn. */
  lemma TurnBySteps(g0: Grid, g1: Grid, g2: Grid, dir: int)
    requires IsSquare(g0) && |g1| == |g2| == |g0| && IsSquare(g1) && IsSquare(g2)
    requires forall i, j :: 0 <= i < |g0| && 0 <= j < |g0| ==> g1[i][j] == g0[j][i]
    requires dir > 0 ==> forall i, j :: 0 <= i < |g0| && 0 <= j < |g0| ==> g2[i][j] == g1[i][|g0| - 1 - j]
    requires dir <= 0 ==> forall i, j :: 0 <= i < |g0| && 0 <= j < |g0| ==> g2[i][j] == g1[|g0| - 1 - i][j]
    ensures g2 == Turn(g0, dir)
  {
    var n := |g0|;
    var t := Turn(g0, dir);
    forall i | 0 <= i < n
      ensures g2[i] == t[i]
    {
      assert |g2[i]| == |t[i]|;
    }
  }

  /** rotate(matrix, dir): transpose, then reverse each row (dir > 0) or the row order. */
  method Rotate(m: array2<int>, dir: int)
    requires m.Length0 == m.Length1
    modifies m
    ensures GridOf(m) == Turn(old(GridOf(m)), dir)
  {
    ghost var g0 := GridOf(m);
    Transpose(m);
    ghost var g1 := GridOf(m);
    if dir > 0 {
      ReverseEachRow(m);
    } else {
      ReverseRowOrder(m);
    }
    TurnBySteps(g0, g1, GridOf(m), dir);
  }
}
