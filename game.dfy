/** The game component (AppComponent) without its canvas: the arena, the active piece and
    the rows counter, changed in place by key commands, timer ticks and the resolve step. */
module App {
  import opened Matrix
  import opened Rules
  import opened Pieces

  /** The colour table; index 0 is reserved for empty cells. */
  const Colors: seq<string> :=
    ["", "#FAFF00", "#00E4FF", "#F60000", "#69B625", "#FF8D00", "#FF51BC", "#9F0096"]

  /** Every cell value a catalogue piece starts with indexes a real colour, never slot 0. */
  lemma IdsIndexColors(k: char)
    requires k in Names
    ensures forall i, j :: 0 <= i < |Table(k)| && 0 <= j < |Table(k)[i]| && Table(k)[i][j] != 0 ==>
      1 <= Table(k)[i][j] < |Colors| && Colors[Table(k)[i][j]] != ""
  {
    TableIds(k);
  }

  /** getPiece's index as written, `Math.floor(Math.random() * 6)`, with the random number in
      [0, 1) given as the fraction num / den. */
  function DrawnIndex(num: nat, den: nat): nat
    requires num < den
  {
    num * 6 / den
  }

  /** The index as written stays below 6, so the seventh name, T, is never drawn. */
  lemma DrawnIndexMissesT(num: nat, den: nat)
    requires num < den
    ensures DrawnIndex(num, den) < 6 && Keys[DrawnIndex(num, den)] in Names
    ensures Keys[DrawnIndex(num, den)] != 'T'
  {
    BelowScale(num, den, 6);
  }

  /** The index as intended, `Math.floor(Math.random() * 7)`: one of the seven names. */
  function PieceIndex(num: nat, den: nat): nat
    requires num < den
  {
    num * |Keys| / den
  }

  /** The intended index is always a valid position in Keys, and every name is drawn by the
      random numbers i/7 <= u < (i+1)/7. */
  lemma PieceIndexCovers(num: nat, den: nat, i: nat)
    requires num < den
    ensures PieceIndex(num, den) < |Keys| && Keys[PieceIndex(num, den)] in Names
    ensures i < |Keys| ==> PieceIndex(i, |Keys|) == i
  {
    BelowScale(num, den, |Keys|);
  }

  /** num / den < 1 scaled by n stays below n after flooring. */
  lemma BelowScale(num: nat, den: nat, n: nat)
    requires num < den
    ensures num * n / den < n || n == 0
  {
    if n > 0 {
      MulLess(num, den, n);
      DivBelow(num * n, den, n);
    }
  }

  lemma MulLess(a: nat, b: nat, n: nat)
    requires a < b && n > 0
    ensures a * n < b * n
  {
  }

  lemma DivBelow(a: nat, den: nat, n: nat)
    requires den > 0 && a < den * n
    ensures a / den < n
  {
  }

  /** Every choice the intended index gives names a piece of the catalogue. */
  lemma ChoiceInNames(choice: nat)
    requires choice < |Keys|
    ensures Keys[choice] in Names
  {
  }

  /** Splicing row `row` out of distinct row arrays and unshifting a new array gives distinct
      arrays again, holding the new row's contents followed by the others in order. */
  lemma SpliceRows(a: seq<array<int>>, row: nat, z: array<int>)
    requires row < |a| && z !in a && Distinct(a)
    ensures var b := [z] + (a[..row] + a[row + 1..]);
      && |b| == |a| && Distinct(b)
      && RowsOf(b) == [z[..]] + RowsOf(a)[..row] + RowsOf(a)[row + 1..]
  {
    var b := [z] + (a[..row] + a[row + 1..]);
    forall r, r' | 0 <= r < r' < |b|
      ensures b[r] != b[r']
    {
      if r > 0 {
        var i := if r - 1 < row then r - 1 else r;
        var i' := if r' - 1 < row then r' - 1 else r';
        assert b[r] == a[i] && b[r'] == a[i'];
      }
    }
  }

  /** No row array appears twice in the arena. */
  ghost predicate Distinct(a: seq<array<int>>) {
    forall r, r' :: 0 <= r < r' < |a| ==> a[r] != a[r']
  }

  /** The arena width and height initCanvas passes to createArena. */
  const ArenaWidth := 12
  const ArenaHeight := 20

  class Game {
    const service: PiecesService
    /** The arena: one array per row, top to bottom (IArena). */
    var arena: seq<array<int>>
    var rowsCompleted: int
    /** The active piece: the catalogue's own matrix object, and its anchor. */
    var matrix: array2<int>
    var pos: Offset
    /** The catalogue name whose matrix is the active piece. */
    ghost var pieceKey: char

    /** The active matrix is the catalogue entry itself; arena rows are distinct arrays. */
    ghost predicate Valid()
      reads this`pieceKey, this`matrix, this`arena
    {
      Linked() && Distinct(arena)
    }

    /** The active matrix is the catalogue's entry for pieceKey. */
    ghost predicate Linked()
      reads this`pieceKey, this`matrix
    {
      service.Valid() && pieceKey in service.pieces && matrix == service.pieces[pieceKey]
    }

    /** The game state as a value. */
    ghost function State(): Snapshot
      reads this, matrix, set r | r in arena
    {
      Snapshot(RowsOf(arena), GridOf(matrix), pos, rowsCompleted)
    }

    /** The current contents of every catalogue entry. */
    ghost function Catalogue(): map<char, Grid>
      reads service.pieces.Values
    {
      map k | k in service.pieces :: GridOf(service.pieces[k])
    }

    lemma ValidSquare()
      requires Valid()
      ensures matrix.Length0 == matrix.Length1 && 2 <= matrix.Length0 <= 4
      ensures IsSquare(GridOf(matrix))
    {
    }

    /** ngAfterViewInit: getPiece, then createArena(12, 20); the first draw finds no collision. */
    constructor (service: PiecesService, choice: nat)
      requires service.Valid() && choice < |Keys|
      ensures Valid() && this.service == service && pieceKey == Keys[choice]
      ensures matrix == service.pieces[Keys[choice]]
      ensures State() == Snapshot(ZeroRows(ArenaHeight, ArenaWidth), GridOf(service.pieces[Keys[choice]]), Offset(SpawnX, SpawnY), 0)
      ensures !Collides(State().arena, State().matrix, State().pos)
      ensures forall r :: 0 <= r < |arena| ==> fresh(arena[r])
    {
      this.service := service;
      rowsCompleted := 0;
      ChoiceInNames(choice);
      var m := service.GetPiece(Keys[choice]);
      matrix := m;
      pieceKey := Keys[choice];
      pos := Offset(SpawnX, SpawnY);
      var rows := service.CreateArena(ArenaWidth, ArenaHeight);
      arena := rows;
      new;
      var empty := RowsOf(arena);
      forall r | 0 <= r < ArenaHeight
        ensures empty[r] == ZeroRow(ArenaWidth)
      {
        assert empty[r] == arena[r][..];
      }
      assert empty == ZeroRows(ArenaHeight, ArenaWidth);
      ValidSquare();
      var g := GridOf(matrix);
      assert Fits(empty, g, pos);
      EmptyArenaCollision(empty, g, pos);
    }

    /** collide(this.arena, this.player), scanning the matrix row by row. */
    method Collide() returns (hit: bool)
      ensures hit == Collides(RowsOf(arena), GridOf(matrix), pos)
    {
      ghost var a := RowsOf(arena);
      ghost var g := GridOf(matrix);
      var y := 0;
      while y < matrix.Length0
        invariant 0 <= y <= matrix.Length0
        invariant forall i, j :: 0 <= i < y && 0 <= j < |g[i]| ==> !Hits(a, g, pos, i, j)
      {
        var x := 0;
        while x < matrix.Length1
          invariant 0 <= x <= matrix.Length1
          invariant forall i, j :: 0 <= i < y && 0 <= j < |g[i]| ==> !Hits(a, g, pos, i, j)
          invariant forall j :: 0 <= j < x ==> !Hits(a, g, pos, y, j)
        {
          var r, c := y + pos.y, x + pos.x;
          if matrix[y, x] != 0 && (!(0 <= r < |arena| && 0 <= c < arena[r].Length) || arena[r][c] != 0) {
            assert Hits(a, g, pos, y, x);
            return true;
          }
          x := x + 1;
        }
        y := y + 1;
      }
      return false;
    }

    /** mergeArena(this.arena, this.player): copy every nonzero piece cell into the arena. */
    method MergeArena()
      requires Valid() && Fits(RowsOf(arena), GridOf(matrix), pos)
      modifies set r | r in arena
      ensures RowsOf(arena) == Merged(old(RowsOf(arena)), GridOf(matrix), pos)
    {
      ghost var before := RowsOf(arena);
      ghost var g := GridOf(matrix);
      ghost var merged := Merged(before, g, pos);
      forall y | 0 <= y < matrix.Length0
        ensures Lands(y)
      {
        forall x | 0 <= x < matrix.Length1 && matrix[y, x] != 0
          ensures 0 <= y + pos.y < |arena| && 0 <= x + pos.x < arena[y + pos.y].Length
        {
          assert Occupied(g, y, x);
        }
      }
      var y := 0;
      while y < matrix.Length0
        invariant 0 <= y <= matrix.Length0
        invariant forall y' :: 0 <= y' < matrix.Length0 ==> Lands(y')
        invariant forall r :: 0 <= r < |arena| ==>
          arena[r][..] == if 0 <= r - pos.y < y then merged[r] else before[r]
      {
        MergeRow(y, before, merged);
        y := y + 1;
      }
      forall r | 0 <= r < |arena|
        ensures RowsOf(arena)[r] == merged[r]
      {
        if !(0 <= r - pos.y < |g|) {
          MergeRowOutside(before, g, pos, r);
        }
      }
    }

    /** Every nonzero cell of piece row y lands inside the arena. */
    ghost predicate Lands(y: int)
      reads this, matrix
    {
      && 0 <= y < matrix.Length0
      && forall x :: 0 <= x < matrix.Length1 && matrix[y, x] != 0 ==>
           0 <= y + pos.y < |arena| && 0 <= x + pos.x < arena[y + pos.y].Length
    }

    /** One pass of mergeArena's outer loop: piece row y onto arena row y + pos.y, which moves
        the merged band of the arena down by one row. */
    method MergeRow(y: int, ghost before: Grid, ghost merged: Grid)
      requires Distinct(arena) && Lands(y) && |before| == |arena|
      requires merged == Merged(before, GridOf(matrix), pos)
      requires forall r :: 0 <= r < |arena| ==>
        arena[r][..] == if 0 <= r - pos.y < y then merged[r] else before[r]
      modifies set r | r in arena
      ensures forall r :: 0 <= r < |arena| ==>
        arena[r][..] == if 0 <= r - pos.y < y + 1 then merged[r] else before[r]
    {
      ghost var g := GridOf(matrix);
      ghost var row := y + pos.y;
      MergeLine(y);
      forall r | 0 <= r < |arena|
        ensures arena[r][..] == if 0 <= r - pos.y < y + 1 then merged[r] else before[r]
      {
        if r == row {
          assert merged[r] == MergedRow(before[r], g, pos, r);
        }
      }
    }

    /** Piece row y onto arena row y + pos.y; the other rows are left alone. */
    method MergeLine(y: int)
      requires Distinct(arena) && Lands(y)
      modifies set r | r in arena
      ensures forall r :: 0 <= r < |arena| && r != y + pos.y ==> arena[r][..] == old(arena[r][..])
      ensures 0 <= y + pos.y < |arena| ==>
        arena[y + pos.y][..] == MergedRow(old(arena[y + pos.y][..]), GridOf(matrix), pos, y + pos.y)
    {
      var row := y + pos.y;
      if 0 <= row < |arena| {
        MergeInto(arena[row], y);
      }
    }

    /** The inner loop of mergeArena on the arena row `dst` that piece row y lands on. A piece
        row that lands outside the arena has no nonzero cell, so the loop writes nothing. */
    method MergeInto(dst: array<int>, y: int)
      requires 0 <= y < matrix.Length0
      requires forall x :: 0 <= x < matrix.Length1 && matrix[y, x] != 0 ==> 0 <= x + pos.x < dst.Length
      modifies dst
      ensures dst[..] == MergedRow(old(dst[..]), GridOf(matrix), pos, y + pos.y)
    {
      ghost var g := GridOf(matrix);
      ghost var line := dst[..];
      ghost var target := MergedRow(line, g, pos, y + pos.y);
      var x := 0;
      while x < matrix.Length1
        invariant 0 <= x <= matrix.Length1
        invariant forall c :: 0 <= c < dst.Length ==> dst[c] == if c - pos.x < x then target[c] else line[c]
      {
        ghost var col := x + pos.x;
        if matrix[y, x] != 0 {
          assert Occupied(g, y, x);
          dst[x + pos.x] := matrix[y, x];
          assert target[col] == g[y][x];
        } else if 0 <= col < dst.Length {
          assert target[col] == line[col];
        }
        x := x + 1;
      }
    }

    /** checkCompleteRow(this.arena): splice out each full row and unshift a 12-wide zero row;
        the unshift keeps the next unexamined row at index row + 1. */
    method CheckCompleteRow()
      requires Distinct(arena)
      modifies this`arena, this`rowsCompleted
      ensures Distinct(arena)
      ensures RowsOf(arena) == Cleared(old(RowsOf(arena)))
      ensures rowsCompleted == old(rowsCompleted) + CountFull(old(RowsOf(arena)))
    {
      ghost var rows := RowsOf(arena);
      ghost var base := rowsCompleted;
      ScanStarts(rows, base);
      var row := 0;
      while row < |arena|
        invariant Distinct(arena) && Scanned(rows, row, base)
      {
        CheckRow(rows, row, base);
        row := row + 1;
      }
      ScanEnds(rows, base);
    }

    /** The arena holds rows[..row] cleared, followed by rows[row..] still to be examined, and
        the counter has grown by the number of full rows among rows[..row]. */
    ghost predicate Scanned(rows: Grid, row: int, base: int)
      reads this, set r | r in arena
    {
      && 0 <= row <= |arena| == |rows|
      && rowsCompleted == base + CountFull(rows[..row])
      && RowsOf(arena) == ZeroRows(CountFull(rows[..row]), NewRowWidth) + Survivors(rows[..row]) + rows[row..]
    }

    lemma ScanStarts(rows: Grid, base: int)
      requires rows == RowsOf(arena) && base == rowsCompleted
      ensures Scanned(rows, 0, base)
    {
      assert rows[..0] == [] && rows[0..] == rows;
    }

    lemma ScanEnds(rows: Grid, base: int)
      requires Scanned(rows, |rows|, base)
      ensures RowsOf(arena) == Cleared(rows) && rowsCompleted == base + CountFull(rows)
    {
      assert rows[..|rows|] == rows;
    }

    /** One iteration of checkCompleteRow's loop: with rows[..row] already cleared into the
        front of the arena, test row `row` and drop it if it is full. */
    method CheckRow(ghost rows: Grid, row: int, ghost base: int)
      requires Distinct(arena) && Scanned(rows, row, base) && row < |rows|
      modifies this`arena, this`rowsCompleted
      ensures Distinct(arena) && Scanned(rows, row + 1, base)
    {
      ClearStep(rows, row);
      assert arena[row][..] == rows[row];
      if 0 !in arena[row][..] {
        DropRow(row);
        rowsCompleted := rowsCompleted + 1;
      }
    }

    /** The body of checkCompleteRow's test: `arena.splice(row, 1)`, then
        `arena.unshift(new Array(12).fill(0))`. */
    method DropRow(row: int)
      requires Distinct(arena) && 0 <= row < |arena|
      modifies this`arena
      ensures Distinct(arena) && |arena| == old(|arena|)
      ensures RowsOf(arena) == [ZeroRow(NewRowWidth)] + old(RowsOf(arena))[..row] + old(RowsOf(arena))[row + 1..]
    {
      ghost var before := arena;
      ghost var cur := RowsOf(arena);
      arena := arena[..row] + arena[row + 1..];
      var empty := new int[NewRowWidth](_ => 0);
      arena := [empty] + arena;
      assert empty[..] == ZeroRow(NewRowWidth);
      assert RowsOf(before) == cur;
      SpliceRows(before, row, empty);
    }

    /** getPiece(): the catalogue's own matrix for Keys[choice], placed at (5, 0). */
    method GetPiece(choice: nat)
      requires Valid() && choice < |Keys|
      modifies this`matrix, this`pos, this`pieceKey
      ensures Valid() && pieceKey == Keys[choice] && matrix == service.pieces[Keys[choice]]
      ensures pos == Offset(SpawnX, SpawnY) && RowsOf(arena) == old(RowsOf(arena))
    {
      ChoiceInNames(choice);
      var m := service.GetPiece(Keys[choice]);
      matrix := m;
      pieceKey := Keys[choice];
      pos := Offset(SpawnX, SpawnY);
    }

    /** playerRotate(dir): turn in place, then try x = pos, pos+1, pos-1, pos+2, ... until the
        piece is free or the next positive offset exceeds the width, in which case turn back
        and restore x. The turn also changes the catalogue entry, which is the same object. */
    method PlayerRotate(dir: int)
      requires Valid() && dir != 0
      requires !Collides(RowsOf(arena), GridOf(matrix), pos)
      modifies this`pos, matrix
      ensures Valid()
      ensures State() == Rotated(old(State()), dir)
      ensures Catalogue() == old(Catalogue())[pieceKey := GridOf(matrix)]
    {
      ValidSquare();
      TurnAndKick(dir);
      TurnedCatalogue();
    }

    /** playerRotate's steps on the piece alone: the turn and the search for a free x. */
    method TurnAndKick(dir: int)
      requires matrix.Length0 == matrix.Length1 && dir != 0
      requires !Collides(RowsOf(arena), GridOf(matrix), pos)
      modifies this`pos, matrix
      ensures State() == Rotated(old(State()), dir)
    {
      ghost var s := State();
      ghost var t := Turn(s.matrix, dir);
      var p := pos.x;
      Rotate(matrix, dir);
      TurnUndo(s.matrix, dir);
      ghost var k := Kick(dir, p, s.arena, t, s.matrix);
      if k < Tries(|t|) {
        assert State() == s.(matrix := t, pos := Offset(KickX(p, k), s.pos.y));
      } else {
        assert State() == s;
      }
    }

    /** Turning the current matrix changes exactly its own catalogue entry, since the
        entries are distinct arrays. */
    twostate lemma TurnedCatalogue()
      requires old(Linked()) && unchanged(this`pieceKey, this`matrix)
      requires forall c :: c in service.pieces && service.pieces[c] != matrix ==> unchanged(service.pieces[c])
      ensures Catalogue() == old(Catalogue())[pieceKey := GridOf(matrix)]
    {
    }

    /** playerRotate's loop, entered with the matrix turned to t: step x by offset 1, -2, 3,
        -4, ... while the piece collides; once the next offset exceeds the width, turn the
        matrix back (to `back`) and restore x. Returns how many positions collided. */
    method Kick(dir: int, p: int, ghost a: Grid, ghost t: Grid, ghost back: Grid) returns (ghost k: nat)
      requires matrix.Length0 == matrix.Length1
      requires RowsOf(arena) == a && GridOf(matrix) == t && pos.x == p
      requires Turn(t, -dir) == back && !Collides(a, back, pos)
      modifies this`pos, matrix
      ensures RowsOf(arena) == a && pos.y == old(pos.y)
      ensures k == FirstFree(a, t, Offset(p, old(pos.y)), |t|, 0)
      ensures k < Tries(|t|) ==> GridOf(matrix) == t && pos.x == KickX(p, k)
      ensures k == Tries(|t|) ==> GridOf(matrix) == back && pos.x == p
    {
      ghost var start := pos;
      var offset := 1;
      var hit := Collide();
      KickBegins(hit, p, a, t, back);
      k := 0;
      while hit
        invariant RowsOf(arena) == a && pos.y == start.y
        invariant Kicking(k, offset, hit, p, a, t, back)
        invariant FirstFree(a, t, start, |t|, k) == FirstFree(a, t, start, |t|, 0)
        decreases Tries(|t|) - k
      {
        offset, hit := KickPass(dir, p, offset, a, t, back, start, k);
        k := k + 1;
      }
      KickEnds(k, offset, p, a, t, back, start);
    }

    /** Before the first pass: try 0 at the starting x with offset 1. */
    lemma KickBegins(hit: bool, p: int, a: Grid, t: Grid, back: Grid)
      requires GridOf(matrix) == t && pos.x == p && hit == Collides(a, t, pos)
      ensures Kicking(0, 1, hit, p, a, t, back)
    {
    }

    /** After the last pass: the loop stopped at the first free try, or gave up. */
    lemma KickEnds(k: nat, offset: int, p: int, a: Grid, t: Grid, back: Grid, start: Offset)
      requires Kicking(k, offset, false, p, a, t, back) && start == Offset(p, pos.y)
      requires FirstFree(a, t, start, |t|, k) == FirstFree(a, t, start, |t|, 0)
      ensures k == FirstFree(a, t, start, |t|, 0)
      ensures k < Tries(|t|) ==> GridOf(matrix) == t && pos.x == KickX(p, k)
      ensures k == Tries(|t|) ==> GridOf(matrix) == back && pos.x == p
    {
    }

    /** The loop's state after k tries: still turned, at the k-th x and offset, with hit the
        collision test there; or, after the last try, turned back at the starting x. */
    ghost predicate Kicking(k: nat, offset: int, hit: bool, p: int, a: Grid, t: Grid, back: Grid)
      reads this`pos, this`matrix, matrix
    {
      && k <= Tries(|t|)
      && (k < Tries(|t|) ==> GridOf(matrix) == t && pos.x == KickX(p, k) && offset == KickStep(k)
                             && hit == Collides(a, t, pos))
      && (k == Tries(|t|) ==> GridOf(matrix) == back && pos.x == p && !hit)
    }

    /** Try k collided: run the loop body, then test the loop condition again. */
    method KickPass(dir: int, p: int, offset: int, ghost a: Grid, ghost t: Grid, ghost back: Grid, ghost start: Offset,
                    ghost k: nat)
      returns (next: int, hit: bool)
      requires matrix.Length0 == matrix.Length1 && Kicking(k, offset, true, p, a, t, back)
      requires RowsOf(arena) == a && start.x == p && start.y == pos.y
      requires Turn(t, -dir) == back && !Collides(a, back, start)
      modifies this`pos, matrix
      ensures RowsOf(arena) == a && pos.y == start.y
      ensures FirstFree(a, t, start, |t|, k + 1) == FirstFree(a, t, start, |t|, k)
      ensures Kicking(k + 1, next, hit, p, a, t, back)
    {
      GiveUpAt(|t|, k);
      next := KickOnce(dir, p, offset, t, back);
      hit := Collide();
    }

    /** One pass of playerRotate's loop body: step x by the offset, compute the next offset,
        and when it exceeds the width turn the matrix back (to `back`) and restore x. */
    method KickOnce(dir: int, p: int, offset: int, ghost t: Grid, ghost back: Grid)
      returns (next: int)
      requires matrix.Length0 == matrix.Length1 && |t| == matrix.Length1
      requires GridOf(matrix) == t && Turn(t, -dir) == back
      modifies this`pos, matrix
      ensures RowsOf(arena) == old(RowsOf(arena))
      ensures pos.y == old(pos.y) && next == -(offset + (if offset > 0 then 1 else -1))
      ensures next <= |t| ==> GridOf(matrix) == t && pos.x == old(pos.x) + offset
      ensures next > |t| ==> GridOf(matrix) == back && pos.x == p
    {
      pos := pos.(x := pos.x + offset);
      next := -(offset + (if offset > 0 then 1 else -1));
      if next > matrix.Length1 {
        Rotate(matrix, -dir);
        pos := pos.(x := p);
      }
    }

    /** draw() without rendering: on a collision, step back up, merge, clear rows and spawn. */
    method Draw(choice: nat)
      requires Valid() && choice < |Keys|
      requires CanResolve(State())
      modifies this, set r | r in arena
      ensures Valid()
      ensures State() == Resolved(old(State()), old(Catalogue())[Keys[choice]])
      ensures Catalogue() == old(Catalogue())
    {
      ChoiceInNames(choice);
      ghost var s := State();
      ghost var next := Catalogue()[Keys[choice]];
      var hit := Collide();
      if hit {
        Lock(choice, s, next);
      }
      CatalogueKept();
    }

    /** draw()'s collision branch: step back up, merge, clear full rows and spawn the chosen
        piece. */
    method Lock(choice: nat, ghost s: Snapshot, ghost next: Grid)
      requires Valid() && choice < |Keys| && Keys[choice] in service.pieces
      requires s == State() && Fits(s.arena, s.matrix, Up(s.pos))
      requires next == GridOf(service.pieces[Keys[choice]])
      modifies this`pos, this`arena, this`rowsCompleted, this`matrix, this`pieceKey, set r | r in arena
      ensures Valid()
      ensures var merged := Merged(s.arena, s.matrix, Up(s.pos));
        State() == Snapshot(Cleared(merged), next, Offset(SpawnX, SpawnY), s.rowsCompleted + CountFull(merged))
      ensures forall c :: c in service.pieces ==> unchanged(service.pieces[c])
    {
      Settle(s);
      GetPiece(choice);
      assert GridOf(matrix) == next;
    }

    /** The first three steps of the collision branch: `pos.y--`, mergeArena, checkCompleteRow. */
    method Settle(ghost s: Snapshot)
      requires Valid() && s == State() && Fits(s.arena, s.matrix, Up(s.pos))
      modifies this`pos, this`arena, this`rowsCompleted, set r | r in arena
      ensures Valid()
      ensures RowsOf(arena) == Cleared(Merged(s.arena, s.matrix, Up(s.pos)))
      ensures rowsCompleted == s.rowsCompleted + CountFull(Merged(s.arena, s.matrix, Up(s.pos)))
    {
      ghost var merged := Merged(s.arena, s.matrix, Up(s.pos));
      pos := pos.(y := pos.y - 1);
      assert RowsOf(arena) == s.arena && GridOf(matrix) == s.matrix && pos == Up(s.pos);
      MergeArena();
      assert GridOf(matrix) == s.matrix;
      assert RowsOf(arena) == merged;
      CheckCompleteRow();
    }

    /** Nothing here writes to a catalogue entry, so the catalogue keeps its value. */
    twostate lemma CatalogueKept()
      requires forall c :: c in service.pieces ==> unchanged(service.pieces[c])
      ensures Catalogue() == old(Catalogue())
    {
    }

    /** One timer tick: `pos.y++`, then draw. */
    method Tick(choice: nat)
      requires Valid() && choice < |Keys|
      requires CanResolve(State().(pos := Offset(pos.x, pos.y + 1)))
      modifies this, set r | r in arena
      ensures Valid()
      ensures State() == Ticked(old(State()), old(Catalogue())[Keys[choice]])
      ensures Catalogue() == old(Catalogue())
    {
      ghost var s := State();
      ghost var c := Catalogue();
      pos := pos.(y := pos.y + 1);
      assert State() == s.(pos := Offset(s.pos.x, s.pos.y + 1));
      assert Catalogue() == c;
      Draw(choice);
    }

    /** cmdAction(e): left/right moves undone on collision, space rotates, down steps one
        row, other codes do nothing; then draw. */
    method CmdAction(e: int, choice: nat)
      requires Valid() && choice < |Keys|
      requires e == SpaceKey ==> !Collides(RowsOf(arena), GridOf(matrix), pos)
      requires CanResolve(Command(State(), e))
      modifies this, matrix, set r | r in arena
      ensures Valid()
      ensures var s := Command(old(State()), e);
        State() == Resolved(s, old(Catalogue())[old(pieceKey) := s.matrix][Keys[choice]])
      ensures Catalogue() == old(Catalogue())[old(pieceKey) := Command(old(State()), e).matrix]
    {
      ChoiceInNames(choice);
      Control(e);
      Draw(choice);
    }

    /** cmdAction's switch on the key code, which runs before draw. */
    method Control(e: int)
      requires Valid()
      requires e == SpaceKey ==> !Collides(RowsOf(arena), GridOf(matrix), pos)
      modifies this`pos, matrix
      ensures Valid()
      ensures State() == Command(old(State()), e)
      ensures Catalogue() == old(Catalogue())[pieceKey := GridOf(matrix)]
    {
      if e == LeftKey {
        Shift(-1);
      } else if e == RightKey {
        Shift(1);
      } else if e == SpaceKey {
        PlayerRotate(1);
      } else if e == DownKey {
        pos := pos.(y := pos.y + 1);
      }
      TurnedCatalogue();
    }

    /** A sideways move by dx, undone when the moved piece collides. */
    method Shift(dx: int)
      modifies this`pos
      ensures State() == Shifted(old(State()), dx)
    {
      pos := pos.(x := pos.x + dx);
      var hit := Collide();
      if hit {
        pos := pos.(x := pos.x - dx);
      }
    }
  }
}
