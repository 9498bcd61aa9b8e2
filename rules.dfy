/** The game rules of AppComponent stated on values: collision, merging, the
    wall-kick search of playerRotate, row clearing, key commands and the resolve
    step of draw. The class in game.dfy is proved to follow these functions. */
module Rules {
  import opened Matrix

  /** A piece's top-left anchor in arena coordinates (IOffset). */
  datatype Offset = Offset(x: int, y: int)

  /** Everything the game logic reads and writes: the arena, the active piece and the counter. */
  datatype Snapshot = Snapshot(arena: Grid, matrix: Grid, pos: Offset, rowsCompleted: int)

  // ----- collide -----

  predicate InArena(arena: Grid, r: int, c: int) {
    0 <= r < |arena| && 0 <= c < |arena[r]|
  }

  /** The value of `(arena[r] && arena[r][c]) !== 0`: a missing row or column reads as
      undefined, which is never 0, so every cell outside the arena is blocked. */
  predicate Blocked(arena: Grid, r: int, c: int) {
    !InArena(arena, r, c) || arena[r][c] != 0
  }

  /** Cell (i, j) of the piece matrix exists and is part of the piece. */
  predicate Occupied(m: Grid, i: int, j: int) {
    0 <= i < |m| && 0 <= j < |m[i]| && m[i][j] != 0
  }

  predicate Hits(arena: Grid, m: Grid, p: Offset, i: int, j: int) {
    Occupied(m, i, j) && Blocked(arena, i + p.y, j + p.x)
  }

  /** collide(arena, player): some piece cell lands outside the arena or on a filled cell. */
  predicate Collides(arena: Grid, m: Grid, p: Offset) {
    exists i, j {:trigger Hits(arena, m, p, i, j)} :: 0 <= i < |m| && 0 <= j < |m[i]| && Hits(arena, m, p, i, j)
  }

  /** Every piece cell lands inside the arena (what mergeArena needs not to fail). */
  predicate Fits(arena: Grid, m: Grid, p: Offset) {
    forall i, j :: 0 <= i < |m| && 0 <= j < |m[i]| && Occupied(m, i, j) ==> InArena(arena, i + p.y, j + p.x)
  }

  /** A piece cell outside the arena is a collision. */
  lemma OutsideCollides(arena: Grid, m: Grid, p: Offset, i: int, j: int)
    requires Occupied(m, i, j) && !InArena(arena, i + p.y, j + p.x)
    ensures Collides(arena, m, p)
  {
    assert Hits(arena, m, p, i, j);
  }

  /** A piece that does not collide lies wholly inside the arena. */
  lemma NoCollisionFits(arena: Grid, m: Grid, p: Offset)
    requires !Collides(arena, m, p)
    ensures Fits(arena, m, p)
  {
    forall i, j | Occupied(m, i, j)
      ensures InArena(arena, i + p.y, j + p.x)
    {
      if !InArena(arena, i + p.y, j + p.x) {
        assert Hits(arena, m, p, i, j);
      }
    }
  }

  /** On an empty arena a piece collides exactly when it does not fit. */
  lemma EmptyArenaCollision(arena: Grid, m: Grid, p: Offset)
    requires forall r, c :: InArena(arena, r, c) ==> arena[r][c] == 0
    ensures Collides(arena, m, p) <==> !Fits(arena, m, p)
  {
    if !Fits(arena, m, p) {
      var i, j :| Occupied(m, i, j) && !InArena(arena, i + p.y, j + p.x);
      assert Hits(arena, m, p, i, j);
    }
  }

  // ----- mergeArena -----

  /** Arena cell (r, c) lies under an occupied cell of the piece. */
  predicate Covers(m: Grid, p: Offset, r: int, c: int) {
    Occupied(m, r - p.y, c - p.x)
  }

  /** The arena after mergeArena: each occupied piece cell copied onto the cell below it. */
  function Merged(arena: Grid, m: Grid, p: Offset): (g: Grid)
    ensures |g| == |arena| && forall r :: 0 <= r < |g| ==> |g[r]| == |arena[r]|
  {
    seq(|arena|, r requires 0 <= r < |arena| => MergedRow(arena[r], m, p, r))
  }

  /** Row r of the merged arena, from row r of the arena before. */
  function MergedRow(row: seq<int>, m: Grid, p: Offset, r: int): (g: seq<int>)
    ensures |g| == |row|
  {
    seq(|row|, c requires 0 <= c < |row| => if Covers(m, p, r, c) then m[r - p.y][c - p.x] else row[c])
  }

  /** Merging writes every occupied piece value at (i + p.y, j + p.x) and keeps every other
      cell, including the cells under the piece's empty cells. */
  lemma MergeWrites(arena: Grid, m: Grid, p: Offset)
    requires Fits(arena, m, p)
    ensures forall i, j :: Occupied(m, i, j) ==> Merged(arena, m, p)[i + p.y][j + p.x] == m[i][j]
    ensures forall r, c :: InArena(arena, r, c) && !Covers(m, p, r, c) ==> Merged(arena, m, p)[r][c] == arena[r][c]
  {
    forall i, j | Occupied(m, i, j)
      ensures Merged(arena, m, p)[i + p.y][j + p.x] == m[i][j]
    {
      assert InArena(arena, i + p.y, j + p.x);
      assert Covers(m, p, i + p.y, j + p.x);
    }
  }

  /** Merging a piece that does not collide overwrites no filled cell. */
  lemma MergeKeepsFilled(arena: Grid, m: Grid, p: Offset)
    requires !Collides(arena, m, p)
    ensures forall r, c :: InArena(arena, r, c) && arena[r][c] != 0 ==> Merged(arena, m, p)[r][c] == arena[r][c]
  {
    forall r, c | InArena(arena, r, c) && arena[r][c] != 0
      ensures Merged(arena, m, p)[r][c] == arena[r][c]
    {
      if Covers(m, p, r, c) {
        assert Hits(arena, m, p, r - p.y, c - p.x);
      }
    }
  }

  /** Once merged, the piece collides where it lies: its cells are now filled. */
  lemma MergeLocks(arena: Grid, m: Grid, p: Offset, i: int, j: int)
    requires Fits(arena, m, p) && Occupied(m, i, j)
    ensures Collides(Merged(arena, m, p), m, p)
  {
    MergeWrites(arena, m, p);
    assert Hits(Merged(arena, m, p), m, p, i, j);
  }

  /** Arena rows the piece's rows do not reach are left as they were. */
  lemma MergeRowOutside(arena: Grid, m: Grid, p: Offset, r: int)
    requires 0 <= r < |arena| && !(0 <= r - p.y < |m|)
    ensures Merged(arena, m, p)[r] == arena[r]
  {
  }

  // ----- playerRotate's kick search -----

  /** The value of `offset` when step k is tried: it starts at 1 and each step sets it to
      `-(offset + (offset > 0 ? 1 : -1))`. */
  function KickStep(k: nat): int {
    if k == 0 then 1
    else
      var o := KickStep(k - 1);
      -(o + (if o > 0 then 1 else -1))
  }

  /** The x tried at step k: the starting x moved by every earlier offset. */
  function KickX(x: int, k: nat): int {
    if k == 0 then x else KickX(x, k - 1) + KickStep(k - 1)
  }

  /** The search order is pos, pos+1, pos-1, pos+2, pos-2, ... with offsets 1, -2, 3, -4, ... */
  lemma {:induction false} KickClosed(x: int, k: nat)
    ensures KickStep(k) == if k % 2 == 0 then k + 1 else -(k + 1)
    ensures KickX(x, k) == x + (if k % 2 == 1 then (k + 1) / 2 else -(k / 2))
  {
    if k > 0 {
      KickClosed(x, k - 1);
    }
  }

  /** How many x positions playerRotate tests for a piece of width w: the search gives up
      at the first even step k >= 2 whose offset k + 1 exceeds w. */
  function Tries(w: int): (n: nat)
    decreases w
    ensures n >= 2 && n + 1 > w
    ensures n > 2 ==> n - 1 <= w
  {
    if w <= 2 then 2 else Tries(w - 2) + 2
  }

  /** Tries(w) is w rounded up to even, and never below 2. */
  lemma {:induction false} TriesClosed(w: int)
    decreases w
    ensures Tries(w) == if w <= 2 then 2 else w + w % 2
  {
    if w > 2 {
      TriesClosed(w - 2);
    }
  }

  /** The search gives up exactly after the last try: the offset computed after try k
      exceeds the width just when k + 1 is Tries(w). */
  lemma GiveUpAt(w: nat, k: nat)
    requires k < Tries(w)
    ensures KickStep(k + 1) > w <==> k + 1 == Tries(w)
  {
    KickClosed(0, k + 1);
    TriesClosed(w);
    if w > 2 {
      if (k + 1) % 2 == 0 && k + 2 > w {
        assert k + 1 == w || k == w;
      }
    }
  }

  /** The first step at or after k whose x position is free, or Tries(w) if none is. */
  function FirstFree(arena: Grid, m: Grid, p: Offset, w: int, k: nat): (r: nat)
    requires k <= Tries(w)
    decreases Tries(w) - k
    ensures k <= r <= Tries(w)
  {
    if k == Tries(w) || !Collides(arena, m, Offset(KickX(p.x, k), p.y)) then k
    else FirstFree(arena, m, p, w, k + 1)
  }

  /** FirstFree finds a free step when it stops short of Tries(w), and every step it passes
      over collides. */
  lemma {:induction false} FirstFreeSpec(arena: Grid, m: Grid, p: Offset, w: int, k: nat)
    requires k <= Tries(w)
    decreases Tries(w) - k
    ensures var r := FirstFree(arena, m, p, w, k);
      && (r < Tries(w) ==> !Collides(arena, m, Offset(KickX(p.x, r), p.y)))
      && forall j :: k <= j < r ==> Collides(arena, m, Offset(KickX(p.x, j), p.y))
  {
    if k < Tries(w) && Collides(arena, m, Offset(KickX(p.x, k), p.y)) {
      FirstFreeSpec(arena, m, p, w, k + 1);
    }
  }

  /** playerRotate(dir): the turned piece at the first free x, or the state unchanged. */
  function Rotated(s: Snapshot, dir: int): Snapshot
    requires IsSquare(s.matrix)
  {
    var t := Turn(s.matrix, dir);
    var k := FirstFree(s.arena, t, s.pos, |t|, 0);
    if k < Tries(|t|) then s.(matrix := t, pos := Offset(KickX(s.pos.x, k), s.pos.y)) else s
  }

  /** From a free position, rotation ends free and keeps the arena, the counter and y; when
      every tried x collides it leaves matrix and x as they were. */
  lemma RotatedOutcome(s: Snapshot, dir: int)
    requires IsSquare(s.matrix) && !Collides(s.arena, s.matrix, s.pos)
    ensures var r := Rotated(s, dir);
      && r.arena == s.arena && r.rowsCompleted == s.rowsCompleted && r.pos.y == s.pos.y
      && !Collides(r.arena, r.matrix, r.pos)
    ensures var t := Turn(s.matrix, dir);
      (forall k :: 0 <= k < Tries(|s.matrix|) ==> Collides(s.arena, t, Offset(KickX(s.pos.x, k), s.pos.y)))
      ==> Rotated(s, dir) == s
  {
    var t := Turn(s.matrix, dir);
    var f := FirstFree(s.arena, t, s.pos, |t|, 0);
    FirstFreeSpec(s.arena, t, s.pos, |t|, 0);
    if f < Tries(|t|) {
      assert !Collides(s.arena, t, Offset(KickX(s.pos.x, f), s.pos.y));
    }
  }

  // ----- cmdAction -----

  const LeftKey := 37
  const RightKey := 39
  const SpaceKey := 32
  const DownKey := 40

  /** Move sideways by dx, undone when the moved piece collides. */
  function Shifted(s: Snapshot, dx: int): Snapshot {
    var q := Offset(s.pos.x + dx, s.pos.y);
    if Collides(s.arena, s.matrix, q) then s else s.(pos := q)
  }

  /** The state change of cmdAction's switch on a key code, before it calls draw. */
  function Command(s: Snapshot, e: int): Snapshot
    requires IsSquare(s.matrix)
  {
    if e == LeftKey then Shifted(s, -1)
    else if e == RightKey then Shifted(s, 1)
    else if e == SpaceKey then Rotated(s, 1)
    else if e == DownKey then s.(pos := Offset(s.pos.x, s.pos.y + 1))
    else s
  }

  /** Left and right move x by exactly one when the moved piece is free and not at all
      otherwise; nothing else changes, and a free piece stays free. */
  lemma SideMove(s: Snapshot, e: int)
    requires IsSquare(s.matrix) && (e == LeftKey || e == RightKey)
    ensures var r := Command(s, e); var dx := if e == RightKey then 1 else -1;
      && r.arena == s.arena && r.matrix == s.matrix && r.rowsCompleted == s.rowsCompleted
      && r.pos.y == s.pos.y
      && (r.pos.x == s.pos.x + dx <==> !Collides(s.arena, s.matrix, Offset(s.pos.x + dx, s.pos.y)))
      && (r.pos.x == s.pos.x || r.pos.x == s.pos.x + dx)
      && (!Collides(s.arena, s.matrix, s.pos) ==> !Collides(r.arena, r.matrix, r.pos))
  {
  }

  /** Down moves one row without any check; unknown key codes change nothing. */
  lemma DownAndOtherKeys(s: Snapshot, e: int)
    requires IsSquare(s.matrix)
    ensures e == DownKey ==> Command(s, e) == s.(pos := Offset(s.pos.x, s.pos.y + 1))
    ensures e !in {LeftKey, RightKey, SpaceKey, DownKey} ==> Command(s, e) == s
  {
  }

  /** No command touches the arena or the counter, and every command but Down keeps a
      free piece free. */
  lemma CommandKeepsFree(s: Snapshot, e: int)
    requires IsSquare(s.matrix) && !Collides(s.arena, s.matrix, s.pos)
    ensures Command(s, e).arena == s.arena && Command(s, e).rowsCompleted == s.rowsCompleted
    ensures e != DownKey ==> !Collides(Command(s, e).arena, Command(s, e).matrix, Command(s, e).pos)
  {
    if e == SpaceKey {
      RotatedOutcome(s, 1);
    }
  }

  // ----- checkCompleteRow -----

  /** The width of the row checkCompleteRow inserts (`new Array(12)`). */
  const NewRowWidth := 12

  /** A row with no 0 in it (`!row.includes(0)`). */
  predicate Full(row: seq<int>) {
    0 !in row
  }

  function ZeroRow(w: nat): seq<int> {
    seq(w, _ => 0)
  }

  function ZeroRows(k: nat, w: nat): Grid {
    seq(k, _ => ZeroRow(w))
  }

  /** Number of full rows. */
  function CountFull(rows: Grid): nat {
    if rows == [] then 0
    else CountFull(rows[..|rows| - 1]) + (if Full(rows[|rows| - 1]) then 1 else 0)
  }

  /** The rows that are not full, in their order. */
  function Survivors(rows: Grid): Grid {
    if rows == [] then []
    else Survivors(rows[..|rows| - 1]) + (if Full(rows[|rows| - 1]) then [] else [rows[|rows| - 1]])
  }

  /** The indices of the rows that are not full, in increasing order. */
  function SurvivorIndices(rows: Grid): seq<nat> {
    if rows == [] then []
    else SurvivorIndices(rows[..|rows| - 1]) + (if Full(rows[|rows| - 1]) then [] else [|rows| - 1])
  }

  /** The arena after checkCompleteRow: one zero row on top for each full row removed. */
  function Cleared(rows: Grid): Grid {
    ZeroRows(CountFull(rows), NewRowWidth) + Survivors(rows)
  }

  /** Every row is either counted as full or survives. */
  lemma {:induction false} SurvivorsCount(rows: Grid)
    ensures |Survivors(rows)| + CountFull(rows) == |rows|
  {
    if rows != [] {
      SurvivorsCount(rows[..|rows| - 1]);
    }
  }

  /** The survivors are exactly the rows that are not full, in their original order. */
  lemma {:induction false} SurvivorsInOrder(rows: Grid)
    ensures var ix := SurvivorIndices(rows);
      && |ix| == |Survivors(rows)|
      && (forall k :: 0 <= k < |ix| ==> ix[k] < |rows| && Survivors(rows)[k] == rows[ix[k]])
      && (forall k, k' :: 0 <= k < k' < |ix| ==> ix[k] < ix[k'])
      && (forall i :: 0 <= i < |rows| ==> (i in ix <==> !Full(rows[i])))
  {
    if rows != [] {
      var front := rows[..|rows| - 1];
      SurvivorsInOrder(front);
      var ix := SurvivorIndices(rows);
      assert forall i :: 0 <= i < |front| ==> front[i] == rows[i];
      assert forall i :: i in SurvivorIndices(front) ==> i < |front|;
    }
  }

  /** No surviving row is full. */
  lemma SurvivorsNotFull(rows: Grid)
    ensures forall k :: 0 <= k < |Survivors(rows)| ==> !Full(Survivors(rows)[k])
  {
    SurvivorsInOrder(rows);
  }

  /** Clearing keeps the number of rows, and afterwards no row is full. */
  lemma ClearedShape(rows: Grid)
    ensures |Cleared(rows)| == |rows|
    ensures forall k :: 0 <= k < |Cleared(rows)| ==> !Full(Cleared(rows)[k])
  {
    SurvivorsCount(rows);
    SurvivorsNotFull(rows);
    var z := ZeroRows(CountFull(rows), NewRowWidth);
    forall k | 0 <= k < |Cleared(rows)|
      ensures !Full(Cleared(rows)[k])
    {
      if k < |z| {
        assert Cleared(rows)[k][0] == 0;
      } else {
        assert Cleared(rows)[k] == Survivors(rows)[k - |z|];
      }
    }
  }

  /** An arena whose rows are all 12 wide stays 12 wide after clearing. */
  lemma ClearedWidth(rows: Grid)
    requires forall r :: 0 <= r < |rows| ==> |rows[r]| == NewRowWidth
    ensures forall r :: 0 <= r < |Cleared(rows)| ==> |Cleared(rows)[r]| == NewRowWidth
  {
    SurvivorsInOrder(rows);
  }

  lemma {:induction false} ClearAppend(a: Grid, b: Grid)
    ensures CountFull(a + b) == CountFull(a) + CountFull(b)
    ensures Survivors(a + b) == Survivors(a) + Survivors(b)
  {
    if b == [] {
      assert a + b == a;
    } else {
      var b' := b[..|b| - 1];
      ClearAppend(a, b');
      assert (a + b)[..|a + b| - 1] == a + b';
    }
  }

  lemma {:induction false} NoFullRows(rows: Grid)
    requires forall r :: 0 <= r < |rows| ==> !Full(rows[r])
    ensures CountFull(rows) == 0 && Survivors(rows) == rows
  {
    if rows != [] {
      NoFullRows(rows[..|rows| - 1]);
    }
  }

  /** With exactly one full row f, clearing removes that row, puts one 12-wide zero row on
      top, keeps the rest, and counts one. */
  lemma {:induction false} ClearOneRow(rows: Grid, f: nat)
    requires f < |rows| && Full(rows[f])
    requires forall r :: 0 <= r < |rows| && r != f ==> !Full(rows[r])
    ensures CountFull(rows) == 1
    ensures Cleared(rows) == [ZeroRow(NewRowWidth)] + rows[..f] + rows[f + 1..]
  {
    var a, b := rows[..f], rows[f + 1..];
    forall r | 0 <= r < |a|
      ensures !Full(a[r])
    {
      assert a[r] == rows[r];
    }
    forall r | 0 <= r < |b|
      ensures !Full(b[r])
    {
      assert b[r] == rows[f + 1 + r];
    }
    assert rows == a + [rows[f]] + b;
    ClearSplit(a, rows[f], b);
  }

  lemma {:induction false} ClearSplit(a: Grid, row: seq<int>, b: Grid)
    requires Full(row)
    requires forall r :: 0 <= r < |a| ==> !Full(a[r])
    requires forall r :: 0 <= r < |b| ==> !Full(b[r])
    ensures CountFull(a + [row] + b) == 1
    ensures Cleared(a + [row] + b) == [ZeroRow(NewRowWidth)] + a + b
  {
    NoFullRows(a);
    NoFullRows(b);
    ClearAppend(a, [row]);
    ClearAppend(a + [row], b);
    OneFullRow(row);
    assert ZeroRows(1, NewRowWidth) == [ZeroRow(NewRowWidth)];
  }

  lemma OneFullRow(row: seq<int>)
    requires Full(row)
    ensures CountFull([row]) == 1 && Survivors([row]) == []
    ensures Cleared([row]) == [ZeroRow(NewRowWidth)]
  {
    assert [row][..0] == [];
  }

  /** One step of checkCompleteRow's scan. With rows[..row] already cleared into the front of
      the arena, row `row` sits at its original index; splicing it out and unshifting a zero
      row (when full), or leaving it (when not), clears rows[..row + 1]. */
  lemma {:induction false} ClearStep(rows: Grid, row: nat)
    requires row < |rows|
    ensures var cur := ZeroRows(CountFull(rows[..row]), NewRowWidth) + Survivors(rows[..row]) + rows[row..];
      && |cur| == |rows| && cur[row] == rows[row]
      && CountFull(rows[..row + 1]) == CountFull(rows[..row]) + (if Full(rows[row]) then 1 else 0)
      && (Full(rows[row]) ==>
            ([ZeroRow(NewRowWidth)] + cur[..row] + cur[row + 1..] ==
             ZeroRows(CountFull(rows[..row + 1]), NewRowWidth) + Survivors(rows[..row + 1]) + rows[row + 1..]))
      && (!Full(rows[row]) ==>
            (cur == ZeroRows(CountFull(rows[..row + 1]), NewRowWidth) + Survivors(rows[..row + 1]) + rows[row + 1..]))
  {
    var pre := rows[..row];
    ScanPrefix(rows, row);
    var head := ZeroRows(CountFull(pre), NewRowWidth) + Survivors(pre);
    SpliceAt(head, rows, row);
    if Full(rows[row]) {
      assert ZeroRows(CountFull(rows[..row + 1]), NewRowWidth) == [ZeroRow(NewRowWidth)] + ZeroRows(CountFull(pre), NewRowWidth);
    }
  }

  /** Extending the scanned prefix by one row adds it to the count or to the survivors. */
  lemma ScanPrefix(rows: Grid, row: nat)
    requires row < |rows|
    ensures CountFull(rows[..row + 1]) == CountFull(rows[..row]) + (if Full(rows[row]) then 1 else 0)
    ensures Survivors(rows[..row + 1]) == Survivors(rows[..row]) + (if Full(rows[row]) then [] else [rows[row]])
    ensures |Survivors(rows[..row])| + CountFull(rows[..row]) == row
  {
    var done := rows[..row + 1];
    assert done[..|done| - 1] == rows[..row];
    SurvivorsCount(rows[..row]);
  }

  /** A head of length row followed by rows[row..]. */
  lemma SpliceAt(head: Grid, rows: Grid, row: nat)
    requires |head| == row < |rows|
    ensures var cur := head + rows[row..];
      && |cur| == |rows| && cur[row] == rows[row] && cur[..row] == head && cur[row + 1..] == rows[row + 1..]
      && rows[row..] == [rows[row]] + rows[row + 1..]
  {
    var cur := head + rows[row..];
    assert cur[..row] == head;
    assert cur[row + 1..] == rows[row + 1..];
  }

  // ----- draw's resolve step and the tick -----

  /** getPiece's spawn position. */
  const SpawnX := 5
  const SpawnY := 0

  function Up(p: Offset): Offset {
    Offset(p.x, p.y - 1)
  }

  /** draw(), without rendering: a colliding piece goes back up one row, is merged, full rows
      are cleared and `next` is spawned; a free piece leaves everything as it is. */
  function Resolved(s: Snapshot, next: Grid): Snapshot {
    if !Collides(s.arena, s.matrix, s.pos) then s
    else
      var merged := Merged(s.arena, s.matrix, Up(s.pos));
      Snapshot(Cleared(merged), next, Offset(SpawnX, SpawnY), s.rowsCompleted + CountFull(merged))
  }

  /** The resolve step can run without the merge failing: a colliding piece fits one row up. */
  predicate CanResolve(s: Snapshot) {
    Collides(s.arena, s.matrix, s.pos) ==> Fits(s.arena, s.matrix, Up(s.pos))
  }

  /** A free piece leaves everything as it is. A colliding piece is locked one row up with
      all its cells written, the counter grows by the number of rows that became full, no
      full row is left, the height is kept and the next piece stands at the spawn position. */
  lemma ResolveOutcome(s: Snapshot, next: Grid)
    requires CanResolve(s)
    ensures !Collides(s.arena, s.matrix, s.pos) ==> Resolved(s, next) == s
    ensures Collides(s.arena, s.matrix, s.pos) ==>
      var r := Resolved(s, next); var merged := Merged(s.arena, s.matrix, Up(s.pos));
      && (forall i, j :: Occupied(s.matrix, i, j) ==> merged[i + s.pos.y - 1][j + s.pos.x] == s.matrix[i][j])
      && r.arena == Cleared(merged) && |r.arena| == |s.arena|
      && (forall k :: 0 <= k < |r.arena| ==> !Full(r.arena[k]))
      && r.rowsCompleted == s.rowsCompleted + CountFull(merged) >= s.rowsCompleted
      && r.matrix == next && r.pos == Offset(SpawnX, SpawnY)
  {
    if Collides(s.arena, s.matrix, s.pos) {
      var merged := Merged(s.arena, s.matrix, Up(s.pos));
      MergeWrites(s.arena, s.matrix, Up(s.pos));
      ClearedShape(merged);
    }
  }

  /** One tick (`pos.y++` then draw). */
  function Ticked(s: Snapshot, next: Grid): Snapshot {
    Resolved(s.(pos := Offset(s.pos.x, s.pos.y + 1)), next)
  }

  /** From a free position a tick never fails: the piece moves down one row if that row is
      free, and is otherwise locked exactly where it was. */
  lemma TickOutcome(s: Snapshot, next: Grid)
    requires !Collides(s.arena, s.matrix, s.pos)
    ensures CanResolve(s.(pos := Offset(s.pos.x, s.pos.y + 1)))
    ensures !Collides(s.arena, s.matrix, Offset(s.pos.x, s.pos.y + 1)) ==>
      Ticked(s, next) == s.(pos := Offset(s.pos.x, s.pos.y + 1))
    ensures Collides(s.arena, s.matrix, Offset(s.pos.x, s.pos.y + 1)) ==>
      var merged := Merged(s.arena, s.matrix, s.pos);
      Ticked(s, next) == Snapshot(Cleared(merged), next, Offset(SpawnX, SpawnY), s.rowsCompleted + CountFull(merged))
  {
    NoCollisionFits(s.arena, s.matrix, s.pos);
    assert Up(Offset(s.pos.x, s.pos.y + 1)) == s.pos;
  }
}
