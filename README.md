# ng-tetris game logic in Dafny

This project models the game-state logic of the ng-tetris Angular component (`AppComponent`) and
its piece catalogue (`PiecesService`), and proves what each operation does to the arena, the
active piece and the rows counter.

- `matrix.dfy` (module `Matrix`) covers grids as values (`Grid`) and the value views of the mutable
  structures. `GridOf` views a piece matrix held in an `array2`, and `RowsOf` views an arena
  held as a sequence of row arrays. It also holds the quarter turn `Turn` and the in-place
  `rotate`: a transpose followed by reversing each row or the row order.
- `pieces.dfy` (module `Pieces`) is the constant table of the seven tetrominoes. Its
  `PiecesService` class holds one `array2` object per name. `getPiece` hands out that object
  itself, not a copy, and `createArena(w, h)` builds h fresh zero rows.
- `rules.dfy` (module `Rules`) states the game rules on values. It covers:
  - `collide` as the predicate `Collides`, and `mergeArena` as `Merged`;
  - the wall-kick search of `playerRotate` as `KickStep`, `KickX`, `Tries` and `FirstFree`, and the whole rotation as `Rotated`;
  - `cmdAction`'s switch as `Command`, and `checkCompleteRow` as `Cleared`, `CountFull` and `Survivors`;
  - the resolve step of `draw` as `Resolved`, and a timer tick as `Ticked`.

  The lemmas beside these functions state what the source promises.
- `game.dfy` (module `App`) holds the class `Game`, the component itself. Its fields are:
  - `arena`, a `seq` of row arrays that `checkCompleteRow` reassigns on splice and unshift;
  - `rowsCompleted`;
  - `matrix`, the catalogue's own `array2`;
  - `pos`.

  Each method mirrors one method of the component, loops included. It is proved to move the value `State()` exactly as
  the matching function of `Rules` says. `Catalogue()` tracks the catalogue entries: rotating the active
  piece in place also rotates its catalogue entry, because they are one object.

## Model

| member | source | states |
|---|---|---|
| Matrix.Transpose | src/app/app.component.ts:120-124 | after the nested swap loops every cell (i, j) holds the old cell (j, i) |
| Matrix.ReverseEachRow | src/app/app.component.ts:125-126 | every row is reversed in place |
| Matrix.ReverseRowOrder | src/app/app.component.ts:127-128 | the order of the rows is reversed |
| Matrix.TurnBySteps | src/app/app.component.ts:119-130 | a transpose followed by a row reversal (dir > 0) or a row-order reversal is exactly the quarter turn `Turn(m, dir)` |
| Matrix.Rotate | src/app/app.component.ts:119-130 | `rotate(matrix, dir)` leaves the matrix holding `Turn(old matrix, dir)`: clockwise for dir > 0, counter-clockwise otherwise |
| Matrix.TurnUndo | src/app/app.component.ts:109-114 | turning by -dir undoes a turn by dir (dir != 0), which is what lets playerRotate give up and restore the piece |
| Matrix.HalfTurn | src/app/app.component.ts:119-130 | two turns in one direction map cell (i, j) to (n-1-i, n-1-j), whichever the direction |
| Matrix.FourTurns | src/app/app.component.ts:119-130 | four turns in the same direction give back the original matrix |
| Matrix.TurnPermutes | src/app/app.component.ts:119-130 | a turn is a bijection of cell positions in both directions, so the dimensions and the multiset of cell values are kept |
| Pieces.TableSquare | src/app/pieces.service.ts:8-42 | every catalogue piece is an n by n matrix with 2 <= n <= 4, as rotate's transpose needs |
| Pieces.TableWeight | src/app/pieces.service.ts:8-42 | every catalogue piece has exactly four nonzero cells |
| Pieces.TableIds | src/app/pieces.service.ts:8-42 | every nonzero cell of a piece holds that piece's id: O=1, I=2, Z=3, S=4, L=5, J=6, T=7 |
| Pieces.IdsFollowKeys | src/app/pieces.service.ts:8-42 | the ids are 1..7, one per name, in the order of the string 'OIZSLJT' |
| Pieces.FromGrid | src/app/pieces.service.ts:8-42 | each catalogue entry is a fresh square matrix object holding its table value |
| Pieces.PiecesService.constructor | src/app/pieces.service.ts:7-43 | the catalogue has exactly the seven names; each entry is a distinct fresh square matrix holding its table value |
| Pieces.PiecesService.GetPiece | src/app/pieces.service.ts:44-46 | `getPiece(n)` returns the stored matrix object itself for each of the seven names, and nothing for any other name |
| Pieces.PiecesService.CreateArena | src/app/pieces.service.ts:47-53 | `createArena(w, h)` returns exactly h rows of length w, all zero, each a freshly allocated array distinct from the others |
| Rules.OutsideCollides | src/app/app.component.ts:137 | an occupied piece cell outside the arena's rows or columns is a collision: the missing cell reads as undefined, which is not 0 |
| Rules.NoCollisionFits | src/app/app.component.ts:131-144 | a piece that does not collide lies wholly inside the arena |
| Rules.EmptyArenaCollision | src/app/app.component.ts:131-144 | on an empty arena a piece collides if and only if some occupied cell falls outside it |
| Rules.MergeWrites | src/app/app.component.ts:88-96 | merging writes each nonzero piece value at (y + pos.y, x + pos.x) and keeps every other cell, including the cells under zero piece cells |
| Rules.MergeKeepsFilled | src/app/app.component.ts:88-96 | merging a piece that does not collide overwrites no filled arena cell |
| Rules.MergeLocks | src/app/app.component.ts:88-96 | once merged, a piece with an occupied cell collides where it lies |
| Rules.MergeRowOutside | src/app/app.component.ts:89-95 | arena rows that no piece row reaches are left as they were |
| Rules.KickClosed | src/app/app.component.ts:108-112 | the offset recurrence gives offsets 1, -2, 3, -4, ... and tries x at pos, pos+1, pos-1, pos+2, pos-2, ... |
| Rules.Tries | src/app/app.component.ts:112-113 | the number of tries before giving up is at least 2 and greater than the width minus one; above 2 it is at most the width plus one |
| Rules.TriesClosed | src/app/app.component.ts:112-113 | the number of tries is the matrix width rounded up to even, and at least 2 |
| Rules.GiveUpAt | src/app/app.component.ts:112-116 | the offset computed after try k exceeds the width exactly when try k was the last one |
| Rules.FirstFree | src/app/app.component.ts:110-117 | the search result lies between the try it starts from and the number of tries |
| Rules.FirstFreeSpec | src/app/app.component.ts:110-117 | the search stops at a try where the turned piece is free, or gives up; every try it passes over collides |
| Rules.RotatedOutcome | src/app/app.component.ts:106-118 | from a free position, rotation ends free and keeps the arena, the counter and y; when every try collides, matrix and x are as before |
| Rules.SideMove | src/app/app.component.ts:67-78 | left/right change x by exactly one if and only if the moved piece is free, and leave it unchanged otherwise; matrix, y, arena and counter are untouched; a free piece stays free |
| Rules.DownAndOtherKeys | src/app/app.component.ts:66-85 | down adds 1 to y with no check; any other key code changes nothing |
| Rules.CommandKeepsFree | src/app/app.component.ts:60-87 | no command changes the arena or the counter, and every command but down keeps a free piece free |
| Rules.SurvivorsCount | src/app/app.component.ts:160-168 | each row is either counted as full or survives |
| Rules.SurvivorsInOrder | src/app/app.component.ts:160-168 | the surviving rows are exactly the rows that are not full, in their original order |
| Rules.SurvivorsNotFull | src/app/app.component.ts:160-168 | no surviving row is full |
| Rules.ClearedShape | src/app/app.component.ts:160-168 | clearing keeps the number of rows, and afterwards no row is full |
| Rules.ClearedWidth | src/app/app.component.ts:164 | an arena of 12-wide rows stays 12 wide after clearing, since the unshifted row is 12 wide |
| Rules.ClearAppend | src/app/app.component.ts:160-168 | counting and keeping rows distribute over concatenation |
| Rules.NoFullRows | src/app/app.component.ts:160-168 | an arena without full rows is left as it is with a count of 0 |
| Rules.ClearOneRow | src/app/app.component.ts:160-168 | with one full row f, clearing removes it, puts one zero row of width 12 on top, keeps the rest in order and counts 1 |
| Rules.ClearSplit | src/app/app.component.ts:160-168 | one full row between two rows without full rows clears to a zero row followed by the two parts |
| Rules.OneFullRow | src/app/app.component.ts:162-165 | a single full row clears to one zero row of width 12 and counts 1 |
| Rules.ClearStep | src/app/app.component.ts:161-167 | one scan step keeps the row under test at its original index and extends the cleared prefix by one row: splice and unshift when full, nothing otherwise |
| Rules.ResolveOutcome | src/app/app.component.ts:148-156 | a free piece leaves the state unchanged. A colliding piece is merged one row up with all its cells written. Full rows are cleared, the height is kept, the counter grows by the number of full rows and the next piece stands at (5, 0) |
| Rules.TickOutcome | src/app/app.component.ts:54-57 | from a free position a tick can always resolve: the piece moves down one row if that is free, and is otherwise locked exactly where it was |
| App.IdsIndexColors | src/app/app.component.ts:34-43 | every piece id indexes a real colour of the table, never the reserved slot 0 |
| App.DrawnIndexMissesT | src/app/app.component.ts:100 | the index as written is below 6, so 'T' is never drawn |
| App.PieceIndexCovers | src/app/app.component.ts:98-101 | the index as intended is always a valid name, and each of the seven names is drawn for some random value |
| App.SpliceRows | src/app/app.component.ts:163-164 | splicing a row out and unshifting a new array keeps the rows distinct arrays, with the new row on top and the others in order |
| App.Game.constructor | src/app/app.component.ts:180-183 | ngAfterViewInit: the chosen piece at (5, 0) on an empty 20 by 12 arena with a counter of 0, and the first draw finds no collision |
| App.Game.Collide | src/app/app.component.ts:131-144 | `collide` is true exactly when some nonzero piece cell falls outside the arena or on a nonzero arena cell |
| App.Game.MergeArena | src/app/app.component.ts:88-96 | `mergeArena` leaves the arena equal to the merged grid `Merged(old arena, matrix, pos)` |
| App.Game.MergeRow | src/app/app.component.ts:89-95 | one pass of the outer loop extends the merged band of the arena by one row |
| App.Game.MergeLine | src/app/app.component.ts:90-94 | piece row y lands on arena row y + pos.y as `MergedRow`; every other row is unchanged |
| App.Game.MergeInto | src/app/app.component.ts:90-94 | the inner loop leaves the arena row equal to its merged value |
| App.Game.CheckCompleteRow | src/app/app.component.ts:160-168 | `checkCompleteRow` leaves the arena equal to `Cleared` of the old arena, and adds the number of full rows to the counter |
| App.Game.CheckRow | src/app/app.component.ts:161-167 | one loop iteration keeps the scan invariant: the prefix is cleared and counted, and the rest is untouched |
| App.Game.DropRow | src/app/app.component.ts:163-164 | splice then unshift: a 12-wide zero row on top, the other rows in order, and the height kept |
| App.Game.GetPiece | src/app/app.component.ts:97-105 | `getPiece` makes the catalogue's own matrix for the chosen name the active piece, at (5, 0), and leaves the arena alone |
| App.Game.PlayerRotate | src/app/app.component.ts:106-118 | from a free position `playerRotate(dir)` ends in `Rotated(old state, dir)`; the active piece's catalogue entry changes with it, and no other entry changes |
| App.Game.TurnAndKick | src/app/app.component.ts:107-117 | turning and then searching leaves the state at `Rotated(old state, dir)` |
| App.Game.TurnedCatalogue | src/app/app.component.ts:99-109 | turning the active matrix changes exactly its own catalogue entry |
| App.Game.Kick | src/app/app.component.ts:110-117 | the loop stops at the first free try with the turned matrix and x at that try, or gives up with the matrix turned back and x restored; y and the arena are untouched |
| App.Game.KickPass | src/app/app.component.ts:110-117 | one loop pass moves the search from try k to try k + 1, or gives up after the last try |
| App.Game.KickOnce | src/app/app.component.ts:111-116 | the loop body adds the offset to x and computes the next offset; past the width it turns the matrix back and restores x |
| App.Game.Draw | src/app/app.component.ts:148-156 | the non-rendering part of `draw` leaves the state at `Resolved(old state, next piece)` and keeps the catalogue |
| App.Game.Lock | src/app/app.component.ts:151-156 | the collision branch: merged one row up, cleared, counted, and the next piece spawned at (5, 0) |
| App.Game.Settle | src/app/app.component.ts:152-154 | `pos.y--`, then mergeArena, then checkCompleteRow, leave the cleared merged arena and the counter grown by its full rows |
| App.Game.CatalogueKept | src/app/app.component.ts:148-156 | draw writes to no catalogue entry |
| App.Game.Tick | src/app/app.component.ts:54-57 | a timer tick (`pos.y++`, then draw) leaves the state at `Ticked(old state, next piece)` |
| App.Game.CmdAction | src/app/app.component.ts:60-87 | `cmdAction(e)` applies `Command` for the key code, then the resolve step; only the active piece's catalogue entry can change (by rotation) |
| App.Game.Control | src/app/app.component.ts:66-85 | the key switch leaves the state at `Command(old state, e)` |
| App.Game.Shift | src/app/app.component.ts:67-78 | a sideways move by dx is undone when the moved piece collides |

## Left out

- Rendering is not modelled: `drawMatrix`, the canvas context and `initCanvas`'s canvas lookup. The colour table is kept only to state that piece ids index real colours.
- The RxJS `interval(1000)` and `fromEvent(document, 'keydown')` subscriptions are not modelled. A tick is the call `Game.Tick`, and a key press is the call `Game.CmdAction`.
- `Math.random` becomes the parameter `choice`, the index into 'OIZSLJT' that getPiece computes; randomness itself is not modelled. The methods take the index as intended (any of the seven names). See Findings.
- Angular dependency injection, decorators and lifecycle hooks are not modelled. The service is a constructor argument. The constructor performs ngAfterViewInit's `getPiece` and `createArena(12, 20)`, and proves that the first `draw` finds no collision, so that draw changes nothing.
- draw's early return when `player.matrix` is unset is not modelled. In this model a matrix is always set, since getPiece runs before the first draw.
- Numbers are unbounded integers. JavaScript numbers are doubles, but every value here is a small integer.
- App.Game.MergeArena: requires every occupied piece cell to land inside the arena. In JavaScript, a row outside the arena makes mergeArena throw. A column at or past the row's end extends the row array. A negative column adds a non-index property such as "-1", which leaves the row's length unchanged but which a later `collide` reads as nonzero. None of these cases is modelled.
- App.Game.Draw: requires `CanResolve`: a colliding piece must fit one row up, which is what the merge above needs. A piece locking above the top row has no defined outcome in the source (no game-over exists), so it is excluded.
- App.Game.Tick: requires `CanResolve` after the step down; `Rules.TickOutcome` shows that this always holds from a free position.
- App.Game.PlayerRotate: requires the piece to be free before the call. From a colliding start the source's loop need not end. After the first give-up the offset is never reset, so every second pass finds it past the width again. Each time, the loop turns the piece by -dir once more, going through all four orientations and never turning back by +dir. Between give-ups it tests x at pos and at pos+T+1, pos+T+3, ..., ever further to the right (T = the number of tries). The x = pos - 1 that each give-up computes is reset to pos before it is tested.
- Pieces.PiecesService.CreateArena: takes w and h as naturals. For a negative or fractional h, `while (h--)` never ends, and `new Array(w)` throws for a negative w. The only caller passes (12, 20).
- App.Game.PlayerRotate: requires dir != 0. For dir == 0, rotate's `-dir` is again not positive, so giving up would turn the piece a second time in the same direction instead of back. The only caller passes 1.
- App.Game.CmdAction: requires a free piece for the space key (see PlayerRotate), and `CanResolve` after the command (see Draw).
- App.Game.Kick: the index of the try it stopped at is returned as a ghost value. The loop body is split into KickPass and KickOnce, and the entry and exit steps into the lemmas KickBegins and KickEnds.
- App.Game.MergeRow, MergeLine, MergeInto, CheckRow, DropRow, Lock, Settle, Control, Shift and TurnAndKick are the source's loop bodies and branches split into methods, so that each proof stays small. Likewise Pieces.NewFourPieces and Pieces.NewThreePieces split the allocation of the `pieces` table between them. They run the same steps in the same order.
- App.Game.MergeLine: skips the inner loop when the piece row lies outside the arena. Such a row has no nonzero cell when the merge is in bounds, so the source writes nothing there either.
- Matrix.TurnPermutes: states that cell values are kept as an explicit bijection of positions, not as an equality of multisets.
- The width of the row that checkCompleteRow inserts stays hard-coded at 12, as in the source. `Rules.ClearedWidth` shows that this matches the arena only because the arena is 12 wide.
- The component has no game-over state and no pause/reset menu. Its spawn position is the fixed (5, 0); a computed column is left commented out at app.component.ts:104.
- getPiece hands out the catalogue's own object, not a copy, and the model keeps that aliasing.

## Findings

| source | as written | input that shows it | evidently intended | confidence | as-written member | corrected member |
|---|---|---|---|---|---|---|
| src/app/app.component.ts:100 | `Math.floor(Math.random() * 6)` indexes only the first six of the seven names in 'OIZSLJT' | every random value in [0, 1) gives an index of at most 5 (0.99 gives 5, 'J'), so 'T' at index 6 is never drawn | multiply by 7, the number of names, so that every piece can be drawn | not executed | App.DrawnIndexMissesT | App.PieceIndexCovers |
