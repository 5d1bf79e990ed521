# Kids' falling-blocks game engine, modelled in Dafny

This project models the game engine of a falling-blocks puzzle game for young children. The whole game lives in one browser script, `app.js`.

The playing field is a board of 18 rows by 10 columns. Pieces come from seven shape templates (I, O, T, L, J, S, Z). The next piece type is drawn from a "kid-friendly bag" that holds O and I twice each, T, L and J once each, and never S or Z.

The player can:
- move the falling piece sideways;
- turn it a quarter turn clockwise, with a one-column kick to the right and then to the left;
- drop it one row (soft drop) or all the way down (hard drop).

A piece that can fall no further is locked into the board. Then:
- full rows are cleared, and each one scores 100 points and counts one line;
- the queued piece is spawned centred on the top row.

The game has no game-over. When a newly spawned piece overlaps the stack, an emergency rescue empties the top half of the board and awards 30 points.

The model has four modules:

- `Grid` (`grid.dfy`) covers the board.
  - It holds the board constants and the cell and board types, and `CreateBoard`.
  - It holds the row scan and the full-row removal of `clearLines`: `RowIsFull` and `RemoveFullRows`. Both are proved against the specification functions `Kept`, `FullCount` and `Cleared`.
  - It holds the rescue's `Softened` board.
- `Pieces` (`pieces.dfy`) covers the pieces.
  - It holds the shape templates, the bag and `CreatePiece`.
  - It holds the quarter turn `RotateMatrix`, proved against `Rotated`, and its algebra (four quarter turns are the identity).
- `Collision` (`collision.dfy`) covers collision and locking.
  - `Collide` is proved against the predicate `Collides`.
  - `Merged` is the board a locked piece leaves.
  - `LandingY` is the row a hard drop locks at.
- `Engine` (`engine.dfy`) holds the class `Game`.
  - Its fields are the script's session variables: `board`, `score`, `lines`, `paused`, `current` and `next`.
  - Its methods change that state the way the script's functions do.
  - It has a session invariant `Valid()`: the board keeps its size, the falling piece has a proper shape, the falling piece never overlaps the floor, the walls or a locked cell, and the queued piece is a fresh template piece.
  - Every player operation ensures `Valid()`: `Spawn`, `LockPiece`, `HardDrop`, `Move`, `SoftDrop`, `Rotate` and `Restart`. The main reason is that `Spawn` always leaves a falling piece that fits, whether or not the rescue ran.
  - The pause setters change only `paused`.
  - `Merge`, `ClearLines` and `MergeAndClear` are steps inside `LockPiece`. They do not keep `Valid()` on their own: right after a merge, the falling piece overlaps the cells it was merged into.
  - The hard-drop loop (app.js:250-252) ends only because every shape has a filled cell. A shape with none would never collide and would fall forever. Every template has a filled cell (`Template`), and turning keeps one (`RotatedIsShape`), so `LandingY` requires one.

The game's random draw from the bag is replaced by a caller-supplied index `pick < |BAG|`.

## Model

| member | source | states |
|---|---|---|
| Grid.CreateBoard | app.js:57-63 | The new board has ROWS rows of COLS cells, and every cell is empty. |
| Grid.RowIsFull | app.js:194-200 | The inner scan, which stops at the first empty cell, answers true exactly when no cell of the row is empty. |
| Grid.RemoveFullRows | app.js:192-207 | The bottom-up scan removes every full row: the result is one empty row on top for each full row, then the other rows in their original order. The count it returns is the number of full rows. |
| Grid.Cleared | app.js:201-206 | Removing full rows and pushing empty rows on top keeps the board ROWS by COLS. |
| Grid.Softened | app.js:220-225 | The rescue empties exactly the top ROWS / 2 rows and leaves the other rows as they were. |
| Grid.KeptLength | app.js:201-206 | Every row is either kept or counted as full, so no row is lost or duplicated. |
| Grid.KeptRows | app.js:193-207 | Every kept row is a row of the input, and it is not full. |
| Grid.ClearedHasNoFullRow | app.js:191-207 | No full row survives a clear: the pushed rows are empty and the kept rows were not full. |
| Grid.ClearedIdempotent | app.js:191-207 | A second clear finds no full row and changes nothing. |
| Grid.FullCountZero | app.js:193-207 | A count of zero full rows means that no row of the board is full. |
| Grid.ClearedWithoutFullRow | app.js:191-207 | The clear counts zero exactly when no row is full, and in that case it leaves the board unchanged. |
| Grid.ClearedSingleRow | app.js:201-206 | With exactly one full row y, the clear is a single splice at y plus one empty row on top: the rows above y move down by one. |
| Pieces.Template | app.js:18-26 | Every template is rectangular, has a filled cell (one of the first two cells of its top row), and is at most 3 rows by 4 columns. |
| Pieces.BAG | app.js:28 | The kid-friendly bag: O, I, T, O, I, L, J, in that order. |
| Pieces.BagDraws | app.js:28 | The bag has seven entries: O and I twice each, T, L and J once each, S and Z never. |
| Pieces.CreatePiece | app.js:114-122 | A new piece has the template's shape and the requested type. It sits on row 0, horizontally centred, with all its columns inside the board and at most ROWS / 2 rows. Re-centring it changes nothing. |
| Pieces.Rotated | app.js:124-136 | The quarter turn of an h x w matrix is a w x h matrix whose row x is column x of the input read from the bottom up. |
| Pieces.RotateMatrix | app.js:124-136 | The result of an h x w input is w x h, and its row x is column x of the input read from the bottom up. |
| Pieces.RotatedIsShape | app.js:124-136 | A turned shape is again rectangular with a filled cell, with height and width swapped, so a piece can always be turned again. |
| Pieces.HalfTurn | app.js:124-136 | Two quarter turns reverse both axes. |
| Pieces.HalfTurnTwice | app.js:124-136 | Two half turns give back the matrix. |
| Pieces.RotateFourTimes | app.js:124-136 | Four quarter turns give back the original matrix, square or not. |
| Collision.Collide | app.js:138-155 | The row-by-row scan with early return answers true exactly when some filled cell of the piece is outside the columns, at or below the floor, or on an occupied visible cell. |
| Collision.OutOfBoundsCollides | app.js:146-148 | A filled cell outside the columns or at or below the floor is always a collision. |
| Collision.AboveTopNeverCollides | app.js:149-151 | Filled cells above the top edge and inside the columns never collide, whatever the board holds. |
| Collision.CollidesReadsOnlyCovered | app.js:138-155 | The test depends only on the board cells under the piece. |
| Collision.NotCollidingCells | app.js:144-151 | Every filled cell of a piece that does not collide is inside the columns and above the floor, and where it is visible the cell is empty. |
| Collision.NotCollidingAboveFloor | app.js:146-148 | A piece with a filled cell that does not collide starts above the floor. |
| Collision.FitsOnEmptyRows | app.js:138-155 | A piece inside the columns whose rows are all empty board rows does not collide. |
| Collision.Merged | app.js:157-169 | Merge's effect: the board stays ROWS by COLS. Its cell-level content is stated by the three lemmas below. |
| Collision.MergedHoldsPiece | app.js:157-169 | After a merge, every visible filled cell of the piece holds the piece's letter. |
| Collision.MergedKeepsOccupied | app.js:157-169 | A merge never overwrites an occupied cell. An empty cell becomes occupied exactly when the piece covers it. |
| Collision.MergedPieceCollides | app.js:157-169 | Once merged, the same piece in the same place collides with the board. |
| Collision.LandingY | app.js:250-253 | The row a hard drop locks at lies between the start row and the floor, and the piece fits there. |
| Collision.LandingYRests | app.js:250-253 | The landing row is at or below the start row and above the floor. Every row from the start to it is free, and the row below it collides. |
| Collision.LandingOnEmptyBoard | app.js:250-253 | On an empty board, a piece whose bottom row has a filled cell lands with that row on the floor. |
| Engine.SpawnFitsAfterRescue | app.js:235-244 | After the rescue has emptied the top half, any fresh piece fits, whatever the bottom half holds. |
| Engine.SpawnFitsOnEmptyBoard | app.js:563-566 | Any fresh piece fits on an empty board. |
| Engine.OLandsOnFloor | app.js:246-255 | An O piece spawns in columns 4 and 5 and, on an empty board, lands on row 16, so it fills the two bottom rows. |
| Engine.OLockedOnFloor | app.js:257-262 | Merging that O piece fills columns 4 and 5 of rows 16 and 17, leaves the top half empty, completes no row, and leaves nothing for the clear to change. |
| Engine.HardDropOAfterStart | app.js:246-262 | A hard drop right after start-up with O drawn twice, run through the game's own operations: score and lines stay 0, and the board is the empty board with the O piece on the two bottom rows in columns 4 and 5. No rescue happens. |
| Engine.Game.constructor | app.js:563-566 | Start-up, with the initial session values of app.js:44-54, gives an empty board, zero score and lines, the game paused, the first drawn piece falling and the second queued. The session invariant holds. |
| Engine.Game.Merge | app.js:157-169 | The board becomes the merged board: the piece's letter under its visible filled cells, every other cell unchanged. |
| Engine.Game.ClearLines | app.js:191-218 | The board becomes the cleared board. Lines go up by the number of full rows, and score by 100 for each. The milestone flag is set exactly when a clear brought the line total to a multiple of 5. When nothing is cleared, the board is unchanged. |
| Engine.Game.SoftenTopRows | app.js:220-225 | The board becomes the softened board: the top half is emptied and the rest is unchanged. |
| Engine.Game.EmergencyRescue | app.js:227-233 | The top half is emptied and the score goes up by 30. |
| Engine.Game.Spawn | app.js:235-244 | The queued piece becomes the falling piece, re-centred on row 0, and a new piece from the bag is queued. The rescue runs exactly when the spawned piece overlaps the board, adding 30 points. Afterwards the falling piece never collides. |
| Engine.Game.MergeAndClear | app.js:258-259 | The board becomes the merged board with its full rows cleared. Lines go up by the number of full rows, and score by 100 for each. |
| Engine.Game.LockPiece | app.js:257-262 | Lines and score go up by the cleared rows. The next piece is spawned, with the rescue if needed. The session invariant is kept. |
| Engine.Game.FallToLanding | app.js:250-253 | The falling loop leaves the piece at its landing row, with the shape and column unchanged, and the session invariant is kept. |
| Engine.Game.HardDrop | app.js:246-255 | When paused, nothing changes. Otherwise the piece is locked at its landing row, computed by falling one row at a time, and the invariant is kept. |
| Engine.Game.Move | app.js:264-274 | When paused, nothing changes. Otherwise the piece is shifted by dx columns exactly when the shifted piece does not collide, and otherwise it stays put. |
| Engine.Game.SoftDrop | app.js:276-286 | When paused, nothing changes. If the row below is free, the piece moves down one row and nothing else changes. Otherwise the piece is locked where it is. |
| Engine.Game.Rotate | app.js:288-306 | When paused, nothing changes. Otherwise the result is the first turned placement that fits: in place, one column right, or one column left. If none fits, the piece is restored. |
| Engine.Game.Restart | app.js:448-459 | Restart gives an empty board, zero counters and an unpaused game. The queued piece is spawned (it always fits) and a new one is queued. |
| Engine.Game.TogglePause | app.js:438-446 | The pause button flips the pause flag. |
| Engine.Game.SetPaused | app.js:485-489 | Opening the guide pauses the game; the guide's start button (app.js:516-522) resumes it. |

## Left out

- cloneMatrix (app.js:108-112): shapes are immutable values here, so copying a template is the identity. `CreatePiece` uses the template directly.
- Row aliasing: rows are values. Nothing in the script shares a row between two board positions, so replacing a row and updating it in place cannot be told apart.
- randomType (app.js:104-106): the random draw is not modelled. The caller passes the bag index `pick`.
- The `nextPiece || createPiece(randomType())` fallback in spawn (app.js:236) is not modelled. Start-up creates a queued piece before the first spawn, so `next` is always a piece and the fallback is dead code.
- Engine.Game.Merge: requires that the piece does not collide. In the script, merge is only ever called on the falling piece, which never collides. A colliding piece would have the script overwrite an occupied cell, write past a row's ends, or throw on a row below the floor. The model excludes all three cases.
- Engine.Game.HardDrop: requires the session invariant. A hard drop that starts from a colliding piece cannot happen in the game, because every operation keeps the falling piece clear of the board.
- Engine.Game.ClearLines: returns the milestone flag instead of showing the hint. The vibration and the stats refresh are not modelled.
- Feedback effects are not modelled: vibration, speech hints, updateStats, drawNext and the rendering functions.
- The gravity loop is not modelled: `update`, `dropCounter`, `lastTime` and requestAnimationFrame are clock-driven. Their single effect on the game state is a soft drop, and `SoftDrop` models that.
- Settings and input are not modelled: loading and saving settings, the touch-lock, voice and kid-mode switches, button and key bindings, and the gesture guard. The bindings only invoke the modelled operations: move, rotate, soft drop, hard drop, restart, the pause button, and the guide buttons, which are `SetPaused`.
- Engine.Game.TogglePause: resetting `lastTime` when play resumes is not modelled, because it only feeds the gravity loop.
- Score and lines are unbounded naturals. The script's numbers are double-precision floats, which stay exact far beyond any reachable score.
