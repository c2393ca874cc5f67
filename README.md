# Tetris game-state engine

A Dafny model of the game engine of `tetris/tetris.py`: the 12 x 21 playfield, the
seven tetromino kinds and their rotation tables, collision, moves and rotations
that are undone when they overlap, gravity with locking and spawning, the hold
slot, simultaneous line clearing with compaction, the score and speed bands, the
game-over test, the key commands and the timed tick.

The playfield is a flat row-major list of `W * H = 252` cells. Walls hold 9,
empty cells 0, and locked cells the colour id (2..8) of the piece that was
locked there. The game wraps the list in a piece placed at (0, -2). The model
keeps the list as the game's `field` and the offset as the constants `OriginX`
and `OriginY`. Field cell (row, col) therefore sits at absolute coordinate
(col, row - 2).

Modules, in dependency order:

- `Field` (`field.dfy`): the grid constants, `create_field`, and the
  well-formedness invariant (walls on the border, values in 0..9).
- `Pieces` (`pieces.dfy`): the piece kinds and their tables, the `Tetromino`
  class (position, rotation index, tile list), `rotate` and `create_piece`.
  It also holds the rotation arithmetic behind the up-key undo.
- `Collision` (`collision.dfy`): a pose overlaps the field. `Overlaps` is the
  direct lookup. `SharedCoordinate` is the cross product over piece tiles and
  field cells that `collides` loops over. A lemma proves the two equivalent.
- `Placement` (`placement.dfy`): the lock. `Locked` is the field after every
  tile is written, in row-major order, into the empty cell under it.
- `LineClear` (`lineclear.dfy`): row flags, the compaction loop, and what the
  cleared field looks like.
- `Score` (`score.dfy`): the if/elif chain of `add_points` and its band table.
- `GameOver` (`gameover.dfy`): the sum over the top row's interior cells.
- `Tetris` (`game.dfy`): the `TetrisGame` class. Its methods are `setup`,
  `collides`, `try_move`, the up-key handler, the lock loops,
  `get_next_piece`, `try_move_or_place`, `add_points`, `check_tetris`,
  `check_game_over`, `hold_piece`, `event` and `update`. Its invariant
  `Valid()` says three things:
  - the field is well formed;
  - the active, preview and held pieces are valid and distinct;
  - the score is non-negative and the speed is in 1..8.

## Model

| member | source | states |
|---|---|---|
| `Field.CreateField` | tetris/tetris.py:41-48 | The result has w*h cells. Cell row*w+col holds 9 exactly when col is 0 or w-1 or row is h-1, and 0 otherwise. |
| `Field.CellInjective` | tetris/tetris.py:45 | Distinct (row, col) pairs of a grid get distinct flat indices row*w+col. |
| `Field.NewFieldWellFormed` | tetris/tetris.py:41-48 | The 12 x 21 field that create_field builds has wall cells on its border and every cell in 0..9. |
| `Pieces.Colour` | tetris/tetris.py:173-200 | Every kind's colour id lies in 2..8. |
| `Pieces.Tiles` | tetris/tetris.py:168-200 | Each table has StateCount(k) states: 1 for O, 2 for S, Z and I, 4 for L, J and T. |
| `Pieces.StateIsTetromino` | tetris/tetris.py:173-200 | A state of a table has w*h entries, exactly four of them filled, and each entry is 0 or the kind's colour. |
| `Pieces.TablesAreTetrominoes` | tetris/tetris.py:168-200 | Every state of every table is a tetromino of its kind's colour, with w*h entries. |
| `Pieces.TablesWellFormed` | tetris/tetris.py:168-200 | Every table has 1, 2 or 4 states, each state has w*h entries, and every entry is in 0..8. |
| `Pieces.RotatedIndex` | tetris/tetris.py:73-76 | Any number of rotations keeps the index in [0, len(tiles)). |
| `Pieces.RotatedIndexWraps` | tetris/tetris.py:73-76 | Up to n rotations from i reach i+k, or i+k-n once the index has passed the last state. |
| `Pieces.RotatedIndexAdds` | tetris/tetris.py:73-76 | a rotations followed by b rotations equal a+b rotations. |
| `Pieces.FullTurn` | tetris/tetris.py:73-76 | len(tiles) rotations restore the start index. |
| `Pieces.FourTurns` | tetris/tetris.py:122-127 | Four rotations are the identity on tables of 1, 2 or 4 states. |
| `Pieces.TurnBack` | tetris/tetris.py:122-127 | One rotation followed by three more rotations restores the exact prior index on every table of 1, 2 or 4 states. |
| `Pieces.Tetromino.constructor` | tetris/tetris.py:53-61 | A new piece has the given position, size and table, rotation index 0, and matrix tiles[0]. |
| `Pieces.Tetromino.Rotate` | tetris/tetris.py:73-76 | The index advances by one rotation, wrapping to 0. matrix stays tiles[index] and the piece stays valid. |
| `Pieces.CreatePiece` | tetris/tetris.py:168-205 | A fresh valid piece of the kind's table and size, at index 0. It is placed at (13, 2) as the preview and at (4, -2) otherwise. |
| `Collision.SharedCoordinateIsLookup` | tetris/tetris.py:233-248 | The cross product finds a filled piece tile and a filled field cell at one absolute coordinate (field offset (0, -2)) exactly when the direct lookup finds a filled tile over a filled cell. |
| `Collision.EmptyUnderneathNoCollision` | tetris/tetris.py:241-247 | A pose whose filled tiles lie on empty cells or outside the grid does not collide. |
| `Placement.Locked` | tetris/tetris.py:266-279 | Locking keeps the length of the field. |
| `Placement.LockedSpec` | tetris/tetris.py:266-279 | Non-empty cells are kept. Every empty cell under a filled tile takes that tile's value. Any changed cell was empty and lies under a filled tile with the value it now holds. |
| `Placement.LockStep` | tetris/tetris.py:268-279 | Handling tile (row, col) writes its value into the empty cell under it, if the tile is filled and inside the grid, and changes nothing else. |
| `Placement.LockedWellFormed` | tetris/tetris.py:276-279 | Locking a piece with tile values in 0..8 keeps the field well formed. Walls are never overwritten. |
| `LineClear.FullFlags` | tetris/tetris.py:283-289 | There is one flag for each of the 20 rows above the bottom wall. |
| `LineClear.FlagFullRows` | tetris/tetris.py:283-289 | Row r's flag is set exactly when interior columns 1..10 of row r are all non-zero. The flags are computed on the field before any removal. |
| `LineClear.CountFlags` | tetris/tetris.py:291 | The count of set flags is at most the number of flags. |
| `LineClear.CountFlagsAppend` | tetris/tetris.py:291 | The count of a concatenation is the sum of the counts. |
| `LineClear.RemoveFullRows` | tetris/tetris.py:294-299 | The delete-and-prepend loop yields Cleared: one new row per flagged row on top, then the unflagged rows in their order, then the bottom wall row. |
| `LineClear.CompactStep` | tetris/tetris.py:294-299 | Deleting a flagged row and prepending a new row, or skipping an unflagged row, extends the cleared prefix by one row. |
| `LineClear.CountFlagsIsFlagged` | tetris/tetris.py:291 | The sum of the flags is the number of positions whose flag is set. |
| `LineClear.ClearedCount` | tetris/tetris.py:282-291 | The number of rows scored and removed is the number of full rows above the bottom wall. |
| `LineClear.ClearedSize` | tetris/tetris.py:294-299 | Clearing keeps the list at 252 cells. |
| `LineClear.ClearedTop` | tetris/tetris.py:294-299 | With k flagged rows, the top k rows of the result are [9,0,...,0,9]. |
| `LineClear.ClearedBottom` | tetris/tetris.py:294-299 | The bottom wall row is untouched. |
| `LineClear.ClearedShift` | tetris/tetris.py:294-299 | Unflagged row r ends at row r + (number of flagged rows below r), cell for cell. |
| `LineClear.ClearedNothing` | tetris/tetris.py:294-299 | With no row flagged, the field is unchanged. |
| `LineClear.ClearedWellFormed` | tetris/tetris.py:294-299 | Clearing keeps the field well formed. |
| `Score.ScoreBand` | tetris/tetris.py:308-329 | The speed is in 1..8 and the factor is the one belonging to that speed. The speed is 1 exactly when the score is below 5000. |
| `Score.Awarded` | tetris/tetris.py:305-331 | The award is scaled up, never down: at least the amount when the amount is non-negative, at most it otherwise, and 0 for 0. |
| `Score.SpeedFromRanges` | tetris/tetris.py:308-329 | The table lookup gives the speed of some band, or 8. |
| `Score.FirstRangeFound` | tetris/tetris.py:308-326 | The lookup returns the speed of the first band that holds the score. |
| `Score.NoRangeFound` | tetris/tetris.py:327-329 | When no band holds the score, the lookup gives 8. |
| `Score.ScoreBandMatchesRanges` | tetris/tetris.py:308-329 | For every non-negative score, the chain gives the table's speed for that score, with that speed's factor. |
| `Score.RangesDisjoint` | tetris/tetris.py:308-326 | The explicit bands do not overlap. |
| `Score.SpeedMonotoneBelowGap` | tetris/tetris.py:308-317 | Below 50000, a higher score never gives a lower speed or a lower factor. |
| `Score.GapsFallThrough` | tetris/tetris.py:315-329 | Scores in [50000, 75000) and [100000, 200000) get speed 8 and factor 50, a higher speed than the band just above them. |
| `Score.TopBand` | tetris/tetris.py:324-329 | Scores from 500000 on get speed 8 and factor 50. |
| `GameOver.TopInterior` | tetris/tetris.py:302 | The summed slice is the 10 interior cells of row 0, in column order. |
| `GameOver.SumPositiveIffNonZero` | tetris/tetris.py:302 | A list of non-negative cells sums to a positive number exactly when some cell is non-zero. |
| `GameOver.ToppedOutIffTopRowFilled` | tetris/tetris.py:301-303 | On a well-formed field, the game-over condition holds exactly when some interior cell of row 0 is non-zero. |
| `GameOver.NewFieldNotToppedOut` | tetris/tetris.py:301-303 | A freshly created field does not end the game. |
| `Tetris.TetrisGame.constructor` | tetris/tetris.py:95-108 | A new game has a fresh active piece at (4, -2) and a fresh preview at (13, 2), both at index 0 with their kinds' tables and box sizes. It has a bordered empty field, no held piece, score 0, speed 1, is not over, and is valid. |
| `Tetris.TetrisGame.Collides` | tetris/tetris.py:233-248 | The four nested loops return true exactly when the active piece overlaps a filled field cell. The call changes no state. |
| `Tetris.TetrisGame.TryMove` | tetris/tetris.py:250-255 | The piece moves to (x+dx, y+dy) if that does not overlap, and otherwise stays where it was. A piece that did not overlap still does not. |
| `Tetris.TetrisGame.RotateActive` | tetris/tetris.py:122-127 | The index becomes the next rotation if that state does not overlap, and otherwise is exactly the prior index. A piece that did not overlap still does not. |
| `Tetris.TetrisGame.Place` | tetris/tetris.py:263-279 | The four nested loops write exactly Locked(field, piece), and the game stays valid. |
| `Tetris.TetrisGame.GetNextPiece` | tetris/tetris.py:207-211 | The old preview becomes the active piece at (4, -2). A fresh preview of the given kind sits at (13, 2). |
| `Tetris.TetrisGame.TryMoveOrPlace` | tetris/tetris.py:257-280 | If the piece can fall, only its y grows by 1. Otherwise the field becomes the lock of the piece at its old position, the old preview becomes active at (4, -2), and a fresh preview of the given kind and box size is made at (13, 2). |
| `Tetris.TetrisGame.AddPoints` | tetris/tetris.py:305-331 | The speed is the band of the score before the award, and the score grows by the amount times that band's factor. |
| `Tetris.TetrisGame.CheckTetris` | tetris/tetris.py:282-299 | 100 points per full row are awarded once, through the band of the prior score, and the full rows are cleared. |
| `Tetris.TetrisGame.CheckGameOver` | tetris/tetris.py:301-303 | gameOver becomes set when the top row's interior sum is positive, and is never reset. |
| `Tetris.TetrisGame.HoldIntoEmpty` | tetris/tetris.py:214-228 | With an empty slot, the old active piece goes to the slot at (13, 8), the old preview becomes active at the old active position, and a fresh preview is made. |
| `Tetris.TetrisGame.SwapWithHeld` | tetris/tetris.py:220-228 | The held piece becomes active at the old active position, and the old active piece goes to the slot at (13, 8). |
| `Tetris.TetrisGame.SwapHold` | tetris/tetris.py:213-228 | One run of hold_piece before its overlap test: the candidate (preview or held piece) becomes active at the old position and the old active piece is held at (13, 8). |
| `Tetris.TetrisGame.HoldPiece` | tetris/tetris.py:213-231 | If the candidate fits, it stays active. If it overlaps and the old active piece did not, one repeated run swaps back and the final piece does not overlap. With no repeated run the candidate is active. With exactly one, an overlapping candidate ends held and the old active piece active again. `settled` is true exactly when the final active piece does not overlap. |
| `Tetris.TetrisGame.HoldKey` | tetris/tetris.py:119-120 | Space with one repeated run: the active position is kept and the slot is at (13, 8). If the candidate fits there it becomes active and the old active piece is held; otherwise the old active piece stays active and the candidate is held. With an empty slot a fresh preview is made, otherwise the preview is untouched. |
| `Tetris.TetrisGame.Steer` | tetris/tetris.py:122-130 | Down, Left and Right move the piece by (0, 1), (-1, 0) and (1, 0), or leave it in place when that pose overlaps, and keep the rotation. Up gives the next rotation, or the prior index when that overlaps, and keeps the position. |
| `Tetris.TetrisGame.Event` | tetris/tetris.py:110-130 | Quit clears `running`, and no other command changes it. Down, Left and Right move by (0, 1), (-1, 0) and (1, 0) or stay on overlap. Up rotates or keeps the prior index on overlap. Hold gives the HoldKey outcome. Only Hold changes which pieces are active, preview and held. Other commands keep the preview and held positions. Only Up changes a rotation index: Hold keeps the indices of the pieces it swaps. An active piece that did not overlap still does not. |
| `Tetris.TetrisGame.Tick` | tetris/tetris.py:162-166 | Gravity or lock comes first: the piece falls one row with the preview kept in place, or it is locked, the preview becomes active at (4, -2) and a fresh preview sits at (13, 2). Then the full rows of that field are cleared and scored from the prior score. Then gameOver is set if the resulting top row is filled. The score never drops. |
| `Tetris.TetrisGame.Update` | tetris/tetris.py:153-166 | A game that was over stops running. Without a due tick the field, score, speed, pieces and preview position are unchanged. With one, the field, score, speed, pieces and gameOver are those of Tick. A game that is over stays over. |

## Left out

- `tetris/base.py` is not part of this model: it holds window set-up, the clock, the event pump and the `while running` loop. The order "events, then update" of that loop is taken as given.
- Rendering is left out, because it only draws: `get_rect`, both `draw` methods, the font, the RGB colours, and the key repeat set-up.
- The float timer of `update` (`last_update` and `mov_speed`) is left out. It becomes the parameter `due` of `Update`.
- `random.choice` in `create_piece` is left out. The piece kind is a parameter (`kind`, `first`, `second`).
- `print('GAME OVER')` is left out.
- The pygame event types are left out. The QUIT event and the escape key are one command, `Quit`.
- The module-global `GAME_SPEED` is left out as a global. It is the game field `gameSpeed`; nothing in the model reads it, because the timer that uses it is left out.
- The field's own `Tetromino` wrapper is left out. It never moves or rotates, so it is the list `field` plus the constants `W`, `H`, `OriginX` and `OriginY`. For the same reason `create_field` returns the flat list itself, where the source returns `[field]`, the one-state tile table of that wrapper.
- The initial value of `running` is set by `base.py`. The constructor starts it at `true`.
- `Tetris.TetrisGame.HoldPiece`: the source recurses without bound. When both the held and the active pose overlap, it alternates until Python's recursion limit raises an error. The model bounds the repeated runs by `retries` and then reports `settled == false`. `Event` (through `HoldKey`) passes `retries == 1`, which is proved enough whenever the active piece did not overlap before the call.
- `Tetris.TetrisGame.HoldKey`: when both the hold candidate and the active piece overlap the field at the active position, the source never returns: it alternates until Python's recursion limit raises an error. `HoldKey` instead ends after one repeated run, with the swap undone and the old active piece active again.
- `LineClear.NewLine` is written out 12 wide, independently of `W`, as in the source. All results about clearing are stated for `W == 12`.
