# Tetris rules engine — a verified Dafny model

This project models the rules engine inside the browser Tetris script
`deepseek_javascript_20250720_120cab.js`. The engine has a 20 × 10 board of
cells, where 0 means empty and a colour id means occupied. It has an active
piece and a next piece, each made of a shape matrix, a colour and an (x, y)
anchor. It also has the progression counters (score, level, lines cleared,
drop interval) and the session flags (game over, paused). The model covers
the script's operations:

- the collision test;
- moves that roll back on collision, where a rejected downward move locks the piece;
- rotation by transpose-and-reverse, with wall kicks at −1, +1, −2, +2;
- hard drop;
- locking a piece into the board;
- the bottom-up line-clearing scan with its index step-back, and the scoring and level rules;
- spawning and game over;
- reset, start and pause;
- the keyboard handler and one gravity frame of the game loop.

Layout, one module per component:

- `catalog.dfy` (`Catalog`): the seven templates, the `Piece` record, the quarter turn `Rotated` and `RandomPiece`.
- `board.dfy` (`Board`): the collision boundary of a cell, locking (`Merged`) and full-row removal (`Compacted` = empty rows on top of the `Kept` rows), with their lemmas.
- `controller.dfy` (`Controller`): the collision predicate `Collides`, the hard-drop stop `Landing`, and the rotation outcome with its kicks (`KickFrom`, `RotationOutcome`).
- `progression.dfy` (`Progression`): the reward table, `LevelFor` and `IntervalFor`.
- `session.dfy` (`Game`): the `Session` class. It holds the script's module-level state as fields and its operations as methods. Its invariant `Valid()` says:
  - the board is 20 × 10 with no full row;
  - both pieces are well-formed and inside the columns and above the bottom;
  - `level == floor(linesCleared/10) + 1` and `dropInterval == max(100, 1000 - (level-1)*100)`;
  - while the game is not over, the active piece overlaps nothing.

The script's board is a list of row lists. `clearLines` restructures that
list with `splice` and `unshift`, so the model keeps the board as a
`seq<seq<int>>` field that each operation reassigns, one cell or one row at
a time, as the script's loops do. Each piece is a datatype value stored in
the `current` and `next` fields. The script never shares a piece object
between the two, and it changes `x`, `y` and `shape` by reassigning them,
as the model does. `Math.random()` is replaced by a template index
parameter (`first`, `draw`, `fallback`). Time is an integer number of
milliseconds.

Notes on the script's behaviour:

- The template order is I, T, L, J, O, S, Z.
- `resetGame` sets the level to 1 and leaves `dropCounter` and `lastTime` alone.
- Resetting twice gives the same state apart from the drawn pieces. `ResetGame` states the whole resulting state in terms of the draws.

## Model

| member | source | states |
|---|---|---|
| Catalog.Rotated | deepseek_javascript_20250720_120cab.js:270-278 | The turned matrix has its dimensions swapped, stays rectangular, and its cell [y][x] is cell [rows-1-x][y] of the original. |
| Catalog.RotatedWellFormed | deepseek_javascript_20250720_120cab.js:274-280 | A quarter turn of a game shape (rectangle up to 4×4 with a filled cell) is again a game shape. |
| Catalog.HalfTurn | deepseek_javascript_20250720_120cab.js:274-278 | Two quarter turns send cell [y][x] to [rows-1-y][cols-1-x]. |
| Catalog.FourTurnsIdentity | deepseek_javascript_20250720_120cab.js:274-278 | Four quarter turns give back the original shape, so rotation never loses or invents a cell. |
| Catalog.TemplatesWellFormed | deepseek_javascript_20250720_120cab.js:27-35 | Every one of the seven templates is a game shape, and template k has colour id k+1. |
| Catalog.RandomPiece | deepseek_javascript_20250720_120cab.js:229-234 | A drawn piece copies its template's shape and colour. It sits on row 0, inside the columns, horizontally centred (the right margin is the left margin or one more). |
| Game.FreshPieceOk | deepseek_javascript_20250720_120cab.js:229-234 | Every drawn piece lies within the columns and above the bottom and has a nonzero colour. |
| Board.EmptyBoard | deepseek_javascript_20250720_120cab.js:24 | The starting board is 20×10, every cell is 0, and no row is full. |
| Board.Merged | deepseek_javascript_20250720_120cab.js:320-329 | After locking, every cell under a filled sub-cell on a row ≥ 0 takes the piece colour. Every other cell keeps its old value, and the board stays 20×10. |
| Board.MergedFullRows | deepseek_javascript_20250720_120cab.js:320-347 | Locking a piece of h rows into a board with no full row makes at most h rows full, so one clear removes at most 4 lines and the five-entry reward table is never indexed out of range. |
| Board.MergedOccupied | deepseek_javascript_20250720_120cab.js:320-329 | Locking adds at most as many occupied cells as the piece has filled sub-cells. Sub-cells above the top are dropped, and a sub-cell over an occupied cell adds nothing. |
| Board.LockOccupied | deepseek_javascript_20250720_120cab.js:258-259 | Locking and then clearing leaves at most the old occupied cells plus the piece's filled sub-cells, less 10 per removed line. |
| Board.KeptLength | deepseek_javascript_20250720_120cab.js:335-342 | Every row is either kept or counted as full. |
| Board.KeptRows | deepseek_javascript_20250720_120cab.js:335-342 | Every kept row is a row of the old board and is not full. |
| Board.CountFullIsCardinality | deepseek_javascript_20250720_120cab.js:335-342 | The number of lines removed equals the number of full-row indices, adjacent or not. |
| Board.CompactedShape | deepseek_javascript_20250720_120cab.js:335-342 | After the clear the board is still 20×10 with no full row. Its top `lines` rows are empty and the rows below are the non-full rows in their old order. |
| Board.CompactedIdempotent | deepseek_javascript_20250720_120cab.js:335-342 | Clearing a second time changes nothing. |
| Board.CompactedOccupied | deepseek_javascript_20250720_120cab.js:335-342 | The clear frees exactly the cells of the removed rows: 10 occupied cells fewer per line. |
| Controller.ShiftCollides | deepseek_javascript_20250720_120cab.js:303-317 | `collision(dx, dy)` on a piece is the same as `collision()` on the piece with its anchor moved by (dx, dy). |
| Controller.FitsInBounds | deepseek_javascript_20250720_120cab.js:311 | A piece that does not collide has every filled sub-cell inside the columns and above the bottom row. |
| Controller.EmptyBoardFits | deepseek_javascript_20250720_120cab.js:75-93 | On the emptied board, a piece inside the columns and above the bottom does not collide, so reset never ends the game. |
| Controller.StepAboveBottom | deepseek_javascript_20250720_120cab.js:295 | While the row below is free, the piece's anchor is above the last row, so the hard-drop loop terminates. |
| Controller.Landing | deepseek_javascript_20250720_120cab.js:294-295 | The hard-drop stop keeps column, shape and colour. Its row is never above the start, one more row down collides, and every row passed had a free row below it. |
| Controller.LandingFits | deepseek_javascript_20250720_120cab.js:294-295 | A piece that fits still fits where the hard drop stops it. |
| Controller.KickFrom | deepseek_javascript_20250720_120cab.js:282-289 | The kicks are tried in order. The result is the first kicked position that does not collide, all earlier kicks having collided, or the unrotated piece exactly when every kick collides. |
| Controller.RotationOutcomeSpec | deepseek_javascript_20250720_120cab.js:267-291 | Rotation never changes y or colour. If the turned piece fits in place it is kept. Otherwise, if it and every kick collide, shape and anchor are unchanged. Any other outcome has the turned shape at a position that fits. |
| Game.RotationOk | deepseek_javascript_20250720_120cab.js:280-290 | The turned piece, in place or kicked, is a valid piece wherever it fits. If it collides in place, the outcome is decided by the kicks. |
| Progression.Points | deepseek_javascript_20250720_120cab.js:345 | A clear earns nothing exactly when no line was cleared (at level ≥ 1). One line earns 100 × level and four lines 800 × level. Clearing n lines at once never earns less than n single-line clears. |
| Progression.LevelFor | deepseek_javascript_20250720_120cab.js:349 | The level is at least 1 and is the k with 10(k-1) ≤ linesCleared < 10k. |
| Progression.IntervalFor | deepseek_javascript_20250720_120cab.js:352 | The drop interval lies between 100 and 1000 ms and reaches the 100 ms floor exactly from level 10 on. |
| Progression.LevelMonotone | deepseek_javascript_20250720_120cab.js:349-352 | More cleared lines never lower the level or lengthen the interval. |
| Progression.LevelUpdateKeepsFormula | deepseek_javascript_20250720_120cab.js:349-353 | Raising the level only when the formula gives a higher one keeps `level == floor(linesCleared/10)+1`. |
| Game.Session.constructor | deepseek_javascript_20250720_120cab.js:14-39 | The page's initial state followed by a reset: an empty board, score 0, level 1, interval 1000, no game over, the two drawn pieces active and next. |
| Game.Session.Collision | deepseek_javascript_20250720_120cab.js:303-317 | The nested loop returns true exactly when some filled sub-cell, shifted by (dx, dy), has a column < 0 or ≥ 10, a row ≥ 20, or a row ≥ 0 on an occupied cell. Cells on negative rows never hit the board. |
| Game.Session.MergePiece | deepseek_javascript_20250720_120cab.js:320-329 | The board becomes `Merged(old board, piece)`; nothing else changes. |
| Game.Session.ClearLines | deepseek_javascript_20250720_120cab.js:332-359 | The board becomes `Compacted(old board)` and the number of full rows is returned. The score grows by `[0,100,300,500,800][lines]` × the old level and linesCleared by `lines`. The level and interval are raised only when the formula gives a higher level. |
| Game.Session.RemoveFullRows | deepseek_javascript_20250720_120cab.js:335-342 | The bottom-up scan, which steps back to the same index after removing a row, leaves exactly `Compacted(old board)` and counts every full row, adjacent or not. |
| Game.Session.SpawnPiece | deepseek_javascript_20250720_120cab.js:237-244 | The old next piece, or a fresh one if there was none, becomes active, and a new next piece is drawn. Game over becomes true if the new piece collides where it appears and is otherwise unchanged. The invariant is re-established. |
| Game.Session.ResetGame | deepseek_javascript_20250720_120cab.js:74-94 | The board is emptied, score 0, level 1, lines 0, interval 1000, both flags cleared. A next piece is drawn if missing, then a piece is spawned. `dropCounter` is untouched. |
| Game.Session.ClearBoard | deepseek_javascript_20250720_120cab.js:75-79 | The nested loop sets every cell to 0. |
| Game.Session.Lock | deepseek_javascript_20250720_120cab.js:258-261 | Merge, clear, spawn, `dropCounter = 0`: the board is `Compacted(Merged(...))`, scoring and level follow the clear, the next piece becomes active, and the invariant holds. |
| Game.Session.MovePiece | deepseek_javascript_20250720_120cab.js:247-264 | Without a piece nothing changes. If the shifted piece fits, it is the new active piece and nothing else changes. If it collides, the anchor is restored exactly: a sideways move then changes nothing, and a downward move locks the piece and zeroes `dropCounter`. |
| Game.Session.RotatePiece | deepseek_javascript_20250720_120cab.js:267-291 | The active piece becomes `RotationOutcome(board, piece)`, and only the active piece changes. |
| Game.Session.TryKicks | deepseek_javascript_20250720_120cab.js:283-288 | The loop adds each kick to x, stops at the first that fits, and otherwise subtracts it again, ending at the starting anchor when none fits. |
| Game.Session.HardDrop | deepseek_javascript_20250720_120cab.js:294-300 | The piece falls to `Landing(board, piece)` and is locked there; `dropCounter` becomes 0. |
| Game.Session.Tick | deepseek_javascript_20250720_120cab.js:115-125 | Paused or over: nothing changes. Otherwise the elapsed time is added to `dropCounter`; when it exceeds the interval, the piece moves down one row and the counter becomes 0. |
| Game.Session.KeyPressed | deepseek_javascript_20250720_120cab.js:60-70 | Nothing changes while over or paused. Otherwise key 37 moves left, 39 right, 40 down, 38 rotates and 32 hard-drops, each with the effect stated for that operation; other keys do nothing. |
| Game.Session.StartGame | deepseek_javascript_20250720_120cab.js:97-101 | A finished game is reset first. Then the pause flag is cleared and the clock restarts at 0. |
| Game.Session.TogglePause | deepseek_javascript_20250720_120cab.js:105-110 | The pause flag flips, and resuming a live game restarts the clock. |

## Left out

- Rendering (`draw`, `drawBoard`, `drawPiece`, `drawBlock`, `drawNextPiece`), DOM updates (`updateScore`, `updateLevel`, `showGameOver`, the pause button label) and the particle and explosion effects (`createParticles`, `createExplosion`). These are pixel, DOM and timer output, and no rule depends on them.
- Event wiring and scheduling: the listeners and `requestAnimationFrame`. `KeyPressed`, `Tick`, `StartGame` and `TogglePause` are the bodies the events run, and the clock value is a parameter.
- `Math.random`: each random draw is a template index passed in by the caller.
- Colours are the ids 1..7 in place of the hex strings. A board cell holds the id, and only whether it is nonzero matters to the rules.
- Numbers are unbounded integers. The script's floating-point timestamps become integer milliseconds. Its doubles never overflow in play, so no wrap-around is modelled.
- Three requires clauses exclude states the script never reaches:
  - `KeyPressed` requires an active piece when the key is space, since `hardDrop` has no null check. The script never has a null piece once a listener exists, because `init` calls `resetGame` before it registers the keydown handler.
  - `MergePiece` requires the piece to lie within the columns and above the bottom. The session invariant `Valid()` gives this, through `FitsInBounds` and the invariant's piece conditions.
  - `ClearLines` requires at most four full rows. `MergedFullRows` proves this for every lock.
- Game.Session.TryKicks is a separate method for the kick loop inside `rotatePiece`. Its `true` result stands for the script's early `return`.
