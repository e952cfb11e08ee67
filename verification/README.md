# Falling-block game engine in Dafny

This is a model of the game-state engine of a browser falling-block game
(`frontend/index.js`). The board has ROWS = 20 rows of COLS = 10 cells. Each
cell is empty or holds the colour of a locked piece. A piece is a rectangular
boolean shape (one of seven catalogue shapes) with a colour and an anchor
`(x, y)`: column x and row y of its top-left corner.

The engine:

- creates a piece, centred on row 0;
- tests collisions, where any position off the board, including above row 0,
  counts as blocked;
- moves the piece left or right, or rotates it clockwise, keeping the old
  piece when the new one would collide;
- runs one gravity step. The piece falls one row, or it is merged into the
  board. Full rows are then cleared at 100 points each, and either the game
  ends or the next piece is promoted;
- resets the session at the start of a game.

Modules, in dependency order:

- `Grid`: cells, rows, boards, the ROWS x COLS shape of a board, full rows.
- `Pieces`: the shape and colour catalogue, piece creation, clockwise rotation of a shape.
- `Collision`: the collision test.
- `Moves`: left, right and rotate.
- `Merge`: writing a piece into the board.
- `Lines`: line clearing and scoring. It holds a recursive reference pass and the
  source's splice-and-unshift loop, proved to agree.
- `Game`: the session (board, current piece, next piece, score) with start,
  gravity step and key commands.

Two behaviours are modelled as the code has them:

- **Line clearing.** The scan runs bottom-up. After a row is removed, the row
  that slides into its index is not examined, so a full row directly above a
  removed row survives the pass. `Lines.Sweep` and `Lines.ClearLinesInPlace`
  model this, and `Lines.FullRowCanSurvive` shows it. Every other full row is
  removed (`Lines.FullRowBelowKeptIsCleared`), so when no two full rows are
  adjacent all of them go (`Lines.AllFullRowsClearedWhenApart`).
- **Input after game over.** The key handler only checks that a current piece
  exists (frontend/index.js:214), and game over leaves that piece in place, so
  keys still act after game over. `Game.Apply` and `Game.Play` accept commands
  in every session.

The random shape choice is an injected index (`CreatePiece(i)`, `MoveDown(s, draw)`).

## Model

| member | source | states |
|---|---|---|
| Grid.EmptyRow | frontend/index.js:169 | a fresh top row has COLS cells, all empty, so it is not full |
| Grid.EmptyBoard | frontend/index.js:35 | the initial board has ROWS rows of COLS cells and every cell is empty |
| Pieces.CatalogShapes | frontend/index.js:20-33 | there are seven shapes and seven colours; every shape is non-empty and rectangular, at most 2 rows high and 2 to 4 columns wide |
| Pieces.CreatePiece | frontend/index.js:41-49 | piece i has catalogue shape i and colour i and starts on row 0; its left margin equals its right margin or is one less (x = floor((COLS - width) / 2)); all its cells lie inside the ROWS x COLS field |
| Pieces.RotateShape | frontend/index.js:111-113 | the turned shape has height and width swapped, stays rectangular, and cell [i][j] is the old cell [h-1-j][i], where h is the old height |
| Pieces.FourTurns | frontend/index.js:111-113 | four clockwise turns give back the original shape |
| Pieces.RotateKeepsCellCount | frontend/index.js:111-113 | a turn keeps the number of occupied cells |
| Pieces.TurnKeepsSize | frontend/index.js:111-113 | the quarter-turn coordinate map keeps the size of any set of cells |
| Collision.HitInRow | frontend/index.js:101-105 | the inner scan finds a hit iff some occupied cell of that shape row, from column c on, lands on a blocked position |
| Collision.HitFromRow | frontend/index.js:100-106 | the outer scan finds a hit iff some occupied cell from shape row r down lands on a blocked position |
| Collision.Collides | frontend/index.js:99-108 | a piece collides iff a position it covers is off the board on any side, above row 0 included, or already settled |
| Collision.CollidesOnField | frontend/index.js:99-108 | on a ROWS x COLS board, a collision means a covered position has a column outside 0..COLS-1, a row outside 0..ROWS-1, or a settled cell; both directions hold |
| Collision.AboveTopCollides | frontend/index.js:102 | a piece covering any position above row 0 collides |
| Collision.FreeFits | frontend/index.js:99-108 | a piece that does not collide covers only on-board positions, and lies inside the field on a ROWS x COLS board |
| Collision.FreeOnEmptyBoard | frontend/index.js:99-108 | a piece inside the field never collides with the empty board |
| Moves.MoveLeft | frontend/index.js:140-145 | only x can change, by -1 or not at all; it moves exactly when the shifted piece does not collide; a non-colliding piece stays non-colliding |
| Moves.MoveRight | frontend/index.js:147-152 | only x can change, by +1 or not at all; it moves exactly when the shifted piece does not collide; a non-colliding piece stays non-colliding |
| Moves.LeftThenRight | frontend/index.js:140-152 | a successful step left from a free position is undone by a step right |
| Moves.RightThenLeft | frontend/index.js:140-152 | a successful step right from a free position is undone by a step left |
| Moves.LeftAtWall | frontend/index.js:140-145 | a piece touching column 0 does not move left |
| Moves.RightAtWall | frontend/index.js:147-152 | on a ROWS x COLS board a piece touching column COLS-1 does not move right |
| Moves.Rotate | frontend/index.js:110-122 | anchor and colour are kept; the turned shape is taken iff it does not collide, otherwise the piece is unchanged; the cell count is kept; a non-colliding piece stays non-colliding |
| Moves.RotateFourTimes | frontend/index.js:110-122 | when no orientation collides, four rotations return the original piece |
| Merge.Paint | frontend/index.js:158 | writing one cell changes exactly that position and keeps the dimensions |
| Merge.MergeRow | frontend/index.js:156-160 | writing one shape row from column c on colours exactly that row's occupied positions |
| Merge.MergeRows | frontend/index.js:155-161 | writing the shape from row r down colours exactly those rows' occupied positions |
| Merge.MergePiece | frontend/index.js:154-162 | with every covered position on the board, those positions take the piece's colour, even over settled cells; every other cell and the dimensions are unchanged |
| Lines.Sweep | frontend/index.js:166-172 | the bottom-up pass removes only full rows, and kept plus removed rows account for every row scanned |
| Lines.SweepKeepsOrder | frontend/index.js:166-172 | the rows the pass keeps are exactly the rows it does not remove, in their original order |
| Lines.NoAdjacentClears | frontend/index.js:166-172 | the pass never removes two adjacent rows, because the row above a removed row is skipped |
| Lines.LowestFullRowCleared | frontend/index.js:166-172 | the lowest full row is always removed |
| Lines.FullRowBelowKeptIsCleared | frontend/index.js:166-171 | a full row is removed whenever it is the bottom row scanned or the row just below it is not removed |
| Lines.SomeRowCleared | frontend/index.js:166-172 | if any row is full, the pass removes at least one row |
| Lines.PassFacts | frontend/index.js:164-177 | over a whole board, the removed rows are full, fewer than or as many as the full rows, none iff no row is full, and the board is unchanged when no row is full |
| Lines.ClearLines | frontend/index.js:164-177 | the result still has ROWS rows (ROWS x COLS kept); it is empty rows, one per removed row, on top of the surviving rows in order; the score rises by exactly 100 per removed row; with no full row, board and score are unchanged |
| Lines.AllFullRowsClearedWhenApart | frontend/index.js:164-177 | when no two full rows are adjacent, the removed rows are exactly the full rows and the score rises by 100 for each of them |
| Lines.Splice | frontend/index.js:168-169 | removing row y and putting an empty row on top keeps the row count; the new row 0 is empty, rows above y move down one index, rows below y stay where they were |
| Lines.ClearLinesInPlace | frontend/index.js:164-177 | the splice-and-unshift loop produces the same board and score as the pass-based description |
| Lines.FullRowCanSurvive | frontend/index.js:166-170 | with the two bottom rows full, only the bottom one is removed, and the other lands, still full, on the bottom row |
| Game.StartGame | frontend/index.js:198-203 | a new session has an all-empty ROWS x COLS board, score 0 and two fresh pieces from the given indices; it satisfies the session invariant and neither piece collides |
| Game.MoveDown | frontend/index.js:124-138 | the piece falls one row (nothing else changes) iff the lowered piece is free. Otherwise it is merged at its current row and lines are cleared. It ends the game iff it locked on row 0, keeping both pieces; else the next piece becomes current unchecked and a fresh piece is next. The score never falls and keeps its remainder mod 100 |
| Game.MoveDownKeepsValid | frontend/index.js:124-138 | from a valid session the locking merge is in bounds, and the gravity step yields a valid session |
| Game.Apply | frontend/index.js:213-228 | left, right and space change only the current piece, through the corresponding move; down is one gravity step |
| Game.ApplyKeepsValid | frontend/index.js:213-228 | every key command keeps the session invariant |
| Game.Play | frontend/index.js:213-228 | any run of key commands from a valid session ends in a valid session without lowering the score |
| Game.PromotedPieceMayOverlap | frontend/index.js:130-135 | an O piece locks in the bottom-left corner. The game goes on, and the promoted O piece already overlaps the only settled cell, because promotion does no collision check |

The session invariant `Game.Valid` is:

- the board is ROWS x COLS;
- both pieces are rectangular and inside the field;
- the score is a non-negative multiple of 100.

It is what makes `MergePiece`'s in-bounds precondition hold at every lock.

## Left out

- Canvas rendering is not modelled: drawing blocks, the board, the pieces, the preview and the game-over overlay. It is pixel output only.
- DOM setup and the button and key listeners are not modelled. Each key is the corresponding `Command`.
- The 500 ms timer is not modelled; one tick is one `MoveDown` call. Stopping it at game over is represented by the `ToppedOut` outcome. The model has no flag that would reject later input, because the source has none either.
- `Math.random` is replaced by an injected shape index.
- High scores are not modelled (submission, listing, prompt, console). They are asynchronous foreign I/O.
- Game.MoveDown: requires the current piece to be on the board when it locks; the source would write out of range. `Game.MoveDownKeepsValid` shows that every valid session meets this.
- Moves.Rotate: requires a non-empty rectangular shape. Every catalogue shape is one, and rotation keeps it one. On ragged shapes the source reads `undefined` entries; that case is not modelled.
- Game.Apply: requires the session invariant, which the source maintains from `startGame` onwards; commands on a session with no pieces are not modelled.
