# Minesweeper engine in Dafny

A model of the game engine of a browser minesweeper (`main.js`), with proofs
about it. One game session is a `Game` object, as in `startGame`. It holds
the board, the revealed and flagged grids, the game-over flag and the running
score. It supports the player's two actions: clicking a cell and toggling a
flag. The global variables of `main.js` become the fields of that object, and
its two-dimensional arrays become `array2` fields updated in place.

The project has four modules:

- `Board` (`board.dfy`): the difficulty presets and board generation.
  - Mine placement by rejection sampling over a caller-supplied sequence of
    draws (`PlaceMines`).
  - The neighbour-count pass (`CountAdjacentMines`, `FillNumbers`).
  - `NewBoard`, the two together.
- `Cascade` (`cascade.dfy`): what one reveal uncovers, defined independently
  of the recursion. `Flood(g, shown, s)` is the set of cells reached from `s`
  by a *cascade path*: every cell on the path is on the board, unflagged and
  hidden, and every cell but the last is blank (no mine on it or around it).
  The lemmas show that this set:
  - is closed under the cascade;
  - contains no mine except possibly the start;
  - is exactly what the recursive reveal uncovers.
- `Engine` (`game.dfy`): the `Game` class.
  - `RevealCell` is the recursive reveal. It is split into the source's three
    branches (`RevealMine`, `RevealSafe`, and the neighbour loops
    `RevealAround`/`RevealNeighbour`) so that each proof stays small.
  - `CheckWin` and its counting loop `CountHiddenSafe`.
  - `EndGame`, and the handlers `Click` and `ToggleFlag`.
  - Ghost sets `mines`, `shown` and `flags` mirror the grids.
  - `Valid()` couples the ghost sets to the arrays and keeps
    `score == |shown - mines|`.
  - `Live()` adds the game phase between actions:
    - an unfinished game has a hidden safe cell and no revealed mine;
    - a finished game has ended exactly once;
    - it was a win exactly when no safe cell is hidden, and a loss exactly
      when a mine is revealed.
- `Scores` (`scores.dfy`): the final score and `saveScores` as a pure update
  of the stored history and high score.

Inputs the engine takes from its environment are parameters:
- the random draws for mine placement (`draws`);
- the elapsed whole seconds at the end of the game (`elapsed`).

Each call of `endGame` is recorded in the field `endings` as an
`Ending(won, finalScore)`. This is the value the source hands to
`saveScores` after the display delay.

Two points about the code:
- `endGame` never sets `revealed`. Its loop at main.js:132-141 only changes
  CSS classes, so the model leaves the `revealed` grid as it is.
- The new high score is the maximum of the ten kept scores and the stored
  high score (main.js:23). `SaveAllHigh` proves that on a consistent store
  this is the largest score ever saved.

## Model

| member | source | states |
|---|---|---|
| Board.Preset | main.js:2-6 | the three presets (8x8 with 10 mines, 12x12 with 25, 16x16 with 50); each has a non-empty grid with fewer mines than cells |
| Board.PlaceMines | main.js:48-56 | the placed positions are exactly the distinct positions among the draws consumed; `placed` is their number and never exceeds `mines`; placement stops only when `mines` are placed or the draws run out; every draw consumed was taken while fewer than `mines` stood; no non-mine cell changes |
| Board.PlaceAt | main.js:52-55 | a mine is put at the drawn cell, and `placed` is counted up exactly when that cell held no mine before |
| Board.CountAdjacentMines | main.js:61-67 | the scan of the 3x3 block, clamped at the board edge, counts exactly the mines among the cell's neighbours |
| Board.FillNumbers | main.js:58-70 | the mines stay where they are, and every non-mine cell ends up holding the number of its neighbouring mines |
| Board.NewBoard | main.js:37-70 | a fresh board of `cfg`'s size whose non-mine cells are numbered correctly. Its mines are exactly the distinct positions of the shortest prefix of the draws that holds `cfg.mines` of them, or of all the draws when none does. There are exactly `cfg.mines` of them unless the draws ran out. At least one cell is free of mines |
| Board.SampledUnique | main.js:48-56 | the draws determine the placed mines: two sets that both meet the rejection-sampling description are equal |
| Board.NumbersInRange | main.js:58-70 | on a correctly numbered board every number lies in 0..8 |
| Board.MinesAroundAtMostEight | main.js:61-65 | a cell has at most eight neighbouring mines |
| Cascade.FloodOfClosed | main.js:104 | a reveal off the board, on a revealed cell or on a flagged cell uncovers nothing |
| Cascade.FloodHasStart | main.js:106 | a reveal that acts uncovers its own cell |
| Cascade.FloodOfStop | main.js:108-115 | a reveal on a mine or on a positive number uncovers that cell only |
| Cascade.FloodGrows | main.js:116-124 | the uncovered set is closed: every open neighbour of an uncovered blank cell is uncovered |
| Cascade.FloodWithin | main.js:116-124 | any revealed set that contains the start and is closed under the cascade contains the whole flood |
| Cascade.FloodAvoidsMines | main.js:116-124 | the cascade uncovers no mine besides possibly the start, because a blank cell has no mine next to it |
| Cascade.FloodSafe | main.js:116-124 | a reveal that does not start on a mine uncovers no mine |
| Cascade.ReachesThrough | main.js:119-123 | a cell the recursive reveal at a neighbour reaches, however much more is revealed by then, is reached from the blank start |
| Cascade.CascadeStep | main.js:121 | one recursive reveal at a neighbour of the blank start keeps the flood invariant (every cell revealed since was reached from the start; every blank one has its free neighbours revealed) and reveals that neighbour when it is free |
| Cascade.CascadeDone | main.js:119-123 | when all eight neighbours of the blank start are done, the revealed cells are the old ones plus exactly the flood |
| Cascade.FloodScore | main.js:113-118 | a reveal at a non-mine adds exactly the flood's size to the number of revealed non-mine cells |
| Engine.Game.constructor | main.js:37-70 | a new game: nothing revealed or flagged, score 0, not over, no ending. The board is numbered correctly. Its mines are exactly the distinct positions of the shortest prefix of the draws that holds the preset's mine count of them, or of all the draws when none does. The session invariant `Live` holds |
| Engine.Game.EndGame | main.js:128-149 | the game is over; one ending is recorded with the final score, which is `score + 1000 - elapsed` on a win and `score` on a loss; revealed cells, flags and score are untouched |
| Engine.Game.RevealCell | main.js:102-127 | a no-op when off the board, revealed or flagged; otherwise the revealed cells become the old ones plus exactly the flood from (r, c); on a mine the game ends as a loss with the unchanged score; otherwise the score rises by the number of cells uncovered; flags and the board never change |
| Engine.Game.RevealMine | main.js:106-112 | a hidden mine is revealed alone and the game ends as a loss with the score unchanged |
| Engine.Game.RevealSafe | main.js:113-124 | a hidden free cell and its flood are revealed and scored; the phase is unchanged |
| Engine.Game.RevealAround | main.js:119-123 | the two neighbour loops at a blank cell end with exactly the flood from it revealed |
| Engine.Game.RevealNeighbour | main.js:121 | one recursive call inside the loops keeps the flood invariant and moves the row-major scan of the neighbours one cell on |
| Engine.Game.CountHiddenSafe | main.js:151-157 | the count is the number of unrevealed non-mine cells |
| Engine.Game.CheckWin | main.js:150-161 | the game ends as a win, with final score `score + 1000 - elapsed`, exactly when no non-mine cell is hidden; flags play no part |
| Engine.Game.Click | main.js:86-92 | a no-op once over or on a revealed or flagged cell. Otherwise: a mine loses with the running score and never also reports a win; any other cell reveals its flood, scores one per uncovered cell, and wins exactly when no safe cell is left hidden. `Live` is preserved |
| Engine.Game.ToggleFlag | main.js:93-101 | a no-op once over or on a revealed cell; otherwise exactly that flag flips; board, revealed cells, score and phase never change |
| Engine.Game.ToggleFlagTwice | main.js:95-98 | toggling the same cell twice restores every flag and leaves the phase, score, endings and revealed cells as they were |
| Scores.FinalScore | main.js:143 | the final score is `running + 1000 - elapsed` on a win and `running` on a loss, so it exceeds the running score exactly on a win within 1000 seconds |
| Scores.MaxOf | main.js:23 | the maximum is one of the scores and no score exceeds it |
| Scores.SaveScores | main.js:18-25 | the new score goes first; at most ten scores are kept, the most recent ones; the high score is at least the old high and the new score, is no smaller than any kept score, and is the old high or a kept score |
| Scores.SaveScoresHigh | main.js:23 | on a consistent store the new high score is `max(old high, new score)` |
| Scores.SaveAllHigh | main.js:18-25 | after any number of saves the high score is the largest of the old high score and all saved scores |
| Scores.SaveAllHistory | main.js:18-25 | after any number of saves the history is the ten most recent scores, newest first |

## Left out

- Rendering and event wiring are not modelled, because they carry no game logic:
  - cell elements, CSS classes, text content and the score display (main.js:10-16, 71-82, 99-100, 107-110, 125);
  - `loadScores` (main.js:26-36);
  - the listeners (main.js:177-186);
  - the theme toggle (main.js:163-175).
- The disclosure loop of `endGame` (main.js:132-141) is not modelled: it only changes CSS classes.
- `setTimeout`, `alert` and the 100 ms delay (main.js:144-148) are not modelled. The ending is recorded at once in `endings`.
- `localStorage`, `JSON.parse`/`JSON.stringify` and `parseInt` (main.js:19-24) are not modelled. The stored history and high score are the plain value `Store`.
- `Date.now` (main.js:83, 142) is not modelled. The elapsed whole seconds are the parameter `elapsed`.
- `Math.random` (main.js:50-51) is replaced by the parameter `draws`, a caller-supplied sequence of in-bounds positions.
- Board.PlaceMines: it does not promise exactly `mines` mines, because it stops when the draws run out. The source loops until `mines` are placed, and its termination depends on the random source, which is not modelled.
- Engine.Game.Click: it requires the in-bounds coordinates of an existing cell and an intact session (`Live`). The source handler is only ever attached to the cells of the current board.
- Engine.Game.ToggleFlag: it requires in-bounds coordinates and `Live`, for the same reason.
- Engine.Game.RevealCell: the recursive calls, including the source's out-of-bounds calls at the edge, are modelled in full. The reveal is however split into `RevealMine`, `RevealSafe`, `RevealAround` and `RevealNeighbour`. `revealed[r][c] = true` is done inside each branch rather than before the branch.
- The board size is fixed when a game starts. The source re-reads `difficulties[currentDifficulty]` in `revealCell` and `checkWin`; the model assumes the difficulty does not change within a game, as starting a new game replaces the session.
- Numbers are unbounded integers, not JavaScript doubles. No score or count comes near 2^53.
