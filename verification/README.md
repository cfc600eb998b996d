# Conway tower: the simulation engine

This project models the simulation engine of a small browser program that
plays Conway's Game of Life on a square toroidal grid and shows the recent
generations stacked as a "tower". The model covers two parts.

- **The board** (`ConwayBoard` in `script.js`). A board is a square grid of
  booleans. The count of the eight Moore neighbours wraps around the edges
  with `(x + dx + size) % size`, using JavaScript's truncating `%`.
  `updateBoard` applies rule B3/S23 to every cell at once and returns a new
  board without touching the old one. `equals` compares two boards cell by
  cell.
- **The tower**. This is a list of boards, newest first. It starts with one
  seed board. On each step it drops the oldest board when it holds more than
  35, and then puts the next generation of the front board at the front. Its
  length therefore grows to 36 and stays there.

Modules:

- `ConwayBoard` (board.dfy) holds the board datatype and its shape
  predicate, the JavaScript remainder and the wrapped index, the neighbour
  count (a pure definition plus the source's nested loops), the step (a pure
  definition plus the source's row-by-row fill) and `equals` as written.
- `ConwayFacts` (board_facts.dfy) holds properties of one step. It shows
  what the count counts, how uniform and 1 by 1 boards behave, that each cell
  depends only on its neighbourhood, and that the step commutes with rotating
  the torus. It also works through the corner-wrap and blinker patterns.
- `BoardEquality` (equality.dfy) holds what comparison promises, and the
  corrected comparison (see Findings).
- `Tower` (tower.dfy) holds the bounded, newest-first history.

Three facts about the code that shape the model:

- `equals` never compares `other.size` (see Findings).
- The tower bound is fixed in the code: it pops when the tower is longer
  than 35, so 36 boards are kept.
- `countNeighbors` does not check its coordinates. Its only caller,
  `updateBoard`, passes in-range ones, and the model requires them.

## Model

| member | source | states |
|---|---|---|
| ConwayBoard.Fresh | script.js:2-12 | a new board of size `size` has exactly `size` rows of `size` cells, and each cell is that position's coin flip |
| ConwayBoard.JsRem | script.js:39-40 | JavaScript's `%` gives a remainder smaller in size than the divisor, with the sign of the dividend, that differs from the dividend by a multiple of the divisor; these three facts determine it |
| ConwayBoard.TruncDiv | script.js:39-40 | the quotient of JavaScript's truncating division: the dividend minus that many divisors is the remainder with the dividend's sign |
| ConwayBoard.WrapIndex | script.js:39-40 | the source's `(x + dx + this.size) % this.size` is smaller in size than `size`, and non-negative whenever `x + dx + size` is; `WrapIndexIsWrap` pins its value to the torus step |
| ConwayBoard.WrapIndexIsCongruent | script.js:39-40 | the source's wrapped index differs from `x + dx` by a multiple of `size`, for any coordinate and offset |
| ConwayBoard.Wrap | script.js:39-40 | the torus step from an in-range coordinate always lands in `[0, size)`: `size - 1` one step before 0, 0 one step after the last, `x + d` otherwise |
| ConwayBoard.WrapIndexIsWrap | script.js:39-41 | for an in-range coordinate and a unit offset, the source's `(x + d + size) % size` with JavaScript's truncating `%` lies in `[0, size)` and is that torus step, so every board access is in bounds |
| ConwayBoard.WrapIsTorusIndex | script.js:39-40 | the torus step equals the position `x + d` taken modulo `size` |
| ConwayBoard.CountOver | script.js:36-43 | counting live neighbours over a list of offsets never gives more than the number of offsets |
| ConwayBoard.NeighborCount | script.js:34-45 | the Moore neighbour count is at most 8 |
| ConwayBoard.VisitedIndexesOffsets | script.js:36-38 | the nested `dx`/`dy` loops reach each non-centre offset at its position in the eight-offset order |
| ConwayBoard.CountNeighbors | script.js:34-45 | the nested loops, which skip the centre, return a count in `[0, 8]` equal to the pure neighbour count |
| ConwayBoard.RuleIsB3S23 | script.js:21-25 | the survival/birth branch is rule B3/S23: a cell is alive next iff it has 3 live neighbours, or is alive with 2; so 3 gives life, 2 keeps the cell's state, and any other count leaves it dead |
| ConwayBoard.Step | script.js:15-31 | the next generation has the same size and exactly `size` rows of `size` cells |
| ConwayBoard.UpdateBoard | script.js:15-31 | the row-by-row fill returns a board of the same shape in which every cell is B3/S23 applied to that cell's old state and its count on the old board; the result is the pure step |
| ConwayBoard.Equals | script.js:47-54 | as written, the comparison returns true iff the other board is at least as large and its top-left block matches every cell of the receiver |
| ConwayFacts.CountOverIsCardinality | script.js:36-43 | the count over a list of offsets is the number of list positions whose wrapped neighbour is alive |
| ConwayFacts.OffsetsAreMooreNeighbourhood | script.js:36-38 | the offsets the loops visit are exactly the eight distinct unit offsets other than `(0, 0)` |
| ConwayFacts.NeighborCountIsAliveOffsets | script.js:34-45 | the neighbour count is the number of the eight Moore offsets whose wrapped cell is alive |
| ConwayFacts.NeighborCountUnrolled | script.js:36-43 | the neighbour count is the sum of the eight indicator terms, one per offset |
| ConwayFacts.DeadBoardStaysDead | script.js:18-27 | an all-dead board steps to an all-dead board |
| ConwayFacts.FullBoardDies | script.js:18-27 | an all-alive board of any size steps to an all-dead board, since every cell has 8 live neighbours |
| ConwayFacts.SizeOneBoard | script.js:36-41 | on a 1 by 1 board all eight offsets wrap onto the only cell, so its count is 8 or 0, and the board always steps to the dead board |
| ConwayFacts.StepIsLocal | script.js:16-31 | two boards that agree on a cell and its eight wrapped neighbours give that cell the same next state, so the step reads only the old board |
| ConwayFacts.StepCommutesWithShift | script.js:18-41 | rotating the torus by any rows and columns and then stepping equals stepping and then rotating |
| ConwayFacts.CornerSeesAcrossWrap | script.js:39-41 | with only `(0, 0)` alive and size at least 3, cell `(size-1, size-1)` counts exactly one live neighbour, reached through the wrap |
| ConwayFacts.BlinkerStands | script.js:18-27 | on every board of size at least 5, a horizontal blinker in row 2 steps to the vertical blinker in column 2 |
| ConwayFacts.BlinkerLies | script.js:18-27 | on every board of size at least 5, the vertical blinker steps back to the horizontal one |
| ConwayFacts.BlinkerHasPeriodTwo | script.js:18-27 | the blinker differs from its next generation and equals the generation after that |
| BoardEquality.AgreementIsEquality | script.js:47-54 | for boards of one size, matching cell by cell holds iff the boards are equal |
| BoardEquality.EqualsAcceptsLargerBoard | script.js:47-54 | a 1 by 1 dead board passes the as-written comparison against a 2 by 2 dead board, although the two differ |
| BoardEquality.EqualsChecked | script.js:47-54 | the comparison with a size test returns true iff the two boards are equal |
| BoardEquality.EqualityIsReflexiveAndSymmetric | script.js:47-54 | the size-checked comparison is reflexive and symmetric |
| Tower.Init | script.js:152 | the tower starts as the seed board alone, which is a valid history |
| Tower.TowerStep | script.js:165-166 | the new front is the step of the old front and each kept board moves one place older. Only the last board can be dropped, and only when the tower holds more than 35. A tower of at most 36 boards ends with `min(length + 1, 36)` boards |
| Tower.TowerStepKeepsHistory | script.js:165-166 | a step keeps the history non-empty, at most 36 long, of one board size, and newest first, with each board the next generation of the one after it |
| Tower.TowerStepAdvancesGenerations | script.js:165-166 | if entry `k` of the tower is the board `n - k` generations after the seed, then after a step entry `k` is the board `n + 1 - k` generations after it |
| Tower.Iterate | script.js:166 | repeating the step keeps the board's shape and size |
| Tower.Run | script.js:152-166 | the tower after any number of steps from a seed is a valid history |
| Tower.RunLength | script.js:165-166 | after `n` steps the tower holds `min(n + 1, 36)` boards, so never more than 36 |
| Tower.RunGenerations | script.js:165-166 | after `n` steps, entry `k` of the tower is the board `n - k` generations after the seed |

## Left out

- Scene, camera, lights, materials, instanced meshes and edge geometry (script.js:57-149) are calls into an external 3D library and are not modelled.
- Placing cubes for live cells and the render call (script.js:168-191) is floating-point position maths and library calls. The cube pool is sized for 35 boards (script.js:143) while the tower holds 36; that is a rendering concern outside this model.
- The animation-frame callback and the once-every-15-frames cadence (script.js:160-164, 194) are event-loop timing. The model treats each tower step as one call.
- The window resize handler (script.js:196-200) is user-interface I/O.
- `Math.random()` seeding (script.js:10) is randomness. `Fresh` takes the draws as a parameter `coin`, so a fresh board has arbitrary cells.
- The `height` field (script.js:5) is never read and is not modelled.
- The pre-filled grid and the throw-away board in `updateBoard`: the source first fills a grid with `false` and builds a throw-away random board (script.js:16, 29). The model builds the new grid row by row instead. This gives the same value, because every entry of the pre-filled grid is overwritten and the random cells are replaced.
- Comparing against a malformed board: only boards of valid shape are compared. For a smaller other board, the scan of row 0 reaches a missing column, reads `undefined` and returns false, before any missing row could be read. So the type error that a missing row would raise cannot occur, and it is not modelled.
- ConwayBoard.CountNeighbors: requires in-range coordinates, which is all its only caller passes. Out-of-range coordinates and non-integer or zero sizes are outside the model.
- JavaScript numbers are doubles. Every quantity here is a small integer, so they are modelled as unbounded integers.

## Findings

| source | as written | input that shows it | evidently intended | confidence | as-written member | corrected member |
|---|---|---|---|---|---|---|
| script.js:47-54 | `equals` loops only over the receiver's `size` and never compares `other.size` | a 1 by 1 dead board compared with a 2 by 2 dead board returns true | structural equality: false when the sizes differ | medium; the method is never called by the program; not executed | BoardEquality.EqualsAcceptsLargerBoard | BoardEquality.EqualsChecked |
