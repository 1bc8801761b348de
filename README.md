# Minesweeper `MineField`, modelled in Dafny

This project models the board of a Minesweeper game as its test suite
(`MineFieldTest.kt`) pins it down. A `MineField` maps every `Coordinate`
of a height-by-width grid to a `Dot`. A `Dot` is either a `Mine` or a
`NonMine` that holds the number of mines among its up to eight neighbours.
Every dot is `HIDDEN` or `OPEN`. `create` lays out a board from an injected
list of mine coordinates. `open` opens one cell, returns it and reveals the
cells around it. `isAllOpen` tells whether every NonMine is open.

Files and modules:

- `dot.dfy` (`Dots`): `Status` (`DotStatus`) and `Dot` (`Mine` / `NonMine`).
  Equality is structural, as the tests compare with `Mine()` and `NonMine(0, OPEN)`.
- `coordinate.dfy` (`Coordinates`): `Coordinate`, `Height`, `Width`, the
  Moore neighbourhood (`Adjacent`, `Around`) and the grid (`Grid`).
- `board.dfy` (`Board`): the board as a value. It holds neighbour counting,
  `Create`, the win condition `Solved`, and `Reveal`, the reference
  definition of which cells one `open` reveals. Opening `c` reveals `d` when
  a chain of cells leads from `c` to `d`. Each later cell of the chain is a
  hidden NonMine next to the previous one. Each cell before the last either
  is `c` itself (a NonMine) or is a hidden NonMine whose count is zero.
- `mine_field.dfy` (`MineFields`): the `MineField` class. Its cell map is a
  field, and `Open` updates it in place with a worklist loop (`Spread`).
  `Open` is proved to leave the map equal to `Reveal` of the map before.
- `mine_field_test.dfy` (`MineFieldScenarios`): each test of the suite,
  replayed as a lemma about the values or as a method on a `MineField`.

The cascade rule is fixed in part by the test at `MineFieldTest.kt:167-188`.
The mines are at (0,0) and (1,0), and (1,1) is opened. Its count is two.
Afterwards `isAllOpen` holds. So opening a NonMine reveals its NonMine
neighbours whatever its own count. Mines are never revealed by the cascade,
and `isAllOpen` looks at NonMine cells only. The usual reading of the game
(only zero-count cells cascade, and every cell must be open to win) fails
this test, so the model departs from it there.

How the reveal continues past the opened cell is a choice that no test
distinguishes. The model continues only through revealed cells whose count
is zero. A rule that keeps opening every adjacent NonMine also passes every
test, and it can give a different board (see `Board.Reveal` under
"## Left out").

## Model

| member | source | states |
|---|---|---|
| `Dots.Dot.Opened` | src/test/kotlin/minesweeper/domain/MineFieldTest.kt:115 | the opened dot has status OPEN, keeps its kind and its count, and an already open dot is unchanged |
| `Coordinates.Around` | src/test/kotlin/minesweeper/domain/MineFieldTest.kt:100-103 | the eight directions give exactly the positions adjacent to a cell, with no duplicates and at most eight of them |
| `Coordinates.GridSize` | src/test/kotlin/minesweeper/domain/MineFieldTest.kt:39 | a height-by-width grid has height * width positions |
| `Board.CountMines` | src/test/kotlin/minesweeper/domain/MineFieldTest.kt:100-103 | a count taken along a list of neighbours never exceeds the list's length |
| `Board.MineCount` | src/test/kotlin/minesweeper/domain/MineFieldTest.kt:100-103 | the count a NonMine holds, taken over the eight directions, is at most eight |
| `Board.CountMinesIsCardinality` | src/test/kotlin/minesweeper/domain/MineFieldTest.kt:100-103 | counting along a duplicate-free list equals the size of the set of mines in it |
| `Board.MineCountIsAdjacentMines` | src/test/kotlin/minesweeper/domain/MineFieldTest.kt:100-103 | a NonMine's count is the number of mines adjacent to it, and at most eight |
| `Board.NoAdjacentMineCountsZero` | src/test/kotlin/minesweeper/domain/MineFieldTest.kt:130 | a cell with no adjacent mine counts zero |
| `Board.Layout` | src/test/kotlin/minesweeper/domain/MineFieldTest.kt:36-42 | the laid-out board has exactly the grid's positions as keys, every cell hidden, and a Mine exactly at the mine coordinates |
| `Board.Create` | src/test/kotlin/minesweeper/domain/MineFieldTest.kt:191-197 | create succeeds exactly when the placement is on the grid, duplicate-free and as long as NumberOfMine, and names the error otherwise |
| `Board.CreateLaysOutBoard` | src/test/kotlin/minesweeper/domain/MineFieldTest.kt:36-42 | a created board has height * width cells, all hidden, a Mine exactly at the placed coordinates, NumberOfMine Mine cells (never more than the grid holds), and every NonMine counting the Mine cells next to it |
| `Board.CreatedBoardUnsolved` | src/test/kotlin/minesweeper/domain/MineFieldTest.kt:187 | a fresh board with at least one NonMine is not all open |
| `Board.Reveal` | src/test/kotlin/minesweeper/domain/MineFieldTest.kt:167-187 | opening keeps the board's coordinates, and afterwards a cell is open exactly when it was open before or the reveal reaches it |
| `Board.ReachStep` | src/test/kotlin/minesweeper/domain/MineFieldTest.kt:167-187 | a revealed cell that spreads reveals every hidden NonMine next to it |
| `Board.RevealOpensStart` | src/test/kotlin/minesweeper/domain/MineFieldTest.kt:115 | opening keeps the board's coordinates and opens the chosen cell, Mine or NonMine |
| `Board.RevealMineOpensOnlyIt` | src/test/kotlin/minesweeper/domain/MineFieldTest.kt:106-116 | opening a Mine changes no other cell |
| `Board.RevealOnlyOpens` | src/test/kotlin/minesweeper/domain/MineFieldTest.kt:167 | the reveal keeps every cell's kind and count, never closes an open cell, and opens no Mine other than the chosen cell |
| `Board.RevealSpreads` | src/test/kotlin/minesweeper/domain/MineFieldTest.kt:167-187 | opening a NonMine opens every NonMine next to it, and every revealed zero-count cell opens the NonMines next to it |
| `Board.RevealKeepsSolved` | src/test/kotlin/minesweeper/domain/MineFieldTest.kt:187 | opening never makes a solved board unsolved |
| `Board.RevealingStart` | src/test/kotlin/minesweeper/domain/MineFieldTest.kt:180-186 | opening the chosen cell and queueing its hidden NonMine neighbours starts the reveal in a consistent state |
| `Board.RevealingVisit` | src/test/kotlin/minesweeper/domain/MineFieldTest.kt:180-186 | visiting a queued hidden cell keeps the reveal consistent, and the hidden cells afterwards are exactly those before minus the visited cell |
| `Board.ClosedCoversCascade` | src/test/kotlin/minesweeper/domain/MineFieldTest.kt:180-187 | a board closed under spreading has every cell at the end of a reveal chain open |
| `Board.ClosedIsReveal` | src/test/kotlin/minesweeper/domain/MineFieldTest.kt:180-187 | a board that opens only revealed cells, opens the chosen cell and is closed under spreading is exactly the reveal |
| `MineFields.MineField.constructor` | src/test/kotlin/minesweeper/domain/MineFieldTest.kt:19 | a field built from a non-empty map holds that map |
| `MineFields.MineField.Of` | src/test/kotlin/minesweeper/domain/MineFieldTest.kt:18-24 | building a field fails with EmptyField exactly when the map is empty, and otherwise holds the map unchanged |
| `MineFields.MineField.Create` | src/test/kotlin/minesweeper/domain/MineFieldTest.kt:36 | the factory yields a new field holding the board `Board.Create` lays out, or that function's error |
| `MineFields.MineField.ToMap` | src/test/kotlin/minesweeper/domain/MineFieldTest.kt:38 | the snapshot is the field's current cell map, statuses included |
| `MineFields.MineField.IsAllOpen` | src/test/kotlin/minesweeper/domain/MineFieldTest.kt:187 | isAllOpen holds exactly when every cell still hidden is a Mine, that is when every NonMine cell is open |
| `MineFields.MineField.Open` | src/test/kotlin/minesweeper/domain/MineFieldTest.kt:113-187 | open fails with OutOfBounds off the field and with AlreadyOpen on an open cell; otherwise it returns the cell opened and leaves the field equal to the reveal of the old field |
| `MineFields.MineField.Spread` | src/test/kotlin/minesweeper/domain/MineFieldTest.kt:180-186 | the worklist loop ends with the field closed under spreading and opening only revealed cells |
| `MineFieldScenarios.OneCellFieldAccepted` | src/test/kotlin/minesweeper/domain/MineFieldTest.kt:18-20 | a one-cell map makes a field |
| `MineFieldScenarios.EmptyFieldRejected` | src/test/kotlin/minesweeper/domain/MineFieldTest.kt:22-24 | an empty map is refused |
| `MineFieldScenarios.FiveByFive` | src/test/kotlin/minesweeper/domain/MineFieldTest.kt:191-197 | the suite's 5 x 5 helper, whose mine count is the list's size, succeeds exactly when the mine list is duplicate-free and on the grid |
| `MineFieldScenarios.CreateFiveByFiveOneMine` | src/test/kotlin/minesweeper/domain/MineFieldTest.kt:26-43 | create(5, 5, 1) gives 25 hidden cells with the only Mine at (0,0) |
| `MineFieldScenarios.CreateFirstColumnMines` | src/test/kotlin/minesweeper/domain/MineFieldTest.kt:45-76 | five mines down the first column are each a Mine, and there are five Mine cells |
| `MineFieldScenarios.NeighboursOfCornerMine` | src/test/kotlin/minesweeper/domain/MineFieldTest.kt:78-104 | with one mine at (0,0), cells (1,0), (0,1) and (1,1) each count one |
| `MineFieldScenarios.OpenMine` | src/test/kotlin/minesweeper/domain/MineFieldTest.kt:106-116 | opening the mine returns Mine(OPEN) |
| `MineFieldScenarios.OpenFarFromMine` | src/test/kotlin/minesweeper/domain/MineFieldTest.kt:118-131 | opening (3,3) returns NonMine(0, OPEN) |
| `MineFieldScenarios.OpenTwiceRejected` | src/test/kotlin/minesweeper/domain/MineFieldTest.kt:133-147 | opening (3,3) a second time is refused |
| `MineFieldScenarios.OpenOffFieldRejected` | src/test/kotlin/minesweeper/domain/MineFieldTest.kt:149-165 | opening (9,9) on a 5 x 5 board is refused |
| `MineFieldScenarios.TwoMineCascade` | src/test/kotlin/minesweeper/domain/MineFieldTest.kt:180-187 | on the 5 x 5 board with mines at (0,0) and (1,0), opening (1,1) solves the board |
| `MineFieldScenarios.CascadeSolvesBoard` | src/test/kotlin/minesweeper/domain/MineFieldTest.kt:167-188 | on that created board (1,1) counts two, and opening it leaves every NonMine open |
| `MineFieldScenarios.CascadeScenario` | src/test/kotlin/minesweeper/domain/MineFieldTest.kt:167-188 | on a `MineField` object, isAllOpen holds after opening (1,1) |

## Left out

- The production sources of `MineField`, `Dot`, `Mine`, `NonMine`, `Coordinate` and the value objects are not part of this model. The model states what the test suite asserts about them, and where the suite leaves a choice open it makes one, as the lines below say.
- Random mine placement: the tests inject the placement, so `Create` takes the list of mine coordinates as a parameter.
- Validation inside `Height`, `Width`, `NumberOfMine` and `CoordinateValue`: these are plain subset types (positive heights and widths, non-negative coordinates and mine counts), because their exact rules are not shown.
- Board.Create: refusing an off-grid, duplicate or wrongly sized placement is a chosen policy. No test exercises these cases, and their order of checking is also a choice.
- Board.Reveal: the reveal continues only through revealed cells whose count is zero. This is a choice, not something the suite asserts. A reveal that opens every NonMine connected to the opened cell through NonMines passes every test as well, and it differs from this model. On a 2 x 3 board with a mine at (0,0), opening (1,0) leaves (0,2) hidden here, because (0,1) and (1,1) each count one. The other rule opens (0,2).
- MineFields.MineField.Open: a refused `open` leaving the field unchanged is a design choice; no test asserts it.
- MineFields.MineField.Spread: the order in which cells are revealed is left open (the worklist picks any queued cell). Only the final set of open cells is specified, and a recursive walk gives the same set.
- Console input, rendering of the board and game-loop messages are I/O and are not modelled.
- The Kotest framework (`shouldThrow`, `forAll`): refusals are `Failure` results, and assertions are lemmas or method postconditions.
