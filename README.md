# Minesweeper game logic in Dafny

This project models the game-logic layer of a Kotlin Multiplatform Minesweeper
(`de.stefan_oltmann.mines.model`) and proves properties of that model. The layer
has these parts:

- **Cell kinds.** A cell is a mine, empty, or a number from 1 to 8 that counts
  its mine neighbours.
- **Difficulty tiers.** EASY, MEDIUM and HARD put 10, 15 or 20 percent of the
  cells under mines, truncated, with a floor of one.
- **Validated configuration.** Both sides must be at least 5.
- **Board generation.** A creation guard runs first. Mines are then placed by
  rejection sampling outside a 3 × 3 protected block in the middle, and every
  other cell is numbered with its adjacent-mine count.
- **Per-game cell state.** Revealed and flagged matrices support a flood-fill
  reveal, chorded reveals around a number, flag toggling, flagging every mine,
  the win test, and the remaining-flag counter.
- **Game session.** Restart, hit and flag drive the game-over, game-won and
  timer-running fields.
- **Text rendering.** The board is drawn one line per row, as the tests use it.

Modules, one per source file:

| module | file | models |
|---|---|---|
| `CellTypes` | `cell_type.dfy` | `CellType`, `ofMineCount`, and the adjacent-mine count the tests assert |
| `Difficulty` | `game_difficulty.dfy` | `GameDifficulty` and `calcMineCount` |
| `Config` | `game_config.dfy` | `GameConfig` and its construction checks, with the minimum side 5 |
| `Adjacency` | `adjacency.dfy` | the eight neighbour offsets, bounds, and counting over the neighbours |
| `Board` | `board.dfy` | generation as values: placement from a draw sequence, numbering, well-formed boards |
| `Minefields` | `minefield.dfy` | the `Minefield` class: the guard, and in-place placement and numbering on an `array2` |
| `Flood` | `flood.dfy` | flood-fill closure, path provenance and the reference flood `Flooded`, stated on sets of cells |
| `GameStates` | `game_state.dfy` | the `GameState` class over two `array2<bool>` matrices |
| `Games` | `game.dfy` | the `Game` class and its session invariant |
| `MinefieldAscii` | `minefield_ascii.dfy` | `toAscii` and `getCellTypeChar`, and that the text determines the board |
| `Fixture` | `fixture.dfy` | the 10 × 10 HARD test board and its expected text |

The shared `Wrappers` module in `wrappers.dfy` holds `Option` and `Result`.

A board is a `seq<seq<CellType>>` indexed `[x][y]`, as the source's matrix is. The
rendering runs row by row over y, so it is the transpose of that indexing.

Kotlin's `kotlin.random.Random(seed)` is library code outside the repository. Mine placement
therefore takes the cells the generator yields as an explicit finite draw
sequence. Generation is then deterministic by construction: the same
configuration and the same draws always give the same board.

The protected block is what `Minefield.kt:226-230` computes: the three
positions from `side/2 - 1` to `side/2 + 1` in each direction, whatever the side
length. `Board.CalcProtectedRange` models exactly that.

`GameState.kt:44` reads `config.mineCount`, and `Game.kt:92` calls
`Minefield.create`. Neither is defined in `GameConfig.kt` or `Minefield.kt`. The
model reads the first as `difficulty.calcMineCount(width, height)`, which is the
minefield's own `mineCount`. It reads the second as the minefield's construction,
`Minefields.Minefield.Create`.

A reveal is specified against a reference definition of the flood,
`Flood.Flooded`. It holds every cell reached from the tapped cell by a path of
hidden cells, each step leaving an empty cell. `Flood.FloodExact` proves that
closure plus path provenance determine the revealed set. Every reveal method
therefore states its exact result: what was revealed before, plus `Flooded`.

## Model

Source paths: `M` = `app/src/commonMain/kotlin/de/stefan_oltmann/mines/model`,
`T` = `app/src/commonTest/kotlin/de/stefan_oltmann/mines/model` (written out in the
table).

| member | source | states |
|---|---|---|
| CellTypes.AdjacentMineCount | app/src/commonTest/kotlin/de/stefan_oltmann/mines/model/CellTypeTest.kt:31-44 | the count is -1 exactly for a mine, 0 exactly for EMPTY, and between 1 and 8 exactly for the numbered kinds |
| CellTypes.OfMineCount | app/src/commonMain/kotlin/de/stefan_oltmann/mines/model/CellType.kt:37-49 | never a mine; for 0..8 the kind's count is the argument; any other argument gives EMPTY |
| CellTypes.OfMineCountOfAdjacentMineCount | app/src/commonMain/kotlin/de/stefan_oltmann/mines/model/CellType.kt:37-49 | round trip: every kind other than MINE is recovered from its own count |
| CellTypes.OfMineCountEmpty | app/src/commonMain/kotlin/de/stefan_oltmann/mines/model/CellType.kt:38-47 | within 0..8, only 0 maps to EMPTY |
| Difficulty.GameDifficulty.MinePercentage | app/src/commonMain/kotlin/de/stefan_oltmann/mines/model/GameDifficulty.kt:26-28 | EASY is 10, MEDIUM 15 and HARD 20 percent, all within 10 to 20 |
| Difficulty.GameDifficulty.CalcMineCount | app/src/commonMain/kotlin/de/stefan_oltmann/mines/model/GameDifficulty.kt:30-35 | at least 1; once cells × percent reaches 100, the result is that product divided by 100 and truncated; below 200 the result is 1 |
| Difficulty.MineCountAtMostCells | app/src/commonMain/kotlin/de/stefan_oltmann/mines/model/GameDifficulty.kt:30-35 | on a non-empty board the mine count never exceeds the cell count |
| Difficulty.MineCountMonotone | app/src/commonMain/kotlin/de/stefan_oltmann/mines/model/GameDifficulty.kt:26-35 | for fixed dimensions EASY ≤ MEDIUM ≤ HARD |
| Difficulty.MineCountLeavesNineFree | app/src/commonMain/kotlin/de/stefan_oltmann/mines/model/GameDifficulty.kt:30-35 | with both sides at least 5, the mine count is at most cells − 9; `Board.AdmissibleCount` shows that number of cells lie outside the protected block |
| Difficulty.TestedValues | app/src/commonTest/kotlin/de/stefan_oltmann/mines/model/GameDifficultyTest.kt:28-40 | every tier gives 1 on 3×3; on 10×4, EASY gives 4, MEDIUM 6 and HARD 8 |
| Config.NewGameConfig | app/src/commonMain/kotlin/de/stefan_oltmann/mines/model/GameConfig.kt:24-35 | success iff both sides are at least 5, keeping all four fields; a short width is reported first, then a short height |
| Config.NoUpperBound | app/src/commonMain/kotlin/de/stefan_oltmann/mines/model/GameConfig.kt:31-34 | any cell size, any difficulty and arbitrarily large sides are accepted |
| Adjacency.Neighbours | app/src/commonMain/kotlin/de/stefan_oltmann/mines/model/GameState.kt:153-170 | the cells neighbour operations reach: the in-bounds cells at distance one, the cell itself excluded |
| Adjacency.StepsBelowAll | app/src/commonMain/kotlin/de/stefan_oltmann/mines/model/GameState.kt:162-169 | walking the eight directions with a bounds check visits exactly the in-bounds neighbours |
| Adjacency.CountAdjacentIsCardinality | app/src/commonMain/kotlin/de/stefan_oltmann/mines/model/Minefield.kt:296-308 | counting direction by direction equals the number of in-bounds neighbours in the set |
| Adjacency.CountAdjacentZero | app/src/commonMain/kotlin/de/stefan_oltmann/mines/model/Minefield.kt:296-308 | the count is zero iff no in-bounds neighbour lies in the set |
| Board.CalcProtectedRange | app/src/commonMain/kotlin/de/stefan_oltmann/mines/model/Minefield.kt:226-230 | three consecutive positions, on the board once the side is at least 3, centred up to one position |
| Board.PlaceMinesFromCount | app/src/commonMain/kotlin/de/stefan_oltmann/mines/model/Minefield.kt:248-273 | placement only adds admissible drawn cells, and reaches mineCount unless fewer distinct admissible cells were drawn |
| Board.PlacedMinesCount | app/src/commonMain/kotlin/de/stefan_oltmann/mines/model/Minefield.kt:248-273 | every placed mine is admissible (in bounds, outside the protected block); at most mineCount; exactly mineCount iff the draws offer enough distinct admissible cells |
| Board.MinesGrid | app/src/commonMain/kotlin/de/stefan_oltmann/mines/model/Minefield.kt:219-224 | the board after placement has a mine exactly on each placed in-bounds cell |
| Board.PlaceCountsKeepsMines | app/src/commonMain/kotlin/de/stefan_oltmann/mines/model/Minefield.kt:282-293 | numbering leaves the mines as they are and creates none |
| Board.PlaceCountsCorrect | app/src/commonMain/kotlin/de/stefan_oltmann/mines/model/Minefield.kt:282-308 | after numbering, every non-mine cell shows its number of in-bounds mine neighbours |
| Board.EmptyHasNoAdjacentMine | app/src/commonMain/kotlin/de/stefan_oltmann/mines/model/Minefield.kt:289-291 | on a correctly numbered board an EMPTY cell has no mine neighbour |
| Board.GenerateWellFormed | app/src/commonMain/kotlin/de/stefan_oltmann/mines/model/Minefield.kt:203-217 | given enough admissible draws, the generated board is well formed: right digits, exactly mineCount mines, none in the protected block |
| Board.AdmissibleCount | app/src/commonMain/kotlin/de/stefan_oltmann/mines/model/Minefield.kt:226-259 | with both sides at least 3 the admissible cells are exactly the in-bounds cells outside the protected block, and there are width · height − 9 of them |
| Board.CoveringDraws | app/src/commonMain/kotlin/de/stefan_oltmann/mines/model/Minefield.kt:248-273 | when every admissible cell occurs among the draws, the draws offer all admissible cells |
| Board.NumberingOfMines | app/src/commonMain/kotlin/de/stefan_oltmann/mines/model/Minefield.kt:276-294 | numbering the mines of a correctly numbered board gives that board back |
| Board.GeneratedIffMines | app/src/commonMain/kotlin/de/stefan_oltmann/mines/model/Minefield.kt:203-217 | a correctly numbered board is the generated one iff its mines are the placed ones |
| Board.GenerateFromMines | app/src/commonMain/kotlin/de/stefan_oltmann/mines/model/Minefield.kt:203-217 | a well-formed board is generated by any in-bounds draws whose admissible cells are exactly its mines |
| Minefields.Minefield.Create | app/src/commonMain/kotlin/de/stefan_oltmann/mines/model/Minefield.kt:31-50 | fails with TooManyMines when mineCount > w·h; succeeds iff the guard passes and the draws suffice; the result carries the configuration and seed, is valid, and holds the generated board |
| Minefields.Minefield.CreateMatrix | app/src/commonMain/kotlin/de/stefan_oltmann/mines/model/Minefield.kt:203-224 | a fresh width × height matrix holding the generated board; the number of mines placed |
| Minefields.Minefield.PlaceMines | app/src/commonMain/kotlin/de/stefan_oltmann/mines/model/Minefield.kt:232-274 | the loop leaves the matrix holding mines exactly at the placed cells and returns their number |
| Minefields.Minefield.PlaceCounts | app/src/commonMain/kotlin/de/stefan_oltmann/mines/model/Minefield.kt:276-294 | the nested loops turn the matrix into the numbered version of its old contents |
| Minefields.Minefield.CountMinesInAdjacentCells | app/src/commonMain/kotlin/de/stefan_oltmann/mines/model/Minefield.kt:296-308 | the number of mines among the in-bounds neighbours in the matrix |
| Minefields.Minefield.HasMine | app/src/commonMain/kotlin/de/stefan_oltmann/mines/model/Minefield.kt:310-322 | false out of bounds; otherwise true iff the cell is a mine |
| Minefields.Minefield.GetCellType | app/src/commonMain/kotlin/de/stefan_oltmann/mines/model/Minefield.kt:168 | the board's cell at (x, y) |
| Minefields.Minefield.IsMine | app/src/commonMain/kotlin/de/stefan_oltmann/mines/model/Minefield.kt:170-171 | true iff (x, y) is one of the board's mines |
| Minefields.GuardNeverFires | app/src/commonMain/kotlin/de/stefan_oltmann/mines/model/Minefield.kt:44-46 | for a valid configuration the mine count is at most cells − 9, so the guard against more mines than cells never fails |
| Minefields.CoveringDrawsSuffice | app/src/commonMain/kotlin/de/stefan_oltmann/mines/model/Minefield.kt:248-273 | for a valid configuration, draws that hold every admissible cell are enough for placement to finish |
| Minefields.PlacementCanFinish | app/src/commonMain/kotlin/de/stefan_oltmann/mines/model/Minefield.kt:248-273 | for every valid configuration some in-bounds draws let placement put down the full mine count |
| Flood.FloodFromOrigin | app/src/commonMain/kotlin/de/stefan_oltmann/mines/model/GameState.kt:62-85 | one reveal is closed (each newly revealed EMPTY cell has all neighbours revealed) and reached (each new cell ends a path of new cells from the origin, every step leaving an EMPTY cell) |
| Flood.FloodExact | app/src/commonMain/kotlin/de/stefan_oltmann/mines/model/GameState.kt:62-85 | a revealed set that contains the old one and the origins, is closed, and has path provenance is exactly the old set plus the reference flood |
| Flood.FloodOfNumber | app/src/commonMain/kotlin/de/stefan_oltmann/mines/model/GameState.kt:68-76 | from a hidden cell that is not EMPTY the flood holds only that cell |
| Flood.RevealOutcome | app/src/commonMain/kotlin/de/stefan_oltmann/mines/model/GameState.kt:62-85 | one reveal gives exactly the old set plus the flood from the origin; only the origin for a cell that is not EMPTY; no mine other than the origin |
| Flood.FloodCompose | app/src/commonMain/kotlin/de/stefan_oltmann/mines/model/GameState.kt:77-83 | closure and provenance survive a nested reveal started from a neighbour |
| Flood.ReachedAvoidsMines | app/src/commonMain/kotlin/de/stefan_oltmann/mines/model/GameState.kt:75-84 | on a correctly numbered board the flood reveals no mine other than where it started |
| Flood.HiddenMineRevealed | app/src/commonMain/kotlin/de/stefan_oltmann/mines/model/GameState.kt:110-123 | a hidden unflagged mine among cells that all end up revealed is a newly revealed mine |
| GameStates.CountMarked | app/src/commonMain/kotlin/de/stefan_oltmann/mines/model/GameState.kt:43-44 | counting a boolean matrix cell by cell gives the number of set entries |
| GameStates.GameState.constructor | app/src/commonMain/kotlin/de/stefan_oltmann/mines/model/GameState.kt:25-41 | a fresh state: nothing revealed and nothing flagged |
| GameStates.GameState.IsCellWithinBounds | app/src/commonMain/kotlin/de/stefan_oltmann/mines/model/GameState.kt:153-154 | (x, y) is in bounds iff 0 ≤ x < width and 0 ≤ y < height, that is iff it is a cell of the board |
| GameStates.GameState.IsRevealed | app/src/commonMain/kotlin/de/stefan_oltmann/mines/model/GameState.kt:46-47 | true iff the cell is among the revealed cells |
| GameStates.GameState.IsFlagged | app/src/commonMain/kotlin/de/stefan_oltmann/mines/model/GameState.kt:130-131 | true iff the cell is among the flagged cells |
| GameStates.GameState.CountAdjacentFlags | app/src/commonMain/kotlin/de/stefan_oltmann/mines/model/GameState.kt:145-151 | the number of flagged in-bounds neighbours |
| GameStates.GameState.IsAllRevealed | app/src/commonMain/kotlin/de/stefan_oltmann/mines/model/GameState.kt:52-60 | true iff every cell that is not a mine is revealed |
| GameStates.GameState.GetRemainingFlagsCount | app/src/commonMain/kotlin/de/stefan_oltmann/mines/model/GameState.kt:43-44 | mineCount minus the number of flags, which goes negative when the player over-flags |
| GameStates.GameState.Reveal | app/src/commonMain/kotlin/de/stefan_oltmann/mines/model/GameState.kt:62-85 | the revealed cells become exactly the old ones plus `Flooded` from (x, y): the cell itself when it is not EMPTY, nothing when it was already revealed; flags are cleared exactly on newly revealed cells; no mine other than (x, y) is revealed |
| GameStates.GameState.MarkRevealed | app/src/commonMain/kotlin/de/stefan_oltmann/mines/model/GameState.kt:68-72 | adds the cell to the revealed set and removes it from the flagged set |
| GameStates.GameState.RevealAround | app/src/commonMain/kotlin/de/stefan_oltmann/mines/model/GameState.kt:75-84 | the revealed cells become exactly the old ones plus `Flooded` from the neighbours, so every neighbour ends revealed; flags clear only on newly revealed cells |
| GameStates.GameState.RevealAdjacentCells | app/src/commonMain/kotlin/de/stefan_oltmann/mines/model/GameState.kt:92-128 | without a matching flag count on a number, returns false and reveals nothing; with one, the revealed cells become exactly the old ones plus `Flooded` from the neighbours not flagged beforehand, with no early exit; the result is true iff a hidden unflagged neighbour was a mine, iff a mine was newly revealed |
| GameStates.GameState.RevealUnflaggedAround | app/src/commonMain/kotlin/de/stefan_oltmann/mines/model/GameState.kt:110-124 | after all eight directions: every neighbour not flagged beforehand is revealed, the growth is closed and reached from those neighbours, the only new mines are among them, and the result says whether one was a hidden mine |
| GameStates.GameState.ToggleFlag | app/src/commonMain/kotlin/de/stefan_oltmann/mines/model/GameState.kt:133-135 | flips the flag of (x, y) only; revealed cells are unchanged |
| GameStates.GameState.FlagAllMines | app/src/commonMain/kotlin/de/stefan_oltmann/mines/model/GameState.kt:137-143 | the flags become the old flags plus every mine; revealed cells are unchanged |
| Games.Game.constructor | app/src/commonMain/kotlin/de/stefan_oltmann/mines/model/Game.kt:35-46 | no state, both end flags clear, timer off at zero |
| Games.Game.StartTimer | app/src/commonMain/kotlin/de/stefan_oltmann/mines/model/Game.kt:54-59 | the timer runs afterwards; nothing else changes |
| Games.Game.Restart | app/src/commonMain/kotlin/de/stefan_oltmann/mines/model/Game.kt:80-97 | the timer stops at zero, both end flags clear, and a fresh state is installed with nothing revealed or flagged; its minefield has the configuration and seed, its mines are the placed ones and its board is the one generated from the draws; the session invariant holds |
| Games.Game.NewState | app/src/commonMain/kotlin/de/stefan_oltmann/mines/model/Game.kt:90-96 | creation succeeds for a valid configuration; the fresh state is consistent and not won, its mines are the placed ones and its board is the one generated from the draws |
| Games.Game.Install | app/src/commonMain/kotlin/de/stefan_oltmann/mines/model/Game.kt:82-88 | the field updates of a restart: timer off at zero, both end flags clear, the given fresh state installed, and the session invariant holds |
| Games.Game.Hit | app/src/commonMain/kotlin/de/stefan_oltmann/mines/model/Game.kt:99-164 | ignored without a state or after the end; otherwise the timer starts, a flagged cell is left alone, a hidden cell floods exactly as `Reveal` states and loses iff it is a mine, a revealed cell chords exactly as `RevealAdjacentCells` states and loses iff its chord hits a mine, flags clear only on newly revealed cells unless the game is won; the session invariant (never both lost and won, won iff all safe cells revealed, all mines flagged when won) is kept |
| Games.Game.HitHidden | app/src/commonMain/kotlin/de/stefan_oltmann/mines/model/Game.kt:115-131 | the revealed cells become the old ones plus `Flooded` from the cell; the game is lost iff it is a mine; unless won, flags clear only on newly revealed cells |
| Games.Game.HitRevealed | app/src/commonMain/kotlin/de/stefan_oltmann/mines/model/Game.kt:137-149 | the revealed cells become the old ones plus, when the chord applies, `Flooded` from the neighbours not flagged beforehand; the game is lost iff the chord hit a mine; unless won, flags clear only on newly revealed cells |
| Games.Game.Lose | app/src/commonMain/kotlin/de/stefan_oltmann/mines/model/Game.kt:125-129 | the timer stops and the game is lost, not won |
| Games.Game.CheckWin | app/src/commonMain/kotlin/de/stefan_oltmann/mines/model/Game.kt:151-163 | the game is won exactly when every safe cell is revealed, and then the mines are added to the flags and the timer stops; otherwise the flags are unchanged; revealed cells are unchanged either way |
| Games.Game.Flag | app/src/commonMain/kotlin/de/stefan_oltmann/mines/model/Game.kt:166-183 | ignored without a state or after the end; otherwise the timer starts and a cell that is not revealed has its flag toggled, while revealed cells and every other flag stay |
| Games.FreshGameNotWon | app/src/commonMain/kotlin/de/stefan_oltmann/mines/model/Minefield.kt:256-259 | a fresh game is consistent and not won, because the middle cell is protected and hidden |
| Games.FlagsStayOffRevealed | app/src/commonMain/kotlin/de/stefan_oltmann/mines/model/GameState.kt:69-72 | clearing the flags of newly revealed cells keeps every revealed cell unflagged |
| Games.WonFlagsAreMines | app/src/commonMain/kotlin/de/stefan_oltmann/mines/model/Game.kt:152-158 | once every safe cell is revealed and no revealed cell is flagged, flagging all mines flags exactly the mines |
| Games.WonGameHasNoFlagsLeft | app/src/commonMain/kotlin/de/stefan_oltmann/mines/model/GameState.kt:43-44 | in a won game the remaining-flag count is zero |
| MinefieldAscii.GetCellTypeChar | app/src/commonTest/kotlin/de/stefan_oltmann/mines/model/MinefieldAscii.kt:64-78 | never a line break, and reading the character back gives the kind |
| MinefieldAscii.CellCharInjective | app/src/commonTest/kotlin/de/stefan_oltmann/mines/model/MinefieldAscii.kt:64-78 | different kinds are drawn as different characters |
| MinefieldAscii.Row | app/src/commonTest/kotlin/de/stefan_oltmann/mines/model/MinefieldAscii.kt:43-50 | a row has exactly width characters |
| MinefieldAscii.RowAscii | app/src/commonTest/kotlin/de/stefan_oltmann/mines/model/MinefieldAscii.kt:43-50 | the inner loop produces row y |
| MinefieldAscii.ToAscii | app/src/commonTest/kotlin/de/stefan_oltmann/mines/model/MinefieldAscii.kt:38-56 | the loops produce the rendering: rows by y, cells by x, a line break after every row but the last |
| MinefieldAscii.RowsUpToLength | app/src/commonTest/kotlin/de/stefan_oltmann/mines/model/MinefieldAscii.kt:41-55 | after y rows the text holds y lines of width + 1 characters, less one for the missing final break |
| MinefieldAscii.AsciiLength | app/src/commonTest/kotlin/de/stefan_oltmann/mines/model/MinefieldAscii.kt:41-55 | the text has w·h + h − 1 characters |
| MinefieldAscii.AsciiAt | app/src/commonTest/kotlin/de/stefan_oltmann/mines/model/MinefieldAscii.kt:41-55 | the character at y·(w+1) + x draws cell (x, y), and position y·(w+1) + w holds a line break for every row but the last |
| MinefieldAscii.CellAtAscii | app/src/commonTest/kotlin/de/stefan_oltmann/mines/model/MinefieldAscii.kt:41-77 | every cell is read back from the rendering: a left inverse, although no parser exists |
| MinefieldAscii.AsciiInjective | app/src/commonTest/kotlin/de/stefan_oltmann/mines/model/MinefieldAscii.kt:41-77 | boards of one shape with the same rendering are equal |
| Fixture.SmallCounts | app/src/commonTest/kotlin/de/stefan_oltmann/mines/model/MinefieldAsciiTest.kt:32-41 | every digit of the expected small board equals its number of adjacent mines |
| Fixture.SmallMineCount | app/src/commonTest/kotlin/de/stefan_oltmann/mines/model/MinefieldAsciiTest.kt:32-41 | the expected small board holds exactly 20 mines |
| Fixture.SmallProtected | app/src/commonTest/kotlin/de/stefan_oltmann/mines/model/MinefieldAsciiTest.kt:32-41 | no mine lies in columns and rows 4 to 6 |
| Fixture.SmallBoardWellFormed | app/src/commonTest/kotlin/de/stefan_oltmann/mines/model/TestData.kt:3-11 | the expected board is a well-formed board for the 10 × 10 HARD configuration of the small test minefield |
| Fixture.SmallBoardGenerated | app/src/commonTest/kotlin/de/stefan_oltmann/mines/model/MinefieldAsciiTest.kt:32-41 | some in-bounds draws generate exactly the expected board for the 10 × 10 HARD configuration |
| Fixture.SmallBoardRendering | app/src/commonTest/kotlin/de/stefan_oltmann/mines/model/MinefieldAsciiTest.kt:28-44 | rendering that board gives exactly the expected text |

## Left out

- Timer coroutine (`Game.kt:61-77`): it needs concurrency and the system clock. Only the `isTimerRunning` flag and the reset of the elapsed seconds to 0 are modelled.
- `generateSeed` (`Game.kt:51-52`) is nondeterministic. The seed is a parameter of `Games.Game.Restart`, restricted to the same range 1..`Int.MAX_VALUE`.
- `kotlin.random.Random` (`Minefield.kt:243`) is foreign code. Its draws are a parameter, a finite sequence of in-bounds cells.
  - When the draws offer too few admissible cells, the Kotlin loop would keep drawing. The model reports `DrawsExhausted` instead, and `Games.Game.Restart` requires enough draws. `Minefields.PlacementCanFinish` shows that such draws exist for every valid configuration: any draws that hold every admissible cell will do.
  - Because the generator is not modelled, the fixture board is not derived from seed 4711. The model proves that draws holding the board's twenty mines generate exactly that board, and that the expected text is its rendering.
- Float arithmetic in `calcMineCount` (`GameDifficulty.kt:34`) is modelled as the integer `w·h·p/100`, truncated.
  - The float factors `0.1f`, `0.15f` and `0.2f` lie slightly above their decimal values, so truncation agrees with the integer result on any realistic board.
- 32-bit `Int` overflow of the cell count `w·h` (`GameDifficulty.kt:32`) on huge boards is not modelled; integers are unbounded. The product with the percentage is a `Float`, which also loses precision above 2^24 cells; that rounding is not modelled either.
- The older copy of the revealed/flagged logic in `Minefield.kt:52-180` is modelled once, as `GameStates.GameState`.
- `directionsOfAdjacentCells` is defined outside the modelled files, so it is not part of this model. The eight offsets are used in a fixed order (`Adjacency.Directions`). The order only affects the order of traversal, which no contract depends on.
- The medium and large fixtures (`TestData.kt:13` onward, and their rendering tests) are not checked. Each would need a literal proof the size of the small one.
- There is no parser in the source, so none is modelled. `MinefieldAscii.CellAtAscii` is a read-back used only in proofs.
- User interface, gesture handling, platform files, settings persistence and the `AppConfig` constants other than the minimum side 5 are left out.
- Games.Game.Hit: requires in-bounds coordinates while the game is active. On other coordinates the Kotlin code throws an index exception, and that exception is not modelled.
- Games.Game.Flag: requires in-bounds coordinates while the game is active. On other coordinates the Kotlin code throws an index exception, and that exception is not modelled.
