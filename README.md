# Match-3 board engine, modelled in Dafny

This project models the board engine of a match-3 ("jewels") game and the
deterministic stripe fill of its basic icon generator.

A game owns a grid of `height` rows and `width` columns. Each position holds
an icon type or nothing. A **run** is three or more adjacent positions, along
a row or a column, holding icons of one type.

The engine does the following:

- validates a move, which is a swap of two adjacent cells with different icons that must create a run;
- finds the positions that lie in runs;
- clears those positions and scores each run: 10 points for three icons, doubled for each icon beyond three;
- applies gravity to each column (`collapseColumn`): empty slots rise to the top, icons fall and keep their order, and every icon that moved is reported with its old row;
- refills the empty slots from an icon source (`fillColumn`);
- chains these steps in `removeAllRuns`, and repeats the cascade at construction until no run is left.

## Modules

- `board.dfy` (`Board`): the grid as a value (`seq<seq<Option<int>>>`), the `Cell` record, adjacency, Python list indexing and the swap of two positions.
- `runs.dfy` (`Runs`): run detection, the read-only run scan, clearing and scoring.
- `gravity.dfy` (`Gravity`): column gravity, the removal of one slot, the refill and the reports they produce. Each has a reference definition on values and a recursive definition of the in-place scan, proved equal. It also covers the left-to-right cascade over all columns.
- `game.dfy` (`GameImpl`): the class `Game`. Its methods update the fields `grid`, `score` and `drawn` in place, and each is proved against the value definitions above.
- `basic_generator.dfy` (`Generators`): `initialize(grid, False)`, i.e. two alternating icon types per row, with the pair of types recomputed on some rows.
- `findings.dfy` (`AsWritten`): the lines whose code departs from their documentation, modelled as written, with an input that shows each departure.

## How the model reads the source

The icon generator is replaced by a **supply**: a function `supply: nat -> int` plus a counter `drawn`.
- The k-th icon handed out is `supply(k)`.
- The constructor seeds the grid in row-major order.
- Each refill takes the next draws, bottom row first.

Several methods are documented but written differently. The model follows the documented behaviour, and the code as written is kept in `AsWritten` (see Findings):
- `findRuns` is a stub that returns an empty list. The model implements its documented contract: every position in a run is reported; when marking, those positions are emptied and each maximal run is scored.
- `setIcon` only reads. The model writes.
- `removeAndShiftUp`, `collapseColumn` and `fillColumn` are modelled as documented. Each row of the Findings table below names its own departure.

## Model

| member | source | states |
|---|---|---|
| Board.PyIndex | GameImpl.py:121-122 | a list index is accepted exactly when it lies in [-n, n); a negative index counts from the end |
| Board.Swap | GameImpl.py:169-170 | the tuple assignment reads both positions first, then writes them; the grid keeps its shape |
| Board.SwapExchanges | GameImpl.py:164-170 | the swap exchanges the two positions, keeps every other position and keeps the grid's shape |
| Board.SwapSelfInverse | GameImpl.py:201-205 | swapping the same two positions again gives back the original grid, which is how a refused move is undone |
| Runs.RunScore | GameImpl.py:39-41 | a run of length k >= 3 scores BASE_SCORE * 2^(k - 3), never less than BASE_SCORE |
| Runs.RunScoreDoubles | GameImpl.py:39-41 | a run of three scores BASE_SCORE = 10, and each extra icon doubles the score |
| Runs.InLineRunIffBlockIsRun | GameImpl.py:36-38 | a position is covered by three equal consecutive icons exactly when the maximal block of equal icons holding it has length at least three |
| Runs.LineScorePositive | GameImpl.py:39-41 | a row or column earns points exactly when it holds three equal consecutive icons |
| Runs.ScanRuns | GameImpl.py:211-219 | the scan reports only run positions, each with its icon, and reports every run position; it returns an empty list exactly when the grid has no run |
| Runs.Cleared | GameImpl.py:213-215 | marking empties exactly the run positions and keeps every other position |
| Runs.ClearDone | GameImpl.py:213-215 | emptying the positions of the reported cells, one by one, yields the cleared grid |
| Runs.ClearedHasNoRun | GameImpl.py:213-215 | no run survives a marking pass |
| Runs.ClearedWithoutRun | GameImpl.py:85-89 | marking a grid that has no run changes nothing |
| Runs.BoardScorePositive | GameImpl.py:39-41 | a marking pass earns points exactly when the grid has a run |
| Runs.RunEarnsPoints | GameImpl.py:39-41 | a grid with a run earns a positive score |
| Runs.PointsNeedRun | GameImpl.py:39-41 | a positive score comes only from a run |
| Gravity.Collapse | GameImpl.py:245-248 | after gravity the empty slots are at the top and the icons below them, with the length kept |
| Gravity.CollapseKeepsIcons | GameImpl.py:245-251 | gravity keeps the same icons in the same top-to-bottom order and the same number of empty slots, and collapsing twice is collapsing once |
| Gravity.ShiftedDownRemoves | GameImpl.py:231-243 | removing row pos: row 0 becomes empty, rows 1..pos take the row above, rows below pos are kept, and the icons are those of the column without the removed slot |
| Gravity.LandingRow | GameImpl.py:272-281 | an icon falls by the number of empty slots below it and lands at that row of the collapsed column |
| Gravity.MovedFromExact | GameImpl.py:249-251 | the collapse report lists each moved icon exactly once and nothing else: previous rows strictly decrease along the list, an icon moves exactly when some entry has its row as previousRow, and each entry names its landing row, its previous row above it, and the icon now at that row |
| Gravity.MovedFromOrder | GameImpl.py:272-283 | the report runs bottom-up, as the scan does: previous rows strictly decrease along the list, so no icon is reported twice |
| Gravity.MovedFromCells | GameImpl.py:249-251 | each reported cell is a moved icon at its new row with its previous row |
| Gravity.MovedFromCovers | GameImpl.py:249-251 | an icon moves exactly when some reported cell has its row as previousRow |
| Gravity.CollapseScanCollapses | GameImpl.py:257-297 | the in-place bottom-up scan of collapseColumn (with j empty slots removed so far) leaves the collapsed column and returns exactly the moved-icon report |
| Gravity.RefillCompletes | GameImpl.py:299-301 | after the refill the column has no empty slot, and every icon it had stays in place |
| Gravity.FilledFromCells | GameImpl.py:313-320 | each added cell names an empty slot of the column, carries previousRow -1 and the next draw of the supply, and that draw is the icon the refill put there |
| Gravity.FilledFromRows | GameImpl.py:313-320 | each added cell names an empty slot of column c |
| Gravity.FilledFromIconAt | GameImpl.py:313-320 | the m-th added cell has m empty slots below it and carries draw d + m |
| Gravity.FilledFromOrder | GameImpl.py:313 | the added cells run bottom-up: their rows strictly decrease |
| Gravity.FilledFromCovers | GameImpl.py:299-301 | every empty slot of the column is reported |
| Gravity.FilledFromLength | GameImpl.py:313-320 | one cell is reported per empty slot |
| Gravity.FillScanRefills | GameImpl.py:307-327 | the in-place bottom-up refill leaves the refilled column, takes one draw per empty slot and returns exactly the added-cell report |
| Gravity.PartlyResolvedAt | GameImpl.py:92-94 | after the cascade has handled columns 0..n-1 those columns are collapsed and refilled and the others are untouched |
| Gravity.ResolvedColumns | GameImpl.py:90-97 | after the cascade every column is full, with its surviving icons at the bottom in their original order |
| Gravity.ResolvedFull | GameImpl.py:90-97 | after the cascade the grid has no empty position |
| Gravity.SettleGrid | GameImpl.py:92-94 | collapsing then refilling column n, with the draws after those of columns 0..n-1, handles one more column |
| Gravity.SettleDraws | GameImpl.py:92-94 | refilling column n takes as many draws as column n had empty slots |
| Gravity.SettleMoved | GameImpl.py:93 | the moved-icon report grows by column n's report |
| Gravity.SettleFilled | GameImpl.py:94 | the added-icon report grows by column n's report |
| GameImpl.Game.constructor | GameImpl.py:60-71 | the grid has height rows of width icons, seeded from the supply in row-major order, and the score is 0 |
| GameImpl.Game.Generate | GameImpl.py:316 | a refill takes the next icon of the supply |
| GameImpl.Game.GetWidth | GameImpl.py:134-139 | the number of columns, which is the length of every row |
| GameImpl.Game.GetHeight | GameImpl.py:141-147 | the number of rows of the grid |
| GameImpl.Game.GetScore | GameImpl.py:149-154 | the current score |
| GameImpl.Game.GetIcon | GameImpl.py:121-122 | reads the position with Python indexing; an index outside [-n, n) is an IndexError (None) |
| GameImpl.Game.SetIcon | GameImpl.py:124-132 | writes the icon so that GetIcon then returns it, and changes no other position; an index outside the grid raises and changes nothing |
| GameImpl.Game.SwapIcons | GameImpl.py:164-170 | the grid becomes the swap of the two positions |
| GameImpl.Game.SwapCells | GameImpl.py:156-162 | the grid becomes the swap of the first two cells' positions |
| GameImpl.Game.Select | GameImpl.py:172-209 | a move is made exactly when the cells are two adjacent in-grid cells with different icons and the swap creates a run; a made move leaves the swapped grid, a refused one leaves the grid unchanged, and the score never changes |
| GameImpl.Game.FindRuns | GameImpl.py:211-229 | reports only and all run positions, and returns an empty list exactly when there is no run; marking empties exactly those positions and adds each maximal run's points; without marking nothing changes |
| GameImpl.Game.EmptyCells | GameImpl.py:213-215 | emptying the positions of the reported run cells yields the cleared grid |
| GameImpl.Game.RemoveAndShiftUp | GameImpl.py:231-243 | column col becomes the column with row pos removed, and other columns are untouched |
| GameImpl.Game.CollapseColumn | GameImpl.py:245-297 | column col becomes its collapsed column, other columns are untouched, and the result is exactly the moved-icon report |
| GameImpl.Game.CollapseRow | GameImpl.py:272-295 | one pass of collapseColumn's loop preserves the value of the remaining scan and makes i - j decrease |
| GameImpl.Game.FillColumn | GameImpl.py:299-327 | column col becomes its refill from the next draws, drawn grows by its number of empty slots, and the result is exactly the added-cell report |
| GameImpl.Game.FillRow | GameImpl.py:313-320 | one pass of fillColumn's loop preserves the value of the remaining scan |
| GameImpl.Game.RemoveAllRuns | GameImpl.py:83-103 | the score grows by the board's run points, and it grows exactly when there was a run; the first report holds exactly the run cells; without a run nothing else changes and the report is [[]]; with a run every column is collapsed then refilled, left to right, the grid ends full, and the moved and added reports follow |
| GameImpl.Game.ResolveColumns | GameImpl.py:90-97 | the column loop collapses then refills every column left to right, and leaves the grid full with the concatenated reports |
| GameImpl.Game.ResolveColumn | GameImpl.py:92-94 | one pass of the column loop handles one more column and extends both reports |
| GameImpl.Round | GameImpl.py:85-97 | one round of removeAllRuns on values: the cleared grid collapsed and refilled column by column, which leaves a full grid, and the draw count after it |
| GameImpl.Cascade | GameImpl.py:72-73 | the construction loop on values: rounds are played while the grid has a run and fuel remains; the grid keeps its shape |
| GameImpl.CascadeStep | GameImpl.py:72-73 | on a grid with a run and fuel left, the cascade is one round followed by the cascade of the result |
| GameImpl.CascadeStops | GameImpl.py:72 | the cascade leaves a grid without runs, or one with no fuel left, unchanged |
| GameImpl.CascadeFull | GameImpl.py:72-73 | the cascade keeps a full grid full, and any grid on which it plays at least one round ends full |
| GameImpl.Game.PlayRound | GameImpl.py:73 | on a grid with a run, removeAllRuns leaves exactly the grid and draw count of one round |
| GameImpl.Game.PendingRuns | GameImpl.py:72 | the loop test `findRuns(False)` returns an empty list exactly when the board has no run, and changes nothing |
| GameImpl.Game.SettleStep | GameImpl.py:72-73 | one pass of the construction loop plays one round, leaves a full grid, and keeps the cascade's final result unchanged with one unit of fuel used |
| GameImpl.Game.Settle | GameImpl.py:70-76 | the grid and draw count become those of the cascade on the old grid with the given fuel; the score is reset to 0; a full grid stays full; settled says whether the board is left without runs |
| Generators.PyMod | BasicGenerator.py:33-38 | Python's % takes the sign of the divisor and agrees with Dafny's % for a positive divisor |
| Generators.NextPair | BasicGenerator.py:30-38 | with at least two types the recomputed pair holds two different valid types, and the new first type differs from the old second type |
| Generators.PatternIsFlipParity | BasicGenerator.py:22-47 | a row recomputes the pair exactly when the width is even and the row index is odd; the cells of a row alternate between the two types |
| Generators.PairStaysNone | BasicGenerator.py:29-33 | once the pair cannot be computed (no types), no later row can compute it |
| Generators.PairInRange | BasicGenerator.py:26-38 | with at least two types every row's pair exists and holds two different valid types |
| Generators.RowAlternates | BasicGenerator.py:40-47 | with at least two types every written icon is a valid type and horizontally adjacent icons differ |
| Generators.BasicGenerator.GetJewelTypes | BasicGenerator.py:14-15 | the number of icon types the generator was built with |
| Generators.BasicGenerator.constructor | BasicGenerator.py:10-15 | the generator hands out the given number of types |
| Generators.BasicGenerator.StripeRow | BasicGenerator.py:40-47 | the first w positions of a row take the two types alternately, starting from the current pattern, and pattern ends flipped w times; a row shorter than w raises |
| Generators.BasicGenerator.Initialize | BasicGenerator.py:21-47 | the fill raises exactly when the pair cannot be computed or a row is shorter than the first; otherwise every position within the first row's width gets its stripe icon and the rest is kept |
| AsWritten.FindRunsAsWrittenMissesRun | GameImpl.py:221-229 | on a row of three equal icons the written-out findRuns reports, clears and scores nothing, although the grid has a run worth points |
| AsWritten.SelectAsWrittenAllowsSameIcon | GameImpl.py:197-200 | two adjacent cells with the same icon pass the written-out guard, but the documented rule refuses them |
| AsWritten.SetIconNeverWrites | GameImpl.py:130-132 | the written-out setIcon never stores a new icon; the corrected write does |
| AsWritten.RemoveAsWrittenLosesIcon | GameImpl.py:239-243 | the written-out shift leaves row 1 alone and loses the icon of row 0 |
| AsWritten.CollapseAsWrittenSpins | GameImpl.py:286-295 | once rows 0..i are empty, a written-out pass changes nothing while the loop guard still holds |
| AsWritten.RefillAsWrittenLeavesTop | GameImpl.py:313-317 | the written-out refill leaves an empty row 0 empty; the corrected refill fills it |

## Left out

- The random branch of `initialize` (`randIcons=True`) and `generate`, which uses `random.randint`. They are replaced by the supply function. The unused `seed` parameter of the generator is not modelled.
- Generators.BasicGenerator.Initialize: returns the filled grid instead of writing into the caller's list; the aliasing of that list is not modelled.
- Vertical properties of the stripe fill, for example whether vertically adjacent icons differ, are not stated.
- Debug output (`setDebug`, `getDebug`, the prints in `select`, `removeAllRuns` and `fillColumn`) and the renderings `__str__`, `__repr__` and `toString` (GameImpl.py:333-366): they only produce text.
- GameImpl.Game.Select: returns false for a list of fewer than two cells. As written, the debug print at GameImpl.py:192-195 runs on every call, because it tests the method object `setDebug`, which is always true. That print indexes `cells[0]` and `cells[1]` and raises IndexError on such a list.
- GameImpl.Game.Settle: the construction loop (GameImpl.py:72-73) is bounded by a `fuel` count, because its termination is not proved; the grid it leaves is `Cascade` with that fuel. `settled` reports whether a run remains when the fuel runs out. Settle is a separate method from the constructor.
- GameImpl.Game.Settle: the supply is available from the start. As written, the constructor stores the generator (GameImpl.py:79) only after the loop that would call `fillColumn`.
- GameImpl.Game.FillColumn: stores the supply's next icon, not the generator object that GameImpl.py:316 stores. `previousRow` is -1 for every added cell, as `n - 1` with `n = 0` gives at GameImpl.py:319.
- GameImpl.Game.CollapseColumn: does not report empty slots. The block under `if Cell is None` (GameImpl.py:292-295) would append `Cell(j, col, None)` for every removed empty slot. The model follows the documentation at GameImpl.py:249-251, under which the list holds only the icons that moved.
- The interfaces `IGame` and `IGenerator` and the classes `Cell`, `Icon` and `BasicIcon` are not part of this model. A cell is the record `Board.Cell`, and an icon is its integer type.

## Findings

| source | as written | input that shows it | evidently intended | confidence | as-written member | corrected member |
|---|---|---|---|---|---|---|
| GameImpl.py:221-229 | `findRuns` returns an empty list and never marks or scores | the one-row grid [0, 0, 0] | report, and when asked clear and score, every run position | not executed | AsWritten.FindRunsAsWrittenMissesRun | GameImpl.Game.FindRuns |
| GameImpl.py:197-198 | `(not cells[0].getIcon()).__eq__(cells[1].getIcon())` compares False with an icon. If the icon class defines neither `__bool__` nor `__len__` (that class is not part of this model), `not icon` is False. `False.__eq__(icon)` then yields NotImplemented, which counts as true up to Python 3.13 (deprecated since 3.9); Python 3.14 raises TypeError instead | two horizontally adjacent cells holding the same icon | refuse cells that hold the same icon type | not executed; depends on the Python version and on the icon class | AsWritten.SelectAsWrittenAllowsSameIcon | GameImpl.Game.Select |
| GameImpl.py:130-132 | `setIcon` reads the position and returns it without writing | any icon different from the one in place | store the icon at (row, col) | not executed | AsWritten.SetIconNeverWrites | GameImpl.Game.SetIcon |
| GameImpl.py:240 | `range(pos, 1, -1)` stops before row 1, so row 1 never takes row 0's slot | the column [1, 2, empty], removing row 2 | every row 1..pos takes the slot above it | not executed | AsWritten.RemoveAsWrittenLosesIcon | Gravity.ShiftedDownRemoves |
| GameImpl.py:292 | `if Cell is None` tests the class, so j never grows after an empty slot | a one-row column holding an empty slot: the loop never ends | count the removed empty slot (j = j + 1); the block's other effect, reporting `Cell(j, col, None)` for each removed slot (lines 293-294), is not kept, because the documentation at lines 249-251 says the list holds the icons that moved | not executed | AsWritten.CollapseAsWrittenSpins | Gravity.CollapseScanCollapses |
| GameImpl.py:313 | `range(height - 1, 0, -1)` skips row 0 | any column whose top slot is empty, which every collapse with a cleared slot produces | refill every row, 0 included | not executed | AsWritten.RefillAsWrittenLeavesTop | Gravity.RefillCompletes |
