# Tents and Trees: board, generator and rule-propagation solver

This project models the core of a Tents and Trees puzzle program. The board is a
square `dim`-by-`dim` grid of integers: EMPTY = 0, GRASS = 1, TENT = 2 and TREE = 3.

- **Geometry** covers the cell constants and the board as a value (`seq<seq<int>>`).
  It also covers the two neighbour queries, `get_neighbours` with k = 4 (order N, E, S, W)
  and k = 8 (order NW, N, NE, E, SE, S, SW, W). A slot that falls off the board holds
  the off-board marker (`None` in the program). The packaged module-level variant can
  filter out falsy slots.
- **Counting** covers the per-row and per-column tent counts that the generator
  publishes as constraints.
- **Puzzle** covers the rules of the puzzle over positions: tents apart, and trees and
  tents paired orthogonally. It also covers what a valid solution is, and what one
  generation attempt establishes.
- **Generator** covers the `Grid` class as one generation attempt on its `array2<int>`.
  The attempt places `nb_tents` tents apart, publishes the tent counts, plants one
  tree beside every tent in row-major order, and erases the tents. Every retry loop
  allows at most `MAX_TRIES + 1 = 11` draws. An exhausted budget is a `false` result
  where the program raises `BadGenerationException`.
  The packaged `Grid` class has the same `_place_tents`, `_place_trees`,
  `_remove_tents` and `_get_row_col_constraints` methods, so the same Generator and
  Counting members cover it. Only its module-level `get_neighbours` differs, and
  Geometry covers that one with its filtering option.
- **Rules** covers the nine deduction sweeps of `solve` and the fixed-point loop, as
  functions on board values.
- **Solver** covers the same sweeps and loop as methods that rewrite the array cell by
  cell. Each is proved to compute its `Rules` function.
- **Soundness** shows that the sweeps never contradict a solution. Started from a
  board consistent with a valid solution, the loop keeps the board consistent with it.
  So a board reported solved is that solution, and on a generated puzzle it is the
  hidden layout with GRASS on the unused cells.

The random source `np.random.randint` is modelled as two sequences of draws. The tent
draws are positions `(x, y)` on the board. The tree draws are slot indices `0..3`.
Each placement reads its draws from the front of its sequence. The callers supply
enough draws to exhaust every retry budget, which models an unbounded random source. The placement methods
also return how many draws they read, so that a failure can name the draws that
exhausted its budget.

Behaviour kept as the code has it:
- If the board passed to `solve` already has no EMPTY cell, the first pass changes
  nothing. The loop then stops with `solved` false.
- `solve` only prints whether it solved the board. The model returns that flag as an
  out-parameter next to the grid object, which is mutated in place and returned.
- `_place_trees` reads the neighbour list once per tent, before its retry loop. The
  model does the same.

## Model

| member | source | states |
|---|---|---|
| Geometry.Neighbours | grid.py:112-182 | k = 4 gives 4 slots and k = 8 gives 8 slots, in the documented order. Slot d holds the cell at the position plus offset d, or the off-board marker exactly when that position leaves the board. |
| Geometry.NeighboursHold | grid.py:122-182 | A value is in the neighbour list exactly when some on-board cell of the 4- or 8-neighbourhood holds it. This is what the `in` / `not in` tests of the generator and the solver rely on. |
| Geometry.SlotAround | solver.py:9 | The offset of slot d names a position in the k-neighbourhood. |
| Geometry.GetNeighbours | src/grid.py:108-185 | Unfiltered, it is exactly the 4- or 8-slot neighbour list. Filtered, it holds only cells that are not EMPTY, each non-EMPTY value as often as in the full list. |
| Geometry.KeepTruthy | src/grid.py:182-183 | The comprehension yields only truthy slots (neither `None` nor 0), and no more slots than it reads. |
| Geometry.KeepTruthyCounts | src/grid.py:182-183 | Every truthy slot is kept as often as the list holds it. |
| Geometry.KeepTruthyAppend | src/grid.py:182-183 | The comprehension keeps the list's order: filtering a concatenation concatenates the filtered parts, and a single slot is kept exactly when it is truthy. |
| Geometry.IndexOf | solver.py:93 | `list.index`: a slot equal to the element, with no earlier slot equal to it. |
| Geometry.BuildGraph | grid.py:103-110 | The graph has exactly dim * dim keys, the on-board positions. Each maps to the 8-neighbour list of its position. |
| Geometry.GraphSlots | grid.py:103-110 | The entry of an on-board position has 8 slots, NW to W. Slot d holds the cell at the position plus offset d, or the off-board marker. |
| Geometry.Positions | grid.py:106-107 | The positions visited are exactly the on-board ones, dim * dim of them. |
| Geometry.GridPositionsCount | grid.py:106-107 | The double loop visits rows * cols distinct positions. |
| Geometry.RowPositionsCount | grid.py:107 | One row of the double loop visits cols distinct positions. |
| Geometry.Snapshot | solver.py:17 | The copy of the array has its shape and its cells. |
| Counting.CountIsMultiplicity | grid.py:97-100 | The comprehension count of a value in a row is its multiplicity in the row. |
| Counting.RowColConstraints | grid.py:92-100 | Both lists have length dim. Entry r counts the TENT cells of row r, entry c those of column c. Both lists sum to the total number of tents. |
| Counting.SameTentsSameConstraints | grid.py:26-28 | Boards with the tents in the same places publish the same constraints, so planting trees and erasing tents after counting keeps the counts true of the hidden layout. |
| Puzzle.WithoutTents | grid.py:85-89 | No TENT is left. Every former TENT is EMPTY and every other cell is unchanged. |
| Puzzle.OwnTreesBeside | grid.py:60-82 | A one-to-one pairing of the tents with orthogonal trees puts a TREE beside every TENT and a TENT beside every TREE. |
| Puzzle.GeneratedIsSolvable | src/solver.py:66-112 | The hidden layout of a generated puzzle, with GRASS on the unused cells, satisfies every rule the constraint model posts. |
| Puzzle.RulesTransfer | src/solver.py:94-110 | The pairing and spacing rules depend only on where the tents and the trees are. |
| Puzzle.PlaceTentKeepsApart | grid.py:53-55 | A TENT written where no TENT is among the 8 neighbours keeps all tents apart. |
| Generator.Blank | grid.py:25 | `np.zeros`: a dim-by-dim board of EMPTY cells. |
| Generator.PlaceTentStep | grid.py:53-55 | An accepted tent draw adds exactly one TENT, changes no other cell, and keeps tents apart. |
| Generator.RejectedTail | grid.py:70-79 | A failed tree placement is the last MAX_TRIES + 1 draws naming no EMPTY slot, seen from all the draws read so far. |
| Generator.PlantTreeStep | grid.py:70-79 | A TREE written on an EMPTY orthogonal neighbour of a TENT adds one tree and keeps every tree paired with a tent. |
| Generator.PairsPlant | grid.py:70-79 | The tree planted for the scanned TENT becomes that tent's own tree: the extended map still sends each tent passed to an orthogonal TREE, no two tents to the same tree, and covers every tree planted so far. |
| Generator.PairsSkip | grid.py:63 | Passing a cell that is not a TENT leaves the pairing valid one cell further on. |
| Generator.PairsRowEnd | grid.py:61-62 | The pairing at the end of a row is the pairing at the start of the next. |
| Generator.ScanPairs | grid.py:60-82 | At the end of the scan over a board without trees, the map pairs every TENT one to one with an orthogonal TREE, and every TREE is some tent's. |
| Generator.PairsBeside | grid.py:60-82 | During the scan every tree keeps a tent beside it. Once the scan is over, every TENT has a TREE beside it. |
| Generator.ScanPlant | grid.py:63-79 | Planting the tree of the scanned TENT advances the scan state: one more tent seen, one more tree planted, and that tree paired with that tent. |
| Generator.ScanSkip | grid.py:63 | Passing a cell that is not a TENT advances the scan state. |
| Generator.ScanRowEnd | grid.py:61-62 | The end of a row is the start of the next. At the end of the last row every tent was seen and paired. |
| Generator.TentPhase | grid.py:25-26 | Tents placed apart on a blank board, n of them: a board of EMPTY and TENT cells with n tents, apart, and no tree. |
| Generator.PlantedBoard | grid.py:60-82 | Planting trees on EMPTY cells keeps the tents exactly where they are. |
| Generator.AttemptEstablishes | grid.py:25-29 | The steps of one attempt add up to a generated puzzle: n tents apart, n trees each the own tree of one tent (a one-to-one map from the tents onto the trees), the published counts, and the tents erased. |
| Generator.PlantedPuzzle | grid.py:27-29 | The end state of the tree scan on a board of n tents, with the tents erased, is a generated puzzle with the constraints counted before the trees were planted. |
| Generator.Grid.constructor | grid.py:13-24 | The grid stores its dimension and starts as a dim-by-dim board of EMPTY cells. |
| Generator.Grid.SetCell | grid.py:55 | Writing one cell of the array is writing it in the board value. |
| Generator.Grid.TryTentAt | grid.py:51-55 | One draw places a TENT at (x, y) exactly when the cell is not a TENT and no TENT is among its 8 neighbours. Otherwise the grid is unchanged. |
| Generator.Grid.DrawTent | grid.py:51-55 | One draw of the tent loop, all earlier draws rejected. Accepted: exactly that cell becomes a TENT. Rejected: the grid is unchanged and one more draw is rejected. |
| Generator.Grid.PlaceTent | grid.py:45-57 | One tent uses at most MAX_TRIES + 1 draws. On success the last draw was accepted, every earlier one rejected, and exactly that cell became a TENT. On failure all MAX_TRIES + 1 draws were rejected and the grid is unchanged. |
| Generator.Grid.PlaceTents | grid.py:43-57 | Only tents are added and they stay apart. Success holds exactly when nb_tents more tents exist. On failure the last MAX_TRIES + 1 draws are all rejected on the final grid. |
| Generator.Grid.DrawTree | grid.py:71-81 | One draw of the tree loop: the tree is planted exactly when the drawn slot is EMPTY, at the position the slot's offset names, an EMPTY orthogonal neighbour; otherwise the grid is unchanged. |
| Generator.Grid.PlantTree | grid.py:63-82 | At most MAX_TRIES + 1 draws. On success the last draw read named an EMPTY slot, every earlier one named a non-EMPTY slot, and the tree sits at the last draw's offset, on an EMPTY orthogonal neighbour, with no other cell changed. On failure all MAX_TRIES + 1 draws named non-EMPTY slots and the grid is unchanged. |
| Generator.Grid.VisitCell | grid.py:63-82 | The scan body at one cell: a TENT gets its tree and any other cell is passed. Failure leaves the rejected draws of that tent. |
| Generator.Grid.PlantRow | grid.py:62-82 | The scan over one row keeps the scan state: only trees on EMPTY cells, each tent passed paired with its own orthogonal tree, one tree per tent. On failure some TENT of the row had MAX_TRIES + 1 rejected draws. |
| Generator.Grid.PlaceTrees | grid.py:60-82 | Trees go only on EMPTY cells and the tents stay where they are. On success a map sends every TENT to its own orthogonal TREE, no two tents to the same tree, and every planted tree is some tent's. On failure some TENT had MAX_TRIES + 1 rejected draws. |
| Generator.Grid.RemoveTents | grid.py:85-89 | The new cells are the old ones with every TENT erased. |
| Generator.Grid.Reset | grid.py:25 | Each attempt starts from a fresh dim-by-dim EMPTY array. |
| Generator.Grid.PublishConstraints | grid.py:27 | The stored constraints are the row and column tent counts of the current cells. The cells are unchanged. |
| Generator.Grid.GenerateTents | grid.py:25-26 | The fresh grid only gains tents. Success holds exactly when it holds nb_tents tents, and then they are apart on EMPTY cells. On failure fewer tents were placed and the last MAX_TRIES + 1 draws read were all rejected. |
| Generator.Grid.FinishPuzzle | grid.py:27-29 | The published constraints count the tents. On success the grid, the constraints and the hidden layout form a generated puzzle. On failure the tents are still there and some TENT had MAX_TRIES + 1 rejected tree draws. |
| Generator.Grid.TryGenerate | grid.py:23-31 | One attempt of the generation loop. On success the grid shows the trees only, the constraints count the hidden tents, and the hidden layout pairs nb_tents tents one to one with nb_tents trees, tents apart. On failure either the tent budget or some tent's tree budget ran out. |
| Rules.RefinesTrans | solver.py:20-96 | Filling EMPTY cells composes. |
| Rules.FillRows | solver.py:22-34 | On the selected rows, and only there, EMPTY cells take the value. |
| Rules.FillColumns | solver.py:36-49 | On the selected columns, and only there, EMPTY cells take the value. |
| Rules.RowsZeroGrass | solver.py:21-26 | A row whose constraint is 0 has its EMPTY cells turned to GRASS. Other rows are unchanged. |
| Rules.RowsFullGrass | solver.py:28-34 | A row whose TENT count equals its constraint has its EMPTY cells turned to GRASS. Other rows are unchanged. |
| Rules.ColsZeroGrass | solver.py:36-41 | A column whose constraint is 0 has its EMPTY cells turned to GRASS. Other columns are unchanged. |
| Rules.ColsFullGrass | solver.py:43-49 | A column whose TENT count equals its constraint has its EMPTY cells turned to GRASS. Other columns are unchanged. |
| Rules.NoTreeGrass | solver.py:51-57 | An EMPTY cell with no TREE among its 4 neighbours becomes GRASS, and nothing else changes. |
| Rules.RowsForcedTents | solver.py:59-67 | A row whose EMPTY count equals its constraint minus its TENT count has its EMPTY cells turned to TENT. Other rows are unchanged. |
| Rules.ColsForcedTents | solver.py:69-76 | The same for columns, through the transposed view. |
| Rules.TentNeighbourGrass | solver.py:78-84 | An EMPTY cell with a TENT among its 8 neighbours becomes GRASS, and nothing else changes. |
| Rules.ForcedTentAt | solver.py:86-96 | For a TREE with no TENT and exactly one EMPTY among its 4 neighbours, the tree's position plus the offset of the first EMPTY slot is on the board. It is orthogonal to the tree and EMPTY, and it is the only EMPTY orthogonal neighbour. |
| Rules.EmptySlotOnly | solver.py:90-94 | The slot holding the single EMPTY neighbour names an on-board orthogonal position, and no other orthogonal position is EMPTY. |
| Rules.TwoSlots | solver.py:91 | Two slots holding EMPTY give an EMPTY count of at least 2. |
| Rules.ForcedTentSlot | solver.py:90-96 | When the test of sweep 9 holds, the tree has a forced tent. The cell written, the tree's position plus the offset of the first EMPTY slot, is that forced cell. |
| Rules.TreeStep | solver.py:88-96 | One TREE of sweep 9 only fills an EMPTY cell. |
| Rules.TreeTentsRowStep | solver.py:87-88 | One more column of sweep 9 is one more step. |
| Rules.TreeTentsRowRefines | solver.py:87-96 | Sweep 9 along a row only fills EMPTY cells. |
| Rules.TreeTents | solver.py:86-96 | Sweep 9 in row-major order, each step seeing the earlier writes, only fills EMPTY cells. |
| Rules.Pass | solver.py:20-96 | A pass, the nine sweeps in source order, only fills EMPTY cells. TREE, GRASS and TENT cells never change. |
| Rules.TotalRefines | solver.py:98-103 | A pass that changes the board removes at least one EMPTY cell. |
| Rules.NoEmptyTotal | solver.py:103 | The solved test holds exactly when the board has no EMPTY cell. |
| Rules.Propagate | solver.py:19-108 | The loop only fills EMPTY cells. When solved, no EMPTY cell is left. When not solved, the final pass changed nothing. It runs at least one pass and at most one per EMPTY cell. |
| Rules.PassesBound | solver.py:19-108 | At most dim * dim passes (one on an empty board). |
| Solver.SameNeighbourhood | solver.py:51-84 | Boards with the same positions of a value give the same neighbour membership test for it. |
| Solver.FillRow | solver.py:24-26 | The EMPTY cells of row x take the value, and no other cell changes. |
| Solver.FillColumn | solver.py:39-41 | The EMPTY cells of column y take the value, and no other cell changes. |
| Solver.SweepRowsZero | solver.py:21-26 | The array after the sweep is `Rules.RowsZeroGrass` of the array before. |
| Solver.SweepRowsFull | solver.py:28-34 | The array after the sweep is `Rules.RowsFullGrass` of the array before. The count is taken on the current row. |
| Solver.SweepColsZero | solver.py:36-41 | The array after the sweep is `Rules.ColsZeroGrass` of the array before. |
| Solver.SweepColsFull | solver.py:43-49 | The array after the sweep is `Rules.ColsFullGrass` of the array before. The count is taken on the current column. |
| Solver.GrassUnlessTree | solver.py:53-57 | At one cell, with the earlier cells swept, the sweep extends by one cell. |
| Solver.MidSweepTrees | solver.py:51-57 | Midway through sweep 5 the trees are those of the starting board, so the tree test is unchanged. |
| Solver.SweepNoTree | solver.py:51-57 | The array after the sweep is `Rules.NoTreeGrass` of the array before. |
| Solver.SweepRowsForced | solver.py:59-67 | The array after the sweep is `Rules.RowsForcedTents` of the array before. |
| Solver.SweepColsForced | solver.py:69-76 | The array after the sweep is `Rules.ColsForcedTents` of the array before. |
| Solver.GrassIfTent | solver.py:80-84 | At one cell, with the earlier cells swept: an EMPTY cell with a TENT among its eight neighbours on the current grid gets GRASS, every other cell keeps its value, so the sweep extends by one cell. |
| Solver.TentStep | solver.py:80-84 | The value sweep 8 gives a cell is what its test computes on the half-swept board: GRASS for an EMPTY cell with a TENT among its eight neighbours, its own value otherwise. |
| Solver.MidSweepTents | solver.py:78-84 | Midway through sweep 8 the tents are those of the starting board, so the tent test is unchanged. |
| Solver.SweepTentNeighbours | solver.py:78-84 | The array after the sweep is `Rules.TentNeighbourGrass` of the array before. |
| Solver.ForcedTentCell | solver.py:90-96 | At a TREE with a forced tent, the position plus the offset of the first EMPTY slot is `Rules.ForcedTentAt`. |
| Solver.ForcedTentTest | solver.py:88-96 | The test at a TREE holds exactly when it has a forced tent, and then the computed cell is `Rules.ForcedTentAt`. |
| Solver.TreeTentAt | solver.py:88-96 | The array after the step is `Rules.TreeStep` of the array before. |
| Solver.PutTent | solver.py:96 | The write of TENT at one cell. |
| Solver.TreeTentsAlong | solver.py:87-96 | Sweep 9 along one row is `Rules.TreeTentsRow`. |
| Solver.SweepTreeTents | solver.py:86-96 | The array after the sweep is `Rules.TreeTents` of the array before. |
| Solver.RunPass | solver.py:20-96 | The array after the nine sweeps is `Rules.Pass` of the array before. |
| Solver.Solve | solver.py:11-108 | The same grid object is returned. Its cells are the board of `Rules.Propagate` on the starting cells and constraints, and the solved flag is that outcome's. |
| Soundness.TentsBetween | solver.py:28-67 | A row or column consistent with a solution holds at least its decided tents and at most those plus its EMPTY cells. The bound is strict when an EMPTY cell is, or is not, a tent of the solution. |
| Soundness.RowAgrees | solver.py:29 | A row of a consistent board is consistent with the solution's row. |
| Soundness.ColumnAgrees | solver.py:44 | A column of a consistent board is consistent with the solution's column. |
| Soundness.RowsZeroSound | solver.py:21-26 | Sweep 1 keeps the board consistent with every valid solution. |
| Soundness.RowsFullSound | solver.py:28-34 | Sweep 2 keeps the board consistent with every valid solution. |
| Soundness.ColsZeroSound | solver.py:36-41 | Sweep 3 keeps the board consistent with every valid solution. |
| Soundness.ColsFullSound | solver.py:43-49 | Sweep 4 keeps the board consistent with every valid solution. |
| Soundness.ColumnFullCell | solver.py:43-49 | An EMPTY cell in a column whose tent count already meets its constraint is GRASS in every valid solution. |
| Soundness.NoTreeSound | solver.py:51-57 | Sweep 5 keeps the board consistent with every valid solution. |
| Soundness.RowsForcedSound | solver.py:59-67 | Sweep 6 keeps the board consistent with every valid solution. |
| Soundness.ColumnForcedCell | solver.py:69-76 | In a column whose EMPTY cells are its missing tents, each of them is a tent of the solution. |
| Soundness.ColsForcedSound | solver.py:69-76 | Sweep 7 keeps the board consistent with every valid solution. |
| Soundness.BesideTentNoTent | solver.py:78-84 | An EMPTY cell of a consistent board touching a TENT is GRASS in every valid solution. |
| Soundness.TentNeighbourSound | solver.py:78-84 | Sweep 8 keeps the board consistent with every valid solution. |
| Soundness.WriteAgrees | solver.py:96 | Writing the solution's value keeps the board consistent with it. |
| Soundness.ForcedTentSound | solver.py:86-96 | The cell sweep 9 writes is the tent the solution pairs with the tree. |
| Soundness.TreeStepSound | solver.py:86-96 | One step of sweep 9 keeps the board consistent with every valid solution. |
| Soundness.TreeTentsRowNext | solver.py:87-96 | One more column of sweep 9 keeps the board consistent with every valid solution. |
| Soundness.TreeTentsRowSound | solver.py:87-96 | Sweep 9 along a row keeps the board consistent with every valid solution. |
| Soundness.TreeTentsRowsSound | solver.py:86-96 | Sweep 9 keeps the board consistent with every valid solution. |
| Soundness.PassSound | solver.py:20-96 | A pass keeps the board consistent with every valid solution. |
| Soundness.PropagateSound | solver.py:19-108 | The loop keeps the board consistent with every valid solution. A board reported solved is that solution. |
| Soundness.FilledAgrees | solver.py:103 | A board with no EMPTY cell that is consistent with a solution is that solution. |
| Soundness.PuzzleAgrees | src/solver.py:66-112 | A puzzle of EMPTY and TREE cells is consistent with each of its valid solutions. |
| Soundness.SolvedIsUnique | solver.py:104-108 | When the solver reports solved, its board equals every valid solution of the puzzle, so the puzzle has at most one valid solution. That one exists is proved only for generated puzzles, by GeneratedSolvedSound. |
| Soundness.GeneratedSolvedSound | solver.py:11-108 | On a generated puzzle the solver never contradicts the hidden layout. When it reports solved, its board is that layout with GRASS on the unused cells. |

## Left out

- interface.py, src/interface.py, main.py and src/main.py are not part of this model. They hold pygame rendering, image loading, the event loop and argument parsing.
- The `CSPSolver` and `SolutionPrinter` classes of src/solver.py are not modelled, because their behaviour lives in the OR-Tools CP-SAT engine. The rules that file posts appear only as the `Puzzle.ValidSolution` predicate.
- The tent density `int(3.16 * dim - 10.83)` is floating point, so `nb_tents` is a parameter. A negative value places no tent, as `range` does.
- `np.random.randint` is two draw sequences, one for tents and one for trees. The program draws from one global stream. The model requires each sequence to be long enough for every retry budget to run out.
- The unbounded regeneration loop of `__init__` is left out, because it need not terminate. `Grid.TryGenerate` models one pass of its body, with failure as a `false` result.
- The adjacency graph of `__init__` is the function `Geometry.BuildGraph` on the final board. It is not a field of the class.
- `print` calls and `__str__` are left out, since they are output only.
- Generator.Grid.TryGenerate: the contract does not state that the grid array is freshly allocated, although the body allocates it.
- Solver.Solve: the "Solved !" / "Couldn't solve." messages are not printed. The solved flag they report is returned instead.
- Integer widths: numpy's `int` arrays hold the values 0..3 and counts up to dim, so no overflow is modelled.
