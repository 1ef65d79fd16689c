/** The deductions of the solver are sound: started from a board that is
    consistent with some solution of the puzzle, every sweep, every pass and
    the whole propagation loop keep the board consistent with that solution.
    So a board the solver reports solved is that solution, and on a
    generated puzzle it is the generator's hidden layout with GRASS on the
    unused cells. */
module Soundness {
  import opened Geometry
  import opened Counting
  import opened Puzzle
  import opened Rules

  /** A complete solution for the constraints rows and cols: every cell
      decided, the published tent counts, trees and tents paired both ways,
      and no two tents touching. */
  ghost predicate Solution(sol: Board, rows: seq<int>, cols: seq<int>) {
    && Square(sol)
    && (forall x, y | OnBoard(|sol|, x, y) :: sol[x][y] in {GRASS, TENT, TREE})
    && (rows, cols) == RowColConstraints(sol)
    && TreesBesideTents(sol)
    && TentsBesideTrees(sol)
    && NoAdjacentTents(sol)
  }

  /** b is consistent with sol: each decided cell of b is the cell of sol,
      and the trees are the same. */
  ghost predicate Agrees(b: Board, sol: Board) {
    && Square(b) && Square(sol) && |b| == |sol|
    && (forall x, y | OnBoard(|b|, x, y) :: b[x][y] == EMPTY || b[x][y] == sol[x][y])
    && (forall x, y | OnBoard(|b|, x, y) :: (b[x][y] == TREE) == (sol[x][y] == TREE))
  }

  /** Line t agrees with line s: each of its decided cells is the cell of s. */
  ghost predicate LineAgrees(t: seq<int>, s: seq<int>) {
    |t| == |s| && forall j | 0 <= j < |t| :: t[j] == EMPTY || t[j] == s[j]
  }

  /** A line t that agrees with a line s of a solution holds at most the
      tents of s, and at most its tents plus its EMPTY cells; strictly when
      an EMPTY cell of t is a TENT, or not a TENT, in s. */
  lemma {:induction false} TentsBetween(t: seq<int>, s: seq<int>)
    requires LineAgrees(t, s)
    ensures Count(t, TENT) <= Count(s, TENT) <= Count(t, TENT) + Count(t, EMPTY)
    ensures (exists j | 0 <= j < |t| :: t[j] == EMPTY && s[j] == TENT) ==>
              Count(t, TENT) < Count(s, TENT)
    ensures (exists j | 0 <= j < |t| :: t[j] == EMPTY && s[j] != TENT) ==>
              Count(s, TENT) < Count(t, TENT) + Count(t, EMPTY)
  {
    if t != [] {
      var n := |t| - 1;
      var t', s' := t[..n], s[..n];
      assert forall j | 0 <= j < |t'| :: t'[j] == t[j] && s'[j] == s[j];
      TentsBetween(t', s');
      assert Count(t, TENT) == Count(t', TENT) + (if t[n] == TENT then 1 else 0);
      assert Count(s, TENT) == Count(s', TENT) + (if s[n] == TENT then 1 else 0);
      assert Count(t, EMPTY) == Count(t', EMPTY) + (if t[n] == EMPTY then 1 else 0);
    }
  }

  /** Row x of b agrees with row x of sol. */
  lemma RowAgrees(b: Board, sol: Board, x: int)
    requires Agrees(b, sol) && 0 <= x < |b|
    ensures LineAgrees(b[x], sol[x])
  {
  }

  /** Column y of b agrees with column y of sol. */
  lemma ColumnAgrees(b: Board, sol: Board, y: int)
    requires Agrees(b, sol) && 0 <= y < |b|
    ensures LineAgrees(Column(b, y), Column(sol, y))
  {
  }

  /** Sweep 1 keeps the board consistent with every solution. */
  lemma RowsZeroSound(b: Board, sol: Board, rows: seq<int>, cols: seq<int>)
    requires Agrees(b, sol) && Solution(sol, rows, cols)
    ensures Agrees(RowsZeroGrass(b, rows), sol)
  {
    var r := RowsZeroGrass(b, rows);
    forall x, y | OnBoard(|b|, x, y) ensures r[x][y] == EMPTY || r[x][y] == sol[x][y] {
      if b[x][y] == EMPTY && rows[x] == 0 {
        assert sol[x][y] in multiset(sol[x]);
      }
    }
    RefinedAgrees(b, r, sol);
  }

  /** Sweep 2 keeps the board consistent with every solution. */
  lemma RowsFullSound(b: Board, sol: Board, rows: seq<int>, cols: seq<int>)
    requires Agrees(b, sol) && Solution(sol, rows, cols)
    ensures Agrees(RowsFullGrass(b, rows), sol)
  {
    forall x, y | OnBoard(|b|, x, y) && b[x][y] == EMPTY && RowFull(b, rows, x)
      ensures sol[x][y] == GRASS
    {
      RowAgrees(b, sol, x);
      TentsBetween(b[x], sol[x]);
      CountIsMultiplicity(sol[x], TENT);
    }
  }

  /** Sweep 3 keeps the board consistent with every solution. */
  lemma ColsZeroSound(b: Board, sol: Board, rows: seq<int>, cols: seq<int>)
    requires Agrees(b, sol) && Solution(sol, rows, cols)
    ensures Agrees(ColsZeroGrass(b, cols), sol)
  {
    var r := ColsZeroGrass(b, cols);
    forall x, y | OnBoard(|b|, x, y) ensures r[x][y] == EMPTY || r[x][y] == sol[x][y] {
      if b[x][y] == EMPTY && cols[y] == 0 {
        assert Column(sol, y)[x] == sol[x][y];
        assert Column(sol, y)[x] in multiset(Column(sol, y));
      }
    }
    RefinedAgrees(b, r, sol);
  }

  /** Sweep 4 keeps the board consistent with every solution. */
  lemma ColsFullSound(b: Board, sol: Board, rows: seq<int>, cols: seq<int>)
    requires Agrees(b, sol) && Solution(sol, rows, cols)
    ensures Agrees(ColsFullGrass(b, cols), sol)
  {
    var r := ColsFullGrass(b, cols);
    forall x, y | OnBoard(|b|, x, y) ensures r[x][y] == EMPTY || r[x][y] == sol[x][y] {
      if b[x][y] == EMPTY && ColFull(b, cols, y) {
        ColumnFullCell(b, sol, cols, x, y);
      }
    }
    RefinedAgrees(b, r, sol);
  }

  /** In a column that already holds all its tents, the solution has GRASS
      on each EMPTY cell. */
  lemma ColumnFullCell(b: Board, sol: Board, cols: seq<int>, x: int, y: int)
    requires Agrees(b, sol) && |cols| == |b| && OnBoard(|b|, x, y)
    requires cols[y] == multiset(Column(sol, y))[TENT]
    requires forall i, j | OnBoard(|sol|, i, j) :: sol[i][j] in {GRASS, TENT, TREE}
    requires b[x][y] == EMPTY && ColFull(b, cols, y)
    ensures sol[x][y] == GRASS
  {
    assert Column(sol, y)[x] == sol[x][y];
    ColumnAgrees(b, sol, y);
    TentsBetween(Column(b, y), Column(sol, y));
    CountIsMultiplicity(Column(sol, y), TENT);
    assert Column(b, y)[x] == EMPTY;
  }

  /** A refinement of b whose every decided cell is the cell of sol agrees
      with sol, TREE cells included. */
  lemma RefinedAgrees(b: Board, r: Board, sol: Board)
    requires Agrees(b, sol) && Refines(b, r)
    requires forall x, y | OnBoard(|b|, x, y) :: r[x][y] == EMPTY || r[x][y] == sol[x][y]
    ensures Agrees(r, sol)
  {
  }

  /** Sweep 5 keeps the board consistent with every solution: a tent of
      the solution has a tree beside it, and the board shows that tree. */
  lemma NoTreeSound(b: Board, sol: Board, rows: seq<int>, cols: seq<int>)
    requires Agrees(b, sol) && Solution(sol, rows, cols)
    ensures Agrees(NoTreeGrass(b), sol)
  {
    forall x, y | OnBoard(|b|, x, y) && b[x][y] == EMPTY && Cell(TREE) !in Neighbours(b, x, y, 4)
      ensures sol[x][y] == GRASS
    {
      NeighboursHold(b, x, y, 4, TREE);
    }
  }

  /** Sweep 6 keeps the board consistent with every solution. */
  lemma RowsForcedSound(b: Board, sol: Board, rows: seq<int>, cols: seq<int>)
    requires Agrees(b, sol) && Solution(sol, rows, cols)
    ensures Agrees(RowsForcedTents(b, rows), sol)
  {
    forall x, y | OnBoard(|b|, x, y) && b[x][y] == EMPTY && RowForced(b, rows, x)
      ensures sol[x][y] == TENT
    {
      RowAgrees(b, sol, x);
      TentsBetween(b[x], sol[x]);
      CountIsMultiplicity(sol[x], TENT);
    }
  }

  /** Sweep 7 keeps the board consistent with every solution. */
  lemma ColsForcedSound(b: Board, sol: Board, rows: seq<int>, cols: seq<int>)
    requires Agrees(b, sol) && Solution(sol, rows, cols)
    ensures Agrees(ColsForcedTents(b, cols), sol)
  {
    var r := ColsForcedTents(b, cols);
    forall x, y | OnBoard(|b|, x, y) ensures r[x][y] == EMPTY || r[x][y] == sol[x][y] {
      if b[x][y] == EMPTY && ColForced(b, cols, y) {
        ColumnForcedCell(b, sol, cols, x, y);
      }
    }
    RefinedAgrees(b, r, sol);
  }

  /** In a column whose EMPTY cells are exactly its missing tents, the
      solution has a TENT on each of them. */
  lemma ColumnForcedCell(b: Board, sol: Board, cols: seq<int>, x: int, y: int)
    requires Agrees(b, sol) && |cols| == |b| && OnBoard(|b|, x, y)
    requires cols[y] == multiset(Column(sol, y))[TENT]
    requires b[x][y] == EMPTY && ColForced(b, cols, y)
    ensures sol[x][y] == TENT
  {
    ColumnAgrees(b, sol, y);
    TentsBetween(Column(b, y), Column(sol, y));
    CountIsMultiplicity(Column(sol, y), TENT);
    assert Column(b, y)[x] == EMPTY;
  }

  /** Sweep 8 keeps the board consistent with every solution. */
  lemma TentNeighbourSound(b: Board, sol: Board, rows: seq<int>, cols: seq<int>)
    requires Agrees(b, sol) && Solution(sol, rows, cols)
    ensures Agrees(TentNeighbourGrass(b), sol)
  {
    forall x, y | OnBoard(|b|, x, y) && b[x][y] == EMPTY && Cell(TENT) in Neighbours(b, x, y, 8)
      ensures sol[x][y] == GRASS
    {
      BesideTentNoTent(b, sol, x, y);
    }
  }

  /** A cell touching a TENT of the board is no TENT of the solution, since
      the tents of a solution never touch. */
  lemma BesideTentNoTent(b: Board, sol: Board, x: int, y: int)
    requires Agrees(b, sol) && NoAdjacentTents(sol) && OnBoard(|b|, x, y)
    requires b[x][y] == EMPTY && Cell(TENT) in Neighbours(b, x, y, 8)
    requires sol[x][y] in {GRASS, TENT, TREE}
    ensures sol[x][y] == GRASS
  {
    NeighboursHold(b, x, y, 8, TENT);
    var i, j :| OnBoard(|b|, i, j) && Around(8, x, y, i, j) && b[i][j] == TENT;
    assert sol[i][j] == TENT && Adjacent8(x, y, i, j);
  }

  /** Writing the cell of sol into b keeps b consistent with sol. */
  lemma WriteAgrees(b: Board, sol: Board, x: int, y: int)
    requires Agrees(b, sol) && OnBoard(|b|, x, y)
    ensures Agrees(Write(b, x, y, sol[x][y]), sol)
  {
  }

  /** The tent the solution pairs with a TREE that has a forced tent is on
      the single EMPTY neighbour: the board shows no TENT beside the tree,
      and any other neighbour is decided and not a TENT. */
  lemma ForcedTentSound(b: Board, sol: Board, x: int, y: int)
    requires Agrees(b, sol) && TreesBesideTents(sol) && OnBoard(|b|, x, y)
    requires HasForcedTent(b, x, y)
    ensures sol[ForcedTentAt(b, x, y).0][ForcedTentAt(b, x, y).1] == TENT
  {
    assert sol[x][y] == TREE;
    var i, j :| OnBoard(|sol|, i, j) && Orthogonal(x, y, i, j) && sol[i][j] == TENT;
    NeighboursHold(b, x, y, 4, TENT);
    assert Around(4, x, y, i, j);
    assert b[i][j] == EMPTY;
  }

  /** Sweep 9 at one TREE keeps the board consistent with every solution. */
  lemma TreeStepSound(b: Board, sol: Board, x: int, y: int)
    requires Agrees(b, sol) && TreesBesideTents(sol) && OnBoard(|b|, x, y)
    ensures Agrees(TreeStep(b, x, y), sol)
  {
    if HasForcedTent(b, x, y) {
      var p := ForcedTentAt(b, x, y);
      ForcedTentSound(b, sol, x, y);
      WriteAgrees(b, sol, p.0, p.1);
    }
  }

  /** One more column of sweep 9 along row x keeps the board consistent. */
  lemma TreeTentsRowNext(b: Board, sol: Board, x: int, y: int)
    requires Square(b) && 0 <= x < |b| && 0 <= y < |b|
    requires Agrees(TreeTentsRow(b, x, y), sol) && TreesBesideTents(sol)
    ensures Agrees(TreeTentsRow(b, x, y + 1), sol)
  {
    TreeTentsRowStep(b, x, y);
    TreeStepSound(TreeTentsRow(b, x, y), sol, x, y);
  }

  /** Sweep 9 along the first y cells of row x keeps the board consistent. */
  lemma {:induction false} TreeTentsRowSound(b: Board, sol: Board, x: int, y: int)
    requires Agrees(b, sol) && TreesBesideTents(sol) && 0 <= x < |b| && 0 <= y <= |b|
    ensures Agrees(TreeTentsRow(b, x, y), sol)
  {
    if y > 0 {
      var y' := y - 1;
      TreeTentsRowSound(b, sol, x, y');
      TreeTentsRowNext(b, sol, x, y');
      assert y' + 1 == y;
    }
  }

  lemma {:induction false} TreeTentsRowsSound(b: Board, sol: Board, x: int)
    requires Agrees(b, sol) && TreesBesideTents(sol) && 0 <= x <= |b|
    ensures Agrees(TreeTentsRows(b, x), sol)
  {
    if x > 0 {
      var x' := x - 1;
      TreeTentsRowsSound(b, sol, x');
      var c := TreeTentsRows(b, x');
      TreeTentsRowSound(c, sol, x', |b|);
      assert TreeTentsRows(b, x) == TreeTentsRow(c, x', |b|);
    }
  }

  /** A whole pass keeps the board consistent with every solution. */
  lemma PassSound(b: Board, sol: Board, rows: seq<int>, cols: seq<int>)
    requires Agrees(b, sol) && Solution(sol, rows, cols)
    ensures Agrees(Pass(b, rows, cols), sol)
  {
    var b1 := RowsZeroGrass(b, rows);
    RowsZeroSound(b, sol, rows, cols);
    var b2 := RowsFullGrass(b1, rows);
    RowsFullSound(b1, sol, rows, cols);
    var b3 := ColsZeroGrass(b2, cols);
    ColsZeroSound(b2, sol, rows, cols);
    var b4 := ColsFullGrass(b3, cols);
    ColsFullSound(b3, sol, rows, cols);
    var b5 := NoTreeGrass(b4);
    NoTreeSound(b4, sol, rows, cols);
    var b6 := RowsForcedTents(b5, rows);
    RowsForcedSound(b5, sol, rows, cols);
    var b7 := ColsForcedTents(b6, cols);
    ColsForcedSound(b6, sol, rows, cols);
    var b8 := TentNeighbourGrass(b7);
    TentNeighbourSound(b7, sol, rows, cols);
    TreeTentsRowsSound(b8, sol, |b8|);
  }

  /** The propagation loop keeps the board consistent with every solution,
      and a board it reports solved is that solution. */
  lemma {:induction false} PropagateSound(b: Board, sol: Board, rows: seq<int>, cols: seq<int>)
    requires Agrees(b, sol) && Solution(sol, rows, cols)
    ensures Agrees(Propagate(b, rows, cols).board, sol)
    ensures Propagate(b, rows, cols).solved ==> Propagate(b, rows, cols).board == sol
    decreases Total(b, EMPTY)
  {
    var b' := Pass(b, rows, cols);
    PassSound(b, sol, rows, cols);
    TotalRefines(b, b');
    var o := Propagate(b, rows, cols);
    if b' == b {
      assert o.board == b;
    } else if NoEmpty(b') {
      assert o.board == b';
    } else {
      NoEmptyTotal(b');
      PropagateSound(b', sol, rows, cols);
      assert o.board == Propagate(b', rows, cols).board;
    }
    if o.solved {
      FilledAgrees(o.board, sol);
    }
  }

  /** A board without EMPTY cells that is consistent with a solution is
      that solution. */
  lemma FilledAgrees(c: Board, sol: Board)
    requires Agrees(c, sol) && NoEmpty(c)
    ensures c == sol
  {
    forall x, y | OnBoard(|c|, x, y) ensures c[x][y] == sol[x][y] {
      assert c[x][y] in c[x];
    }
    SameCells(c, sol);
  }

  /** A puzzle whose cells are EMPTY or TREE agrees with each of its valid
      solutions. */
  lemma PuzzleAgrees(puzzle: Board, sol: Board, rows: seq<int>, cols: seq<int>)
    requires ValidSolution(puzzle, sol, rows, cols)
    requires forall x, y | OnBoard(|puzzle|, x, y) :: puzzle[x][y] in {EMPTY, TREE}
    ensures Agrees(puzzle, sol) && Solution(sol, rows, cols)
  {
  }

  /** A puzzle has at most one solution the solver can reach: when the loop
      ends solved, its board is every valid solution of the puzzle. */
  lemma SolvedIsUnique(puzzle: Board, sol: Board, rows: seq<int>, cols: seq<int>)
    requires ValidSolution(puzzle, sol, rows, cols)
    requires forall x, y | OnBoard(|puzzle|, x, y) :: puzzle[x][y] in {EMPTY, TREE}
    requires Propagate(puzzle, rows, cols).solved
    ensures Propagate(puzzle, rows, cols).board == sol
  {
    PuzzleAgrees(puzzle, sol, rows, cols);
    PropagateSound(puzzle, sol, rows, cols);
  }

  /** On a generated puzzle the solver never contradicts the hidden layout,
      and when it reports solved its board is that layout with GRASS on
      every unused cell. */
  lemma GeneratedSolvedSound(puzzle: Board, sol: Board, rows: seq<int>, cols: seq<int>, n: nat)
    requires Generated(puzzle, sol, rows, cols, n)
    ensures Agrees(Propagate(puzzle, rows, cols).board, FillGrass(sol))
    ensures Propagate(puzzle, rows, cols).solved ==>
              Propagate(puzzle, rows, cols).board == FillGrass(sol)
  {
    GeneratedIsSolvable(puzzle, sol, rows, cols, n);
    PuzzleAgrees(puzzle, FillGrass(sol), rows, cols);
    PropagateSound(puzzle, FillGrass(sol), rows, cols);
  }
}
