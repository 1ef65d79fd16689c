/** The rules of a Tents and Trees board stated over positions: tents apart,
    tents and trees paired orthogonally, and what a finished solution and a
    freshly generated puzzle look like. */
module Puzzle {
  import opened Geometry
  import opened Counting

  /** No two TENT cells touch, diagonals included. */
  ghost predicate NoAdjacentTents(b: Board)
    requires Square(b)
  {
    forall x, y, i, j | OnBoard(|b|, x, y) && OnBoard(|b|, i, j) && Adjacent8(x, y, i, j) ::
      !(b[x][y] == TENT && b[i][j] == TENT)
  }

  /** Every TENT has a TREE among its four orthogonal neighbours. */
  ghost predicate TentsBesideTrees(b: Board)
    requires Square(b)
  {
    forall x, y | OnBoard(|b|, x, y) && b[x][y] == TENT ::
      exists i, j | OnBoard(|b|, i, j) && Orthogonal(x, y, i, j) :: b[i][j] == TREE
  }

  /** Every TREE has a TENT among its four orthogonal neighbours. */
  ghost predicate TreesBesideTents(b: Board)
    requires Square(b)
  {
    forall x, y | OnBoard(|b|, x, y) && b[x][y] == TREE ::
      exists i, j | OnBoard(|b|, i, j) && Orthogonal(x, y, i, j) :: b[i][j] == TENT
  }

  /** The tent at t and the tree at s are paired: s is an orthogonal
      neighbour of t on the board, and holds a TREE. */
  ghost predicate PairedWith(b: Board, t: (int, int), s: (int, int))
    requires Square(b)
  {
    OnBoard(|b|, s.0, s.1) && Orthogonal(t.0, t.1, s.0, s.1) && b[s.0][s.1] == TREE
  }

  /** Each tent has its own tree: `pairs` maps every TENT, and nothing
      else, to an orthogonal TREE, no two tents to the same tree, and every
      TREE is the tree of some tent. */
  ghost predicate OwnTrees(b: Board, pairs: map<(int, int), (int, int)>)
    requires Square(b)
  {
    && (forall t | t in pairs :: OnBoard(|b|, t.0, t.1) && b[t.0][t.1] == TENT)
    && (forall x, y | OnBoard(|b|, x, y) && b[x][y] == TENT :: (x, y) in pairs)
    && (forall t | t in pairs :: PairedWith(b, t, pairs[t]))
    && (forall t, u | t in pairs && u in pairs && t != u :: pairs[t] != pairs[u])
    && (forall x, y | OnBoard(|b|, x, y) && b[x][y] == TREE :: (x, y) in pairs.Values)
  }

  /** A one-to-one pairing puts a tree beside every tent and a tent beside
      every tree. */
  lemma OwnTreesBeside(b: Board, pairs: map<(int, int), (int, int)>)
    requires Square(b) && OwnTrees(b, pairs)
    ensures TentsBesideTrees(b) && TreesBesideTents(b)
  {
    forall x, y | OnBoard(|b|, x, y) && b[x][y] == TENT
      ensures exists i, j | OnBoard(|b|, i, j) && Orthogonal(x, y, i, j) :: b[i][j] == TREE
    {
      var s := pairs[(x, y)];
      assert PairedWith(b, (x, y), s);
    }
    forall x, y | OnBoard(|b|, x, y) && b[x][y] == TREE
      ensures exists i, j | OnBoard(|b|, i, j) && Orthogonal(x, y, i, j) :: b[i][j] == TENT
    {
      var t :| t in pairs && pairs[t] == (x, y);
      assert PairedWith(b, t, (x, y));
      assert Orthogonal(x, y, t.0, t.1) && b[t.0][t.1] == TENT;
    }
  }

  /** Only new TENT cells, each on a cell that was not a TENT. */
  ghost predicate TentsAdded(b: Board, b': Board)
    requires Square(b) && Square(b') && |b| == |b'|
  {
    forall x, y | OnBoard(|b|, x, y) ::
      b'[x][y] == b[x][y] || (b[x][y] != TENT && b'[x][y] == TENT)
  }

  /** Only new TREE cells, each on a cell that was EMPTY. */
  ghost predicate TreesAdded(b: Board, b': Board)
    requires Square(b) && Square(b') && |b| == |b'|
  {
    forall x, y | OnBoard(|b|, x, y) ::
      b'[x][y] == b[x][y] || (b[x][y] == EMPTY && b'[x][y] == TREE)
  }

  /** The board shown to the player: every TENT erased to EMPTY. */
  function WithoutTents(b: Board): (r: Board)
    requires Square(b)
    ensures Square(r) && |r| == |b|
    ensures forall x, y | OnBoard(|b|, x, y) :: r[x][y] != TENT
    ensures forall x, y | OnBoard(|b|, x, y) && b[x][y] == TENT :: r[x][y] == EMPTY
    ensures forall x, y | OnBoard(|b|, x, y) && b[x][y] != TENT :: r[x][y] == b[x][y]
  {
    seq(|b|, x requires 0 <= x < |b| =>
      seq(|b|, y requires 0 <= y < |b| => if b[x][y] == TENT then EMPTY else b[x][y]))
  }

  /** The hidden layout completed: every EMPTY cell turned to GRASS. It is
      the solution that GeneratedIsSolvable and GeneratedSolvedSound compare
      a generated puzzle with. */
  function FillGrass(b: Board): (r: Board)
    requires Square(b)
    ensures Square(r) && |r| == |b|
    ensures forall x, y | OnBoard(|b|, x, y) :: r[x][y] != EMPTY
    ensures forall x, y | OnBoard(|b|, x, y) && b[x][y] == EMPTY :: r[x][y] == GRASS
    ensures forall x, y | OnBoard(|b|, x, y) && b[x][y] != EMPTY :: r[x][y] == b[x][y]
  {
    seq(|b|, x requires 0 <= x < |b| =>
      seq(|b|, y requires 0 <= y < |b| => if b[x][y] == EMPTY then GRASS else b[x][y]))
  }

  /** The rules of the puzzle, as the constraint model of the packaged
      solver posts them: sol keeps exactly the trees of the puzzle, every
      other cell is GRASS or TENT, rows and columns hold the published number
      of tents, trees and tents are orthogonally paired both ways, and no two
      tents touch. */
  ghost predicate ValidSolution(puzzle: Board, sol: Board, rows: seq<int>, cols: seq<int>)
  {
    && Square(puzzle) && Square(sol) && |sol| == |puzzle|
    && (forall x, y | OnBoard(|sol|, x, y) :: (puzzle[x][y] == TREE) == (sol[x][y] == TREE))
    && (forall x, y | OnBoard(|sol|, x, y) :: sol[x][y] in {GRASS, TENT, TREE})
    && (rows, cols) == RowColConstraints(sol)
    && TreesBesideTents(sol)
    && TentsBesideTrees(sol)
    && NoAdjacentTents(sol)
  }

  /** What one successful generation attempt establishes: a hidden solution
      with n tents, apart from each other and paired one to one with n
      trees, whose tent counts are the published constraints and whose
      tents, erased, give the published puzzle. */
  ghost predicate Generated(puzzle: Board, sol: Board, rows: seq<int>, cols: seq<int>, n: nat)
  {
    && Square(sol)
    && (forall x, y | OnBoard(|sol|, x, y) :: sol[x][y] in {EMPTY, TENT, TREE})
    && NoAdjacentTents(sol)
    && TentsBesideTrees(sol)
    && TreesBesideTents(sol)
    && (exists pairs :: OwnTrees(sol, pairs))
    && (rows, cols) == RowColConstraints(sol)
    && Total(sol, TENT) == n
    && Total(sol, TREE) == n
    && puzzle == WithoutTents(sol)
  }

  /** A generated puzzle is solvable: its hidden solution, with the unused
      cells turned to GRASS, satisfies every rule of the puzzle. */
  lemma GeneratedIsSolvable(puzzle: Board, sol: Board, rows: seq<int>, cols: seq<int>, n: nat)
    requires Generated(puzzle, sol, rows, cols, n)
    ensures ValidSolution(puzzle, FillGrass(sol), rows, cols)
  {
    var f := FillGrass(sol);
    SameTentsSameConstraints(sol, f);
    RulesTransfer(sol, f);
    assert forall x, y | OnBoard(|f|, x, y) :: f[x][y] in {GRASS, TENT, TREE};
    assert forall x, y | OnBoard(|f|, x, y) :: (puzzle[x][y] == TREE) == (f[x][y] == TREE);
  }

  /** Spacing only looks at where the tents are. */
  lemma NoAdjacentTentsTransfer(b1: Board, b2: Board)
    requires Square(b1) && Square(b2) && |b1| == |b2|
    requires forall x, y | OnBoard(|b1|, x, y) :: (b1[x][y] == TENT) == (b2[x][y] == TENT)
    requires NoAdjacentTents(b1)
    ensures NoAdjacentTents(b2)
  {
  }

  /** Two boards with the TENT cells and the TREE cells in the same places. */
  ghost predicate SameLayout(b1: Board, b2: Board)
  {
    && Square(b1) && Square(b2) && |b1| == |b2|
    && (forall x, y | OnBoard(|b1|, x, y) :: (b1[x][y] == TENT) == (b2[x][y] == TENT))
    && (forall x, y | OnBoard(|b1|, x, y) :: (b1[x][y] == TREE) == (b2[x][y] == TREE))
  }

  /** The pairing and spacing rules only look at where the tents and the
      trees are. */
  lemma RulesTransfer(b1: Board, b2: Board)
    requires SameLayout(b1, b2)
    ensures NoAdjacentTents(b1) ==> NoAdjacentTents(b2)
    ensures TentsBesideTrees(b1) ==> TentsBesideTrees(b2)
    ensures TreesBesideTents(b1) ==> TreesBesideTents(b2)
  {
    if TentsBesideTrees(b1) {
      TentsBesideTreesTransfer(b1, b2);
    }
    if TreesBesideTents(b1) {
      TreesBesideTentsTransfer(b1, b2);
    }
  }

  lemma TentsBesideTreesTransfer(b1: Board, b2: Board)
    requires SameLayout(b1, b2) && TentsBesideTrees(b1)
    ensures TentsBesideTrees(b2)
  {
    forall x, y | OnBoard(|b2|, x, y) && b2[x][y] == TENT
      ensures exists i, j | OnBoard(|b2|, i, j) && Orthogonal(x, y, i, j) :: b2[i][j] == TREE
    {
      assert b1[x][y] == TENT;
      var i, j :| OnBoard(|b1|, i, j) && Orthogonal(x, y, i, j) && b1[i][j] == TREE;
      assert b2[i][j] == TREE;
    }
  }

  lemma TreesBesideTentsTransfer(b1: Board, b2: Board)
    requires SameLayout(b1, b2) && TreesBesideTents(b1)
    ensures TreesBesideTents(b2)
  {
    forall x, y | OnBoard(|b2|, x, y) && b2[x][y] == TREE
      ensures exists i, j | OnBoard(|b2|, i, j) && Orthogonal(x, y, i, j) :: b2[i][j] == TENT
    {
      assert b1[x][y] == TREE;
      var i, j :| OnBoard(|b1|, i, j) && Orthogonal(x, y, i, j) && b1[i][j] == TENT;
      assert b2[i][j] == TENT;
    }
  }

  /** Placing a TENT where the 8-neighbourhood holds none keeps tents apart. */
  lemma PlaceTentKeepsApart(b: Board, x: int, y: int)
    requires Square(b) && OnBoard(|b|, x, y)
    requires NoAdjacentTents(b)
    requires Cell(TENT) !in Neighbours(b, x, y, 8)
    ensures NoAdjacentTents(Write(b, x, y, TENT))
  {
    NeighboursHold(b, x, y, 8, TENT);
    var r := Write(b, x, y, TENT);
    forall p, q, i, j | OnBoard(|b|, p, q) && OnBoard(|b|, i, j) && Adjacent8(p, q, i, j)
      ensures !(r[p][q] == TENT && r[i][j] == TENT)
    {
      if (p, q) == (x, y) {
        assert Around(8, x, y, i, j);
      } else if (i, j) == (x, y) {
        assert Around(8, x, y, p, q);
      }
    }
  }
}
