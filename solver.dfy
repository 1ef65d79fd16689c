/** The rule-propagation solver as it runs: nine sweeps that rewrite the
    grid array cell by cell, repeated until a pass changes nothing or no
    EMPTY cell is left. Each sweep is proved to compute the matching
    function of `Rules` on the array's contents, and the loop to end in the
    outcome of `Rules.Propagate`. */
module Solver {
  import opened Geometry
  import opened Counting
  import opened Rules
  import opened Generator

  /** Cells equal to v keep their positions between two boards, so v is a
      neighbour of (x, y) in one exactly when it is in the other. */
  lemma SameNeighbourhood(b1: Board, b2: Board, x: int, y: int, k: int, v: int)
    requires Square(b1) && Square(b2) && |b1| == |b2| && OnBoard(|b1|, x, y)
    requires forall i, j | OnBoard(|b1|, i, j) :: (b1[i][j] == v) == (b2[i][j] == v)
    ensures (Cell(v) in Neighbours(b1, x, y, k)) == (Cell(v) in Neighbours(b2, x, y, k))
  {
    NeighboursHold(b1, x, y, k, v);
    NeighboursHold(b2, x, y, k, v);
    if Cell(v) in Neighbours(b1, x, y, k) {
      var i, j :| OnBoard(|b1|, i, j) && Around(k, x, y, i, j) && b1[i][j] == v;
      assert b2[i][j] == v;
    }
    if Cell(v) in Neighbours(b2, x, y, k) {
      var i, j :| OnBoard(|b1|, i, j) && Around(k, x, y, i, j) && b2[i][j] == v;
      assert b1[i][j] == v;
    }
  }

  /** Row x of a: its EMPTY cells become v. */
  method FillRow(a: array2<int>, x: int, v: int)
    requires a.Length0 == a.Length1 && 0 <= x < a.Length0
    modifies a
    ensures forall i, j | OnBoard(a.Length0, i, j) ::
              a[i, j] == if i == x && old(a[i, j]) == EMPTY then v else old(a[i, j])
  {
    for y := 0 to a.Length1
      invariant forall i, j | OnBoard(a.Length0, i, j) ::
                  a[i, j] == if i == x && j < y && old(a[i, j]) == EMPTY then v else old(a[i, j])
    {
      if a[x, y] == EMPTY {
        a[x, y] := v;
      }
    }
  }

  /** Column y of a (row y of its transpose): its EMPTY cells become v. */
  method FillColumn(a: array2<int>, y: int, v: int)
    requires a.Length0 == a.Length1 && 0 <= y < a.Length0
    modifies a
    ensures forall i, j | OnBoard(a.Length0, i, j) ::
              a[i, j] == if j == y && old(a[i, j]) == EMPTY then v else old(a[i, j])
  {
    for x := 0 to a.Length0
      invariant forall i, j | OnBoard(a.Length0, i, j) ::
                  a[i, j] == if j == y && i < x && old(a[i, j]) == EMPTY then v else old(a[i, j])
    {
      if a[x, y] == EMPTY {
        a[x, y] := v;
      }
    }
  }

  /** Sweep 1, rows whose constraint is 0. */
  method SweepRowsZero(a: array2<int>, rows: seq<int>)
    requires a.Length0 == a.Length1 == |rows|
    modifies a
    ensures Snapshot(a) == RowsZeroGrass(old(Snapshot(a)), rows)
  {
    ghost var b := Snapshot(a);
    ghost var r := RowsZeroGrass(b, rows);
    var n := a.Length0;
    for x := 0 to n
      invariant forall i, j | OnBoard(n, i, j) :: a[i, j] == if i < x then r[i][j] else b[i][j]
    {
      if rows[x] == 0 {
        FillRow(a, x, GRASS);
      }
    }
    SameCells(Snapshot(a), r);
  }

  /** Sweep 2, rows whose TENT count has reached the constraint. */
  method SweepRowsFull(a: array2<int>, rows: seq<int>)
    requires a.Length0 == a.Length1 == |rows|
    modifies a
    ensures Snapshot(a) == RowsFullGrass(old(Snapshot(a)), rows)
  {
    ghost var b := Snapshot(a);
    ghost var r := RowsFullGrass(b, rows);
    var n := a.Length0;
    for x := 0 to n
      invariant forall i, j | OnBoard(n, i, j) :: a[i, j] == if i < x then r[i][j] else b[i][j]
    {
      assert RowOf(a, x) == b[x];
      var tentsCount := Count(RowOf(a, x), TENT);
      if tentsCount == rows[x] {
        FillRow(a, x, GRASS);
      }
    }
    SameCells(Snapshot(a), r);
  }

  /** Sweep 3, columns whose constraint is 0. */
  method SweepColsZero(a: array2<int>, cols: seq<int>)
    requires a.Length0 == a.Length1 == |cols|
    modifies a
    ensures Snapshot(a) == ColsZeroGrass(old(Snapshot(a)), cols)
  {
    ghost var b := Snapshot(a);
    ghost var r := ColsZeroGrass(b, cols);
    var n := a.Length0;
    for y := 0 to n
      invariant forall i, j | OnBoard(n, i, j) :: a[i, j] == if j < y then r[i][j] else b[i][j]
    {
      if cols[y] == 0 {
        FillColumn(a, y, GRASS);
      }
    }
    SameCells(Snapshot(a), r);
  }

  /** Sweep 4, columns whose TENT count has reached the constraint. */
  method SweepColsFull(a: array2<int>, cols: seq<int>)
    requires a.Length0 == a.Length1 == |cols|
    modifies a
    ensures Snapshot(a) == ColsFullGrass(old(Snapshot(a)), cols)
  {
    ghost var b := Snapshot(a);
    ghost var r := ColsFullGrass(b, cols);
    var n := a.Length0;
    for y := 0 to n
      invariant forall i, j | OnBoard(n, i, j) :: a[i, j] == if j < y then r[i][j] else b[i][j]
    {
      assert ColOf(a, y) == Column(b, y);
      var tentsCount := Count(ColOf(a, y), TENT);
      if tentsCount == cols[y] {
        FillColumn(a, y, GRASS);
      }
    }
    SameCells(Snapshot(a), r);
  }

  /** Sweep 5 at cell (x, y), every cell before it in row-major order
      already swept: an EMPTY cell with no TREE among its four neighbours
      becomes GRASS. */
  method GrassUnlessTree(a: array2<int>, x: int, y: int, ghost b: Board)
    requires a.Length0 == a.Length1 == |b| && Square(b) && OnBoard(|b|, x, y)
    requires forall i, j | OnBoard(|b|, i, j) ::
               a[i, j] == if i < x || (i == x && j < y) then NoTreeGrass(b)[i][j] else b[i][j]
    modifies a
    ensures forall i, j | OnBoard(|b|, i, j) ::
              a[i, j] == if i < x || (i == x && j <= y) then NoTreeGrass(b)[i][j] else b[i][j]
  {
    ghost var r := NoTreeGrass(b);
    MidSweepTrees(Snapshot(a), b, x, y);
    assert a[x, y] == b[x][y];
    if a[x, y] == EMPTY {
      var neighbours := Neighbours(Snapshot(a), x, y, 4);
      if Cell(TREE) !in neighbours {
        a[x, y] := GRASS;
      }
    }
    assert a[x, y] == r[x][y];
  }

  /** Midway through sweep 5 the TREE cells are those of the board the
      sweep started from (no sweep touches a TREE). */
  lemma MidSweepTrees(c: Board, b: Board, x: int, y: int)
    requires Square(b) && Square(c) && |c| == |b| && OnBoard(|b|, x, y)
    requires forall i, j | OnBoard(|b|, i, j) ::
               c[i][j] == if i < x || (i == x && j < y) then NoTreeGrass(b)[i][j] else b[i][j]
    ensures (Cell(TREE) in Neighbours(c, x, y, 4)) == (Cell(TREE) in Neighbours(b, x, y, 4))
  {
    SameNeighbourhood(c, b, x, y, 4, TREE);
  }

  /** Sweep 5, EMPTY cells without a TREE among their four neighbours. */
  method SweepNoTree(a: array2<int>)
    requires a.Length0 == a.Length1
    modifies a
    ensures Snapshot(a) == NoTreeGrass(old(Snapshot(a)))
  {
    ghost var b := Snapshot(a);
    ghost var r := NoTreeGrass(b);
    var n := a.Length0;
    for x := 0 to n
      invariant forall i, j | OnBoard(n, i, j) :: a[i, j] == if i < x then r[i][j] else b[i][j]
    {
      for y := 0 to n
        invariant forall i, j | OnBoard(n, i, j) ::
                    a[i, j] == if i < x || (i == x && j < y) then r[i][j] else b[i][j]
      {
        GrassUnlessTree(a, x, y, b);
      }
    }
    SameCells(Snapshot(a), r);
  }

  /** Sweep 6, rows whose EMPTY cells are exactly their missing tents. */
  method SweepRowsForced(a: array2<int>, rows: seq<int>)
    requires a.Length0 == a.Length1 == |rows|
    modifies a
    ensures Snapshot(a) == RowsForcedTents(old(Snapshot(a)), rows)
  {
    ghost var b := Snapshot(a);
    ghost var r := RowsForcedTents(b, rows);
    var n := a.Length0;
    for x := 0 to n
      invariant forall i, j | OnBoard(n, i, j) :: a[i, j] == if i < x then r[i][j] else b[i][j]
    {
      assert RowOf(a, x) == b[x];
      var emptyCount := Count(RowOf(a, x), EMPTY);
      var tentsCount := Count(RowOf(a, x), TENT);
      if emptyCount == rows[x] - tentsCount {
        FillRow(a, x, TENT);
      }
    }
    SameCells(Snapshot(a), r);
  }

  /** Sweep 7, columns whose EMPTY cells are exactly their missing tents;
      the source walks them as the rows of the transposed view. */
  method SweepColsForced(a: array2<int>, cols: seq<int>)
    requires a.Length0 == a.Length1 == |cols|
    modifies a
    ensures Snapshot(a) == ColsForcedTents(old(Snapshot(a)), cols)
  {
    ghost var b := Snapshot(a);
    ghost var r := ColsForcedTents(b, cols);
    var n := a.Length0;
    for y := 0 to n
      invariant forall i, j | OnBoard(n, i, j) :: a[i, j] == if j < y then r[i][j] else b[i][j]
    {
      assert ColOf(a, y) == Column(b, y);
      var emptyCount := Count(ColOf(a, y), EMPTY);
      var tentsCount := Count(ColOf(a, y), TENT);
      if emptyCount == cols[y] - tentsCount {
        FillColumn(a, y, TENT);
      }
    }
    SameCells(Snapshot(a), r);
  }

  /** Sweep 8 at cell (x, y), every cell before it in row-major order
      already swept to its value in r: an EMPTY cell with a TENT among its
      eight neighbours becomes GRASS, which is the value r holds for it. */
  method GrassIfTent(a: array2<int>, x: int, y: int, ghost b: Board, ghost r: Board)
    requires a.Length0 == a.Length1 == |b| == |r| && Square(b) && Square(r) && OnBoard(|b|, x, y)
    requires forall i, j | OnBoard(|b|, i, j) ::
               a[i, j] == if i < x || (i == x && j < y) then r[i][j] else b[i][j]
    requires r[x][y] == if a[x, y] == EMPTY && Cell(TENT) in Neighbours(Snapshot(a), x, y, 8) then GRASS else a[x, y]
    modifies a
    ensures forall i, j | OnBoard(|b|, i, j) ::
              a[i, j] == if i < x || (i == x && j <= y) then r[i][j] else b[i][j]
  {
    if a[x, y] == EMPTY {
      var neighbours := Neighbours(Snapshot(a), x, y, 8);
      if Cell(TENT) in neighbours {
        a[x, y] := GRASS;
      }
    }
  }

  /** The value sweep 8 gives cell (x, y) is what its test computes on
      the half-swept board c. */
  lemma TentStep(c: Board, b: Board, x: int, y: int)
    requires Square(b) && Square(c) && |c| == |b| && OnBoard(|b|, x, y)
    requires forall i, j | OnBoard(|b|, i, j) ::
               c[i][j] == if i < x || (i == x && j < y) then TentNeighbourGrass(b)[i][j] else b[i][j]
    ensures TentNeighbourGrass(b)[x][y] ==
              if c[x][y] == EMPTY && Cell(TENT) in Neighbours(c, x, y, 8) then GRASS else c[x][y]
  {
    MidSweepTents(c, b, x, y);
    assert c[x][y] == b[x][y];
  }

  /** Midway through sweep 8 the TENT cells are still those of the board
      the sweep started from, so the sweep's test sees the same answer. */
  lemma MidSweepTents(c: Board, b: Board, x: int, y: int)
    requires Square(b) && Square(c) && |c| == |b| && OnBoard(|b|, x, y)
    requires forall i, j | OnBoard(|b|, i, j) ::
               c[i][j] == if i < x || (i == x && j < y) then TentNeighbourGrass(b)[i][j] else b[i][j]
    ensures (Cell(TENT) in Neighbours(c, x, y, 8)) == (Cell(TENT) in Neighbours(b, x, y, 8))
  {
    SameNeighbourhood(c, b, x, y, 8, TENT);
  }

  /** Sweep 8, EMPTY cells touching a TENT. */
  method SweepTentNeighbours(a: array2<int>)
    requires a.Length0 == a.Length1
    modifies a
    ensures Snapshot(a) == TentNeighbourGrass(old(Snapshot(a)))
  {
    ghost var b := Snapshot(a);
    ghost var r := TentNeighbourGrass(b);
    var n := a.Length0;
    for x := 0 to n
      invariant forall i, j | OnBoard(n, i, j) :: a[i, j] == if i < x then r[i][j] else b[i][j]
    {
      for y := 0 to n
        invariant forall i, j | OnBoard(n, i, j) ::
                    a[i, j] == if i < x || (i == x && j < y) then r[i][j] else b[i][j]
      {
        TentStep(Snapshot(a), b, x, y);
        GrassIfTent(a, x, y, b, r);
      }
    }
    SameCells(Snapshot(a), r);
  }

  /** The cell of sweep 9 at a TREE with a forced tent: the tree's position
      plus the offset of the first EMPTY slot. */
  method ForcedTentCell(b: Board, x: int, y: int, neighbours: seq<Neighbour>) returns (nx: int, ny: int)
    requires Square(b) && OnBoard(|b|, x, y) && HasForcedTent(b, x, y)
    requires neighbours == Neighbours(b, x, y, 4)
    ensures (nx, ny) == ForcedTentAt(b, x, y)
  {
    ForcedTentSlot(b, x, y);
    var emptyIndex := IndexOf(neighbours, Cell(EMPTY));
    nx, ny := x + K4Offsets[emptyIndex].0, y + K4Offsets[emptyIndex].1;
  }

  /** The test of sweep 9 at a TREE: no TENT and exactly one EMPTY cell
      among its four neighbours, and the cell the tent goes to. */
  method ForcedTentTest(b: Board, x: int, y: int) returns (forced: bool, nx: int, ny: int)
    requires Square(b) && OnBoard(|b|, x, y) && b[x][y] == TREE
    ensures forced == HasForcedTent(b, x, y)
    ensures forced ==> (nx, ny) == ForcedTentAt(b, x, y)
  {
    var neighbours := Neighbours(b, x, y, 4);
    var emptyCount := multiset(neighbours)[Cell(EMPTY)];
    forced := Cell(TENT) !in neighbours && emptyCount == 1;
    nx, ny := x, y;
    if forced {
      nx, ny := ForcedTentCell(b, x, y, neighbours);
    }
  }

  /** Sweep 9 at one TREE: its forced tent, if it has one. */
  method TreeTentAt(a: array2<int>, x: int, y: int)
    requires a.Length0 == a.Length1 && OnBoard(a.Length0, x, y)
    modifies a
    ensures Snapshot(a) == TreeStep(old(Snapshot(a)), x, y)
  {
    var b := Snapshot(a);
    if a[x, y] == TREE {
      var forced, nx, ny := ForcedTentTest(b, x, y);
      if forced {
        ForcedTentSlot(b, x, y);
        PutTent(a, nx, ny);
      }
    }
  }

  /** Cell (x, y) of a becomes TENT. */
  method PutTent(a: array2<int>, x: int, y: int)
    requires a.Length0 == a.Length1 && OnBoard(a.Length0, x, y)
    modifies a
    ensures Snapshot(a) == Write(old(Snapshot(a)), x, y, TENT)
  {
    ghost var b := Snapshot(a);
    a[x, y] := TENT;
    SameCells(Snapshot(a), Write(b, x, y, TENT));
  }

  /** Sweep 9 along row x, left to right. */
  method TreeTentsAlong(a: array2<int>, x: int)
    requires a.Length0 == a.Length1 && 0 <= x < a.Length0
    modifies a
    ensures Snapshot(a) == TreeTentsRow(old(Snapshot(a)), x, a.Length0)
  {
    ghost var b := Snapshot(a);
    for y := 0 to a.Length1
      invariant Snapshot(a) == TreeTentsRow(b, x, y)
    {
      TreeTentAt(a, x, y);
      TreeTentsRowStep(b, x, y);
    }
  }

  /** Sweep 9, every TREE in row-major order. */
  method SweepTreeTents(a: array2<int>)
    requires a.Length0 == a.Length1
    modifies a
    ensures Snapshot(a) == TreeTents(old(Snapshot(a)))
  {
    ghost var b := Snapshot(a);
    for x := 0 to a.Length0
      invariant Snapshot(a) == TreeTentsRows(b, x)
    {
      TreeTentsAlong(a, x);
    }
  }

  /** One pass of the loop: the nine sweeps in order. */
  method RunPass(a: array2<int>, rows: seq<int>, cols: seq<int>)
    requires a.Length0 == a.Length1 == |rows| == |cols|
    modifies a
    ensures Snapshot(a) == Pass(old(Snapshot(a)), rows, cols)
  {
    SweepRowsZero(a, rows);
    SweepRowsFull(a, rows);
    SweepColsZero(a, cols);
    SweepColsFull(a, cols);
    SweepNoTree(a);
    SweepRowsForced(a, rows);
    SweepColsForced(a, cols);
    SweepTentNeighbours(a);
    SweepTreeTents(a);
  }

  /** The solver: passes until one changes nothing (unsolved) or no EMPTY
      cell is left (solved). The grid object is updated in place and
      returned; `solved` is what the final message reports. */
  method Solve(g: Grid) returns (r: Grid, solved: bool)
    requires g.Valid() && |g.rowConstraints| == g.dim && |g.colConstraints| == g.dim
    modifies g.grid
    ensures r == g
    ensures g.Cells() == Propagate(old(g.Cells()), g.rowConstraints, g.colConstraints).board
    ensures solved == Propagate(old(g.Cells()), g.rowConstraints, g.colConstraints).solved
  {
    ghost var final := Propagate(g.Cells(), g.rowConstraints, g.colConstraints);
    var a := g.grid;
    var rows, cols := g.rowConstraints, g.colConstraints;
    solved := false;
    var previous := Snapshot(a);
    while !solved
      invariant Square(Snapshot(a)) && |Snapshot(a)| == g.dim
      invariant !solved ==> previous == Snapshot(a)
      invariant !solved ==> Propagate(Snapshot(a), rows, cols).board == final.board
      invariant !solved ==> Propagate(Snapshot(a), rows, cols).solved == final.solved
      invariant solved ==> Snapshot(a) == final.board && final.solved
      decreases Total(Snapshot(a), EMPTY) + (if solved then 0 else 1)
    {
      ghost var before := Snapshot(a);
      RunPass(a, rows, cols);
      TotalRefines(before, Snapshot(a));
      if previous == Snapshot(a) {
        break;
      }
      previous := Snapshot(a);
      solved := NoEmpty(Snapshot(a));
    }
    r := g;
  }
}
