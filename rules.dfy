/** The deduction sweeps of the rule-propagation solver and the fixed-point
    loop over them, as functions on board values. Every sweep only turns
    EMPTY cells into GRASS or TENT; a pass is the nine sweeps in order; the
    loop stops at the first pass that changes nothing or leaves no EMPTY
    cell. */
module Rules {
  import opened Geometry
  import opened Counting

  /** b' fills some EMPTY cells of b and leaves every other cell as it is. */
  ghost predicate Refines(b: Board, b': Board) {
    && Square(b) && Square(b') && |b| == |b'|
    && forall x, y | OnBoard(|b|, x, y) ::
         b'[x][y] == b[x][y] || (b[x][y] == EMPTY && b'[x][y] != EMPTY)
  }

  lemma RefinesTrans(b1: Board, b2: Board, b3: Board)
    requires Refines(b1, b2) && Refines(b2, b3)
    ensures Refines(b1, b3)
  {
  }

  /** The solved test of the loop: no row holds an EMPTY cell. */
  predicate NoEmpty(b: Board) {
    forall x | 0 <= x < |b| :: EMPTY !in b[x]
  }

  /** On the selected rows, EMPTY cells become v. */
  function FillRows(b: Board, sel: seq<bool>, v: int): (r: Board)
    requires Square(b) && |sel| == |b|
    ensures Square(r) && |r| == |b|
    ensures forall x, y | OnBoard(|b|, x, y) ::
              r[x][y] == if sel[x] && b[x][y] == EMPTY then v else b[x][y]
  {
    seq(|b|, x requires 0 <= x < |b| =>
      seq(|b|, y requires 0 <= y < |b| => if sel[x] && b[x][y] == EMPTY then v else b[x][y]))
  }

  /** On the selected columns, EMPTY cells become v. */
  function FillColumns(b: Board, sel: seq<bool>, v: int): (r: Board)
    requires Square(b) && |sel| == |b|
    ensures Square(r) && |r| == |b|
    ensures forall x, y | OnBoard(|b|, x, y) ::
              r[x][y] == if sel[y] && b[x][y] == EMPTY then v else b[x][y]
  {
    seq(|b|, x requires 0 <= x < |b| =>
      seq(|b|, y requires 0 <= y < |b| => if sel[y] && b[x][y] == EMPTY then v else b[x][y]))
  }

  /** Sweep 1: a row whose constraint is 0 holds no tent. */
  function RowsZeroGrass(b: Board, rows: seq<int>): (r: Board)
    requires Square(b) && |rows| == |b|
    ensures Refines(b, r)
    ensures forall x, y | OnBoard(|b|, x, y) && b[x][y] == EMPTY && rows[x] == 0 :: r[x][y] == GRASS
    ensures forall x, y | OnBoard(|b|, x, y) && rows[x] != 0 :: r[x][y] == b[x][y]
  {
    FillRows(b, seq(|b|, x requires 0 <= x < |b| => rows[x] == 0), GRASS)
  }

  /** The current TENT count of row x has reached its constraint. */
  predicate RowFull(b: Board, rows: seq<int>, x: int)
    requires 0 <= x < |b| && |rows| == |b|
  {
    Count(b[x], TENT) == rows[x]
  }

  /** Sweep 2: a row with all its tents has no room for another. */
  function RowsFullGrass(b: Board, rows: seq<int>): (r: Board)
    requires Square(b) && |rows| == |b|
    ensures Refines(b, r)
    ensures forall x, y | OnBoard(|b|, x, y) && b[x][y] == EMPTY && RowFull(b, rows, x) :: r[x][y] == GRASS
    ensures forall x, y | OnBoard(|b|, x, y) && !RowFull(b, rows, x) :: r[x][y] == b[x][y]
  {
    FillRows(b, seq(|b|, x requires 0 <= x < |b| => RowFull(b, rows, x)), GRASS)
  }

  /** Sweep 3: a column whose constraint is 0 holds no tent. */
  function ColsZeroGrass(b: Board, cols: seq<int>): (r: Board)
    requires Square(b) && |cols| == |b|
    ensures Refines(b, r)
    ensures forall x, y | OnBoard(|b|, x, y) && b[x][y] == EMPTY && cols[y] == 0 :: r[x][y] == GRASS
    ensures forall x, y | OnBoard(|b|, x, y) && cols[y] != 0 :: r[x][y] == b[x][y]
  {
    FillColumns(b, seq(|b|, y requires 0 <= y < |b| => cols[y] == 0), GRASS)
  }

  /** The current TENT count of column y has reached its constraint. */
  predicate ColFull(b: Board, cols: seq<int>, y: int)
    requires Square(b) && 0 <= y < |b| && |cols| == |b|
  {
    Count(Column(b, y), TENT) == cols[y]
  }

  /** Sweep 4: a column with all its tents has no room for another. */
  function ColsFullGrass(b: Board, cols: seq<int>): (r: Board)
    requires Square(b) && |cols| == |b|
    ensures Refines(b, r)
    ensures forall x, y | OnBoard(|b|, x, y) && b[x][y] == EMPTY && ColFull(b, cols, y) :: r[x][y] == GRASS
    ensures forall x, y | OnBoard(|b|, x, y) && !ColFull(b, cols, y) :: r[x][y] == b[x][y]
  {
    FillColumns(b, seq(|b|, y requires 0 <= y < |b| => ColFull(b, cols, y)), GRASS)
  }

  /** Sweep 5: an EMPTY cell without a TREE among its four neighbours
      cannot hold a tent. */
  function NoTreeGrass(b: Board): (r: Board)
    requires Square(b)
    ensures Refines(b, r)
    ensures forall x, y | OnBoard(|b|, x, y) ::
              r[x][y] == if b[x][y] == EMPTY && Cell(TREE) !in Neighbours(b, x, y, 4) then GRASS else b[x][y]
  {
    seq(|b|, x requires 0 <= x < |b| =>
      seq(|b|, y requires 0 <= y < |b| =>
        if b[x][y] == EMPTY && Cell(TREE) !in Neighbours(b, x, y, 4) then GRASS else b[x][y]))
  }

  /** The EMPTY cells of row x are exactly the tents it still lacks. */
  predicate RowForced(b: Board, rows: seq<int>, x: int)
    requires 0 <= x < |b| && |rows| == |b|
  {
    Count(b[x], EMPTY) == rows[x] - Count(b[x], TENT)
  }

  /** Sweep 6: a row whose EMPTY cells are exactly its missing tents. */
  function RowsForcedTents(b: Board, rows: seq<int>): (r: Board)
    requires Square(b) && |rows| == |b|
    ensures Refines(b, r)
    ensures forall x, y | OnBoard(|b|, x, y) && b[x][y] == EMPTY && RowForced(b, rows, x) :: r[x][y] == TENT
    ensures forall x, y | OnBoard(|b|, x, y) && !RowForced(b, rows, x) :: r[x][y] == b[x][y]
  {
    FillRows(b, seq(|b|, x requires 0 <= x < |b| => RowForced(b, rows, x)), TENT)
  }

  /** The EMPTY cells of column y are exactly the tents it still lacks. */
  predicate ColForced(b: Board, cols: seq<int>, y: int)
    requires Square(b) && 0 <= y < |b| && |cols| == |b|
  {
    Count(Column(b, y), EMPTY) == cols[y] - Count(Column(b, y), TENT)
  }

  /** Sweep 7: a column whose EMPTY cells are exactly its missing tents. */
  function ColsForcedTents(b: Board, cols: seq<int>): (r: Board)
    requires Square(b) && |cols| == |b|
    ensures Refines(b, r)
    ensures forall x, y | OnBoard(|b|, x, y) && b[x][y] == EMPTY && ColForced(b, cols, y) :: r[x][y] == TENT
    ensures forall x, y | OnBoard(|b|, x, y) && !ColForced(b, cols, y) :: r[x][y] == b[x][y]
  {
    FillColumns(b, seq(|b|, y requires 0 <= y < |b| => ColForced(b, cols, y)), TENT)
  }

  /** Sweep 8: an EMPTY cell touching a TENT, diagonals included, cannot
      hold a tent. */
  function TentNeighbourGrass(b: Board): (r: Board)
    requires Square(b)
    ensures Refines(b, r)
    ensures forall x, y | OnBoard(|b|, x, y) ::
              r[x][y] == if b[x][y] == EMPTY && Cell(TENT) in Neighbours(b, x, y, 8) then GRASS else b[x][y]
  {
    seq(|b|, x requires 0 <= x < |b| =>
      seq(|b|, y requires 0 <= y < |b| =>
        if b[x][y] == EMPTY && Cell(TENT) in Neighbours(b, x, y, 8) then GRASS else b[x][y]))
  }

  /** A TREE at (x, y) with no TENT and exactly one EMPTY cell among its
      four neighbours. */
  predicate HasForcedTent(b: Board, x: int, y: int)
    requires Square(b) && OnBoard(|b|, x, y)
  {
    && b[x][y] == TREE
    && Cell(TENT) !in Neighbours(b, x, y, 4)
    && multiset(Neighbours(b, x, y, 4))[Cell(EMPTY)] == 1
  }

  /** Two slots holding the same element count twice. */
  lemma TwoSlots(s: seq<Neighbour>, d: int, d': int, e: Neighbour)
    requires 0 <= d < d' < |s| && s[d] == e && s[d'] == e
    ensures multiset(s)[e] >= 2
  {
    assert s == s[..d] + [s[d]] + s[d + 1..d'] + [s[d']] + s[d' + 1..];
  }

  /** Where the forced tent of the TREE at (x, y) goes: the slot of the
      first EMPTY neighbour, mapped back through the slot offsets. It is
      the only EMPTY orthogonal neighbour, and it is on the board. */
  function ForcedTentAt(b: Board, x: int, y: int): (p: (int, int))
    requires Square(b) && OnBoard(|b|, x, y) && HasForcedTent(b, x, y)
    ensures OnBoard(|b|, p.0, p.1) && Orthogonal(x, y, p.0, p.1) && b[p.0][p.1] == EMPTY
    ensures forall i, j | OnBoard(|b|, i, j) && Orthogonal(x, y, i, j) && b[i][j] == EMPTY :: (i, j) == p
  {
    var d := IndexOf(Neighbours(b, x, y, 4), Cell(EMPTY));
    EmptySlotOnly(b, x, y, d);
    (x + K4Offsets[d].0, y + K4Offsets[d].1)
  }

  /** The slot d holding the single EMPTY neighbour names an on-board
      orthogonal position, and no other orthogonal position is EMPTY. */
  lemma EmptySlotOnly(b: Board, x: int, y: int, d: int)
    requires Square(b) && OnBoard(|b|, x, y) && HasForcedTent(b, x, y)
    requires 0 <= d < 4 && Neighbours(b, x, y, 4)[d] == Cell(EMPTY)
    ensures var p := (x + K4Offsets[d].0, y + K4Offsets[d].1);
      && OnBoard(|b|, p.0, p.1) && Orthogonal(x, y, p.0, p.1) && b[p.0][p.1] == EMPTY
      && forall i, j | OnBoard(|b|, i, j) && Orthogonal(x, y, i, j) && b[i][j] == EMPTY :: (i, j) == p
  {
    SlotAround(4, d, x, y);
    forall i, j | OnBoard(|b|, i, j) && Orthogonal(x, y, i, j) && b[i][j] == EMPTY
      ensures (i, j) == (x + K4Offsets[d].0, y + K4Offsets[d].1)
    {
      OtherEmptySlot(b, x, y, d, i, j);
    }
  }

  lemma OtherEmptySlot(b: Board, x: int, y: int, d: int, i: int, j: int)
    requires Square(b) && OnBoard(|b|, x, y) && HasForcedTent(b, x, y)
    requires 0 <= d < 4 && Neighbours(b, x, y, 4)[d] == Cell(EMPTY)
    requires OnBoard(|b|, i, j) && Orthogonal(x, y, i, j) && b[i][j] == EMPTY
    ensures (i, j) == (x + K4Offsets[d].0, y + K4Offsets[d].1)
  {
    var nbrs := Neighbours(b, x, y, 4);
    var d' := SlotOf(4, i - x, j - y);
    assert nbrs[d'] == Cell(EMPTY);
    if d < d' {
      TwoSlots(nbrs, d, d', Cell(EMPTY));
    } else if d' < d {
      TwoSlots(nbrs, d', d, Cell(EMPTY));
    }
  }

  /** Sweep 9 at one cell: the forced tent of a TREE, if it has one. */
  function TreeStep(b: Board, x: int, y: int): (r: Board)
    requires Square(b) && OnBoard(|b|, x, y)
    ensures Refines(b, r)
  {
    if HasForcedTent(b, x, y) then
      var p := ForcedTentAt(b, x, y);
      Write(b, p.0, p.1, TENT)
    else
      b
  }

  /** Sweep 9 over the first y cells of row x, left to right. */
  function TreeTentsRow(b: Board, x: int, y: int): (r: Board)
    requires Square(b) && 0 <= x < |b| && 0 <= y <= |b|
    ensures Square(r) && |r| == |b|
  {
    if y == 0 then b
    else
      var r' := TreeTentsRow(b, x, y - 1);
      TreeStep(r', x, y - 1)
  }

  /** Sweep 9 along a row only fills EMPTY cells. */
  lemma {:induction false} TreeTentsRowRefines(b: Board, x: int, y: int)
    requires Square(b) && 0 <= x < |b| && 0 <= y <= |b|
    ensures Refines(b, TreeTentsRow(b, x, y))
  {
    if y > 0 {
      var r' := TreeTentsRow(b, x, y - 1);
      TreeTentsRowRefines(b, x, y - 1);
      RefinesTrans(b, r', TreeStep(r', x, y - 1));
    }
  }

  /** One more column of sweep 9 along row x is one more TreeStep. */
  lemma TreeTentsRowStep(b: Board, x: int, y: int)
    requires Square(b) && 0 <= x < |b| && 0 <= y < |b|
    ensures Square(TreeTentsRow(b, x, y))
    ensures TreeTentsRow(b, x, y + 1) == TreeStep(TreeTentsRow(b, x, y), x, y)
  {
  }

  /** The cell ForcedTentAt names is the one at the offset of the first
      EMPTY slot among the four neighbours. */
  lemma ForcedTentSlot(b: Board, x: int, y: int)
    requires Square(b) && OnBoard(|b|, x, y)
    requires b[x][y] == TREE && Cell(TENT) !in Neighbours(b, x, y, 4)
    requires multiset(Neighbours(b, x, y, 4))[Cell(EMPTY)] == 1
    ensures HasForcedTent(b, x, y)
    ensures var d := IndexOf(Neighbours(b, x, y, 4), Cell(EMPTY));
            ForcedTentAt(b, x, y) == (x + K4Offsets[d].0, y + K4Offsets[d].1)
  {
  }

  /** Sweep 9 over the first x rows, top to bottom. */
  function TreeTentsRows(b: Board, x: int): (r: Board)
    requires Square(b) && 0 <= x <= |b|
    ensures Refines(b, r)
  {
    if x == 0 then b
    else
      var r' := TreeTentsRows(b, x - 1);
      TreeTentsRowRefines(r', x - 1, |b|);
      RefinesTrans(b, r', TreeTentsRow(r', x - 1, |b|));
      TreeTentsRow(r', x - 1, |b|)
  }

  /** Sweep 9: every TREE, in row-major order, gets its forced tent; each
      step sees the tents placed before it. */
  function TreeTents(b: Board): (r: Board)
    requires Square(b)
    ensures Refines(b, r)
  {
    TreeTentsRows(b, |b|)
  }

  /** One pass of the loop: the nine sweeps in the order of the source. */
  function Pass(b: Board, rows: seq<int>, cols: seq<int>): (r: Board)
    requires Square(b) && |rows| == |b| && |cols| == |b|
    ensures Refines(b, r)
  {
    var b1 := RowsZeroGrass(b, rows);
    var b2 := RowsFullGrass(b1, rows);
    var b3 := ColsZeroGrass(b2, cols);
    var b4 := ColsFullGrass(b3, cols);
    var b5 := NoTreeGrass(b4);
    var b6 := RowsForcedTents(b5, rows);
    var b7 := ColsForcedTents(b6, cols);
    var b8 := TentNeighbourGrass(b7);
    var b9 := TreeTents(b8);
    RefinesTrans(b, b1, b2);
    RefinesTrans(b, b2, b3);
    RefinesTrans(b, b3, b4);
    RefinesTrans(b, b4, b5);
    RefinesTrans(b, b5, b6);
    RefinesTrans(b, b6, b7);
    RefinesTrans(b, b7, b8);
    RefinesTrans(b, b8, b9);
    b9
  }

  /** A refinement of a row never has more EMPTY cells, and has fewer as
      soon as it differs. */
  lemma {:induction false} CountRefines(s: seq<int>, t: seq<int>)
    requires |s| == |t|
    requires forall j | 0 <= j < |s| :: t[j] == s[j] || (s[j] == EMPTY && t[j] != EMPTY)
    ensures Count(t, EMPTY) <= Count(s, EMPTY)
    ensures s != t ==> Count(t, EMPTY) < Count(s, EMPTY)
  {
    if s != [] {
      var n := |s| - 1;
      CountRefines(s[..n], t[..n]);
      if s != t && s[..n] == t[..n] {
        assert s[n] != t[n];
      }
    }
  }

  /** Every changing refinement removes at least one EMPTY cell: the
      measure of the solver loop. */
  lemma {:induction false} TotalRefines(b: Board, b': Board)
    requires Refines(b, b')
    ensures Total(b', EMPTY) <= Total(b, EMPTY)
    ensures b' != b ==> Total(b', EMPTY) < Total(b, EMPTY)
  {
    TotalRowsRefine(b, b', |b|);
  }

  lemma {:induction false} TotalRowsRefine(b: Board, b': Board, w: nat)
    requires |b| == |b'|
    requires forall i | 0 <= i < |b| :: |b[i]| == w && |b'[i]| == w
    requires forall i, j | 0 <= i < |b| && 0 <= j < w ::
               b'[i][j] == b[i][j] || (b[i][j] == EMPTY && b'[i][j] != EMPTY)
    ensures Total(b', EMPTY) <= Total(b, EMPTY)
    ensures b' != b ==> Total(b', EMPTY) < Total(b, EMPTY)
  {
    if b != [] {
      var n := |b| - 1;
      TotalRowsRefine(b[..n], b'[..n], w);
      CountRefines(b[n], b'[n]);
      if b != b' && b[..n] == b'[..n] {
        assert b[n] != b'[n];
      }
    }
  }

  /** The solved test agrees with the EMPTY count. */
  lemma {:induction false} NoEmptyTotal(b: Board)
    ensures NoEmpty(b) <==> Total(b, EMPTY) == 0
  {
    if b != [] {
      var n := |b| - 1;
      NoEmptyTotal(b[..n]);
      CountIsMultiplicity(b[n], EMPTY);
      assert NoEmpty(b) <==> NoEmpty(b[..n]) && EMPTY !in b[n];
    }
  }

  /** What the loop ends with: the board, the solved flag, and the number
      of passes it ran. */
  datatype Outcome = Outcome(board: Board, solved: bool, passes: nat)

  /** The loop of the solver from board b: run a pass; stop unsolved when
      it changed nothing, stop solved when no EMPTY cell is left, else go
      on. */
  function Propagate(b: Board, rows: seq<int>, cols: seq<int>): (o: Outcome)
    requires Square(b) && |rows| == |b| && |cols| == |b|
    ensures Refines(b, o.board)
    ensures o.solved ==> NoEmpty(o.board)
    ensures !o.solved ==> Pass(o.board, rows, cols) == o.board
    ensures 1 <= o.passes <= if Total(b, EMPTY) == 0 then 1 else Total(b, EMPTY)
    decreases Total(b, EMPTY)
  {
    var b' := Pass(b, rows, cols);
    TotalRefines(b, b');
    if b' == b then
      Outcome(b, false, 1)
    else if NoEmpty(b') then
      Outcome(b', true, 1)
    else
      NoEmptyTotal(b');
      var o := Propagate(b', rows, cols);
      RefinesTrans(b, b', o.board);
      Outcome(o.board, o.solved, o.passes + 1)
  }

  /** Kept apart from PassesBound so that the solver sees the product
      without the unfolding of Propagate. */
  lemma SquarePositive(n: int)
    requires n >= 1
    ensures n * n >= 1
  {
  }

  /** The loop runs at most dim * dim passes (one on an empty board). */
  lemma PassesBound(b: Board, rows: seq<int>, cols: seq<int>)
    requires Square(b) && |rows| == |b| && |cols| == |b|
    ensures Propagate(b, rows, cols).passes <= if |b| == 0 then 1 else |b| * |b|
  {
    var o := Propagate(b, rows, cols);
    var e := Total(b, EMPTY);
    TotalBound(b, |b|, EMPTY);
    assert o.passes <= if e == 0 then 1 else e;
    if |b| > 0 {
      SquarePositive(|b|);
    } else {
      assert e == 0;
    }
  }
}
