/** One generation attempt of a puzzle, as the `Grid` class runs it on its
    dim-by-dim integer array: place tents apart from each other, publish the
    tent counts, plant one tree beside each tent, erase the tents. The random
    source is a sequence of draws; an exhausted retry budget is a `false`
    result instead of an exception. */
module Generator {
  import opened Geometry
  import opened Counting
  import opened Puzzle

  function Max0(n: int): nat {
    if n < 0 then 0 else n
  }

  /** A board of n-by-n EMPTY cells (`np.zeros`). */
  function Blank(n: nat): (b: Board)
    ensures Square(b) && |b| == n
    ensures forall x, y | OnBoard(n, x, y) :: b[x][y] == EMPTY
  {
    seq(n, x => seq(n, y => EMPTY))
  }

  /** The tent draw (x, y) is accepted on board b: the cell is not a TENT and
      no TENT is among its eight neighbours. */
  predicate CanPlaceTent(b: Board, x: int, y: int)
    requires Square(b) && OnBoard(|b|, x, y)
  {
    b[x][y] != TENT && Cell(TENT) !in Neighbours(b, x, y, 8)
  }

  /** The last MAX_TRIES + 1 tree draws for the tent at (x, y) each named a
      neighbour slot that is not an EMPTY cell. */
  predicate TreeDrawsRejected(b: Board, x: int, y: int, ds: seq<int>)
    requires Square(b) && OnBoard(|b|, x, y)
  {
    && MAX_TRIES + 1 <= |ds|
    && forall i | |ds| - (MAX_TRIES + 1) <= i < |ds| ::
         !(0 <= ds[i] < 4 && Neighbours(b, x, y, 4)[ds[i]] == Cell(EMPTY))
  }

  /** The draws of one failed tree placement, seen from the whole prefix of
      draws read so far. */
  lemma RejectedTail(b: Board, x: int, y: int, draws: seq<int>, used: int)
    requires Square(b) && OnBoard(|b|, x, y)
    requires MAX_TRIES + 1 <= used <= |draws|
    requires forall i | 0 <= i < |draws| :: 0 <= draws[i] < 4
    requires forall i | used - (MAX_TRIES + 1) <= i < used :: Neighbours(b, x, y, 4)[draws[i]] != Cell(EMPTY)
    ensures TreeDrawsRejected(b, x, y, draws[..used])
  {
  }

  /** An accepted tent draw adds exactly one tent and keeps tents apart. */
  lemma PlaceTentStep(b: Board, x: int, y: int)
    requires Square(b) && OnBoard(|b|, x, y) && CanPlaceTent(b, x, y)
    ensures Total(Write(b, x, y, TENT), TENT) == Total(b, TENT) + 1
    ensures TentsAdded(b, Write(b, x, y, TENT))
    ensures NoAdjacentTents(b) ==> NoAdjacentTents(Write(b, x, y, TENT))
  {
    TotalWrite(b, x, y, TENT, TENT);
    if NoAdjacentTents(b) {
      PlaceTentKeepsApart(b, x, y);
    }
  }

  /** Cells before (x, y) in the row-major order of the source's loops. */
  predicate RowMajorBefore(i: int, j: int, x: int, y: int) {
    i < x || (i == x && j < y)
  }

  /** Planting a TREE on an EMPTY orthogonal neighbour of a TENT. */
  lemma PlantTreeStep(b: Board, x: int, y: int, tx: int, ty: int)
    requires Square(b) && OnBoard(|b|, x, y) && OnBoard(|b|, tx, ty)
    requires b[x][y] == TENT && b[tx][ty] == EMPTY && Orthogonal(x, y, tx, ty)
    ensures TreesAdded(b, Write(b, tx, ty, TREE))
    ensures Total(Write(b, tx, ty, TREE), TREE) == Total(b, TREE) + 1
    ensures TreesBesideTents(b) ==> TreesBesideTents(Write(b, tx, ty, TREE))
  {
    var r := Write(b, tx, ty, TREE);
    TotalWrite(b, tx, ty, TREE, TREE);
    assert Orthogonal(tx, ty, x, y);
    if TreesBesideTents(b) {
      forall i, j | OnBoard(|b|, i, j) && r[i][j] == TREE
        ensures exists p, q | OnBoard(|b|, p, q) && Orthogonal(i, j, p, q) :: r[p][q] == TENT
      {
        if (i, j) == (tx, ty) {
          assert r[x][y] == TENT;
        } else {
          var p, q :| OnBoard(|b|, p, q) && Orthogonal(i, j, p, q) && b[p][q] == TENT;
          assert r[p][q] == TENT;
        }
      }
    }
  }

  /** The pairing the scan has built before (x, y): every TENT of `start`
      passed so far, and nothing else, is mapped to an orthogonal TREE of
      `cur`, no two of them to the same tree, and every tree planted since
      `start` is one of them. */
  ghost predicate PairsBefore(start: Board, cur: Board, x: int, y: int, pairs: map<(int, int), (int, int)>)
    requires Square(start) && Square(cur) && |cur| == |start|
  {
    && (forall t | t in pairs :: OnBoard(|start|, t.0, t.1) && RowMajorBefore(t.0, t.1, x, y) && start[t.0][t.1] == TENT)
    && (forall i, j | OnBoard(|start|, i, j) && RowMajorBefore(i, j, x, y) && start[i][j] == TENT :: (i, j) in pairs)
    && (forall t | t in pairs :: PairedWith(cur, t, pairs[t]))
    && (forall t, u | t in pairs && u in pairs && t != u :: pairs[t] != pairs[u])
    && (forall i, j | OnBoard(|start|, i, j) && cur[i][j] == TREE && start[i][j] != TREE :: (i, j) in pairs.Values)
  }

  /** Planting a TREE on an EMPTY orthogonal neighbour of the TENT at (x, y)
      pairs that tent with it, and with no tree paired before. */
  lemma PairsPlant(start: Board, cur: Board, x: int, y: int, pairs: map<(int, int), (int, int)>, tx: int, ty: int)
    requires Square(start) && Square(cur) && |cur| == |start| && OnBoard(|start|, x, y)
    requires PairsBefore(start, cur, x, y, pairs)
    requires start[x][y] == TENT && OnBoard(|start|, tx, ty) && Orthogonal(x, y, tx, ty) && cur[tx][ty] == EMPTY
    ensures PairsBefore(start, Write(cur, tx, ty, TREE), x, y + 1, pairs[(x, y) := (tx, ty)])
  {
    var r := Write(cur, tx, ty, TREE);
    var p := pairs[(x, y) := (tx, ty)];
    assert (x, y) !in pairs;
    PlantKeepsPairs(cur, pairs, tx, ty);
    PlantCoversTrees(start, cur, pairs, x, y, tx, ty);
    PlantKeys(start, pairs, x, y, tx, ty);
    assert PairedWith(r, (x, y), (tx, ty));
    forall t, u | t in p && u in p && t != u ensures p[t] != p[u] {
      if t != (x, y) && u != (x, y) {
        assert p[t] == pairs[t] && p[u] == pairs[u];
      }
    }
  }

  /** Adding the TENT at (x, y) to the pairing moves the scan past (x, y):
      the keys are the TENT cells before (x, y + 1). */
  lemma PlantKeys(start: Board, pairs: map<(int, int), (int, int)>, x: int, y: int, tx: int, ty: int)
    requires Square(start) && OnBoard(|start|, x, y) && start[x][y] == TENT
    requires forall t | t in pairs :: OnBoard(|start|, t.0, t.1) && RowMajorBefore(t.0, t.1, x, y) && start[t.0][t.1] == TENT
    requires forall i, j | OnBoard(|start|, i, j) && RowMajorBefore(i, j, x, y) && start[i][j] == TENT :: (i, j) in pairs
    ensures forall t | t in pairs[(x, y) := (tx, ty)] ::
              OnBoard(|start|, t.0, t.1) && RowMajorBefore(t.0, t.1, x, y + 1) && start[t.0][t.1] == TENT
    ensures forall i, j | OnBoard(|start|, i, j) && RowMajorBefore(i, j, x, y + 1) && start[i][j] == TENT ::
              (i, j) in pairs[(x, y) := (tx, ty)]
  {
  }

  /** Planting a TREE on an EMPTY cell keeps every pair, and the new tree
      is the tree of no tent paired before. */
  lemma PlantKeepsPairs(cur: Board, pairs: map<(int, int), (int, int)>, tx: int, ty: int)
    requires Square(cur) && OnBoard(|cur|, tx, ty) && cur[tx][ty] == EMPTY
    requires forall t | t in pairs :: PairedWith(cur, t, pairs[t])
    ensures forall t | t in pairs :: pairs[t] != (tx, ty) && PairedWith(Write(cur, tx, ty, TREE), t, pairs[t])
  {
    var r := Write(cur, tx, ty, TREE);
    forall t | t in pairs
      ensures pairs[t] != (tx, ty) && PairedWith(r, t, pairs[t])
    {
      assert PairedWith(cur, t, pairs[t]);
    }
  }

  /** Pairing the TENT at (x, y) with the tree planted at (tx, ty) keeps
      every planted tree the tree of some tent. */
  lemma PlantCoversTrees(start: Board, cur: Board, pairs: map<(int, int), (int, int)>, x: int, y: int, tx: int, ty: int)
    requires Square(start) && Square(cur) && |cur| == |start| && OnBoard(|start|, tx, ty) && (x, y) !in pairs
    requires forall i, j | OnBoard(|start|, i, j) && cur[i][j] == TREE && start[i][j] != TREE :: (i, j) in pairs.Values
    ensures forall i, j | OnBoard(|start|, i, j) && Write(cur, tx, ty, TREE)[i][j] == TREE && start[i][j] != TREE ::
              (i, j) in pairs[(x, y) := (tx, ty)].Values
  {
    var r := Write(cur, tx, ty, TREE);
    var p := pairs[(x, y) := (tx, ty)];
    forall i, j | OnBoard(|start|, i, j) && r[i][j] == TREE && start[i][j] != TREE
      ensures (i, j) in p.Values
    {
      if (i, j) == (tx, ty) {
        assert p[(x, y)] == (i, j);
      } else {
        assert cur[i][j] == TREE;
        var t :| t in pairs && pairs[t] == (i, j);
        assert p[t] == (i, j);
      }
    }
  }

  /** At the end of the scan over a board without trees, the pairing is a
      one-to-one pairing of the tents with the trees. */
  lemma ScanPairs(start: Board, cur: Board, pairs: map<(int, int), (int, int)>)
    requires Square(start) && Square(cur) && |cur| == |start|
    requires forall x, y | OnBoard(|start|, x, y) :: start[x][y] in {EMPTY, TENT}
    requires TreesAdded(start, cur) && PairsBefore(start, cur, |start|, 0, pairs)
    ensures OwnTrees(cur, pairs)
  {
    forall t | t in pairs
      ensures OnBoard(|cur|, t.0, t.1) && cur[t.0][t.1] == TENT
    {
      assert start[t.0][t.1] == TENT;
    }
  }

  /** Every tree planted during the scan is beside its tent, so trees that
      had a tent beside them keep one; once every position is passed, every
      TENT has a TREE beside it. */
  lemma PairsBeside(start: Board, cur: Board, x: int, y: int, pairs: map<(int, int), (int, int)>)
    requires Square(start) && Square(cur) && |cur| == |start|
    requires TreesAdded(start, cur) && PairsBefore(start, cur, x, y, pairs)
    ensures TreesBesideTents(start) ==> TreesBesideTents(cur)
    ensures x == |start| && y == 0 ==> TentsBesideTrees(cur)
  {
    if TreesBesideTents(start) {
      forall i, j | OnBoard(|cur|, i, j) && cur[i][j] == TREE
        ensures exists p, q | OnBoard(|cur|, p, q) && Orthogonal(i, j, p, q) :: cur[p][q] == TENT
      {
        if start[i][j] == TREE {
          var p, q :| OnBoard(|start|, p, q) && Orthogonal(i, j, p, q) && start[p][q] == TENT;
          assert cur[p][q] == TENT;
        } else {
          var t :| t in pairs && pairs[t] == (i, j);
          assert PairedWith(cur, t, (i, j));
          assert start[t.0][t.1] == TENT && cur[t.0][t.1] == TENT;
          assert Orthogonal(i, j, t.0, t.1);
        }
      }
    }
    if x == |start| && y == 0 {
      forall i, j | OnBoard(|cur|, i, j) && cur[i][j] == TENT
        ensures exists p, q | OnBoard(|cur|, p, q) && Orthogonal(i, j, p, q) :: cur[p][q] == TREE
      {
        assert start[i][j] == TENT && RowMajorBefore(i, j, x, y);
        assert PairedWith(cur, (i, j), pairs[(i, j)]);
      }
    }
  }

  /** The state of the tree-planting scan before (x, y): the cells so far
      only gained trees, each on an EMPTY cell, every tent passed has its
      own tree, and one tree was planted per tent passed. */
  ghost predicate Scanned(start: Board, cur: Board, x: int, y: int, seen: int, pairs: map<(int, int), (int, int)>)
    requires Square(start) && Square(cur) && |cur| == |start| && 0 <= x < |start| && 0 <= y <= |start|
  {
    && TreesAdded(start, cur)
    && PairsBefore(start, cur, x, y, pairs)
    && seen == CountBefore(start, TENT, x, y)
    && Total(cur, TREE) == Total(start, TREE) + seen
  }

  /** Planting the tree of the TENT at (x, y) advances the scan. */
  lemma ScanPlant(start: Board, cur: Board, x: int, y: int, seen: int, pairs: map<(int, int), (int, int)>, tx: int, ty: int)
    requires Square(start) && Square(cur) && |cur| == |start| && OnBoard(|start|, x, y)
    requires Scanned(start, cur, x, y, seen, pairs)
    requires cur[x][y] == TENT && OnBoard(|start|, tx, ty) && Orthogonal(x, y, tx, ty) && cur[tx][ty] == EMPTY
    ensures Scanned(start, Write(cur, tx, ty, TREE), x, y + 1, seen + 1, pairs[(x, y) := (tx, ty)])
  {
    var r := Write(cur, tx, ty, TREE);
    assert start[x][y] == TENT;
    CountBeforeStep(start, TENT, x, y);
    PlantTreeStep(cur, x, y, tx, ty);
    PairsPlant(start, cur, x, y, pairs, tx, ty);
    forall i, j | OnBoard(|start|, i, j)
      ensures r[i][j] == start[i][j] || (start[i][j] == EMPTY && r[i][j] == TREE)
    {
      if (i, j) != (tx, ty) {
        assert r[i][j] == cur[i][j];
      }
    }
  }

  /** Passing a cell that holds no TENT advances the scan. */
  lemma ScanSkip(start: Board, cur: Board, x: int, y: int, seen: int, pairs: map<(int, int), (int, int)>)
    requires Square(start) && Square(cur) && |cur| == |start| && OnBoard(|start|, x, y)
    requires Scanned(start, cur, x, y, seen, pairs) && cur[x][y] != TENT
    ensures Scanned(start, cur, x, y + 1, seen, pairs)
  {
    assert start[x][y] != TENT;
    CountBeforeStep(start, TENT, x, y);
    PairsSkip(start, cur, x, y, pairs);
  }

  /** Passing a cell that was no TENT leaves the pairing as it is. */
  lemma PairsSkip(start: Board, cur: Board, x: int, y: int, pairs: map<(int, int), (int, int)>)
    requires Square(start) && Square(cur) && |cur| == |start| && OnBoard(|start|, x, y)
    requires PairsBefore(start, cur, x, y, pairs) && start[x][y] != TENT
    ensures PairsBefore(start, cur, x, y + 1, pairs)
  {
    forall i, j | OnBoard(|start|, i, j)
      ensures RowMajorBefore(i, j, x, y + 1) && start[i][j] == TENT ==> RowMajorBefore(i, j, x, y)
    {
    }
  }

  /** Moving to the next row keeps the scan's state. */
  lemma ScanRowEnd(start: Board, cur: Board, x: int, seen: int, pairs: map<(int, int), (int, int)>)
    requires Square(start) && Square(cur) && |cur| == |start| && 0 <= x < |start|
    requires Scanned(start, cur, x, |start|, seen, pairs)
    ensures x + 1 < |start| ==> Scanned(start, cur, x + 1, 0, seen, pairs)
    ensures x + 1 == |start| ==> seen == Total(start, TENT)
    ensures x + 1 == |start| ==> PairsBefore(start, cur, |start|, 0, pairs)
  {
    CountBeforeRowEnd(start, TENT, x);
    PairsRowEnd(start, cur, x, pairs);
  }

  /** The end of row x is the start of row x + 1 for the pairing. */
  lemma PairsRowEnd(start: Board, cur: Board, x: int, pairs: map<(int, int), (int, int)>)
    requires Square(start) && Square(cur) && |cur| == |start| && 0 <= x < |start|
    requires PairsBefore(start, cur, x, |start|, pairs)
    ensures PairsBefore(start, cur, x + 1, 0, pairs)
  {
    forall i, j | OnBoard(|start|, i, j)
      ensures RowMajorBefore(i, j, x, |start|) == RowMajorBefore(i, j, x + 1, 0)
    {
    }
  }

  /** The board after the tents are placed: EMPTY and TENT cells only,
      n tents kept apart. */
  ghost predicate TentsReady(b: Board, n: nat) {
    && Square(b)
    && (forall x, y | OnBoard(|b|, x, y) :: b[x][y] in {EMPTY, TENT})
    && NoAdjacentTents(b) && Total(b, TENT) == n
    && Total(b, TREE) == 0 && TreesBesideTents(b)
  }

  /** Tents placed apart on a blank board, n more than it had: a board of
      EMPTY and TENT cells with n tents kept apart, no tree, hence no
      unpaired tree. */
  lemma TentPhase(tents: Board, n: nat)
    requires Square(tents) && TentsAdded(Blank(|tents|), tents)
    requires NoAdjacentTents(Blank(|tents|)) ==> NoAdjacentTents(tents)
    requires Total(tents, TENT) == Total(Blank(|tents|), TENT) + n
    ensures TentsReady(tents, n)
  {
    TotalAbsent(Blank(|tents|), TENT);
    TotalAbsent(tents, TREE);
  }

  /** Planting trees on a board of EMPTY and TENT cells keeps the tents
      where they are. */
  lemma PlantedBoard(tents: Board, sol: Board)
    requires Square(tents) && Square(sol) && |sol| == |tents|
    requires forall x, y | OnBoard(|tents|, x, y) :: tents[x][y] in {EMPTY, TENT}
    requires TreesAdded(tents, sol)
    ensures forall x, y | OnBoard(|sol|, x, y) :: sol[x][y] in {EMPTY, TENT, TREE}
    ensures forall x, y | OnBoard(|sol|, x, y) :: (tents[x][y] == TENT) == (sol[x][y] == TENT)
  {
  }

  /** What the steps of one attempt add up to: n tents kept apart, a tree
      of its own planted beside every tent and the tents erased give a
      generated puzzle whose constraints are those counted on the tent
      board. */
  lemma AttemptEstablishes(tents: Board, sol: Board, puzzle: Board, n: nat, pairs: map<(int, int), (int, int)>)
    requires TentsReady(tents, n) && Square(sol) && |sol| == |tents|
    requires TreesAdded(tents, sol) && OwnTrees(sol, pairs)
    requires Total(sol, TREE) == Total(sol, TENT)
    requires puzzle == WithoutTents(sol)
    ensures Generated(puzzle, sol, RowColConstraints(tents).0, RowColConstraints(tents).1, n)
  {
    PlantedBoard(tents, sol);
    OwnTreesBeside(sol, pairs);
    SameTentsSameConstraints(tents, sol);
    TotalSamePositions(tents, sol, TENT);
    NoAdjacentTentsTransfer(tents, sol);
  }

  /** The tree scan's end state on a board of tents, once the tents are
      erased, is a generated puzzle. */
  lemma PlantedPuzzle(tents: Board, sol: Board, n: nat, pairs: map<(int, int), (int, int)>)
    requires TentsReady(tents, n) && Square(sol) && |sol| == |tents|
    requires TreesAdded(tents, sol) && PairsBefore(tents, sol, |tents|, 0, pairs)
    requires Total(sol, TREE) == Total(tents, TREE) + Total(sol, TENT)
    ensures Generated(WithoutTents(sol), sol, RowColConstraints(tents).0, RowColConstraints(tents).1, n)
  {
    ScanPairs(tents, sol, pairs);
    AttemptEstablishes(tents, sol, WithoutTents(sol), n, pairs);
  }

  /** The tent phase failed: fewer than n tents, and the last MAX_TRIES + 1
      of the first `used` tent draws were all rejected on the board. */
  ghost predicate TentBudgetSpent(b: Board, n: nat, draws: seq<(int, int)>, used: int)
  {
    && Square(b) && Total(b, TENT) < n
    && MAX_TRIES + 1 <= used <= |draws|
    && forall i | used - (MAX_TRIES + 1) <= i < used ::
         OnBoard(|b|, draws[i].0, draws[i].1) && !CanPlaceTent(b, draws[i].0, draws[i].1)
  }

  /** The tree phase failed: all n tents are on the board, and some TENT's
      last MAX_TRIES + 1 of the first `used` tree draws named no EMPTY
      cell. */
  ghost predicate TreeBudgetSpent(b: Board, n: nat, draws: seq<int>, used: int)
  {
    && Square(b) && Total(b, TENT) == n && 0 <= used <= |draws|
    && exists x, y | OnBoard(|b|, x, y) && b[x][y] == TENT :: TreeDrawsRejected(b, x, y, draws[..used])
  }

  class Grid {
    const dim: nat
    var grid: array2<int>
    var rowConstraints: seq<int>
    var colConstraints: seq<int>

    ghost predicate Valid()
      reads this
    {
      grid.Length0 == dim && grid.Length1 == dim
    }

    /** The current cells, as a value. */
    function Cells(): (b: Board)
      reads this, grid
      ensures Valid() ==> Square(b) && |b| == dim
    {
      Snapshot(grid)
    }

    /** The dimension and a first all-EMPTY grid. */
    constructor (dim: nat)
      ensures this.dim == dim && Valid() && fresh(grid)
      ensures Cells() == Blank(dim)
      ensures rowConstraints == [] && colConstraints == []
    {
      this.dim := dim;
      grid := new int[dim, dim]((x, y) => EMPTY);
      rowConstraints, colConstraints := [], [];
      new;
      SameCells(Snapshot(grid), Blank(dim));
    }

    /** `grid[x][y] = v`, seen on the cells as a value. */
    method SetCell(x: int, y: int, v: int)
      requires Valid() && OnBoard(dim, x, y)
      modifies grid
      ensures Cells() == Write(old(Cells()), x, y, v)
    {
      ghost var before := Cells();
      grid[x, y] := v;
      SameCells(Cells(), Write(before, x, y, v));
    }

    /** One draw for a tent: the tent goes to (x, y) exactly when that cell
        is not a TENT and none of its eight neighbours is. */
    method TryTentAt(x: int, y: int) returns (placed: bool)
      requires Valid() && OnBoard(dim, x, y)
      modifies grid
      ensures placed == CanPlaceTent(old(Cells()), x, y)
      ensures Cells() == if placed then Write(old(Cells()), x, y, TENT) else old(Cells())
    {
      var neighbours := Neighbours(Cells(), x, y, 8);
      if grid[x, y] != TENT && Cell(TENT) !in neighbours {
        SetCell(x, y, TENT);
        placed := true;
      } else {
        placed := false;
      }
    }

    /** One pass of the tent loop: draw `used` is tried against the cells,
        all earlier draws of this tent having been rejected. */
    method DrawTent(draws: seq<(int, int)>, from: nat, used: nat, ghost before: Board) returns (ok: bool)
      requires Valid() && Cells() == before
      requires forall i | 0 <= i < |draws| :: OnBoard(dim, draws[i].0, draws[i].1)
      requires from <= used < |draws|
      requires forall i | from <= i < used :: !CanPlaceTent(before, draws[i].0, draws[i].1)
      modifies grid
      ensures ok ==> CanPlaceTent(before, draws[used].0, draws[used].1)
      ensures ok ==> Cells() == Write(before, draws[used].0, draws[used].1, TENT)
      ensures !ok ==> Cells() == before
      ensures !ok ==> forall i | from <= i <= used :: !CanPlaceTent(before, draws[i].0, draws[i].1)
    {
      ok := TryTentAt(draws[used].0, draws[used].1);
    }

    /** Places one tent, reading draws from index `from` on: at most
        MAX_TRIES + 1 draws, the last one the accepted one, or failure once
        all of them were rejected. */
    method PlaceTent(draws: seq<(int, int)>, from: nat) returns (ok: bool, used: nat)
      requires Valid()
      requires forall i | 0 <= i < |draws| :: OnBoard(dim, draws[i].0, draws[i].1)
      requires from + MAX_TRIES + 1 <= |draws|
      modifies grid
      ensures from < used <= from + MAX_TRIES + 1
      ensures ok ==> CanPlaceTent(old(Cells()), draws[used - 1].0, draws[used - 1].1)
      ensures ok ==> Cells() == Write(old(Cells()), draws[used - 1].0, draws[used - 1].1, TENT)
      ensures !ok ==> Cells() == old(Cells()) && used == from + MAX_TRIES + 1
      ensures forall i | from <= i < used - (if ok then 1 else 0) ::
                !CanPlaceTent(old(Cells()), draws[i].0, draws[i].1)
    {
      ghost var before := Cells();
      used := from;
      ok := false;
      while used < from + MAX_TRIES + 1
        invariant from <= used <= from + MAX_TRIES + 1
        invariant Cells() == before
        invariant forall i | from <= i < used :: !CanPlaceTent(before, draws[i].0, draws[i].1)
      {
        ok := DrawTent(draws, from, used, before);
        used := used + 1;
        if ok {
          return;
        }
      }
    }

    /** Places nbTents tents one after the other, each by `PlaceTent`. */
    method PlaceTents(nbTents: int, draws: seq<(int, int)>) returns (ok: bool, used: nat)
      requires Valid()
      requires forall i | 0 <= i < |draws| :: OnBoard(dim, draws[i].0, draws[i].1)
      requires |draws| >= (MAX_TRIES + 1) * Max0(nbTents)
      modifies grid
      ensures used <= |draws|
      ensures TentsAdded(old(Cells()), Cells())
      ensures NoAdjacentTents(old(Cells())) ==> NoAdjacentTents(Cells())
      ensures ok <==> Total(Cells(), TENT) == old(Total(Cells(), TENT)) + Max0(nbTents)
      ensures !ok ==> Total(Cells(), TENT) < old(Total(Cells(), TENT)) + Max0(nbTents)
      ensures !ok ==> MAX_TRIES + 1 <= used
      ensures !ok ==> forall i | used - (MAX_TRIES + 1) <= i < used ::
                        !CanPlaceTent(Cells(), draws[i].0, draws[i].1)
    {
      ghost var start := Cells();
      ok, used := true, 0;
      var placed := 0;
      while placed < nbTents
        invariant 0 <= placed <= Max0(nbTents)
        invariant used <= (MAX_TRIES + 1) * placed
        invariant Total(Cells(), TENT) == Total(start, TENT) + placed
        invariant TentsAdded(start, Cells())
        invariant NoAdjacentTents(start) ==> NoAdjacentTents(Cells())
      {
        ghost var before := Cells();
        var first := used;
        var placedOne;
        placedOne, used := PlaceTent(draws, first);
        if !placedOne {
          ok := false;
          return;
        }
        var x, y := draws[used - 1].0, draws[used - 1].1;
        PlaceTentStep(before, x, y);
        placed := placed + 1;
      }
    }

    /** Plants the tree of the TENT at (x, y): draws a neighbour slot from
        index `from` on until one names an EMPTY cell, at most MAX_TRIES + 1
        times. On success (tx, ty) is where the tree went. */
    method PlantTree(x: int, y: int, draws: seq<int>, from: nat)
      returns (ok: bool, used: nat, ghost tx: int, ghost ty: int)
      requires Valid() && OnBoard(dim, x, y)
      requires forall i | 0 <= i < |draws| :: 0 <= draws[i] < 4
      requires from + MAX_TRIES + 1 <= |draws|
      modifies grid
      ensures from < used <= from + MAX_TRIES + 1
      ensures ok ==> OnBoard(dim, tx, ty) && Orthogonal(x, y, tx, ty) && old(Cells())[tx][ty] == EMPTY
      ensures ok ==> Cells() == Write(old(Cells()), tx, ty, TREE)
      ensures !ok ==> Cells() == old(Cells()) && used == from + MAX_TRIES + 1
      ensures !ok ==> forall i | from <= i < used :: Neighbours(Cells(), x, y, 4)[draws[i]] != Cell(EMPTY)
      ensures ok ==> Neighbours(old(Cells()), x, y, 4)[draws[used - 1]] == Cell(EMPTY)
      ensures ok ==> (tx, ty) == (x + K4Offsets[draws[used - 1]].0, y + K4Offsets[draws[used - 1]].1)
      ensures forall i | from <= i < used - (if ok then 1 else 0) ::
                Neighbours(old(Cells()), x, y, 4)[draws[i]] != Cell(EMPTY)
    {
      ghost var before := Cells();
      var neighbours := Neighbours(Cells(), x, y, 4);
      used, tx, ty := from, x, y;
      var tries := 0;
      // The source's `tries > MAX_TRIES` test, which raises, is the loop
      // guard here; the first draw naming an EMPTY slot ends the method.
      while tries <= MAX_TRIES
        invariant 0 <= tries <= MAX_TRIES + 1
        invariant used == from + tries
        invariant Cells() == before
        invariant forall i | from <= i < used :: neighbours[draws[i]] != Cell(EMPTY)
      {
        var i := draws[used];
        used := used + 1;
        var planted;
        planted, tx, ty := DrawTree(x, y, i, neighbours, before);
        tries := tries + 1;
        if planted {
          return true, used, tx, ty;
        }
      }
      ok := false;
    }

    /** One pass of the tree loop at the TENT (x, y): the tree goes on
        the neighbour that `slot` names when that neighbour is EMPTY, and
        otherwise the grid is left as it is. */
    method DrawTree(x: int, y: int, slot: int, neighbours: seq<Neighbour>, ghost before: Board)
      returns (planted: bool, ghost tx: int, ghost ty: int)
      requires Valid() && Cells() == before && OnBoard(dim, x, y) && 0 <= slot < 4
      requires neighbours == Neighbours(before, x, y, 4)
      modifies grid
      ensures planted == (neighbours[slot] == Cell(EMPTY))
      ensures (tx, ty) == (x + K4Offsets[slot].0, y + K4Offsets[slot].1)
      ensures planted ==> OnBoard(dim, tx, ty) && Orthogonal(x, y, tx, ty) && before[tx][ty] == EMPTY
      ensures Cells() == if planted then Write(before, tx, ty, TREE) else before
    {
      var nx, ny := x + K4Offsets[slot].0, y + K4Offsets[slot].1;
      tx, ty := nx, ny;
      planted := neighbours[slot] == Cell(EMPTY);
      if planted {
        // The source's four-way branch on the slot writes at its offset.
        SlotAround(4, slot, x, y);
        SetCell(nx, ny, TREE);
      }
    }

    /** The body of the scan at (x, y): a TENT gets its tree by
        `PlantTree`, any other cell is passed. */
    method VisitCell(x: int, y: int, draws: seq<int>, from: nat, ghost start: Board, ghost seen0: int,
                     ghost pairs0: map<(int, int), (int, int)>)
      returns (ok: bool, used: nat, ghost seen: int, ghost pairs: map<(int, int), (int, int)>)
      requires Valid() && OnBoard(dim, x, y) && Square(start) && |start| == dim
      requires forall i | 0 <= i < |draws| :: 0 <= draws[i] < 4
      requires |draws| >= (MAX_TRIES + 1) * Total(start, TENT)
      requires Scanned(start, Cells(), x, y, seen0, pairs0) && from <= (MAX_TRIES + 1) * seen0
      modifies grid
      ensures used <= |draws|
      ensures ok ==> Scanned(start, Cells(), x, y + 1, seen, pairs) && used <= (MAX_TRIES + 1) * seen
      ensures !ok ==> TreesAdded(start, Cells()) && (TreesBesideTents(start) ==> TreesBesideTents(Cells()))
      ensures !ok ==> Cells()[x][y] == TENT && TreeDrawsRejected(Cells(), x, y, draws[..used])
      ensures !ok ==> exists y' | 0 <= y' < dim && Cells()[x][y'] == TENT ::
                        TreeDrawsRejected(Cells(), x, y', draws[..used])
    {
      ghost var before := Cells();
      CountBeforeBound(start, TENT, x, y);
      ok, used, seen, pairs := true, from, seen0, pairs0;
      if grid[x, y] == TENT {
        assert start[x][y] == TENT;
        ghost var tx, ty;
        ok, used, tx, ty := PlantTree(x, y, draws, used);
        if !ok {
          RejectedTail(Cells(), x, y, draws, used);
          PairsBeside(start, before, x, y, pairs);
          return;
        }
        ScanPlant(start, before, x, y, seen, pairs, tx, ty);
        seen, pairs := seen + 1, pairs[(x, y) := (tx, ty)];
      } else {
        ScanSkip(start, before, x, y, seen, pairs);
      }
    }

    /** The inner loop of `PlaceTrees` over row x, left to right. */
    method PlantRow(x: int, draws: seq<int>, from: nat, ghost start: Board, ghost seen0: int,
                    ghost pairs0: map<(int, int), (int, int)>)
      returns (ok: bool, used: nat, ghost seen: int, ghost pairs: map<(int, int), (int, int)>)
      requires Valid() && 0 <= x < dim && Square(start) && |start| == dim
      requires forall i | 0 <= i < |draws| :: 0 <= draws[i] < 4
      requires |draws| >= (MAX_TRIES + 1) * Total(start, TENT)
      requires Scanned(start, Cells(), x, 0, seen0, pairs0) && from <= (MAX_TRIES + 1) * seen0
      modifies grid
      ensures used <= |draws|
      ensures TreesAdded(start, Cells())
      ensures TreesBesideTents(start) ==> TreesBesideTents(Cells())
      ensures ok ==> Scanned(start, Cells(), x, dim, seen, pairs) && used <= (MAX_TRIES + 1) * seen
      ensures !ok ==> exists y | 0 <= y < dim && Cells()[x][y] == TENT ::
                        TreeDrawsRejected(Cells(), x, y, draws[..used])
    {
      ok, used, seen, pairs := true, from, seen0, pairs0;
      CountBeforeBound(start, TENT, x, 0);
      for y := 0 to dim
        invariant Scanned(start, Cells(), x, y, seen, pairs)
        invariant used <= (MAX_TRIES + 1) * seen && used <= |draws|
      {
        ghost var seen', pairs';
        ok, used, seen', pairs' := VisitCell(x, y, draws, used, start, seen, pairs);
        if !ok {
          return;
        }
        seen, pairs := seen', pairs';
      }
      PairsBeside(start, Cells(), x, dim, pairs);
    }

    /** For every TENT, in row-major order, plants one tree beside it. On
        success `pairs` maps each tent to its own tree. */
    method PlaceTrees(draws: seq<int>) returns (ok: bool, used: nat, ghost pairs: map<(int, int), (int, int)>)
      requires Valid()
      requires forall i | 0 <= i < |draws| :: 0 <= draws[i] < 4
      requires |draws| >= (MAX_TRIES + 1) * Total(Cells(), TENT)
      modifies grid
      ensures used <= |draws|
      ensures TreesAdded(old(Cells()), Cells())
      ensures TreesBesideTents(old(Cells())) ==> TreesBesideTents(Cells())
      ensures ok ==> TentsBesideTrees(Cells())
      ensures ok ==> PairsBefore(old(Cells()), Cells(), dim, 0, pairs)
      ensures ok ==> Total(Cells(), TREE) == old(Total(Cells(), TREE)) + Total(Cells(), TENT)
      ensures !ok ==> exists x, y | OnBoard(dim, x, y) && Cells()[x][y] == TENT ::
                        TreeDrawsRejected(Cells(), x, y, draws[..used])
    {
      ghost var start := Cells();
      ghost var seen := 0;
      ok, used, pairs := true, 0, map[];
      if dim == 0 {
        TotalAbsent(start, TENT);
        TotalAbsent(start, TREE);
        return;
      }
      for x := 0 to dim
        invariant x < dim ==> Scanned(start, Cells(), x, 0, seen, pairs)
        invariant x == dim ==> TreesAdded(start, Cells())
        invariant x == dim ==> PairsBefore(start, Cells(), dim, 0, pairs)
        invariant x == dim ==> seen == Total(start, TENT)
        invariant x == dim ==> Total(Cells(), TREE) == Total(start, TREE) + seen
        invariant used <= (MAX_TRIES + 1) * seen
      {
        ok, used, seen, pairs := PlantRow(x, draws, used, start, seen, pairs);
        if !ok {
          return;
        }
        ScanRowEnd(start, Cells(), x, seen, pairs);
      }
      PairsBeside(start, Cells(), dim, 0, pairs);
      TotalSamePositions(start, Cells(), TENT);
    }

    /** Turns every TENT back into EMPTY. */
    method RemoveTents()
      requires Valid()
      modifies grid
      ensures Cells() == WithoutTents(old(Cells()))
    {
      ghost var start := Cells();
      ghost var target := WithoutTents(start);
      for x := 0 to dim
        invariant forall i, j | OnBoard(dim, i, j) ::
                    grid[i, j] == if i < x then target[i][j] else start[i][j]
      {
        for y := 0 to dim
          invariant forall i, j | OnBoard(dim, i, j) ::
                      grid[i, j] == if RowMajorBefore(i, j, x, y) then target[i][j] else start[i][j]
        {
          if grid[x, y] == TENT {
            grid[x, y] := EMPTY;
          }
        }
      }
      SameCells(Cells(), target);
    }

    /** A new all-EMPTY grid (`np.zeros`), as each attempt starts with. */
    method Reset()
      modifies this
      ensures Valid() && fresh(grid)
      ensures Cells() == Blank(dim)
      ensures rowConstraints == old(rowConstraints) && colConstraints == old(colConstraints)
    {
      grid := new int[dim, dim]((x, y) => EMPTY);
      SameCells(Cells(), Blank(dim));
    }

    /** Stores the tent counts of the current cells, per row and per
        column, as the published constraints. */
    method PublishConstraints()
      requires Valid()
      modifies this
      ensures grid == old(grid) && Valid() && Cells() == old(Cells())
      ensures (rowConstraints, colConstraints) == RowColConstraints(Cells())
    {
      var constraints := RowColConstraints(Cells());
      rowConstraints, colConstraints := constraints.0, constraints.1;
    }

    /** The first half of an attempt: a fresh EMPTY grid and the tents.
        It fails only when the last MAX_TRIES + 1 tent draws read were all
        rejected. */
    method GenerateTents(nbTents: int, tentDraws: seq<(int, int)>) returns (ok: bool, used: nat)
      requires forall i | 0 <= i < |tentDraws| :: OnBoard(dim, tentDraws[i].0, tentDraws[i].1)
      requires |tentDraws| >= (MAX_TRIES + 1) * Max0(nbTents)
      modifies this
      ensures Valid() && fresh(grid)
      ensures rowConstraints == old(rowConstraints) && colConstraints == old(colConstraints)
      ensures TentsAdded(Blank(dim), Cells())
      ensures ok <==> Total(Cells(), TENT) == Max0(nbTents)
      ensures ok ==> TentsReady(Cells(), Max0(nbTents))
      ensures !ok ==> Total(Cells(), TENT) < Max0(nbTents)
      ensures !ok ==> MAX_TRIES + 1 <= used <= |tentDraws|
      ensures !ok ==> forall i | used - (MAX_TRIES + 1) <= i < used ::
                        !CanPlaceTent(Cells(), tentDraws[i].0, tentDraws[i].1)
    {
      Reset();
      ok, used := PlaceTents(nbTents, tentDraws);
      TotalAbsent(Blank(dim), TENT);
      if ok {
        TentPhase(Cells(), Max0(nbTents));
      }
    }

    /** The second half of an attempt: the published counts, the trees and
        the tents erased. On success `solution` is the hidden board before
        the erasure. It fails only when some TENT's last MAX_TRIES + 1 tree
        draws all named a slot that is not an EMPTY cell; the tents are then
        still on the grid. */
    method FinishPuzzle(ghost n: nat, treeDraws: seq<int>) returns (ok: bool, used: nat, ghost solution: Board)
      requires Valid() && TentsReady(Cells(), n)
      requires forall i | 0 <= i < |treeDraws| :: 0 <= treeDraws[i] < 4
      requires |treeDraws| >= (MAX_TRIES + 1) * n
      modifies this, grid
      ensures Valid() && grid == old(grid)
      ensures (rowConstraints, colConstraints) == RowColConstraints(old(Cells()))
      ensures ok ==> Generated(Cells(), solution, rowConstraints, colConstraints, n)
      ensures !ok ==> used <= |treeDraws| && Total(Cells(), TENT) == n
      ensures !ok ==> exists x, y | OnBoard(dim, x, y) && Cells()[x][y] == TENT ::
                        TreeDrawsRejected(Cells(), x, y, treeDraws[..used])
    {
      ghost var tents := Cells();
      PublishConstraints();
      ghost var pairs;
      ok, used, pairs := PlaceTrees(treeDraws);
      solution := Cells();
      if ok {
        PlantedPuzzle(tents, solution, n, pairs);
        RemoveTents();
      } else {
        TotalSamePositions(tents, Cells(), TENT);
      }
    }

    /** One pass of the generation loop's body: a fresh EMPTY grid, the
        tents, the published counts, the trees, and the tents erased. On
        success `solution` is the hidden board before the erasure. On
        failure either the tent budget ran out, fewer than nbTents tents
        being placed, or all nbTents tents were placed and some tent's tree
        budget ran out. */
    method TryGenerate(nbTents: int, tentDraws: seq<(int, int)>, treeDraws: seq<int>)
      returns (ok: bool, tentsUsed: nat, treesUsed: nat, ghost solution: Board)
      requires forall i | 0 <= i < |tentDraws| :: OnBoard(dim, tentDraws[i].0, tentDraws[i].1)
      requires |tentDraws| >= (MAX_TRIES + 1) * Max0(nbTents)
      requires forall i | 0 <= i < |treeDraws| :: 0 <= treeDraws[i] < 4
      requires |treeDraws| >= (MAX_TRIES + 1) * Max0(nbTents)
      modifies this
      ensures Valid()
      ensures ok ==> Generated(Cells(), solution, rowConstraints, colConstraints, Max0(nbTents))
      ensures !ok ==> TentBudgetSpent(Cells(), Max0(nbTents), tentDraws, tentsUsed)
                      || TreeBudgetSpent(Cells(), Max0(nbTents), treeDraws, treesUsed)
    {
      ok, tentsUsed := GenerateTents(nbTents, tentDraws);
      treesUsed := 0;
      solution := Cells();
      if ok {
        ok, treesUsed, solution := FinishPuzzle(Max0(nbTents), treeDraws);
        if !ok {
          assert TreeBudgetSpent(Cells(), Max0(nbTents), treeDraws, treesUsed);
        }
      } else {
        assert TentBudgetSpent(Cells(), Max0(nbTents), tentDraws, tentsUsed);
      }
    }
  }
}
