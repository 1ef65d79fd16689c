/** Cell states, the square board as a value, and the 4- and 8-neighbourhood
    queries of the Tents and Trees board, in the fixed positional order the
    generator and the solver rely on. */
module Geometry {

  const EMPTY: int := 0
  const GRASS: int := 1
  const TENT: int := 2
  const TREE: int := 3

  /** Number of extra random draws allowed for one placement. */
  const MAX_TRIES: int := 10

  /** A board as a value: row x, column y is b[x][y]. */
  type Board = seq<seq<int>>

  predicate Square(b: Board) {
    forall x | 0 <= x < |b| :: |b[x]| == |b|
  }

  predicate OnBoard(n: int, x: int, y: int) {
    0 <= x < n && 0 <= y < n
  }

  /** One slot of a neighbour list: a position off the board, or the value
      of an on-board cell. */
  datatype Neighbour = OffBoard | Cell(value: int)

  /** Slot offsets for k = 4: N, E, S, W. */
  const K4Offsets: seq<(int, int)> := [(-1, 0), (0, 1), (1, 0), (0, -1)]

  /** Slot offsets for k = 8: NW, N, NE, E, SE, S, SW, W. */
  const K8Offsets: seq<(int, int)> :=
    [(-1, -1), (-1, 0), (-1, 1), (0, 1), (1, 1), (1, 0), (1, -1), (0, -1)]

  /** Any k other than 4 selects the 8-neighbourhood. */
  function Offsets(k: int): seq<(int, int)> {
    if k == 4 then K4Offsets else K8Offsets
  }

  /** Reference reading of one position: the cell when it lies on the board,
      the off-board marker otherwise. */
  function At(b: Board, x: int, y: int): Neighbour
    requires Square(b)
  {
    if OnBoard(|b|, x, y) then Cell(b[x][y]) else OffBoard
  }

  /** The neighbour list of (x, y), built by the same one-sided bounds tests
      as the source. Slot d holds the position (x, y) + Offsets(k)[d]. */
  function Neighbours(b: Board, x: int, y: int, k: int): (r: seq<Neighbour>)
    requires Square(b) && OnBoard(|b|, x, y)
    ensures |r| == |Offsets(k)|
    ensures forall d | 0 <= d < |r| ::
              r[d] == At(b, x + Offsets(k)[d].0, y + Offsets(k)[d].1)
  {
    var n := |b|;
    if k == 4 then
      [ if x - 1 < 0 then OffBoard else Cell(b[x - 1][y]),
        if y + 1 >= n then OffBoard else Cell(b[x][y + 1]),
        if x + 1 >= n then OffBoard else Cell(b[x + 1][y]),
        if y - 1 < 0 then OffBoard else Cell(b[x][y - 1]) ]
    else
      [ if x - 1 < 0 || y - 1 < 0 then OffBoard else Cell(b[x - 1][y - 1]),
        if x - 1 < 0 then OffBoard else Cell(b[x - 1][y]),
        if x - 1 < 0 || y + 1 >= n then OffBoard else Cell(b[x - 1][y + 1]),
        if y + 1 >= n then OffBoard else Cell(b[x][y + 1]),
        if x + 1 >= n || y + 1 >= n then OffBoard else Cell(b[x + 1][y + 1]),
        if x + 1 >= n then OffBoard else Cell(b[x + 1][y]),
        if x + 1 >= n || y - 1 < 0 then OffBoard else Cell(b[x + 1][y - 1]),
        if y - 1 < 0 then OffBoard else Cell(b[x][y - 1]) ]
  }

  /** (i, j) is one of the four orthogonal neighbours of (x, y). */
  predicate Orthogonal(x: int, y: int, i: int, j: int) {
    (i == x && (j == y - 1 || j == y + 1)) || (j == y && (i == x - 1 || i == x + 1))
  }

  /** (i, j) is one of the eight surrounding cells of (x, y). */
  predicate Adjacent8(x: int, y: int, i: int, j: int) {
    (i, j) != (x, y) && -1 <= i - x <= 1 && -1 <= j - y <= 1
  }

  /** The position (i, j) belongs to the k-neighbourhood of (x, y). */
  predicate Around(k: int, x: int, y: int, i: int, j: int) {
    if k == 4 then Orthogonal(x, y, i, j) else Adjacent8(x, y, i, j)
  }

  /** Slot of the offset (dx, dy) in Offsets(k). */
  function SlotOf(k: int, dx: int, dy: int): (d: nat)
    requires Around(k, 0, 0, dx, dy)
    ensures d < |Offsets(k)| && Offsets(k)[d] == (dx, dy)
  {
    if k == 4 then
      if dx == -1 then 0 else if dy == 1 then 1 else if dx == 1 then 2 else 3
    else if dx == -1 then (if dy == -1 then 0 else if dy == 0 then 1 else 2)
    else if dx == 0 then (if dy == 1 then 3 else 7)
    else (if dy == 1 then 4 else if dy == 0 then 5 else 6)
  }

  /** Slot d of the k-neighbourhood names a position around (x, y). */
  lemma SlotAround(k: int, d: int, x: int, y: int)
    requires 0 <= d < |Offsets(k)|
    ensures Around(k, x, y, x + Offsets(k)[d].0, y + Offsets(k)[d].1)
  {
  }

  /** A value occurs in the neighbour list exactly when some on-board cell of
      the k-neighbourhood holds it; off-board slots never match a value. */
  lemma NeighboursHold(b: Board, x: int, y: int, k: int, v: int)
    requires Square(b) && OnBoard(|b|, x, y)
    ensures Cell(v) in Neighbours(b, x, y, k) <==>
            exists i, j | OnBoard(|b|, i, j) && Around(k, x, y, i, j) :: b[i][j] == v
  {
    if Cell(v) in Neighbours(b, x, y, k) {
      SlotHolds(b, x, y, k, v);
    }
    if exists i, j | OnBoard(|b|, i, j) && Around(k, x, y, i, j) :: b[i][j] == v {
      var i, j :| OnBoard(|b|, i, j) && Around(k, x, y, i, j) && b[i][j] == v;
      CellInSlot(b, x, y, k, i, j);
    }
  }

  /** A slot holding Cell(v) names a surrounding position holding v. */
  lemma SlotHolds(b: Board, x: int, y: int, k: int, v: int)
    requires Square(b) && OnBoard(|b|, x, y) && Cell(v) in Neighbours(b, x, y, k)
    ensures exists i, j | OnBoard(|b|, i, j) && Around(k, x, y, i, j) :: b[i][j] == v
  {
    var r := Neighbours(b, x, y, k);
    var d :| 0 <= d < |r| && r[d] == Cell(v);
    var i, j := x + Offsets(k)[d].0, y + Offsets(k)[d].1;
    SlotAround(k, d, x, y);
    assert OnBoard(|b|, i, j) && b[i][j] == v;
  }

  /** A surrounding position on the board appears in its slot. */
  lemma CellInSlot(b: Board, x: int, y: int, k: int, i: int, j: int)
    requires Square(b) && OnBoard(|b|, x, y) && OnBoard(|b|, i, j) && Around(k, x, y, i, j)
    ensures Cell(b[i][j]) in Neighbours(b, x, y, k)
  {
    var d := SlotOf(k, i - x, j - y);
    assert Neighbours(b, x, y, k)[d] == Cell(b[i][j]);
  }

  /** Python truthiness of a slot: None and 0 are false. */
  predicate Truthy(e: Neighbour) {
    e.Cell? && e.value != 0
  }

  /** The comprehension that keeps the truthy slots, in order. */
  function KeepTruthy(s: seq<Neighbour>): (r: seq<Neighbour>)
    ensures |r| <= |s|
    ensures forall e | e in r :: Truthy(e)
  {
    if s == [] then []
    else
      assert s == [s[0]] + s[1..];
      (if Truthy(s[0]) then [s[0]] else []) + KeepTruthy(s[1..])
  }

  /** The comprehension keeps every truthy slot as often as the list holds
      it. */
  lemma {:induction false} KeepTruthyCounts(s: seq<Neighbour>)
    ensures forall e | Truthy(e) :: multiset(KeepTruthy(s))[e] == multiset(s)[e]
  {
    if s != [] {
      assert s == [s[0]] + s[1..];
      KeepTruthyCounts(s[1..]);
    }
  }

  /** The comprehension keeps the order of the list: filtering a
      concatenation filters each part and concatenates the results, and a
      single slot is kept exactly when it is truthy. */
  lemma {:induction false} KeepTruthyAppend(s: seq<Neighbour>, t: seq<Neighbour>)
    ensures KeepTruthy(s + t) == KeepTruthy(s) + KeepTruthy(t)
    ensures |s| == 1 ==> KeepTruthy(s) == (if Truthy(s[0]) then s else [])
  {
    if s == [] {
      assert s + t == t;
    } else {
      var head := if Truthy(s[0]) then [s[0]] else [];
      assert (s + t)[0] == s[0] && (s + t)[1..] == s[1..] + t;
      assert KeepTruthy(s + t) == head + KeepTruthy(s[1..] + t);
      KeepTruthyAppend(s[1..], t);
      assert KeepTruthy(s) == head + KeepTruthy(s[1..]);
    }
  }

  /** Module-level neighbour query of the packaged version: the neighbour
      list, optionally stripped of off-board slots and of EMPTY cells. */
  function GetNeighbours(b: Board, x: int, y: int, filterNone: bool, k: int): (r: seq<Neighbour>)
    requires Square(b) && OnBoard(|b|, x, y)
    ensures !filterNone ==> r == Neighbours(b, x, y, k)
    ensures filterNone ==> forall e | e in r :: e.Cell? && e.value != EMPTY
    ensures filterNone ==> forall v | v != EMPTY ::
              multiset(r)[Cell(v)] == multiset(Neighbours(b, x, y, k))[Cell(v)]
  {
    var all := Neighbours(b, x, y, k);
    if filterNone then KeepTruthyCounts(all); KeepTruthy(all) else all
  }

  /** Index of the first slot equal to e (Python's list.index). */
  function IndexOf(s: seq<Neighbour>, e: Neighbour): (d: nat)
    requires e in s
    ensures d < |s| && s[d] == e
    ensures forall i | 0 <= i < d :: s[i] != e
  {
    if s[0] == e then 0 else 1 + IndexOf(s[1..], e)
  }

  /** The board with cell (x, y) set to v. */
  function Write(b: Board, x: int, y: int, v: int): (r: Board)
    requires Square(b) && OnBoard(|b|, x, y)
    ensures Square(r) && |r| == |b|
    ensures r[x][y] == v
    ensures forall i, j | OnBoard(|b|, i, j) && (i, j) != (x, y) :: r[i][j] == b[i][j]
  {
    b[x := b[x][y := v]]
  }

  /** Two boards of the same shape with the same cells are equal. */
  lemma SameCells(b1: Board, b2: Board)
    requires Square(b1) && Square(b2) && |b1| == |b2|
    requires forall i, j | OnBoard(|b1|, i, j) :: b1[i][j] == b2[i][j]
    ensures b1 == b2
  {
    forall i | 0 <= i < |b1| ensures b1[i] == b2[i] {
      assert forall j | 0 <= j < |b1| :: b1[i][j] == b2[i][j];
    }
  }

  /** Every position of an n-by-n board. */
  function Positions(n: nat): (s: set<(int, int)>)
    ensures forall p :: p in s <==> OnBoard(n, p.0, p.1)
    ensures |s| == n * n
  {
    GridPositionsCount(n, n);
    GridPositions(n, n)
  }

  /** The positions visited by the double loop over rows 0..rows-1 and
      columns 0..m-1. */
  function GridPositions(rows: int, m: int): set<(int, int)> {
    set x, y | 0 <= x < rows && 0 <= y < m :: (x, y)
  }

  /** The positions (x, 0) .. (x, m - 1) of one row. */
  function RowPositions(x: int, m: int): set<(int, int)> {
    set y | 0 <= y < m :: (x, y)
  }

  lemma {:induction false} RowPositionsCount(x: int, m: nat)
    ensures |RowPositions(x, m)| == m
  {
    if m > 0 {
      assert RowPositions(x, m) == RowPositions(x, m - 1) + {(x, m - 1)};
      RowPositionsCount(x, m - 1);
    }
  }

  lemma {:induction false} GridPositionsCount(rows: nat, m: nat)
    ensures |GridPositions(rows, m)| == rows * m
  {
    if rows > 0 {
      PositionsLastRow(rows, m);
      GridPositionsCount(rows - 1, m);
      RowPositionsCount(rows - 1, m);
      ProductStep(rows, m);
    } else {
      assert forall p | p in GridPositions(rows, m) :: false;
      assert GridPositions(rows, m) == {};
    }
  }

  lemma ProductStep(rows: int, m: int)
    ensures rows * m == (rows - 1) * m + m
  {
  }

  /** The positions of rows 0..rows-1 are those of rows 0..rows-2 and those
      of row rows-1, apart, so they add up. */
  lemma PositionsLastRow(rows: nat, m: nat)
    requires rows > 0
    ensures |GridPositions(rows, m)| == |GridPositions(rows - 1, m)| + |RowPositions(rows - 1, m)|
  {
    var s := GridPositions(rows, m);
    var s' := GridPositions(rows - 1, m);
    var row := RowPositions(rows - 1, m);
    forall p | p in s ensures p in s' + row {
      if p.0 < rows - 1 { assert p in s'; } else { assert p in row; }
    }
    assert s == s' + row;
    assert s' !! row;
  }

  /** The adjacency table of a finished board: every position maps to its
      8-neighbour list. */
  function BuildGraph(b: Board): (g: map<(int, int), seq<Neighbour>>)
    requires Square(b)
    ensures |g| == |b| * |b|
    ensures forall p :: p in g <==> OnBoard(|b|, p.0, p.1)
    ensures forall p | p in g :: g[p] == Neighbours(b, p.0, p.1, 8)
  {
    var ps := Positions(|b|);
    var g := map p | p in ps :: Neighbours(b, p.0, p.1, 8);
    assert g.Keys == ps;
    g
  }

  /** Each entry of the graph lists the 8 surrounding positions, NW to W,
      with the off-board marker for those outside the board. */
  lemma GraphSlots(b: Board, x: int, y: int, d: int)
    requires Square(b) && OnBoard(|b|, x, y) && 0 <= d < 8
    ensures (x, y) in BuildGraph(b) && |BuildGraph(b)[(x, y)]| == 8
    ensures BuildGraph(b)[(x, y)][d] == At(b, x + K8Offsets[d].0, y + K8Offsets[d].1)
  {
    var r := Neighbours(b, x, y, 8);
    assert Offsets(8) == K8Offsets;
    assert r[d] == At(b, x + K8Offsets[d].0, y + K8Offsets[d].1);
  }

  /** The row x of a board array. */
  function RowOf(a: array2<int>, x: int): (r: seq<int>)
    requires 0 <= x < a.Length0
    reads a
    ensures |r| == a.Length1
    ensures forall y | 0 <= y < a.Length1 :: r[y] == a[x, y]
  {
    seq(a.Length1, y requires 0 <= y < a.Length1 reads a => a[x, y])
  }

  /** The column y of a board array (a row of its transpose). */
  function ColOf(a: array2<int>, y: int): (r: seq<int>)
    requires 0 <= y < a.Length1
    reads a
    ensures |r| == a.Length0
    ensures forall x | 0 <= x < a.Length0 :: r[x] == a[x, y]
  {
    seq(a.Length0, x requires 0 <= x < a.Length0 reads a => a[x, y])
  }

  /** The value of a board array: a copy of its cells. */
  function Snapshot(a: array2<int>): (b: Board)
    reads a
    ensures |b| == a.Length0
    ensures forall x | 0 <= x < a.Length0 :: |b[x]| == a.Length1 && b[x] == RowOf(a, x)
    ensures forall x, y | 0 <= x < a.Length0 && 0 <= y < a.Length1 :: b[x][y] == a[x, y]
    ensures a.Length0 == a.Length1 ==> Square(b)
  {
    seq(a.Length0, x requires 0 <= x < a.Length0 reads a => RowOf(a, x))
  }

  /** The column y of a board value. */
  function Column(b: Board, y: int): (c: seq<int>)
    requires 0 <= y
    requires forall x | 0 <= x < |b| :: y < |b[x]|
    ensures |c| == |b|
    ensures forall x | 0 <= x < |b| :: c[x] == b[x][y]
  {
    seq(|b|, x requires 0 <= x < |b| => b[x][y])
  }
}
