/** Counting cells of one state per row, per column and over the board, and
    the row and column constraints the generator publishes. */
module Counting {
  import opened Geometry

  /** Number of entries of s equal to v (the source's `np.sum([1 for ...])`). */
  function Count(s: seq<int>, v: int): (c: nat)
    ensures c <= |s|
  {
    if s == [] then 0 else Count(s[..|s| - 1], v) + (if s[|s| - 1] == v then 1 else 0)
  }

  /** Count agrees with the multiplicity of v in s. */
  lemma {:induction false} CountIsMultiplicity(s: seq<int>, v: int)
    ensures Count(s, v) == multiset(s)[v]
  {
    if s != [] {
      var p := s[..|s| - 1];
      assert s == p + [s[|s| - 1]];
      CountIsMultiplicity(p, v);
    }
  }

  lemma {:induction false} CountPrefix(s: seq<int>, j: int, v: int)
    requires 0 <= j < |s|
    ensures Count(s[..j + 1], v) == Count(s[..j], v) + (if s[j] == v then 1 else 0)
  {
    assert s[..j + 1][..j] == s[..j];
  }

  /** Counting only sees which positions hold v. */
  lemma {:induction false} CountSamePositions(s: seq<int>, t: seq<int>, v: int)
    requires |s| == |t|
    requires forall j | 0 <= j < |s| :: (s[j] == v) == (t[j] == v)
    ensures Count(s, v) == Count(t, v)
  {
    if s != [] {
      CountSamePositions(s[..|s| - 1], t[..|t| - 1], v);
    }
  }

  lemma {:induction false} CountUpdate(s: seq<int>, j: int, w: int, v: int)
    requires 0 <= j < |s|
    ensures Count(s[j := w], v) ==
            Count(s, v) - (if s[j] == v then 1 else 0) + (if w == v then 1 else 0)
  {
    CountIsMultiplicity(s, v);
    CountIsMultiplicity(s[j := w], v);
  }

  /** A count over a prefix never exceeds the count over the whole. */
  lemma {:induction false} CountPrefixBound(s: seq<int>, j: int, v: int)
    requires 0 <= j <= |s|
    ensures Count(s[..j], v) <= Count(s, v)
  {
    if j < |s| {
      CountPrefixBound(s[..|s| - 1], j, v);
      assert s[..|s| - 1][..j] == s[..j];
    } else {
      assert s[..j] == s;
    }
  }

  function Sum(s: seq<int>): int {
    if s == [] then 0 else Sum(s[..|s| - 1]) + s[|s| - 1]
  }

  /** Number of cells equal to v over the whole board. */
  function Total(b: Board, v: int): (t: nat) {
    if b == [] then 0 else Total(b[..|b| - 1], v) + Count(b[|b| - 1], v)
  }

  /** Number of cells equal to v in the rows 0 .. x - 1 and in row x before
      column y: what a row-major scan has seen before reaching (x, y). */
  function CountBefore(b: Board, v: int, x: int, y: int): nat
    requires 0 <= x < |b| && 0 <= y <= |b[x]|
  {
    Total(b[..x], v) + Count(b[x][..y], v)
  }

  lemma {:induction false} TotalPrefix(b: Board, x: int, v: int)
    requires 0 <= x < |b|
    ensures Total(b[..x + 1], v) == Total(b[..x], v) + Count(b[x], v)
  {
    assert b[..x + 1][..x] == b[..x];
  }

  lemma {:induction false} TotalPrefixBound(b: Board, x: int, v: int)
    requires 0 <= x <= |b|
    ensures Total(b[..x], v) <= Total(b, v)
  {
    if x < |b| {
      TotalPrefixBound(b[..|b| - 1], x, v);
      assert b[..|b| - 1][..x] == b[..x];
    } else {
      assert b[..x] == b;
    }
  }

  /** A cell equal to v at (x, y) is counted neither before (x, y) nor beyond
      the total. */
  lemma CountBeforeBound(b: Board, v: int, x: int, y: int)
    requires Square(b) && OnBoard(|b|, x, y)
    ensures CountBefore(b, v, x, y) + (if b[x][y] == v then 1 else 0) <= Total(b, v)
  {
    CountPrefix(b[x], y, v);
    CountPrefixBound(b[x], y + 1, v);
    TotalPrefix(b, x, v);
    TotalPrefixBound(b, x + 1, v);
  }

  /** Row-major progress: moving one cell on within row x. */
  lemma CountBeforeStep(b: Board, v: int, x: int, y: int)
    requires Square(b) && OnBoard(|b|, x, y)
    ensures CountBefore(b, v, x, y + 1) == CountBefore(b, v, x, y) + (if b[x][y] == v then 1 else 0)
  {
    CountPrefix(b[x], y, v);
  }

  /** Row-major progress: the end of row x is the start of row x + 1, and
      the end of the last row has seen the whole board. */
  lemma CountBeforeRowEnd(b: Board, v: int, x: int)
    requires Square(b) && 0 <= x < |b|
    ensures x + 1 < |b| ==> CountBefore(b, v, x + 1, 0) == CountBefore(b, v, x, |b|)
    ensures x + 1 == |b| ==> Total(b, v) == CountBefore(b, v, x, |b|)
  {
    TotalPrefix(b, x, v);
    assert b[x][..|b|] == b[x];
    if x + 1 < |b| {
      assert b[x + 1][..0] == [];
    } else {
      assert b[..x + 1] == b;
    }
  }

  /** No cell holds v: the total is zero. */
  lemma {:induction false} TotalAbsent(b: Board, v: int)
    requires forall x, y | 0 <= x < |b| && 0 <= y < |b[x]| :: b[x][y] != v
    ensures Total(b, v) == 0
  {
    if b != [] {
      var last := b[|b| - 1];
      CountIsMultiplicity(last, v);
      assert v !in multiset(last);
      TotalAbsent(b[..|b| - 1], v);
    }
  }

  lemma {:induction false} TotalSamePositions(b1: Board, b2: Board, v: int)
    requires Square(b1) && Square(b2) && |b1| == |b2|
    requires forall i, j | OnBoard(|b1|, i, j) :: (b1[i][j] == v) == (b2[i][j] == v)
    ensures Total(b1, v) == Total(b2, v)
  {
    if b1 != [] {
      var n := |b1|;
      CountSamePositions(b1[n - 1], b2[n - 1], v);
      TotalRowsSamePositions(b1[..n - 1], b2[..n - 1], n, v);
    }
  }

  lemma {:induction false} TotalRowsSamePositions(b1: Board, b2: Board, w: nat, v: int)
    requires |b1| == |b2|
    requires forall i | 0 <= i < |b1| :: |b1[i]| == w && |b2[i]| == w
    requires forall i, j | 0 <= i < |b1| && 0 <= j < w :: (b1[i][j] == v) == (b2[i][j] == v)
    ensures Total(b1, v) == Total(b2, v)
  {
    if b1 != [] {
      var n := |b1|;
      CountSamePositions(b1[n - 1], b2[n - 1], v);
      TotalRowsSamePositions(b1[..n - 1], b2[..n - 1], w, v);
    }
  }

  /** Setting one cell changes the board total of v by at most one, in the
      direction the old and new values say. */
  lemma {:induction false} TotalWrite(b: Board, x: int, y: int, w: int, v: int)
    requires Square(b) && OnBoard(|b|, x, y)
    ensures Total(Write(b, x, y, w), v) ==
            Total(b, v) - (if b[x][y] == v then 1 else 0) + (if w == v then 1 else 0)
  {
    TotalRowWrite(b, x, b[x][y := w], v);
    CountUpdate(b[x], y, w, v);
  }

  lemma {:induction false} TotalRowWrite(b: Board, x: int, row: seq<int>, v: int)
    requires 0 <= x < |b|
    ensures Total(b[x := row], v) == Total(b, v) - Count(b[x], v) + Count(row, v)
  {
    var n := |b|;
    if x == n - 1 {
      assert b[x := row][..n - 1] == b[..n - 1];
    } else {
      TotalRowWrite(b[..n - 1], x, row, v);
      assert b[x := row][..n - 1] == b[..n - 1][x := row];
    }
  }

  /** A square board has at most |b| * |b| cells of any state. */
  lemma {:induction false} TotalBound(b: Board, w: nat, v: int)
    requires forall i | 0 <= i < |b| :: |b[i]| == w
    ensures Total(b, v) <= |b| * w
  {
    if b != [] {
      TotalBound(b[..|b| - 1], w, v);
      assert (|b| - 1) * w + w == |b| * w;
    }
  }

  /** The 0/1 indicator of v at each position of s. */
  function Indicators(s: seq<int>, v: int): (r: seq<int>)
    ensures |r| == |s|
  {
    seq(|s|, j requires 0 <= j < |s| => if s[j] == v then 1 else 0)
  }

  lemma {:induction false} SumIndicators(s: seq<int>, v: int)
    ensures Sum(Indicators(s, v)) == Count(s, v)
  {
    if s != [] {
      var p := s[..|s| - 1];
      assert Indicators(s, v)[..|s| - 1] == Indicators(p, v);
      SumIndicators(p, v);
    }
  }

  lemma {:induction false} SumPointwise(s: seq<int>, t: seq<int>, u: seq<int>)
    requires |s| == |t| == |u|
    requires forall i | 0 <= i < |u| :: u[i] == s[i] + t[i]
    ensures Sum(u) == Sum(s) + Sum(t)
  {
    if u != [] {
      var n := |u|;
      SumPointwise(s[..n - 1], t[..n - 1], u[..n - 1]);
    }
  }

  lemma {:induction false} SumZeros(s: seq<int>)
    requires forall i | 0 <= i < |s| :: s[i] == 0
    ensures Sum(s) == 0
  {
    if s != [] {
      SumZeros(s[..|s| - 1]);
    }
  }

  /** Count of v in each of the w columns of a board whose rows have width w. */
  function ColumnCounts(b: Board, w: nat, v: int): (r: seq<int>)
    requires forall x | 0 <= x < |b| :: |b[x]| == w
    ensures |r| == w
    ensures forall y | 0 <= y < w :: r[y] == Count(Column(b, y), v)
  {
    seq(w, y requires 0 <= y < w => Count(Column(b, y), v))
  }

  /** Count of v in each row. */
  function RowCountsOf(b: Board, v: int): (r: seq<int>)
    ensures |r| == |b|
    ensures forall x | 0 <= x < |b| :: r[x] == Count(b[x], v)
  {
    seq(|b|, x requires 0 <= x < |b| => Count(b[x], v))
  }

  lemma {:induction false} SumRowCounts(b: Board, v: int)
    ensures Sum(RowCountsOf(b, v)) == Total(b, v)
  {
    if b != [] {
      var p := b[..|b| - 1];
      assert RowCountsOf(b, v)[..|b| - 1] == RowCountsOf(p, v);
      SumRowCounts(p, v);
    }
  }

  /** Adding up the column counts counts every cell once, as adding up the
      row counts does. */
  lemma {:induction false} SumColumnCounts(b: Board, w: nat, v: int)
    requires forall x | 0 <= x < |b| :: |b[x]| == w
    ensures Sum(ColumnCounts(b, w, v)) == Total(b, v)
  {
    if b == [] {
      SumZeros(ColumnCounts(b, w, v));
    } else {
      var n := |b|;
      var p := b[..n - 1];
      var last := b[n - 1];
      forall y | 0 <= y < w
        ensures ColumnCounts(b, w, v)[y] == ColumnCounts(p, w, v)[y] + Indicators(last, v)[y]
      {
        assert Column(b, y)[..n - 1] == Column(p, y);
      }
      SumPointwise(ColumnCounts(p, w, v), Indicators(last, v), ColumnCounts(b, w, v));
      SumColumnCounts(p, w, v);
      SumIndicators(last, v);
    }
  }

  /** The row and column constraints of a board: the number of TENT cells in
      each row and in each column. */
  function RowColConstraints(b: Board): (r: (seq<int>, seq<int>))
    requires Square(b)
    ensures |r.0| == |b| && |r.1| == |b|
    ensures forall x | 0 <= x < |b| :: r.0[x] == multiset(b[x])[TENT]
    ensures forall y | 0 <= y < |b| :: r.1[y] == multiset(Column(b, y))[TENT]
    ensures Sum(r.0) == Total(b, TENT) && Sum(r.1) == Total(b, TENT)
  {
    var rows := RowCountsOf(b, TENT);
    var cols := ColumnCounts(b, |b|, TENT);
    SumRowCounts(b, TENT);
    SumColumnCounts(b, |b|, TENT);
    forall x | 0 <= x < |b| ensures rows[x] == multiset(b[x])[TENT] {
      CountIsMultiplicity(b[x], TENT);
    }
    forall y | 0 <= y < |b| ensures cols[y] == multiset(Column(b, y))[TENT] {
      CountIsMultiplicity(Column(b, y), TENT);
    }
    (rows, cols)
  }

  /** Boards with the same TENT positions publish the same constraints. */
  lemma SameTentsSameConstraints(b1: Board, b2: Board)
    requires Square(b1) && Square(b2) && |b1| == |b2|
    requires forall i, j | OnBoard(|b1|, i, j) :: (b1[i][j] == TENT) == (b2[i][j] == TENT)
    ensures RowColConstraints(b1) == RowColConstraints(b2)
  {
    var n := |b1|;
    forall x | 0 <= x < n ensures Count(b1[x], TENT) == Count(b2[x], TENT) {
      CountSamePositions(b1[x], b2[x], TENT);
    }
    forall y | 0 <= y < n ensures Count(Column(b1, y), TENT) == Count(Column(b2, y), TENT) {
      CountSamePositions(Column(b1, y), Column(b2, y), TENT);
    }
    assert RowCountsOf(b1, TENT) == RowCountsOf(b2, TENT);
    assert ColumnCounts(b1, n, TENT) == ColumnCounts(b2, n, TENT);
  }
}
