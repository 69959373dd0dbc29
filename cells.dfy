/** The cell encoding, coordinates, the neighbour order and the value-level view of
    a grid shared by every search algorithm. */
module Cells {

  // Cell values: the numeric encoding every algorithm and the board agree on.
  const WALL := -1
  const START := 0
  const UNVISITED := 1000
  const DISCOVERED := 1001
  const TARGET := 4000

  datatype Option<T> = None | Some(value: T)

  /** A grid coordinate (row, column). */
  datatype Pos = Pos(row: int, col: int)

  /** A depth-first frontier entry: a coordinate and the distance to write when it is popped. */
  datatype Entry = Entry(at: Pos, dist: int)

  /** What one step returns: the consumed coordinate, the new frontier and whether
      the target was reached. */
  datatype Outcome<E> = Outcome(current: Pos, next: seq<E>, done: bool)

  /** The neighbour order: right, left, up, down. */
  const DIRS: seq<(int, int)> := [(0, 1), (0, -1), (-1, 0), (1, 0)]

  /** The neighbour of `p` in direction `m`. */
  function Step(p: Pos, m: nat): Pos
    requires m < |DIRS|
  {
    Pos(p.row + DIRS[m].0, p.col + DIRS[m].1)
  }

  /** The direction that leads back from `Step(p, m)` to `p`. */
  function Back(m: nat): nat
    requires m < |DIRS|
  {
    if m % 2 == 0 then m + 1 else m - 1
  }

  predicate Adjacent(p: Pos, q: Pos) {
    (p.row == q.row && (p.col - q.col == 1 || q.col - p.col == 1)) ||
    (p.col == q.col && (p.row - q.row == 1 || q.row - p.row == 1))
  }

  /** The four directions are distinct orthogonal unit offsets, and `Back` undoes each. */
  lemma StepFacts(p: Pos, m: nat)
    requires m < |DIRS|
    ensures Adjacent(p, Step(p, m)) && Step(p, m) != p
    ensures Back(m) < |DIRS| && Step(Step(p, m), Back(m)) == p
    ensures forall n | 0 <= n < |DIRS| && n != m :: Step(p, n) != Step(p, m)
  {
    if m == 0 {
    } else if m == 1 {
    } else if m == 2 {
    } else {
    }
  }

  // ---------------------------------------------------------------------------
  // Value-level grids

  type Grid = seq<seq<int>>

  /** `cells` has `rows` rows of `cols` columns each. */
  predicate Shaped(cells: Grid, rows: int, cols: int) {
    |cells| == rows && forall i | 0 <= i < |cells| :: |cells[i]| == cols
  }

  predicate Holds(cells: Grid, p: Pos) {
    0 <= p.row < |cells| && 0 <= p.col < |cells[p.row]|
  }

  function Get(cells: Grid, p: Pos): int
    requires Holds(cells, p)
  {
    cells[p.row][p.col]
  }

  /** `p` lies inside the array grid `g`. */
  predicate Inside(g: array2<int>, p: Pos) {
    0 <= p.row < g.Length0 && 0 <= p.col < g.Length1
  }

  /** Two grids with the same shape and the same cells are equal. */
  lemma GridExt(a: Grid, b: Grid)
    requires |a| == |b|
    requires forall i | 0 <= i < |a| :: |a[i]| == |b[i]|
    requires forall i, j | 0 <= i < |a| && 0 <= j < |a[i]| :: a[i][j] == b[i][j]
    ensures a == b
  {
    assert forall i | 0 <= i < |a| :: a[i] == b[i];
  }

  /** `cells` with every coordinate of `ps` overwritten by `v`. */
  function Paint(cells: Grid, ps: seq<Pos>, v: int): (r: Grid)
    ensures |r| == |cells| && forall i | 0 <= i < |cells| :: |r[i]| == |cells[i]|
    ensures forall i, j | 0 <= i < |cells| && 0 <= j < |cells[i]| ::
      r[i][j] == if Pos(i, j) in ps then v else cells[i][j]
  {
    seq(|cells|, i requires 0 <= i < |cells| =>
      seq(|cells[i]|, j requires 0 <= j < |cells[i]| => if Pos(i, j) in ps then v else cells[i][j]))
  }

  /** Write `v` into the cell `q` of the array grid `g`, whose contents are `cells`; the
      new contents are `cells` painted at `q`. */
  method Write(g: array2<int>, q: Pos, v: int, ghost cells: Grid) returns (ghost next: Grid)
    requires Inside(g, q) && Shaped(cells, g.Length0, g.Length1)
    requires forall i, j | 0 <= i < g.Length0 && 0 <= j < g.Length1 :: cells[i][j] == g[i, j]
    modifies g
    ensures next == Paint(cells, [q], v) && Shaped(next, g.Length0, g.Length1)
    ensures forall i, j | 0 <= i < g.Length0 && 0 <= j < g.Length1 :: next[i][j] == g[i, j]
  {
    g[q.row, q.col] := v;
    next := Paint(cells, [q], v);
    forall i, j | 0 <= i < g.Length0 && 0 <= j < g.Length1
      ensures next[i][j] == g[i, j]
    {
      assert Pos(i, j) in [q] <==> Pos(i, j) == q;
    }
  }

  // ---------------------------------------------------------------------------
  // Scanning the neighbours of a cell in `DIRS` order

  /** The tests the algorithms apply to a neighbour's value. */
  datatype Test = Equals(v: int) | AtLeast(v: int) | Between(lo: int, hi: int)

  predicate Passes(t: Test, x: int) {
    match t
    case Equals(v) => x == v
    case AtLeast(v) => x >= v
    case Between(lo, hi) => lo <= x < hi
  }

  /** The neighbour in direction `m` lies inside the grid and passes `t`. */
  predicate Hit(cells: Grid, p: Pos, t: Test, m: nat)
    requires m < |DIRS|
  {
    Holds(cells, Step(p, m)) && Passes(t, Get(cells, Step(p, m)))
  }

  /** The neighbours of `p` in directions `0 .. stop-1` that lie inside the grid and
      pass `t`, in `DIRS` order: what a scan that skips out-of-bounds neighbours collects. */
  function Select(cells: Grid, p: Pos, t: Test, stop: nat): (r: seq<Pos>)
    requires stop <= |DIRS|
    ensures |r| <= stop
    ensures forall i | 0 <= i < |r| ::
      Holds(cells, r[i]) && Passes(t, Get(cells, r[i])) && Adjacent(p, r[i])
    decreases stop, cells
  {
    if stop == 0 then []
    else
      StepFacts(p, stop - 1);
      Select(cells, p, t, stop - 1) + (if Hit(cells, p, t, stop - 1) then [Step(p, stop - 1)] else [])
  }

  /** A coordinate is selected exactly when it is the neighbour in some direction below
      `stop` and that neighbour is inside the grid and passes the test. */
  lemma {:induction false} SelectMembers(cells: Grid, p: Pos, t: Test, stop: nat, q: Pos)
    requires stop <= |DIRS|
    ensures q in Select(cells, p, t, stop) <==>
      exists m | 0 <= m < stop :: q == Step(p, m) && Hit(cells, p, t, m)
  {
    if stop > 0 {
      SelectMembers(cells, p, t, stop - 1, q);
    }
  }

  /** A direction at or beyond `stop` never names a coordinate already selected. */
  lemma SelectBefore(cells: Grid, p: Pos, t: Test, stop: nat, m: nat)
    requires stop <= m < |DIRS|
    ensures Step(p, m) !in Select(cells, p, t, stop)
  {
    SelectMembers(cells, p, t, stop, Step(p, m));
    StepFacts(p, m);
  }

  /** Extending the scan by one direction adds that neighbour exactly when it is a hit. */
  lemma SelectNext(cells: Grid, p: Pos, t: Test, k: nat)
    requires k < |DIRS|
    ensures Select(cells, p, t, k + 1) ==
      Select(cells, p, t, k) + (if Hit(cells, p, t, k) then [Step(p, k)] else [])
  {
  }

  /** A scan never collects the same coordinate twice. */
  lemma {:induction false} SelectDistinct(cells: Grid, p: Pos, t: Test, stop: nat)
    requires stop <= |DIRS|
    ensures var r := Select(cells, p, t, stop);
      forall a, b | 0 <= a < b < |r| :: r[a] != r[b]
  {
    if stop > 0 {
      SelectDistinct(cells, p, t, stop - 1);
      SelectBefore(cells, p, t, stop - 1, stop - 1);
    }
  }

  /** The first direction at or after `k` whose neighbour is inside the grid and passes
      `t`, or `|DIRS|` when there is none: where a scan that returns on a hit stops. */
  function FirstHit(cells: Grid, p: Pos, t: Test, k: nat): (m: nat)
    requires k <= |DIRS|
    ensures k <= m <= |DIRS|
    ensures m < |DIRS| ==> Hit(cells, p, t, m)
    ensures forall n | k <= n < m :: !Hit(cells, p, t, n)
    decreases |DIRS| - k, cells
  {
    if k == |DIRS| then |DIRS|
    else if Hit(cells, p, t, k) then k
    else FirstHit(cells, p, t, k + 1)
  }

  /** A scan stops early exactly when some in-bounds neighbour passes the test. */
  lemma FirstHitFound(cells: Grid, p: Pos, t: Test)
    ensures FirstHit(cells, p, t, 0) < |DIRS| <==> Select(cells, p, t, |DIRS|) != []
  {
    var m := FirstHit(cells, p, t, 0);
    if m < |DIRS| {
      SelectMembers(cells, p, t, |DIRS|, Step(p, m));
    } else if Select(cells, p, t, |DIRS|) != [] {
      SelectMembers(cells, p, t, |DIRS|, Select(cells, p, t, |DIRS|)[0]);
    }
  }

  /** The frontier entries that carry distance `d` to each coordinate of `qs`, in order. */
  function Entries(qs: seq<Pos>, d: int): (r: seq<Entry>)
    ensures |r| == |qs|
    ensures forall i | 0 <= i < |qs| :: r[i] == Entry(qs[i], d)
  {
    seq(|qs|, i requires 0 <= i < |qs| => Entry(qs[i], d))
  }

  /** `cells` has an in-bounds orthogonal neighbour of `q` holding a non-negative value. */
  ghost predicate Supported(cells: Grid, q: Pos) {
    exists m | 0 <= m < |DIRS| :: Hit(cells, q, AtLeast(0), m)
  }

  /** Two grids of the same shape whose cells have the same signs support the same cells. */
  lemma SupportedBySign(a: Grid, b: Grid, q: Pos)
    requires |a| == |b| && forall i | 0 <= i < |a| :: |a[i]| == |b[i]|
    requires forall i, j | 0 <= i < |a| && 0 <= j < |a[i]| :: (a[i][j] >= 0) == (b[i][j] >= 0)
    requires Supported(a, q)
    ensures Supported(b, q)
  {
    var m :| 0 <= m < |DIRS| && Hit(a, q, AtLeast(0), m);
    assert Hit(b, q, AtLeast(0), m);
  }
}
