/** The backward walk of src/algos/shortestPath.ts: from an end cell holding K, step K
    times to a neighbour holding the next lower value and collect every cell stepped onto. */
module ShortestPath {
  import opened Cells

  /** One round of the inner loop, from direction `m` on, looking for `want` around `p`.
      A match moves the position and the scan goes on with the next direction from the new
      position (there is no `break`). Returns the final position and the cells moved to. */
  function Round(cells: Grid, p: Pos, want: int, m: nat): (r: (Pos, seq<Pos>))
    requires m <= |DIRS|
    decreases |DIRS| - m, cells
  {
    if m == |DIRS| then (p, [])
    else if Hit(cells, p, Equals(want), m) then
      var r := Round(cells, Step(p, m), want, m + 1);
      (r.0, [Step(p, m)] + r.1)
    else Round(cells, p, want, m + 1)
  }

  /** The cells the outer loop moves to, round by round, for `k` down to 1. */
  function Walk(cells: Grid, p: Pos, k: int): seq<Pos>
    decreases k
  {
    if k <= 0 then []
    else
      var r := Round(cells, p, k - 1, 0);
      r.1 + Walk(cells, r.0, k - 1)
  }

  /** The path a walk from `end` collects: the coordinates it moved to. */
  function Trail(cells: Grid, end: Pos): set<Pos>
    requires Holds(cells, end)
  {
    Elems(Walk(cells, end, Get(cells, end)))
  }

  /** The coordinates occurring in `w`. */
  function Elems(w: seq<Pos>): set<Pos> {
    set x | x in w
  }

  /** `w` is a chain of orthogonal neighbours whose first cell is next to `p`. */
  predicate Chain(p: Pos, w: seq<Pos>) {
    && (|w| > 0 ==> Adjacent(p, w[0]))
    && (forall i | 0 < i < |w| :: Adjacent(w[i - 1], w[i]))
  }

  /** Every cell a round moves to is in the grid, holds `want` and is adjacent to the
      position before it; the round ends on the last cell it moved to. */
  lemma {:induction false} RoundFacts(cells: Grid, p: Pos, want: int, m: nat)
    requires m <= |DIRS|
    ensures var r := Round(cells, p, want, m);
      && (forall i | 0 <= i < |r.1| :: Holds(cells, r.1[i]) && Get(cells, r.1[i]) == want)
      && Chain(p, r.1)
      && r.0 == if |r.1| == 0 then p else r.1[|r.1| - 1]
    decreases |DIRS| - m
  {
    if m < |DIRS| {
      if Hit(cells, p, Equals(want), m) {
        var q := Step(p, m);
        RoundFacts(cells, q, want, m + 1);
        StepFacts(p, m);
        var r := Round(cells, q, want, m + 1);
        assert Round(cells, p, want, m).1 == [q] + r.1;
      } else {
        RoundFacts(cells, p, want, m + 1);
      }
    }
  }

  /** Every cell a walk of `k` rounds moves to is in the grid and holds a value in
      `0 .. k-1`, and the values never increase along the walk. In particular the end
      cell, which holds `k`, is never part of its own path. */
  lemma {:induction false} WalkLabels(cells: Grid, p: Pos, k: int)
    ensures forall i | 0 <= i < |Walk(cells, p, k)| ::
      Holds(cells, Walk(cells, p, k)[i]) && 0 <= Get(cells, Walk(cells, p, k)[i]) < k
    ensures forall i, j | 0 <= i < j < |Walk(cells, p, k)| ::
      Get(cells, Walk(cells, p, k)[i]) >= Get(cells, Walk(cells, p, k)[j])
    decreases k
  {
    if k > 0 {
      var r := Round(cells, p, k - 1, 0);
      RoundFacts(cells, p, k - 1, 0);
      WalkLabels(cells, r.0, k - 1);
      assert Walk(cells, p, k) == r.1 + Walk(cells, r.0, k - 1);
      JoinLabels(cells, r.1, Walk(cells, r.0, k - 1), k);
    }
  }

  /** Labels of a round (all `k - 1`) followed by the labels of the rest of the walk (all
      below `k - 1`, non-increasing) are non-increasing and below `k`. */
  lemma JoinLabels(cells: Grid, a: seq<Pos>, b: seq<Pos>, k: int)
    requires k >= 1
    requires forall i | 0 <= i < |a| :: Holds(cells, a[i]) && Get(cells, a[i]) == k - 1
    requires forall i | 0 <= i < |b| :: Holds(cells, b[i]) && 0 <= Get(cells, b[i]) < k - 1
    requires forall i, j | 0 <= i < j < |b| :: Get(cells, b[i]) >= Get(cells, b[j])
    ensures var w := a + b;
      && (forall i | 0 <= i < |w| :: Holds(cells, w[i]) && 0 <= Get(cells, w[i]) < k)
      && (forall i, j | 0 <= i < j < |w| :: Get(cells, w[i]) >= Get(cells, w[j]))
  {
    var w := a + b;
    forall i, j | 0 <= i < j < |w|
      ensures Holds(cells, w[i]) && Holds(cells, w[j]) && Get(cells, w[i]) >= Get(cells, w[j])
    {
      if i >= |a| {
        assert w[i] == b[i - |a|] && w[j] == b[j - |a|];
      } else if j >= |a| {
        assert w[j] == b[j - |a|];
      }
    }
    forall i | 0 <= i < |w|
      ensures Holds(cells, w[i]) && 0 <= Get(cells, w[i]) < k
    {
      if i >= |a| {
        assert w[i] == b[i - |a|];
      }
    }
  }

  /** The cells of a walk form a chain of orthogonal neighbours starting next to the end cell. */
  lemma {:induction false} WalkChain(cells: Grid, p: Pos, k: int)
    ensures Chain(p, Walk(cells, p, k))
    decreases k
  {
    if k > 0 {
      var r := Round(cells, p, k - 1, 0);
      RoundFacts(cells, p, k - 1, 0);
      WalkChain(cells, r.0, k - 1);
      WalkNext(cells, p, k);
      JoinChain(p, r.1, r.0, Walk(cells, r.0, k - 1));
    }
  }

  /** A chain from `p` ending at `q` followed by a chain from `q` is a chain from `p`. */
  lemma JoinChain(p: Pos, a: seq<Pos>, q: Pos, b: seq<Pos>)
    requires Chain(p, a) && Chain(q, b)
    requires q == if |a| == 0 then p else a[|a| - 1]
    ensures Chain(p, a + b)
  {
    var w := a + b;
    forall i | 0 < i < |w|
      ensures Adjacent(w[i - 1], w[i])
    {
      if i < |a| {
        assert w[i - 1] == a[i - 1] && w[i] == a[i];
      } else if i == |a| {
        assert w[i - 1] == a[i - 1] && w[i] == b[0];
      } else {
        assert w[i - 1] == b[i - 1 - |a|] && w[i] == b[i - |a|];
      }
    }
  }

  /** No in-bounds cell with a label in `0 .. k-1` has an orthogonal neighbour with the
      same label, as in a breadth-first labelling; sentinels (UNVISITED next to UNVISITED,
      say) are not constrained. */
  ghost predicate ProperBelow(cells: Grid, k: int) {
    forall x, m | Holds(cells, x) && 0 <= Get(cells, x) < k && 0 <= m < |DIRS| && Holds(cells, Step(x, m)) ::
      Get(cells, Step(x, m)) != Get(cells, x)
  }

  /** The neighbour of `x` in direction `m` is in the grid and holds one less than `x`. */
  predicate Below(cells: Grid, x: Pos, m: nat)
    requires Holds(cells, x) && m < |DIRS|
  {
    Holds(cells, Step(x, m)) && Get(cells, Step(x, m)) == Get(cells, x) - 1
  }

  /** Every in-bounds cell with a label in `1 .. k` has a neighbour holding one less. */
  ghost predicate Graded(cells: Grid, k: int) {
    forall x | Holds(cells, x) && 0 < Get(cells, x) <= k ::
      exists m | 0 <= m < |DIRS| :: Below(cells, x, m)
  }

  /** Around a cell holding a label `want` below `k`, in a grid properly labelled below `k`,
      a round finds nothing. */
  lemma {:induction false} RoundStill(cells: Grid, k: int, q: Pos, want: int, m: nat)
    requires ProperBelow(cells, k) && Holds(cells, q) && Get(cells, q) == want && 0 <= want < k
    requires m <= |DIRS|
    ensures Round(cells, q, want, m) == (q, [])
    decreases |DIRS| - m
  {
    if m < |DIRS| {
      assert !Hit(cells, q, Equals(want), m);
      RoundStill(cells, k, q, want, m + 1);
    }
  }

  /** In a grid properly labelled below `k`, a round looking for a label `want` below `k`
      moves exactly once when some remaining direction holds `want`, and not at all otherwise. */
  lemma {:induction false} RoundOnce(cells: Grid, k: int, p: Pos, want: int, m: nat)
    requires ProperBelow(cells, k) && 0 <= want < k && m <= |DIRS|
    ensures var r := Round(cells, p, want, m);
      |r.1| == if exists n | m <= n < |DIRS| :: Hit(cells, p, Equals(want), n) then 1 else 0
    decreases |DIRS| - m
  {
    if m < |DIRS| {
      if Hit(cells, p, Equals(want), m) {
        RoundStill(cells, k, Step(p, m), want, m + 1);
      } else {
        RoundOnce(cells, k, p, want, m + 1);
        if exists n | m <= n < |DIRS| :: Hit(cells, p, Equals(want), n) {
          var n :| m <= n < |DIRS| && Hit(cells, p, Equals(want), n);
          assert m + 1 <= n;
        }
      }
    }
  }

  /** When the labels below `k` are proper and graded, the walk from a cell holding `k` moves exactly
      `k` times, onto one cell for each label from `k - 1` down to 0. */
  lemma {:induction false} WalkExact(cells: Grid, p: Pos, k: int)
    requires ProperBelow(cells, k) && Graded(cells, k)
    requires Holds(cells, p) && Get(cells, p) == k && k >= 0
    ensures var w := Walk(cells, p, k);
      |w| == k && forall i | 0 <= i < k :: Holds(cells, w[i]) && Get(cells, w[i]) == k - 1 - i
    decreases k
  {
    if k > 0 {
      RoundExact(cells, p, k);
      var q := Round(cells, p, k - 1, 0).0;
      GradedLess(cells, k);
      ProperLess(cells, k);
      WalkExact(cells, q, k - 1);
      WalkNext(cells, p, k);
      ConsLabels(cells, q, Walk(cells, q, k - 1), k);
    }
  }

  /** Around a cell holding `k > 0` in a grid properly labelled and graded below `k`, a round moves onto exactly one
      cell, which holds `k - 1`. */
  lemma RoundExact(cells: Grid, p: Pos, k: int)
    requires ProperBelow(cells, k) && Graded(cells, k)
    requires Holds(cells, p) && Get(cells, p) == k && k > 0
    ensures var r := Round(cells, p, k - 1, 0);
      r.1 == [r.0] && Holds(cells, r.0) && Get(cells, r.0) == k - 1
  {
    var r := Round(cells, p, k - 1, 0);
    var n :| 0 <= n < |DIRS| && Below(cells, p, n);
    assert Hit(cells, p, Equals(k - 1), n);
    RoundOnce(cells, k, p, k - 1, 0);
    RoundFacts(cells, p, k - 1, 0);
  }

  /** A cell holding `k - 1` in front of a walk labelled `k - 2` down to 0 gives a walk
      labelled `k - 1` down to 0. */
  lemma ConsLabels(cells: Grid, q: Pos, rest: seq<Pos>, k: int)
    requires Holds(cells, q) && Get(cells, q) == k - 1 && |rest| == k - 1
    requires forall i | 0 <= i < k - 1 :: Holds(cells, rest[i]) && Get(cells, rest[i]) == k - 2 - i
    ensures forall i | 0 <= i < k :: Holds(cells, ([q] + rest)[i]) && Get(cells, ([q] + rest)[i]) == k - 1 - i
  {
    forall i | 0 < i < k
      ensures Holds(cells, ([q] + rest)[i]) && Get(cells, ([q] + rest)[i]) == k - 1 - i
    {
      assert ([q] + rest)[i] == rest[i - 1];
    }
  }

  lemma ProperLess(cells: Grid, k: int)
    requires ProperBelow(cells, k)
    ensures ProperBelow(cells, k - 1)
  {
  }

  lemma GradedLess(cells: Grid, k: int)
    requires Graded(cells, k)
    ensures Graded(cells, k - 1)
  {
    forall x | Holds(cells, x) && 0 < Get(cells, x) <= k - 1
      ensures exists m | 0 <= m < |DIRS| :: Below(cells, x, m)
    {
    }
  }

  /** Every cell of the path from `end` is in the grid and holds a value in
      `0 .. Get(end) - 1`, so `end` itself is never on it; a non-positive end gives none. */
  lemma TrailBounds(cells: Grid, end: Pos)
    requires Holds(cells, end)
    ensures forall x | x in Trail(cells, end) :: Holds(cells, x) && 0 <= Get(cells, x) < Get(cells, end)
    ensures end !in Trail(cells, end)
    ensures Get(cells, end) <= 0 ==> Trail(cells, end) == {}
  {
    WalkLabels(cells, end, Get(cells, end));
    forall x | x in Trail(cells, end)
      ensures Holds(cells, x) && 0 <= Get(cells, x) < Get(cells, end)
    {
      var i :| 0 <= i < |Walk(cells, end, Get(cells, end))| && Walk(cells, end, Get(cells, end))[i] == x;
    }
  }

  /** One round of the walk: scan the four directions from `p`, moving onto every
      neighbour that holds `want` (from wherever the previous moves led) and adding it to
      `path`. */
  method Descend(g: array2<int>, p: Pos, want: int, path: set<Pos>, ghost cells: Grid)
    returns (q: Pos, path': set<Pos>, ghost moved: seq<Pos>)
    requires Shaped(cells, g.Length0, g.Length1)
    requires forall i, j | 0 <= i < g.Length0 && 0 <= j < g.Length1 :: cells[i][j] == g[i, j]
    ensures q == Round(cells, p, want, 0).0 && moved == Round(cells, p, want, 0).1
    ensures path' == path + Elems(moved)
  {
    var row, col := p.row, p.col;
    path' := path;
    moved := [];
    for m := 0 to |DIRS|
      invariant Round(cells, Pos(row, col), want, m).0 == Round(cells, p, want, 0).0
      invariant moved + Round(cells, Pos(row, col), want, m).1 == Round(cells, p, want, 0).1
      invariant path' == path + Elems(moved)
    {
      var (i, j) := DIRS[m];
      var r, c := row + i, col + j;
      ghost var here := Pos(row, col);
      assert Step(here, m) == Pos(r, c);
      if r < 0 || r >= g.Length0 || c < 0 || c >= g.Length1 {
        assert !Hit(cells, here, Equals(want), m);
        continue;
      }
      if g[r, c] == want {
        assert Hit(cells, here, Equals(want), m);
        assert moved + [Pos(r, c)] + Round(cells, Pos(r, c), want, m + 1).1 == moved + Round(cells, here, want, m).1;
        row, col := r, c;
        path' := path' + {Pos(r, c)};
        moved := moved + [Pos(r, c)];
      } else {
        assert !Hit(cells, here, Equals(want), m);
      }
    }
    assert Round(cells, Pos(row, col), want, |DIRS|) == (Pos(row, col), []);
    q := Pos(row, col);
  }

  /** findPath on the grid `g`, whose contents are `cells`: the grid is only read, and the
      result is the set of cells the walk from `end` moves to. */
  method FindPath(g: array2<int>, end: Pos, ghost cells: Grid) returns (path: set<Pos>)
    requires Inside(g, end) && Shaped(cells, g.Length0, g.Length1)
    requires forall i, j | 0 <= i < g.Length0 && 0 <= j < g.Length1 :: cells[i][j] == g[i, j]
    ensures path == Trail(cells, end)
  {
    path := {};
    var p := end;
    var k := g[end.row, end.col];
    while k > 0
      invariant path + Elems(Walk(cells, p, k)) == Trail(cells, end)
    {
      ghost var moved;
      ghost var before, done := p, path;
      p, path, moved := Descend(g, p, k - 1, path, cells);
      RetraceStep(cells, before, k, done, p, moved, path);
      k := k - 1;
    }
    assert Walk(cells, p, k) == [];
  }

  /** One round of the walk, then the rest. */
  lemma WalkNext(cells: Grid, p: Pos, k: int)
    requires k > 0
    ensures Walk(cells, p, k) == Round(cells, p, k - 1, 0).1 + Walk(cells, Round(cells, p, k - 1, 0).0, k - 1)
  {
  }

  /** The members of a concatenation are the members of its parts. */
  lemma ElemsJoin(a: seq<Pos>, b: seq<Pos>)
    ensures Elems(a + b) == Elems(a) + Elems(b)
  {
  }

  /** One round of `findPath` extends the path by what that round of the walk visits. */
  lemma RetraceStep(cells: Grid, before: Pos, k: int, done: set<Pos>, p: Pos, moved: seq<Pos>, path: set<Pos>)
    requires k > 0
    requires p == Round(cells, before, k - 1, 0).0 && moved == Round(cells, before, k - 1, 0).1
    requires path == done + Elems(moved)
    ensures path + Elems(Walk(cells, p, k - 1)) == done + Elems(Walk(cells, before, k))
  {
    WalkNext(cells, before, k);
    ElemsJoin(moved, Walk(cells, p, k - 1));
  }
}
