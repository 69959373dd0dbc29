/** The depth-first search that turns breadth-first on reaching the target
    (src/algos/dfsToBfs.ts): depth-first steps with a pop-time guard and duplicate pushes,
    and, when the target itself is popped, a breadth-first relabelling pass from the start
    followed by the backward walk of `findPath`. */
module Hybrid {
  import opened Cells
  import opened ShortestPath

  /** The running minimum of `minVal`'s loop after the directions `0 .. k-1`: the least
      value among the in-bounds neighbours of `p` holding a non-negative value, folded in
      `DIRS` order as `Math.min` does; None stands for JavaScript's Infinity, the value
      before any neighbour qualifies. */
  function Low(cells: Grid, p: Pos, k: nat): Option<int>
    requires k <= |DIRS|
    decreases k, cells
  {
    if k == 0 then None
    else
      var r := Low(cells, p, k - 1);
      if Hit(cells, p, AtLeast(0), k - 1) then
        var v := Get(cells, Step(p, k - 1));
        match r
        case None => Some(v)
        case Some(m) => Some(if v < m then v else m)
      else r
  }

  /** The fold is Infinity exactly when no neighbour so far qualifies; otherwise it is the
      value of one qualifying neighbour and at most the value of each. */
  lemma {:induction false} LowFacts(cells: Grid, p: Pos, k: nat)
    requires k <= |DIRS|
    ensures Low(cells, p, k).None? <==> forall m | 0 <= m < k :: !Hit(cells, p, AtLeast(0), m)
    ensures Low(cells, p, k).Some? ==>
      && (exists m | 0 <= m < k :: Hit(cells, p, AtLeast(0), m) && Low(cells, p, k).value == Get(cells, Step(p, m)))
      && (forall m | 0 <= m < k && Hit(cells, p, AtLeast(0), m) :: Low(cells, p, k).value <= Get(cells, Step(p, m)))
  {
    if k > 0 {
      LowFacts(cells, p, k - 1);
      var r := Low(cells, p, k - 1);
      if Hit(cells, p, AtLeast(0), k - 1) {
        var v := Get(cells, Step(p, k - 1));
        if r.Some? && r.value <= v {
          var m :| 0 <= m < k - 1 && Hit(cells, p, AtLeast(0), m) && r.value == Get(cells, Step(p, m));
          assert Low(cells, p, k).value == Get(cells, Step(p, m));
        } else {
          assert Low(cells, p, k).value == Get(cells, Step(p, k - 1));
        }
      }
    }
  }

  /** What `minVal` computes: 0 on a cell holding 0, otherwise one more than the least
      non-negative value among the in-bounds neighbours, None (Infinity) when there is none. */
  function Relabelled(cells: Grid, p: Pos): Option<int>
    requires Holds(cells, p)
  {
    if Get(cells, p) == 0 then Some(0)
    else match Low(cells, p, |DIRS|)
      case None => None
      case Some(m) => Some(m + 1)
  }

  /** `minVal` is finite exactly on the start value or a cell with a non-negative
      neighbour; it is then non-negative, one more than some non-negative neighbour and at
      most one more than every non-negative neighbour. */
  lemma RelabelledFacts(cells: Grid, p: Pos)
    requires Holds(cells, p)
    ensures Relabelled(cells, p).Some? <==> Get(cells, p) == 0 || Supported(cells, p)
    ensures Relabelled(cells, p).Some? ==> Relabelled(cells, p).value >= 0
    ensures Get(cells, p) != 0 && Relabelled(cells, p).Some? ==>
      && (exists m | 0 <= m < |DIRS| ::
            Hit(cells, p, AtLeast(0), m) && Relabelled(cells, p).value == Get(cells, Step(p, m)) + 1)
      && (forall m | 0 <= m < |DIRS| && Hit(cells, p, AtLeast(0), m) ::
            Relabelled(cells, p).value <= Get(cells, Step(p, m)) + 1)
  {
    LowFacts(cells, p, |DIRS|);
  }

  /** One iteration of `minVal`'s loop: fold the neighbour in direction `k` into the
      running minimum when it lies inside the grid and is non-negative. */
  method Consider(g: array2<int>, p: Pos, k: nat, least: Option<int>, ghost cells: Grid) returns (r: Option<int>)
    requires k < |DIRS| && Shaped(cells, g.Length0, g.Length1)
    requires forall i, j | 0 <= i < g.Length0 && 0 <= j < g.Length1 :: cells[i][j] == g[i, j]
    requires least == Low(cells, p, k)
    ensures r == Low(cells, p, k + 1)
  {
    var q := Step(p, k);
    if q.row < 0 || q.row >= g.Length0 || q.col < 0 || q.col >= g.Length1 || g[q.row, q.col] < 0 {
      return least;
    }
    var v := g[q.row, q.col];
    r := match least
      case None => Some(v)
      case Some(m) => Some(if v < m then v else m);
  }

  /** The loop of `minVal`: the least non-negative in-bounds neighbour value of `p`. */
  method Lowest(g: array2<int>, p: Pos, ghost cells: Grid) returns (least: Option<int>)
    requires Shaped(cells, g.Length0, g.Length1)
    requires forall i, j | 0 <= i < g.Length0 && 0 <= j < g.Length1 :: cells[i][j] == g[i, j]
    ensures least == Low(cells, p, |DIRS|)
  {
    least := None;
    for k := 0 to |DIRS|
      invariant least == Low(cells, p, k)
    {
      least := Consider(g, p, k, least, cells);
    }
  }

  /** `minVal` on the grid `g`, whose contents are `cells`; the grid is only read. */
  method MinVal(g: array2<int>, p: Pos, ghost cells: Grid) returns (r: Option<int>)
    requires Inside(g, p) && Shaped(cells, g.Length0, g.Length1)
    requires forall i, j | 0 <= i < g.Length0 && 0 <= j < g.Length1 :: cells[i][j] == g[i, j]
    ensures r == Relabelled(cells, p)
  {
    if g[p.row, p.col] == 0 {
      return Some(0);
    }
    var least := Lowest(g, p, cells);
    r := match least
      case None => None
      case Some(m) => Some(m + 1);
  }

  /** The in-bounds neighbours of `p` whose values pass `t`, in `DIRS` order, as the
      pushing loops collect them; the grid is only read. */
  method Gather(g: array2<int>, p: Pos, t: Test, ghost cells: Grid) returns (found: seq<Pos>)
    requires Shaped(cells, g.Length0, g.Length1)
    requires forall i, j | 0 <= i < g.Length0 && 0 <= j < g.Length1 :: cells[i][j] == g[i, j]
    ensures found == Select(cells, p, t, |DIRS|)
  {
    found := [];
    for k := 0 to |DIRS|
      invariant found == Select(cells, p, t, k)
    {
      var (i, j) := DIRS[k];
      var r, c := p.row + i, p.col + j;
      SelectNext(cells, p, t, k);
      if r < 0 || r >= g.Length0 || c < 0 || c >= g.Length1 {
        assert !Hit(cells, p, t, k);
        continue;
      }
      if Passes(t, g[r, c]) {
        assert Hit(cells, p, t, k);
        found := found + [Pos(r, c)];
      } else {
        assert !Hit(cells, p, t, k);
      }
    }
  }

  // ---------------------------------------------------------------------------
  // The relabelling pass: a breadth-first sweep from the start over the cells the
  // depth-first phase labelled, rewriting each with `minVal` once.

  /** Every coordinate of a `rows` x `cols` grid. */
  ghost function AllPos(rows: int, cols: int): set<Pos> {
    set i, j | 0 <= i < rows && 0 <= j < cols :: Pos(i, j)
  }

  /** `after` differs from `before` only on `visited`, whose cells held a label below
      UNVISITED before and hold a non-negative value after. */
  ghost predicate Kept(before: Grid, after: Grid, visited: set<Pos>) {
    && |after| == |before|
    && (forall i | 0 <= i < |before| :: |after[i]| == |before[i]|)
    && (forall i, j | 0 <= i < |before| && 0 <= j < |before[i]| ::
          if Pos(i, j) in visited then 0 <= before[i][j] < UNVISITED && after[i][j] >= 0
          else after[i][j] == before[i][j])
  }

  /** The queue of the relabelling pass: every entry lies in the grid, was a label below
      UNVISITED unless already visited, and is the start or has a non-negative neighbour. */
  ghost predicate Waiting(before: Grid, after: Grid, visited: set<Pos>, queue: seq<Pos>) {
    forall k | 0 <= k < |queue| ::
      && Holds(before, queue[k]) && Holds(after, queue[k])
      && (queue[k] in visited || 0 <= Get(before, queue[k]) < UNVISITED)
      && (queue[k] == Pos(0, 0) || Supported(after, queue[k]))
  }

  /** The start cell holds 0. */
  predicate Origin(cells: Grid) {
    Holds(cells, Pos(0, 0)) && Get(cells, Pos(0, 0)) == 0
  }

  /** Dropping the head keeps the queue invariant. */
  lemma WaitingTail(before: Grid, after: Grid, visited: set<Pos>, queue: seq<Pos>)
    requires |queue| > 0 && Waiting(before, after, visited, queue)
    ensures Waiting(before, after, visited, queue[1..])
  {
    forall k | 0 <= k < |queue| - 1
      ensures queue[1..][k] == queue[k + 1]
    {
    }
  }

  /** The cell taken from the queue, if not yet visited, has a finite `minVal`. */
  lemma RelabelDefined(before: Grid, after: Grid, visited: set<Pos>, queue: seq<Pos>)
    requires |queue| > 0 && queue[0] !in visited
    requires Kept(before, after, visited) && Waiting(before, after, visited, queue) && Origin(after)
    ensures Relabelled(after, queue[0]).Some?
  {
    RelabelledFacts(after, queue[0]);
  }

  /** Rewriting the taken cell `q` with its `minVal` `v` and queueing its neighbours that
      hold a label below UNVISITED keeps every invariant of the pass. */
  lemma RelabelStep(before: Grid, after: Grid, visited: set<Pos>, queue: seq<Pos>,
                    v: int, next: Grid, pushed: seq<Pos>)
    requires |queue| > 0 && queue[0] !in visited
    requires Kept(before, after, visited) && Waiting(before, after, visited, queue) && Origin(after)
    requires Relabelled(after, queue[0]) == Some(v)
    requires next == Paint(after, [queue[0]], v)
    requires pushed == Select(next, queue[0], Between(0, UNVISITED), |DIRS|)
    ensures Kept(before, next, visited + {queue[0]})
    ensures Waiting(before, next, visited + {queue[0]}, queue[1..] + pushed)
    ensures Origin(next)
  {
    var q := queue[0];
    RelabelledFacts(after, q);
    assert v >= 0;
    RelabelKept(before, after, visited, q, v, next);
    WaitingTail(before, after, visited, queue);
    RelabelQueue(before, after, visited, queue[1..], q, v, next, pushed);
  }

  lemma RelabelKept(before: Grid, after: Grid, visited: set<Pos>, q: Pos, v: int, next: Grid)
    requires Kept(before, after, visited) && Origin(after)
    requires Holds(before, q) && (q in visited || 0 <= Get(before, q) < UNVISITED)
    requires v >= 0 && (q == Pos(0, 0) ==> v == 0)
    requires next == Paint(after, [q], v)
    ensures Kept(before, next, visited + {q}) && Origin(next)
  {
    forall i, j | 0 <= i < |before| && 0 <= j < |before[i]|
      ensures Pos(i, j) in [q] <==> Pos(i, j) == q
    {
    }
  }

  lemma RelabelQueue(before: Grid, after: Grid, visited: set<Pos>, rest: seq<Pos>,
                     q: Pos, v: int, next: Grid, pushed: seq<Pos>)
    requires Kept(before, after, visited) && Waiting(before, after, visited, rest)
    requires Kept(before, next, visited + {q})
    requires Holds(after, q) && v >= 0
    requires next == Paint(after, [q], v)
    requires pushed == Select(next, q, Between(0, UNVISITED), |DIRS|)
    ensures Waiting(before, next, visited + {q}, rest + pushed)
  {
    var t := rest + pushed;
    forall k | 0 <= k < |t|
      ensures Holds(before, t[k]) && Holds(next, t[k])
      ensures t[k] in visited + {q} || 0 <= Get(before, t[k]) < UNVISITED
      ensures t[k] == Pos(0, 0) || Supported(next, t[k])
    {
      if k < |rest| {
        assert t[k] == rest[k];
        if t[k] != Pos(0, 0) {
          SupportedBySign(after, next, t[k]);
        }
      } else {
        var x := pushed[k - |rest|];
        assert t[k] == x && x in pushed;
        assert Get(next, q) == v;
        PushedSupported(next, q, Between(0, UNVISITED), x);
      }
    }
  }

  /** One non-skipped iteration of the pass on the grid `g`, whose contents are `cells`:
      write the `minVal` of `q` into it and collect its neighbours that now hold a value in
      `[0, UNVISITED)`, in `DIRS` order. */
  method Process(g: array2<int>, q: Pos, ghost cells: Grid) returns (pushed: seq<Pos>, ghost next: Grid)
    requires Inside(g, q) && Shaped(cells, g.Length0, g.Length1)
    requires forall i, j | 0 <= i < g.Length0 && 0 <= j < g.Length1 :: cells[i][j] == g[i, j]
    requires Relabelled(cells, q).Some?
    modifies g
    ensures next == Paint(cells, [q], Relabelled(cells, q).value)
    ensures Shaped(next, g.Length0, g.Length1)
    ensures forall i, j | 0 <= i < g.Length0 && 0 <= j < g.Length1 :: next[i][j] == g[i, j]
    ensures pushed == Select(next, q, Between(0, UNVISITED), |DIRS|)
  {
    var v := MinVal(g, q, cells);
    next := Write(g, q, v.value, cells);
    pushed := Gather(g, q, Between(0, UNVISITED), next);
  }

  /** The grids the pass goes through: `grids[i + 1]` is `grids[i]` with the cell
      `order[i]` rewritten with its `minVal` in `grids[i]`, from `before` to `after`. */
  ghost predicate Traced(before: Grid, after: Grid, order: seq<Pos>, grids: seq<Grid>) {
    && |grids| == |order| + 1 && grids[0] == before && grids[|order|] == after
    && forall i | 0 <= i < |order| ::
         && Holds(grids[i], order[i]) && Relabelled(grids[i], order[i]).Some?
         && grids[i + 1] == Paint(grids[i], [order[i]], Relabelled(grids[i], order[i]).value)
  }

  /** Every neighbour of a visited cell that held a label below UNVISITED before the pass
      is visited or still queued. */
  ghost predicate Closed(before: Grid, visited: set<Pos>, queue: seq<Pos>) {
    forall x, m | x in visited && 0 <= m < |DIRS| && Hit(before, x, Between(0, UNVISITED), m) ::
      Step(x, m) in visited || Step(x, m) in queue
  }

  /** A state of the relabelling loop: the grid, the queue and the cells rewritten so far,
      in the order they were rewritten. */
  datatype Stage = Stage(grid: Grid, queue: seq<Pos>, order: seq<Pos>)

  /** One iteration of the loop, as the source performs it: take the head off the front of
      the queue; a head already rewritten is dropped; any other is rewritten with its
      `minVal` and its neighbours holding a value in `[0, UNVISITED)` in the rewritten grid
      are added at the back, in `DIRS` order. */
  ghost predicate Move(s: Stage, t: Stage) {
    && |s.queue| > 0
    && var q := s.queue[0];
       if q in s.order then t == Stage(s.grid, s.queue[1..], s.order)
       else
         && Holds(s.grid, q) && Relabelled(s.grid, q).Some?
         && var next := Paint(s.grid, [q], Relabelled(s.grid, q).value);
            t == Stage(next, s.queue[1..] + Select(next, q, Between(0, UNVISITED), |DIRS|), s.order + [q])
  }

  /** `stages` are the states the loop goes through on `before`, first in, first out, from
      the start queued alone. */
  ghost predicate Iterated(before: Grid, stages: seq<Stage>) {
    && |stages| > 0 && stages[0] == Stage(before, [Pos(0, 0)], [])
    && forall k | 0 < k < |stages| :: Move(stages[k - 1], stages[k])
  }

  /** One more iteration extends the states of the loop. */
  lemma IterStep(before: Grid, stages: seq<Stage>, t: Stage)
    requires Iterated(before, stages) && Move(stages[|stages| - 1], t)
    ensures Iterated(before, stages + [t])
  {
    var st := stages + [t];
    forall k | 0 < k < |st|
      ensures Move(st[k - 1], st[k])
    {
      if k < |stages| {
        assert st[k - 1] == stages[k - 1] && st[k] == stages[k];
      }
    }
  }

  /** A state has at most one successor. */
  lemma MoveUnique(s: Stage, t: Stage, u: Stage)
    requires Move(s, t) && Move(s, u)
    ensures t == u
  {
  }

  /** Two runs of the loop on the same grid agree state by state. */
  lemma {:induction false} StagesAgree(before: Grid, s1: seq<Stage>, s2: seq<Stage>, k: nat)
    requires Iterated(before, s1) && Iterated(before, s2) && k < |s1| && k < |s2|
    ensures s1[k] == s2[k]
  {
    if k > 0 {
      StagesAgree(before, s1, s2, k - 1);
      MoveUnique(s1[k - 1], s1[k], s2[k]);
    }
  }

  /** A state the loop moves on from has a non-empty queue. */
  lemma Busy(before: Grid, stages: seq<Stage>, k: nat)
    requires Iterated(before, stages) && k + 1 < |stages|
    ensures |stages[k].queue| > 0
  {
    assert Move(stages[k], stages[k + 1]);
  }

  /** The loop is deterministic: two runs on the same grid that both end with an empty
      queue are the same run, so they end on the same grid with the same order. */
  lemma PassUnique(before: Grid, s1: seq<Stage>, s2: seq<Stage>)
    requires Iterated(before, s1) && Iterated(before, s2)
    requires s1[|s1| - 1].queue == [] && s2[|s2| - 1].queue == []
    ensures s1 == s2
  {
    if |s1| < |s2| {
      StagesAgree(before, s1, s2, |s1| - 1);
      Busy(before, s2, |s1| - 1);
      assert false;
    } else if |s2| < |s1| {
      StagesAgree(before, s1, s2, |s2| - 1);
      Busy(before, s1, |s2| - 1);
      assert false;
    }
    forall k | 0 <= k < |s1|
      ensures s1[k] == s2[k]
    {
      StagesAgree(before, s1, s2, k);
    }
  }

  /** The invariant of the relabelling pass over a `rows` x `cols` grid: the rewritten
      cells are exactly those listed in `order`, each once, the start first, each rewritten
      with its `minVal` in turn; the queue holds the labelled neighbours still to visit. */
  ghost predicate Pass(rows: int, cols: int, before: Grid, after: Grid,
                       visited: set<Pos>, queue: seq<Pos>, order: seq<Pos>, grids: seq<Grid>) {
    && Kept(before, after, visited) && Waiting(before, after, visited, queue) && Origin(after)
    && visited == (set x | x in order)
    && visited <= AllPos(rows, cols)
    && (forall a, b | 0 <= a < b < |order| :: order[a] != order[b])
    && (if order == [] then queue == [Pos(0, 0)] else order[0] == Pos(0, 0))
    && Traced(before, after, order, grids) && Closed(before, visited, queue)
  }

  /** One iteration of the pass: take the head of the queue; a visited head is dropped,
      any other is rewritten with its `minVal` and its neighbours holding a value in
      `[0, UNVISITED)` in the rewritten grid are queued at the back. Either one more cell is
      visited, or nothing is and the queue is shorter. */
  method Advance(g: array2<int>, queue: seq<Pos>, visited: set<Pos>, ghost before: Grid, ghost after: Grid,
                 ghost order: seq<Pos>, ghost grids: seq<Grid>, ghost stages: seq<Stage>)
    returns (queue': seq<Pos>, visited': set<Pos>, ghost after': Grid, ghost order': seq<Pos>,
             ghost grids': seq<Grid>, ghost stages': seq<Stage>)
    requires |queue| > 0 && Shaped(after, g.Length0, g.Length1)
    requires forall i, j | 0 <= i < g.Length0 && 0 <= j < g.Length1 :: after[i][j] == g[i, j]
    requires Pass(g.Length0, g.Length1, before, after, visited, queue, order, grids)
    requires Iterated(before, stages) && stages[|stages| - 1] == Stage(after, queue, order)
    modifies g
    ensures Shaped(after', g.Length0, g.Length1)
    ensures forall i, j | 0 <= i < g.Length0 && 0 <= j < g.Length1 :: after'[i][j] == g[i, j]
    ensures queue[0] in visited ==>
      after' == after && queue' == queue[1..] && visited' == visited && order' == order
    ensures queue[0] !in visited ==>
      && Holds(after, queue[0]) && Relabelled(after, queue[0]).Some?
      && after' == Paint(after, [queue[0]], Relabelled(after, queue[0]).value)
      && queue' == queue[1..] + Select(after', queue[0], Between(0, UNVISITED), |DIRS|)
      && visited' == visited + {queue[0]} && order' == order + [queue[0]]
    ensures Pass(g.Length0, g.Length1, before, after', visited', queue', order', grids')
    ensures Iterated(before, stages') && stages' == stages + [Stage(after', queue', order')]
    ensures visited' == visited ==> |queue'| < |queue|
    ensures visited' != visited ==> AllPos(g.Length0, g.Length1) - visited' < AllPos(g.Length0, g.Length1) - visited
  {
    var q := queue[0];
    queue' := queue[1..];
    if q in visited {
      PassSkip(g.Length0, g.Length1, before, after, visited, queue, order, grids);
      stages' := stages + [Stage(after, queue', order)];
      IterStep(before, stages, Stage(after, queue', order));
      return queue', visited, after, order, grids, stages';
    }
    RelabelDefined(before, after, visited, queue);
    ghost var v := Relabelled(after, q).value;
    var pushed;
    pushed, after' := Process(g, q, after);
    PassStep(g.Length0, g.Length1, before, after, visited, queue, order, grids, v, after', pushed);
    visited' := visited + {q};
    order' := order + [q];
    grids' := grids + [after'];
    queue' := queue' + pushed;
    stages' := stages + [Stage(after', queue', order')];
    IterStep(before, stages, Stage(after', queue', order'));
  }

  /** Dropping a visited head keeps the pass invariant. */
  lemma PassSkip(rows: int, cols: int, before: Grid, after: Grid, visited: set<Pos>,
                 queue: seq<Pos>, order: seq<Pos>, grids: seq<Grid>)
    requires |queue| > 0 && queue[0] in visited
    requires Pass(rows, cols, before, after, visited, queue, order, grids)
    ensures Pass(rows, cols, before, after, visited, queue[1..], order, grids)
  {
    WaitingTail(before, after, visited, queue);
    ClosedTail(before, visited, queue);
  }

  /** The ghost bookkeeping of a non-skipped iteration: the pass invariant moves on to the
      rewritten grid, and one more cell of the grid is visited. */
  lemma PassStep(rows: int, cols: int, before: Grid, after: Grid, visited: set<Pos>,
                 queue: seq<Pos>, order: seq<Pos>, grids: seq<Grid>, v: int, next: Grid, pushed: seq<Pos>)
    requires |queue| > 0 && queue[0] !in visited && Shaped(after, rows, cols)
    requires Pass(rows, cols, before, after, visited, queue, order, grids)
    requires Relabelled(after, queue[0]) == Some(v)
    requires next == Paint(after, [queue[0]], v)
    requires pushed == Select(next, queue[0], Between(0, UNVISITED), |DIRS|)
    ensures Pass(rows, cols, before, next, visited + {queue[0]}, queue[1..] + pushed,
                 order + [queue[0]], grids + [next])
    ensures AllPos(rows, cols) - (visited + {queue[0]}) < AllPos(rows, cols) - visited
  {
    var q := queue[0];
    RelabelStep(before, after, visited, queue, v, next, pushed);
    TraceStep(before, after, order, grids, q, v, next);
    ClosedStep(before, after, visited, queue, v, next, pushed);
    OrderStep(rows, cols, visited, order, q);
  }

  /** Listing one more unvisited coordinate of the grid keeps the list free of repeats and
      its set equal to the visited set, and leaves fewer coordinates unvisited. */
  lemma OrderStep(rows: int, cols: int, visited: set<Pos>, order: seq<Pos>, q: Pos)
    requires visited == (set x | x in order) && visited <= AllPos(rows, cols)
    requires forall a, b | 0 <= a < b < |order| :: order[a] != order[b]
    requires q !in visited && 0 <= q.row < rows && 0 <= q.col < cols
    ensures visited + {q} == (set x | x in order + [q]) && visited + {q} <= AllPos(rows, cols)
    ensures forall a, b | 0 <= a < b < |order + [q]| :: (order + [q])[a] != (order + [q])[b]
    ensures AllPos(rows, cols) - (visited + {q}) < AllPos(rows, cols) - visited
  {
    assert q in AllPos(rows, cols);
    assert (set x | x in order + [q]) == visited + {q};
    forall a, b | 0 <= a < b < |order + [q]|
      ensures (order + [q])[a] != (order + [q])[b]
    {
      assert (order + [q])[a] == order[a];
      if b < |order| {
        assert (order + [q])[b] == order[b];
      } else {
        assert order[a] in visited;
      }
    }
  }

  /** Rewriting one more cell with its `minVal` extends the trace by the new grid. */
  lemma TraceStep(before: Grid, after: Grid, order: seq<Pos>, grids: seq<Grid>, q: Pos, v: int, next: Grid)
    requires Traced(before, after, order, grids)
    requires Holds(after, q) && Relabelled(after, q) == Some(v)
    requires next == Paint(after, [q], v)
    ensures Traced(before, next, order + [q], grids + [next])
  {
    var o, gs := order + [q], grids + [next];
    forall i | 0 <= i < |o|
      ensures Holds(gs[i], o[i]) && Relabelled(gs[i], o[i]).Some?
      ensures gs[i + 1] == Paint(gs[i], [o[i]], Relabelled(gs[i], o[i]).value)
    {
      assert gs[i] == grids[i];
      if i < |order| {
        assert o[i] == order[i] && gs[i + 1] == grids[i + 1];
      }
    }
  }

  /** A visited head may leave the queue: every neighbour waiting for it is visited. */
  lemma ClosedTail(before: Grid, visited: set<Pos>, queue: seq<Pos>)
    requires |queue| > 0 && queue[0] in visited && Closed(before, visited, queue)
    ensures Closed(before, visited, queue[1..])
  {
    forall x, m | x in visited && 0 <= m < |DIRS| && Hit(before, x, Between(0, UNVISITED), m)
      ensures Step(x, m) in visited || Step(x, m) in queue[1..]
    {
      if Step(x, m) !in visited {
        InTail(queue, Step(x, m));
      }
    }
  }

  /** A member of a sequence other than its head is in its tail. */
  lemma InTail(s: seq<Pos>, y: Pos)
    requires |s| > 0 && y in s && y != s[0]
    ensures y in s[1..]
  {
    var k :| 0 <= k < |s| && s[k] == y;
    assert s[1..][k - 1] == y;
  }

  /** Visiting the head and queueing its neighbours that hold a label in the rewritten grid
      leaves no labelled neighbour of a visited cell behind. */
  lemma ClosedStep(before: Grid, after: Grid, visited: set<Pos>, queue: seq<Pos>,
                   v: int, next: Grid, pushed: seq<Pos>)
    requires |queue| > 0 && queue[0] !in visited
    requires Kept(before, after, visited) && Closed(before, visited, queue)
    requires Holds(after, queue[0]) && next == Paint(after, [queue[0]], v)
    requires pushed == Select(next, queue[0], Between(0, UNVISITED), |DIRS|)
    ensures Closed(before, visited + {queue[0]}, queue[1..] + pushed)
  {
    var q := queue[0];
    forall x, m | x in visited + {q} && 0 <= m < |DIRS| && Hit(before, x, Between(0, UNVISITED), m)
      ensures Step(x, m) in visited + {q} || Step(x, m) in queue[1..] + pushed
    {
      var y := Step(x, m);
      if x in visited {
        if y !in visited && y != q {
          InTail(queue, y);
        }
      } else if y !in visited {
        StepFacts(q, m);
        assert Pos(y.row, y.col) in [q] <==> y == q;
        assert Hit(next, q, Between(0, UNVISITED), m);
        SelectMembers(next, q, Between(0, UNVISITED), |DIRS|, y);
      }
    }
  }

  /** What the relabelling pass leaves behind: the cells listed in `order`, each once and
      the start first, are the only ones rewritten, in that order, each with its `minVal` at
      the time (`grids` holds the grids in between); they held a label below UNVISITED and
      now hold a non-negative value, and the start holds 0. Every cell that held a label
      below UNVISITED next to a rewritten cell is rewritten too, so the pass covers the
      labelled cells connected to the start. `stages` are the states of the loop, first in,
      first out, ending with an empty queue on `after` and `order`; by `PassUnique` they,
      and so `after` and `order`, are determined by `before`. */
  ghost predicate RelabelledTo(before: Grid, after: Grid, order: seq<Pos>, grids: seq<Grid>, stages: seq<Stage>) {
    && Iterated(before, stages) && stages[|stages| - 1] == Stage(after, [], order)
    && Kept(before, after, set x | x in order) && Origin(after)
    && |order| > 0 && order[0] == Pos(0, 0)
    && (forall a, b | 0 <= a < b < |order| :: order[a] != order[b])
    && Traced(before, after, order, grids)
    && (forall x, m | x in order && 0 <= m < |DIRS| && Hit(before, x, Between(0, UNVISITED), m) ::
          Step(x, m) in order)
  }

  /** The outcome of the pass is determined by the grid it starts from: the rewritten grid
      and the order of the rewrites are the same for any two results that meet the pass's
      contract. */
  lemma RelabelUnique(before: Grid, a1: Grid, o1: seq<Pos>, g1: seq<Grid>, s1: seq<Stage>,
                      a2: Grid, o2: seq<Pos>, g2: seq<Grid>, s2: seq<Stage>)
    requires RelabelledTo(before, a1, o1, g1, s1) && RelabelledTo(before, a2, o2, g2, s2)
    ensures a1 == a2 && o1 == o2
  {
    PassUnique(before, s1, s2);
  }

  /** The relabelling pass on the grid `g`, whose contents are `before`: a breadth-first
      sweep from the start that skips visited coordinates and rewrites every other taken
      cell with its `minVal`, queueing the neighbours that hold a value in `[0, UNVISITED)`.
      It ends with an empty queue; `order` lists the rewritten cells, each once. */
  method Relabel(g: array2<int>, ghost before: Grid)
    returns (ghost after: Grid, ghost order: seq<Pos>, ghost grids: seq<Grid>, ghost stages: seq<Stage>)
    requires g.Length0 > 0 && g.Length1 > 0 && Shaped(before, g.Length0, g.Length1)
    requires forall i, j | 0 <= i < g.Length0 && 0 <= j < g.Length1 :: before[i][j] == g[i, j]
    requires before[0][0] == START
    modifies g
    ensures Shaped(after, g.Length0, g.Length1)
    ensures forall i, j | 0 <= i < g.Length0 && 0 <= j < g.Length1 :: after[i][j] == g[i, j]
    ensures RelabelledTo(before, after, order, grids, stages)
  {
    var queue := [Pos(0, 0)];
    var visited: set<Pos> := {};
    after := before;
    order := [];
    grids := [before];
    stages := [Stage(before, queue, order)];
    assert Holds(before, Pos(0, 0));
    while |queue| > 0
      invariant Shaped(after, g.Length0, g.Length1)
      invariant forall i, j | 0 <= i < g.Length0 && 0 <= j < g.Length1 :: after[i][j] == g[i, j]
      invariant Pass(g.Length0, g.Length1, before, after, visited, queue, order, grids)
      invariant Iterated(before, stages) && stages[|stages| - 1] == Stage(after, queue, order)
      decreases AllPos(g.Length0, g.Length1) - visited, |queue|
    {
      queue, visited, after, order, grids, stages := Advance(g, queue, visited, before, after, order, grids, stages);
    }
    PassDone(g.Length0, g.Length1, before, after, visited, order, grids, stages);
  }

  /** A pass whose queue is empty has relabelled every labelled cell next to one it visited. */
  lemma PassDone(rows: int, cols: int, before: Grid, after: Grid, visited: set<Pos>,
                 order: seq<Pos>, grids: seq<Grid>, stages: seq<Stage>)
    requires Pass(rows, cols, before, after, visited, [], order, grids)
    requires Iterated(before, stages) && stages[|stages| - 1] == Stage(after, [], order)
    ensures RelabelledTo(before, after, order, grids, stages)
  {
  }

  /** The pass only rewrites non-negative cells with non-negative values, so a cell with a
      non-negative neighbour keeps one. */
  lemma KeptSupported(before: Grid, after: Grid, visited: set<Pos>, q: Pos)
    requires Kept(before, after, visited) && Supported(before, q)
    ensures Supported(after, q)
  {
    SupportedBySign(before, after, q);
  }

  // ---------------------------------------------------------------------------
  // One step of the hybrid search

  /** A popped entry is stale when its cell is neither the target, unvisited nor the start:
      the step then only drops it. */
  predicate Stale(cells: Grid, e: Entry)
    requires Holds(cells, e.at)
  {
    Get(cells, e.at) != TARGET && Get(cells, e.at) != UNVISITED && Get(cells, e.at) != START
  }

  /** The entries a live pop pushes: after writing its distance, every in-bounds neighbour
      holding UNVISITED or more (unvisited or the target), in `DIRS` order, with the
      distance plus one; a coordinate already on the stack may be pushed again. */
  function Pushes(cells: Grid, e: Entry): (r: seq<Entry>)
    ensures |r| <= |DIRS|
    ensures forall k | 0 <= k < |r| :: r[k].dist == e.dist + 1 && Adjacent(e.at, r[k].at)
  {
    var written := Paint(cells, [e.at], e.dist);
    Entries(Select(written, e.at, AtLeast(UNVISITED), |DIRS|), e.dist + 1)
  }

  /** The grid after a pop that is not the target. */
  function Resumed(cells: Grid, e: Entry): Grid
    requires Holds(cells, e.at)
  {
    if Stale(cells, e) then cells else Paint(cells, [e.at], e.dist)
  }

  /** The stack after a pop that is not the target. */
  function Continued(cells: Grid, s: seq<Entry>): seq<Entry>
    requires |s| > 0 && Holds(cells, s[|s| - 1].at)
  {
    var e := s[|s| - 1];
    s[..|s| - 1] + (if Stale(cells, e) then [] else Pushes(cells, e))
  }

  /** The invariant of a hybrid run: the start holds 0, and every stacked entry lies in the
      grid with a non-negative distance; an entry for the start carries 0 and any other
      entry's cell has a non-negative neighbour (the cell that pushed it). */
  ghost predicate HybridInv(cells: Grid, s: seq<Entry>) {
    Origin(cells) && Stacked(cells, s)
  }

  /** Every entry of `s` lies in the grid with a non-negative distance; an entry for the
      start carries 0 and any other entry's cell has a non-negative neighbour. */
  ghost predicate Stacked(cells: Grid, s: seq<Entry>) {
    forall k | 0 <= k < |s| ::
      && Holds(cells, s[k].at) && s[k].dist >= 0
      && (if s[k].at == Pos(0, 0) then s[k].dist == 0 else Supported(cells, s[k].at))
  }

  /** A run starts with the start entry at distance 0. */
  lemma HybridInit(cells: Grid)
    requires Origin(cells)
    ensures HybridInv(cells, [Entry(Pos(0, 0), 0)])
  {
  }

  /** Every pop that does not reach the target keeps the run invariant; when the target is
      popped, the invariant gives what the relabelling pass and the final `minVal` need. */
  lemma HybridStep(cells: Grid, s: seq<Entry>)
    requires |s| > 0 && HybridInv(cells, s)
    ensures Holds(cells, s[|s| - 1].at)
    ensures Get(cells, s[|s| - 1].at) == TARGET ==> Supported(cells, s[|s| - 1].at)
    ensures Get(cells, s[|s| - 1].at) != TARGET ==>
      HybridInv(Resumed(cells, s[|s| - 1]), Continued(cells, s))
  {
    var e := s[|s| - 1];
    if Get(cells, e.at) != TARGET && !Stale(cells, e) {
      HybridLive(cells, s);
    } else if Get(cells, e.at) != TARGET {
      assert Continued(cells, s) == s[..|s| - 1];
    }
  }

  lemma HybridLive(cells: Grid, s: seq<Entry>)
    requires |s| > 0 && HybridInv(cells, s)
    requires Holds(cells, s[|s| - 1].at) && !Stale(cells, s[|s| - 1]) && Get(cells, s[|s| - 1].at) != TARGET
    ensures HybridInv(Resumed(cells, s[|s| - 1]), Continued(cells, s))
  {
    var e := s[|s| - 1];
    assert e.dist >= 0 && (e.at == Pos(0, 0) ==> e.dist == 0);
    StackedPrefix(cells, s, |s| - 1);
    LiveStacked(cells, e, s[..|s| - 1]);
  }

  /** Writing a live entry and pushing its neighbours keeps the rest of the frontier and
      the pushed entries well stacked, and the start at 0. */
  lemma LiveStacked(cells: Grid, e: Entry, rest: seq<Entry>)
    requires Origin(cells) && Stacked(cells, rest) && Holds(cells, e.at) && e.dist >= 0
    requires Get(cells, e.at) == UNVISITED || (Get(cells, e.at) == START && (e.at == Pos(0, 0) ==> e.dist == 0))
    ensures Origin(Paint(cells, [e.at], e.dist))
    ensures Stacked(Paint(cells, [e.at], e.dist), rest + Pushes(cells, e))
  {
    var written := Paint(cells, [e.at], e.dist);
    var pushed := Select(written, e.at, AtLeast(UNVISITED), |DIRS|);
    WrittenSigns(cells, e);
    assert Get(written, e.at) == e.dist by {
      assert e.at in [e.at];
    }
    StackedBySign(cells, written, rest);
    StackedPushed(written, e.at, e.dist + 1, pushed);
    StackedJoin(written, rest, Entries(pushed, e.dist + 1));
  }

  /** A prefix of a well-stacked frontier is well stacked. */
  lemma StackedPrefix(cells: Grid, s: seq<Entry>, n: nat)
    requires Stacked(cells, s) && n <= |s|
    ensures Stacked(cells, s[..n])
  {
    forall k | 0 <= k < n
      ensures s[..n][k] == s[k]
    {
    }
  }

  /** Two well-stacked frontiers, one after the other, are well stacked. */
  lemma StackedJoin(cells: Grid, a: seq<Entry>, b: seq<Entry>)
    requires Stacked(cells, a) && Stacked(cells, b)
    ensures Stacked(cells, a + b)
  {
    forall k | 0 <= k < |a + b|
      ensures (a + b)[k] == if k < |a| then a[k] else b[k - |a|]
    {
    }
  }

  /** Entries stay well stacked on a grid of the same shape whose cells have the same signs. */
  lemma StackedBySign(a: Grid, b: Grid, s: seq<Entry>)
    requires Stacked(a, s)
    requires |a| == |b| && forall i | 0 <= i < |a| :: |a[i]| == |b[i]|
    requires forall i, j | 0 <= i < |a| && 0 <= j < |a[i]| :: (a[i][j] >= 0) == (b[i][j] >= 0)
    ensures Stacked(b, s)
  {
    forall k | 0 <= k < |s| && s[k].at != Pos(0, 0)
      ensures Supported(b, s[k].at)
    {
      SupportedBySign(a, b, s[k].at);
    }
  }

  /** The entries a live pop pushes from a non-negative cell, with a positive distance, are
      well stacked: none is the start, which holds 0. */
  lemma StackedPushed(cells: Grid, at: Pos, d: int, pushed: seq<Pos>)
    requires Origin(cells) && Holds(cells, at) && Get(cells, at) >= 0 && d >= 1
    requires pushed == Select(cells, at, AtLeast(UNVISITED), |DIRS|)
    ensures Stacked(cells, Entries(pushed, d))
  {
    var t := Entries(pushed, d);
    forall k | 0 <= k < |t|
      ensures Holds(cells, t[k].at) && t[k].at != Pos(0, 0) && Supported(cells, t[k].at)
    {
      assert t[k].at == pushed[k] && pushed[k] in pushed;
      PushedSupported(cells, at, AtLeast(UNVISITED), pushed[k]);
    }
  }

  /** Writing a live entry's distance keeps the start at 0 and the sign of every cell. */
  lemma WrittenSigns(cells: Grid, e: Entry)
    requires Origin(cells) && Holds(cells, e.at) && e.dist >= 0
    requires Get(cells, e.at) == UNVISITED || (Get(cells, e.at) == START && (e.at == Pos(0, 0) ==> e.dist == 0))
    ensures Origin(Paint(cells, [e.at], e.dist))
    ensures forall i, j | 0 <= i < |cells| && 0 <= j < |cells[i]| ::
      (cells[i][j] >= 0) == (Paint(cells, [e.at], e.dist)[i][j] >= 0)
  {
    var written := Paint(cells, [e.at], e.dist);
    forall i, j | 0 <= i < |cells| && 0 <= j < |cells[i]|
      ensures (cells[i][j] >= 0) == (written[i][j] >= 0)
    {
      assert Pos(i, j) in [e.at] <==> Pos(i, j) == e.at;
    }
    assert Pos(0, 0) in [e.at] <==> Pos(0, 0) == e.at;
  }

  /** A neighbour a scan collects from a cell holding a non-negative value has a
      non-negative neighbour: the cell it was collected from. */
  lemma PushedSupported(cells: Grid, q: Pos, t: Test, x: Pos)
    requires Holds(cells, q) && Get(cells, q) >= 0
    requires x in Select(cells, q, t, |DIRS|)
    ensures Holds(cells, x) && Passes(t, Get(cells, x)) && Supported(cells, x)
  {
    SelectMembers(cells, q, t, |DIRS|, x);
    var m :| 0 <= m < |DIRS| && x == Step(q, m) && Hit(cells, q, t, m);
    StepFacts(q, m);
    assert Hit(cells, x, AtLeast(0), Back(m));
  }

  /** After the relabelling pass the popped target still holds TARGET and still has a
      non-negative neighbour, so its `minVal` is finite. */
  lemma FinishDefined(before: Grid, mid: Grid, order: seq<Pos>, grids: seq<Grid>, stages: seq<Stage>, cur: Pos)
    requires Holds(before, cur) && Get(before, cur) == TARGET && Supported(before, cur)
    requires RelabelledTo(before, mid, order, grids, stages)
    ensures Holds(mid, cur) && Get(mid, cur) == TARGET && Relabelled(mid, cur).Some?
  {
    KeptSupported(before, mid, (set x | x in order), cur);
    RelabelledFacts(mid, cur);
  }

  /** The target branch on the grid `g`, whose contents are `before`: run the relabelling
      pass, rewrite the target with its `minVal` and walk the labels back from it. */
  method Finish(g: array2<int>, cur: Pos, ghost before: Grid)
    returns (path: set<Pos>, ghost mid: Grid, ghost order: seq<Pos>, ghost grids: seq<Grid>,
             ghost stages: seq<Stage>, ghost after: Grid)
    requires Inside(g, cur) && Shaped(before, g.Length0, g.Length1)
    requires forall i, j | 0 <= i < g.Length0 && 0 <= j < g.Length1 :: before[i][j] == g[i, j]
    requires Get(before, cur) == TARGET && Origin(before) && Supported(before, cur)
    modifies g
    ensures RelabelledTo(before, mid, order, grids, stages) && Holds(mid, cur) && Relabelled(mid, cur).Some?
    ensures after == Paint(mid, [cur], Relabelled(mid, cur).value)
    ensures Shaped(after, g.Length0, g.Length1)
    ensures forall i, j | 0 <= i < g.Length0 && 0 <= j < g.Length1 :: after[i][j] == g[i, j]
    ensures path == Trail(after, cur)
  {
    mid, order, grids, stages := Relabel(g, before);
    FinishDefined(before, mid, order, grids, stages, cur);
    var v := MinVal(g, cur, mid);
    after := Write(g, cur, v.value, mid);
    path := FindPath(g, cur, after);
  }

  /** One step of the hybrid search on the grid `g`, whose contents are `before`: pop the
      last entry. A target is only recognised when popped: then the pass relabels the
      grid, the target gets its `minVal`, the stack empties and the path is returned. A
      stale entry is dropped. Otherwise its distance is written and its unvisited-or-target
      neighbours are pushed. `after` is the new grid. */
  method DfsToBfs(g: array2<int>, stack: seq<Entry>, ghost before: Grid)
    returns (out: Outcome<Entry>, path: set<Pos>, ghost mid: Grid, ghost order: seq<Pos>, ghost grids: seq<Grid>,
             ghost stages: seq<Stage>, ghost after: Grid)
    requires |stack| > 0 && Inside(g, stack[|stack| - 1].at)
    requires Shaped(before, g.Length0, g.Length1)
    requires forall i, j | 0 <= i < g.Length0 && 0 <= j < g.Length1 :: before[i][j] == g[i, j]
    requires Get(before, stack[|stack| - 1].at) == TARGET ==>
      Origin(before) && Supported(before, stack[|stack| - 1].at)
    modifies g
    ensures Shaped(after, g.Length0, g.Length1)
    ensures forall i, j | 0 <= i < g.Length0 && 0 <= j < g.Length1 :: after[i][j] == g[i, j]
    ensures out.current == stack[|stack| - 1].at
    ensures out.done <==> Get(before, stack[|stack| - 1].at) == TARGET
    ensures Get(before, stack[|stack| - 1].at) == TARGET ==>
      && out.next == []
      && RelabelledTo(before, mid, order, grids, stages) && Holds(mid, out.current) && Relabelled(mid, out.current).Some?
      && after == Paint(mid, [out.current], Relabelled(mid, out.current).value)
      && path == Trail(after, out.current)
    ensures Get(before, stack[|stack| - 1].at) != TARGET ==>
      && out.next == Continued(before, stack)
      && after == Resumed(before, stack[|stack| - 1])
      && path == {}
  {
    var current := stack[|stack| - 1].at;
    if g[current.row, current.col] == TARGET {
      path, mid, order, grids, stages, after := Finish(g, current, before);
      return Outcome(current, [], true), path, mid, order, grids, stages, after;
    }
    var next;
    next, after := Resume(g, stack, before);
    return Outcome(current, next, false), {}, before, [], [before], [], after;
  }

  /** A pop that is not the target, on the grid `g`, whose contents are `before`: a stale
      entry is dropped; otherwise its distance is written and its neighbours holding
      UNVISITED or more are pushed with the distance plus one. */
  method Resume(g: array2<int>, stack: seq<Entry>, ghost before: Grid) returns (next: seq<Entry>, ghost after: Grid)
    requires |stack| > 0 && Inside(g, stack[|stack| - 1].at)
    requires Shaped(before, g.Length0, g.Length1)
    requires forall i, j | 0 <= i < g.Length0 && 0 <= j < g.Length1 :: before[i][j] == g[i, j]
    requires Get(before, stack[|stack| - 1].at) != TARGET
    modifies g
    ensures Shaped(after, g.Length0, g.Length1)
    ensures forall i, j | 0 <= i < g.Length0 && 0 <= j < g.Length1 :: after[i][j] == g[i, j]
    ensures next == Continued(before, stack)
    ensures after == Resumed(before, stack[|stack| - 1])
  {
    var e := stack[|stack| - 1];
    var current := e.at;
    if g[current.row, current.col] != UNVISITED && g[current.row, current.col] != START {
      return stack[..|stack| - 1], before;
    }
    var pushes;
    pushes, after := Spill(g, e, before);
    next := stack[..|stack| - 1] + pushes;
  }

  /** A live pop: write the carried distance, then collect every neighbour holding
      UNVISITED or more, carrying the distance plus one. */
  method Spill(g: array2<int>, e: Entry, ghost before: Grid) returns (pushes: seq<Entry>, ghost after: Grid)
    requires Inside(g, e.at) && Shaped(before, g.Length0, g.Length1)
    requires forall i, j | 0 <= i < g.Length0 && 0 <= j < g.Length1 :: before[i][j] == g[i, j]
    modifies g
    ensures Shaped(after, g.Length0, g.Length1)
    ensures forall i, j | 0 <= i < g.Length0 && 0 <= j < g.Length1 :: after[i][j] == g[i, j]
    ensures after == Paint(before, [e.at], e.dist) && pushes == Pushes(before, e)
  {
    after := Write(g, e.at, e.dist, before);
    var pushed := Gather(g, e.at, AtLeast(UNVISITED), after);
    pushes := Entries(pushed, g[e.at.row, e.at.col] + 1);
  }
}
