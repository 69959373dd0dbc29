/** One breadth-first step (src/algos/bfs.ts): take the oldest frontier entry, label its
    unvisited neighbours with its distance plus one and queue them, and stop as soon as
    a neighbour is the target. */
module BfsStep {
  import opened Cells
  import opened Sweep

  /** The breadth-first layer invariant: every queued cell lies in the grid and already
      carries a label, and the labels along the queue are non-decreasing and span at most one. */
  ghost predicate Layered(cells: Grid, s: seq<Pos>) {
    && (forall k | 0 <= k < |s| ::
          Holds(cells, s[k]) && Get(cells, s[k]) != UNVISITED && Get(cells, s[k]) != TARGET)
    && (forall k, l | 0 <= k < l < |s| :: Get(cells, s[k]) <= Get(cells, s[l]))
    && (forall l | 0 <= l < |s| :: Get(cells, s[l]) <= Get(cells, s[0]) + 1)
  }

  /** The initial frontier, the start, meets the layer invariant. */
  lemma LayeredInit(cells: Grid)
    requires Holds(cells, Pos(0, 0)) && Get(cells, Pos(0, 0)) == START
    ensures Layered(cells, [Pos(0, 0)])
  {
  }

  /** A step keeps the layer invariant, and the next cell to be taken carries a label no
      smaller than the one just taken, provided the new label does not collide with a sentinel. */
  lemma LayerStep(cells: Grid, s: seq<Pos>)
    requires |s| > 0 && Layered(cells, s)
    requires Get(cells, s[0]) + 1 != UNVISITED && Get(cells, s[0]) + 1 != TARGET
    ensures var added := Claimed(cells, s[0]);
      var after := Paint(cells, added, Get(cells, s[0]) + 1);
      && Layered(after, s[1..] + added)
      && (|s| > 1 || added != [] ==> Get(cells, s[0]) <= Get(after, (s[1..] + added)[0]))
  {
    var added := Claimed(cells, s[0]);
    assert forall x | x in added :: Holds(cells, x) && Get(cells, x) == UNVISITED;
    StepValues(cells, s, added);
    StepOrdered(cells, s, added);
    StepSpan(cells, s, added);
  }

  /** The labels after a step: queued cells that stay keep their label, cells appended
      (which held UNVISITED) carry the taken cell's label plus one. */
  lemma StepValues(cells: Grid, s: seq<Pos>, added: seq<Pos>)
    requires |s| > 0 && Layered(cells, s)
    requires Get(cells, s[0]) + 1 != UNVISITED && Get(cells, s[0]) + 1 != TARGET
    requires forall x | x in added :: Holds(cells, x) && Get(cells, x) == UNVISITED
    ensures var after := Paint(cells, added, Get(cells, s[0]) + 1);
      var t := s[1..] + added;
      forall k | 0 <= k < |t| ::
        && Holds(after, t[k])
        && Get(after, t[k]) == (if k < |s| - 1 then Get(cells, s[k + 1]) else Get(cells, s[0]) + 1)
        && Get(after, t[k]) != UNVISITED && Get(after, t[k]) != TARGET
  {
    var d := Get(cells, s[0]);
    var after := Paint(cells, added, d + 1);
    var t := s[1..] + added;
    forall k | 0 <= k < |t|
      ensures Holds(after, t[k])
      ensures Get(after, t[k]) == if k < |s| - 1 then Get(cells, s[k + 1]) else d + 1
    {
      if k < |s| - 1 {
        assert t[k] == s[k + 1];
        assert t[k] !in added;
      } else {
        assert t[k] == added[k - (|s| - 1)] && added[k - (|s| - 1)] in added;
      }
    }
  }

  lemma StepOrdered(cells: Grid, s: seq<Pos>, added: seq<Pos>)
    requires |s| > 0 && Layered(cells, s)
    requires Get(cells, s[0]) + 1 != UNVISITED && Get(cells, s[0]) + 1 != TARGET
    requires forall x | x in added :: Holds(cells, x) && Get(cells, x) == UNVISITED
    ensures var after := Paint(cells, added, Get(cells, s[0]) + 1);
      var t := s[1..] + added;
      && (forall k | 0 <= k < |t| :: Holds(after, t[k]))
      && (forall k, l | 0 <= k < l < |t| :: Get(after, t[k]) <= Get(after, t[l]))
  {
    var d := Get(cells, s[0]);
    var after := Paint(cells, added, d + 1);
    var t := s[1..] + added;
    StepValues(cells, s, added);
    forall k, l | 0 <= k < l < |t|
      ensures Get(after, t[k]) <= Get(after, t[l])
    {
      if l < |s| - 1 {
        assert Get(cells, s[k + 1]) <= Get(cells, s[l + 1]);
      } else if k < |s| - 1 {
        assert Get(cells, s[k + 1]) <= d + 1;
      }
    }
  }

  lemma StepSpan(cells: Grid, s: seq<Pos>, added: seq<Pos>)
    requires |s| > 0 && Layered(cells, s)
    requires Get(cells, s[0]) + 1 != UNVISITED && Get(cells, s[0]) + 1 != TARGET
    requires forall x | x in added :: Holds(cells, x) && Get(cells, x) == UNVISITED
    ensures var after := Paint(cells, added, Get(cells, s[0]) + 1);
      var t := s[1..] + added;
      && (forall k | 0 <= k < |t| :: Holds(after, t[k]))
      && (forall l | 0 <= l < |t| :: Get(after, t[l]) <= Get(after, t[0]) + 1)
      && (|t| > 0 ==> Get(cells, s[0]) <= Get(after, t[0]))
  {
    var d := Get(cells, s[0]);
    var after := Paint(cells, added, d + 1);
    var t := s[1..] + added;
    StepValues(cells, s, added);
    forall l | 0 <= l < |t|
      ensures Get(after, t[l]) <= Get(after, t[0]) + 1
    {
      if l < |s| - 1 {
        assert Get(cells, s[0]) <= Get(cells, s[1]);
        assert Get(cells, s[l + 1]) <= d + 1;
      }
    }
    if |s| > 1 {
      assert Get(cells, s[0]) <= Get(cells, s[1]);
    }
  }

  /** One breadth-first step on the grid `g`, whose contents are `before`: take the oldest
      entry of `stack`, label every unvisited in-bounds neighbour with the entry's value plus
      one and queue it at the back in `DIRS` order, stopping at the first neighbour that holds
      TARGET. The grid changes in place; the frontier is a new sequence. */
  method Bfs(g: array2<int>, stack: seq<Pos>, ghost before: Grid) returns (out: Outcome<Pos>)
    requires |stack| > 0 && Inside(g, stack[0])
    requires Shaped(before, g.Length0, g.Length1)
    requires forall i, j | 0 <= i < g.Length0 && 0 <= j < g.Length1 :: before[i][j] == g[i, j]
    modifies g
    ensures out.current == stack[0]
    ensures out.next == stack[1..] + Claimed(before, stack[0])
    ensures forall i, j | 0 <= i < g.Length0 && 0 <= j < g.Length1 ::
      g[i, j] == if Pos(i, j) in Claimed(before, stack[0]) then Get(before, stack[0]) + 1 else before[i][j]
    ensures out.done <==> Select(before, stack[0], Equals(TARGET), |DIRS|) != []
  {
    var current := stack[0];
    var found, added := Scan(g, current, g[current.row, current.col] + 1, before);
    return Outcome(current, stack[1..] + added, found);
  }
}
