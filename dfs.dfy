/** One depth-first step (src/algos/dfs.ts): pop the newest frontier entry, write the
    distance it carries into its cell, mark its unvisited neighbours DISCOVERED and push
    them with that distance plus one, and stop as soon as a neighbour is the target. */
module DfsStep {
  import opened Cells
  import opened Sweep

  /** The depth-first frontier invariant: every entry lies in the grid, no two entries
      share a coordinate, and no entry's cell still holds UNVISITED. */
  ghost predicate Spread(cells: Grid, s: seq<Entry>) {
    && (forall k | 0 <= k < |s| :: Holds(cells, s[k].at) && Get(cells, s[k].at) != UNVISITED)
    && (forall k, l | 0 <= k < l < |s| :: s[k].at != s[l].at)
  }

  /** The grid and frontier a step leaves behind, as values. */
  function After(cells: Grid, e: Entry): Grid
    requires Holds(cells, e.at)
  {
    var written := Paint(cells, [e.at], e.dist);
    Paint(written, Claimed(written, e.at), DISCOVERED)
  }

  function Pushed(cells: Grid, s: seq<Entry>): seq<Entry>
    requires |s| > 0 && Holds(cells, s[|s| - 1].at)
  {
    var e := s[|s| - 1];
    s[..|s| - 1] + Entries(Claimed(Paint(cells, [e.at], e.dist), e.at), e.dist + 1)
  }

  /** Because a pushed cell is marked DISCOVERED at once, a step keeps the frontier free
      of duplicate coordinates; so from the initial frontier no coordinate is ever queued
      twice at the same time. */
  lemma SpreadStep(cells: Grid, s: seq<Entry>)
    requires |s| > 0 && Spread(cells, s)
    ensures Spread(After(cells, s[|s| - 1]), Pushed(cells, s))
  {
    var e := s[|s| - 1];
    var written := Paint(cells, [e.at], e.dist);
    var added := Claimed(written, e.at);
    ClaimedFacts(written, e.at, e.at);
    SpreadKept(cells, s, written, added);
  }

  /** The initial frontier, the start at distance 0, meets the frontier invariant. */
  lemma SpreadInit(cells: Grid)
    requires Holds(cells, Pos(0, 0)) && Get(cells, Pos(0, 0)) == START
    ensures Spread(cells, [Entry(Pos(0, 0), 0)])
  {
  }

  /** One depth-first step on a grid and its frontier, or nothing once the frontier is
      empty. */
  function Next(r: (Grid, seq<Entry>)): (Grid, seq<Entry>)
  {
    if |r.1| == 0 || !Holds(r.0, r.1[|r.1| - 1].at) then r
    else (After(r.0, r.1[|r.1| - 1]), Pushed(r.0, r.1))
  }

  /** `run` is a run of depth-first steps: each state is the step applied to the one
      before. */
  ghost predicate Run(run: seq<(Grid, seq<Entry>)>) {
    forall k | 0 < k < |run| :: run[k] == Next(run[k - 1])
  }

  ghost predicate SpreadAfter(r: (Grid, seq<Entry>)) {
    Spread(r.0, r.1)
  }

  /** A run that starts from a frontier meeting the invariant, such as the initial one,
      keeps it in every state: no coordinate is ever on the frontier twice at once. */
  lemma {:induction false} SpreadRun(run: seq<(Grid, seq<Entry>)>, k: nat)
    requires Run(run) && 0 < |run| && SpreadAfter(run[0]) && k < |run|
    ensures SpreadAfter(run[k])
  {
    if k > 0 {
      SpreadRun(run, k - 1);
      SpreadNext(run[k - 1]);
    }
  }

  lemma SpreadNext(r: (Grid, seq<Entry>))
    requires SpreadAfter(r)
    ensures SpreadAfter(Next(r))
  {
    if |r.1| > 0 {
      SpreadStep(r.0, r.1);
    }
  }

  /** The coordinates the next step claims: the UNVISITED neighbours of the top entry
      before the first target, read once the top's distance is written; none once the
      frontier is empty. */
  function Claims(r: (Grid, seq<Entry>)): seq<Pos> {
    if |r.1| == 0 || !Holds(r.0, r.1[|r.1| - 1].at) then []
    else
      var e := r.1[|r.1| - 1];
      Claimed(Paint(r.0, [e.at], e.dist), e.at)
  }

  /** A step pops the top entry and pushes exactly the cells it claims, with the top's
      distance plus one; on an empty frontier it claims and changes nothing. */
  lemma ClaimsPushed(r: (Grid, seq<Entry>))
    ensures |r.1| > 0 && Holds(r.0, r.1[|r.1| - 1].at) ==>
      Next(r).1 == r.1[..|r.1| - 1] + Entries(Claims(r), r.1[|r.1| - 1].dist + 1)
    ensures |r.1| == 0 ==> Claims(r) == [] && Next(r) == r
  {
  }

  /** No state of the run has an entry carrying the distance UNVISITED on top, so no step
      writes UNVISITED back into a cell. */
  ghost predicate PopsBelow(run: seq<(Grid, seq<Entry>)>) {
    forall k | 0 <= k < |run| && |run[k].1| > 0 :: run[k].1[|run[k].1| - 1].dist != UNVISITED
  }

  /** A cell that no longer holds UNVISITED keeps it off through a step that does not pop
      the distance UNVISITED. */
  lemma NextMarked(r: (Grid, seq<Entry>), p: Pos)
    requires Holds(r.0, p) && Get(r.0, p) != UNVISITED
    requires |r.1| > 0 ==> r.1[|r.1| - 1].dist != UNVISITED
    ensures Holds(Next(r).0, p) && Get(Next(r).0, p) != UNVISITED
  {
    if |r.1| > 0 && Holds(r.0, r.1[|r.1| - 1].at) {
      var e := r.1[|r.1| - 1];
      var written := Paint(r.0, [e.at], e.dist);
      assert Get(written, p) != UNVISITED;
    }
  }

  /** Every cell a step claims holds DISCOVERED afterwards. */
  lemma NextClaims(r: (Grid, seq<Entry>), p: Pos)
    requires p in Claims(r)
    ensures Holds(Next(r).0, p) && Get(Next(r).0, p) == DISCOVERED
  {
    var e := r.1[|r.1| - 1];
    ClaimedFacts(Paint(r.0, [e.at], e.dist), e.at, e.at);
  }

  /** Once a cell has left UNVISITED it never holds UNVISITED again later in the run, as long
      as no step pops the distance UNVISITED. */
  lemma {:induction false} StaysMarked(run: seq<(Grid, seq<Entry>)>, i: nat, j: nat, p: Pos)
    requires Run(run) && PopsBelow(run) && i <= j < |run|
    requires Holds(run[i].0, p) && Get(run[i].0, p) != UNVISITED
    ensures Holds(run[j].0, p) && Get(run[j].0, p) != UNVISITED
    decreases j - i
  {
    if i < j {
      StaysMarked(run, i, j - 1, p);
      NextMarked(run[j - 1], p);
    }
  }

  /** A step that does not pop the distance UNVISITED claims no cell that is already off
      UNVISITED. */
  lemma ClaimedMarked(t: (Grid, seq<Entry>), p: Pos)
    requires Holds(t.0, p) && Get(t.0, p) != UNVISITED
    requires |t.1| > 0 ==> t.1[|t.1| - 1].dist != UNVISITED
    ensures p !in Claims(t)
  {
    if |t.1| > 0 && Holds(t.0, t.1[|t.1| - 1].at) {
      var e := t.1[|t.1| - 1];
      var written := Paint(t.0, [e.at], e.dist);
      assert Get(written, p) != UNVISITED;
      ClaimedFacts(written, e.at, p);
    }
  }

  /** The DISCOVERED mark makes every push final: a coordinate claimed and pushed at step
      `i` of a run is not claimed again at any later step `j`, so no cell gets a distance
      from two different pushes. */
  lemma PushedOnce(run: seq<(Grid, seq<Entry>)>, i: nat, j: nat, p: Pos)
    requires Run(run) && PopsBelow(run) && i < j < |run| && p in Claims(run[i])
    ensures p !in Claims(run[j])
  {
    NextClaims(run[i], p);
    StaysMarked(run, i + 1, j, p);
    ClaimedMarked(run[j], p);
  }

  lemma SpreadKept(cells: Grid, s: seq<Entry>, written: Grid, added: seq<Pos>)
    requires |s| > 0 && Spread(cells, s)
    requires written == Paint(cells, [s[|s| - 1].at], s[|s| - 1].dist)
    requires forall i | 0 <= i < |added| :: Holds(written, added[i]) && Get(written, added[i]) == UNVISITED
    requires forall a, b | 0 <= a < b < |added| :: added[a] != added[b]
    ensures var e := s[|s| - 1];
      Spread(Paint(written, added, DISCOVERED), s[..|s| - 1] + Entries(added, e.dist + 1))
  {
    SpreadCells(cells, s, written, added);
    var e := s[|s| - 1];
    var t := s[..|s| - 1] + Entries(added, e.dist + 1);
    forall k, l | 0 <= k < l < |t|
      ensures t[k].at != t[l].at
    {
      if l >= |s| - 1 && k < |s| - 1 {
        assert t[l].at == added[l - (|s| - 1)];
      } else if k >= |s| - 1 {
        assert t[k].at == added[k - (|s| - 1)] && t[l].at == added[l - (|s| - 1)];
      }
    }
  }

  /** After a step every frontier cell is in the grid and no longer UNVISITED, and the
      entries kept from before are not among the newly claimed cells. */
  lemma SpreadCells(cells: Grid, s: seq<Entry>, written: Grid, added: seq<Pos>)
    requires |s| > 0 && Spread(cells, s)
    requires written == Paint(cells, [s[|s| - 1].at], s[|s| - 1].dist)
    requires forall i | 0 <= i < |added| :: Holds(written, added[i]) && Get(written, added[i]) == UNVISITED
    ensures var e := s[|s| - 1];
      var after := Paint(written, added, DISCOVERED);
      var t := s[..|s| - 1] + Entries(added, e.dist + 1);
      forall k | 0 <= k < |t| ::
        && Holds(after, t[k].at) && Get(after, t[k].at) != UNVISITED
        && (k < |s| - 1 ==> t[k].at !in added)
  {
    var e := s[|s| - 1];
    var after := Paint(written, added, DISCOVERED);
    var t := s[..|s| - 1] + Entries(added, e.dist + 1);
    forall k | 0 <= k < |t|
      ensures Holds(after, t[k].at) && Get(after, t[k].at) != UNVISITED
      ensures k < |s| - 1 ==> t[k].at !in added
    {
      if k < |s| - 1 {
        assert t[k] == s[k] && s[k].at != e.at;
        assert Get(written, s[k].at) == Get(cells, s[k].at);
      } else {
        assert t[k].at == added[k - (|s| - 1)];
      }
    }
  }

  /** One depth-first step on the grid `g`, whose contents are `before`. The frontier
      loses its last entry and gains one entry per claimed neighbour, carrying the popped
      distance plus one; the grid changes in place. */
  method Dfs(g: array2<int>, stack: seq<Entry>, ghost before: Grid) returns (out: Outcome<Entry>)
    requires |stack| > 0 && Inside(g, stack[|stack| - 1].at)
    requires Shaped(before, g.Length0, g.Length1)
    requires forall i, j | 0 <= i < g.Length0 && 0 <= j < g.Length1 :: before[i][j] == g[i, j]
    modifies g
    ensures out.current == stack[|stack| - 1].at
    ensures out.next == Pushed(before, stack)
    ensures var e := stack[|stack| - 1];
      out.done <==> Select(Paint(before, [e.at], e.dist), e.at, Equals(TARGET), |DIRS|) != []
    ensures forall i, j | 0 <= i < g.Length0 && 0 <= j < g.Length1 ::
      g[i, j] == After(before, stack[|stack| - 1])[i][j]
  {
    var e := stack[|stack| - 1];
    var current := e.at;
    ghost var written := Write(g, current, e.dist, before);
    var found, added := Scan(g, current, DISCOVERED, written);
    assert current !in added;
    return Outcome(current, stack[..|stack| - 1] + Entries(added, g[current.row, current.col] + 1), found);
  }
}
