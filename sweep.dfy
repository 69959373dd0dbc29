/** The neighbour loop shared by the breadth-first and depth-first steps: visit the four
    neighbours of a cell in `DIRS` order, skip those outside the grid, stop at the first
    one holding TARGET, and overwrite every UNVISITED one with a mark. */
module Sweep {
  import opened Cells

  /** The neighbours such a loop claims: those holding UNVISITED, scanned in `DIRS`
      order up to (not including) the first neighbour holding TARGET. */
  function Claimed(cells: Grid, cur: Pos): seq<Pos> {
    Select(cells, cur, Equals(UNVISITED), FirstHit(cells, cur, Equals(TARGET), 0))
  }

  /** The claimed neighbours are in-bounds, adjacent, held UNVISITED, are distinct and
      number at most four; a neighbour is claimed exactly when it comes before the first
      target in `DIRS` order and holds UNVISITED. */
  lemma ClaimedFacts(cells: Grid, cur: Pos, q: Pos)
    ensures var r := Claimed(cells, cur);
      && |r| <= |DIRS|
      && (forall i | 0 <= i < |r| ::
            Holds(cells, r[i]) && Get(cells, r[i]) == UNVISITED && Adjacent(cur, r[i]))
      && (forall a, b | 0 <= a < b < |r| :: r[a] != r[b])
      && (q in r <==> exists m | 0 <= m < FirstHit(cells, cur, Equals(TARGET), 0) ::
            q == Step(cur, m) && Hit(cells, cur, Equals(UNVISITED), m))
  {
    var stop := FirstHit(cells, cur, Equals(TARGET), 0);
    SelectDistinct(cells, cur, Equals(UNVISITED), stop);
    SelectMembers(cells, cur, Equals(UNVISITED), stop, q);
  }

  /** One pass of the loop, in direction `k`, on the grid `g` whose contents were `before`
      and in which the earlier directions claimed `seen`: skip an out-of-bounds neighbour,
      report one holding TARGET, overwrite an UNVISITED one with `mark`. */
  method Visit(g: array2<int>, cur: Pos, k: nat, mark: int, ghost before: Grid, ghost seen: seq<Pos>)
    returns (found: bool, pushed: seq<Pos>)
    requires k < |DIRS| && Inside(g, cur) && Shaped(before, g.Length0, g.Length1)
    requires seen == Select(before, cur, Equals(UNVISITED), k)
    requires forall i, j | 0 <= i < g.Length0 && 0 <= j < g.Length1 ::
      g[i, j] == if Pos(i, j) in seen then mark else before[i][j]
    modifies g
    ensures found == Hit(before, cur, Equals(TARGET), k)
    ensures found ==> pushed == [] && unchanged(g)
    ensures !found ==> seen + pushed == Select(before, cur, Equals(UNVISITED), k + 1)
    ensures !found ==> forall i, j | 0 <= i < g.Length0 && 0 <= j < g.Length1 ::
      g[i, j] == if Pos(i, j) in seen + pushed then mark else before[i][j]
  {
    var (di, dj) := DIRS[k];
    var r, c := cur.row + di, cur.col + dj;
    ghost var q := Step(cur, k);
    assert q == Pos(r, c);
    SelectNext(before, cur, Equals(UNVISITED), k);
    if r < 0 || r >= g.Length0 || c < 0 || c >= g.Length1 {
      assert !Holds(before, q);
      return false, [];
    }
    assert Holds(before, q);
    SelectBefore(before, cur, Equals(UNVISITED), k, k);
    assert g[r, c] == before[r][c];
    if g[r, c] == TARGET {
      return true, [];
    }
    if g[r, c] == UNVISITED {
      assert Hit(before, cur, Equals(UNVISITED), k);
      g[r, c] := mark;
      return false, [Pos(r, c)];
    }
    assert !Hit(before, cur, Equals(UNVISITED), k);
    return false, [];
  }

  /** The whole loop: the neighbours it claimed, each now holding `mark`, and whether it
      stopped at a neighbour holding TARGET. Every other cell, `cur` included, is unchanged. */
  method Scan(g: array2<int>, cur: Pos, mark: int, ghost before: Grid) returns (found: bool, added: seq<Pos>)
    requires Inside(g, cur) && Shaped(before, g.Length0, g.Length1)
    requires forall i, j | 0 <= i < g.Length0 && 0 <= j < g.Length1 :: before[i][j] == g[i, j]
    modifies g
    ensures added == Claimed(before, cur)
    ensures found <==> Select(before, cur, Equals(TARGET), |DIRS|) != []
    ensures forall i, j | 0 <= i < g.Length0 && 0 <= j < g.Length1 ::
      g[i, j] == if Pos(i, j) in added then mark else before[i][j]
  {
    ghost var stop := FirstHit(before, cur, Equals(TARGET), 0);
    FirstHitFound(before, cur, Equals(TARGET));
    added := [];
    for k := 0 to |DIRS|
      invariant stop == FirstHit(before, cur, Equals(TARGET), k)
      invariant added == Select(before, cur, Equals(UNVISITED), k)
      invariant forall i, j | 0 <= i < g.Length0 && 0 <= j < g.Length1 ::
        g[i, j] == if Pos(i, j) in added then mark else before[i][j]
    {
      var pushed;
      found, pushed := Visit(g, cur, k, mark, before, added);
      if found {
        return;
      }
      added := added + pushed;
    }
    found := false;
  }
}
