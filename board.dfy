/** The grid rewrites of the board component (src/components/Grid.tsx): the fresh grid, the
    random grid, the reset that clears labels before a rerun, and the mouse edits that
    toggle walls and move the target. Each works on a copy of the grid. */
module Board {
  import opened Cells

  /** The board's fixed dimensions. */
  const ROWS := 20
  const COLS := 40

  /** A grid of `rows` rows of `cols` cells, all holding `v`. */
  function Fill(rows: nat, cols: nat, v: int): (r: Grid)
    ensures Shaped(r, rows, cols)
    ensures forall i, j | 0 <= i < rows && 0 <= j < cols :: r[i][j] == v
  {
    seq(rows, i => seq(cols, j => v))
  }

  /** `cells` with the one cell at `p` overwritten by `v`: a paint of the single
      coordinate `p`. */
  function Set(cells: Grid, p: Pos, v: int): (r: Grid)
    ensures |r| == |cells| && forall i | 0 <= i < |cells| :: |r[i]| == |cells[i]|
    ensures forall i, j | 0 <= i < |cells| && 0 <= j < |cells[i]| ::
      r[i][j] == if Pos(i, j) == p then v else cells[i][j]
  {
    var r := Paint(cells, [p], v);
    assert forall i, j | 0 <= i < |cells| && 0 <= j < |cells[i]| :: Pos(i, j) in [p] <==> Pos(i, j) == p;
    r
  }

  /** Every positive cell (a label, UNVISITED, DISCOVERED or the target) becomes UNVISITED;
      walls and zeros stay. */
  function Clear(cells: Grid): (r: Grid)
    ensures |r| == |cells| && forall i | 0 <= i < |cells| :: |r[i]| == |cells[i]|
    ensures forall i, j | 0 <= i < |cells| && 0 <= j < |cells[i]| ::
      r[i][j] == if cells[i][j] > 0 then UNVISITED else cells[i][j]
  {
    seq(|cells|, i requires 0 <= i < |cells| =>
      seq(|cells[i]|, j requires 0 <= j < |cells[i]| => if cells[i][j] > 0 then UNVISITED else cells[i][j]))
  }

  /** The coordinates the board draws a target from: rows 5 .. ROWS-1, columns 5 .. COLS-1. */
  predicate TargetRange(t: Pos) {
    5 <= t.row <= ROWS - 1 && 5 <= t.col <= COLS - 1
  }

  /** One coin per cell of the board. */
  predicate Coins(open: seq<seq<bool>>) {
    |open| == ROWS && forall i | 0 <= i < ROWS :: |open[i]| == COLS
  }

  /** `emptyGrid`: all UNVISITED, the start 0 and then the target TARGET. */
  function EmptyGrid(t: Pos): (r: Grid)
    requires 0 <= t.row < ROWS && 0 <= t.col < COLS
    ensures Shaped(r, ROWS, COLS)
    ensures forall i, j | 0 <= i < ROWS && 0 <= j < COLS ::
      r[i][j] == if Pos(i, j) == t then TARGET else if Pos(i, j) == Pos(0, 0) then START else UNVISITED
  {
    var g := Fill(ROWS, COLS, UNVISITED);
    Set(Set(g, Pos(0, 0), START), t, TARGET)
  }

  /** `newRandom`: each cell of the fresh grid becomes UNVISITED where `open` holds and a
      wall elsewhere (the outcome of the coin `Math.random() * 100 > probability`), then the
      start 0 and the target TARGET are written. */
  function RandomGrid(open: seq<seq<bool>>, t: Pos): (r: Grid)
    requires Coins(open) && TargetRange(t)
    ensures Shaped(r, ROWS, COLS)
    ensures forall i, j | 0 <= i < ROWS && 0 <= j < COLS ::
      r[i][j] == if Pos(i, j) == t then TARGET else if Pos(i, j) == Pos(0, 0) then START
                 else if open[i][j] then UNVISITED else WALL
  {
    var g := seq(ROWS, i requires 0 <= i < ROWS =>
      seq(COLS, j requires 0 <= j < COLS => if open[i][j] then UNVISITED else WALL));
    Set(Set(g, Pos(0, 0), START), t, TARGET)
  }

  /** The rewrite of `repeat`: clear every positive cell, then write the start and the target. */
  function Reset(cells: Grid, t: Pos): (r: Grid)
    requires Holds(cells, Pos(0, 0)) && Holds(cells, t)
    ensures |r| == |cells| && forall i | 0 <= i < |cells| :: |r[i]| == |cells[i]|
    ensures forall i, j | 0 <= i < |cells| && 0 <= j < |cells[i]| ::
      r[i][j] == if Pos(i, j) == t then TARGET
                 else if Pos(i, j) == Pos(0, 0) then START
                 else if cells[i][j] > 0 then UNVISITED else cells[i][j]
  {
    Set(Set(Clear(cells), Pos(0, 0), START), t, TARGET)
  }

  /** A board ready for a run with target `t`: the start holds 0, `t` (not the start) holds
      the only TARGET, and every other cell is a wall or UNVISITED. */
  ghost predicate Ready(cells: Grid, t: Pos) {
    && Holds(cells, Pos(0, 0)) && Holds(cells, t) && t != Pos(0, 0)
    && forall i, j | 0 <= i < |cells| && 0 <= j < |cells[i]| ::
         cells[i][j] == if Pos(i, j) == t then TARGET
                        else if Pos(i, j) == Pos(0, 0) then START
                        else if cells[i][j] == WALL then WALL else UNVISITED
  }

  /** A grid a run may leave behind: no value below WALL, and 0 only at the start. */
  ghost predicate Settled(cells: Grid) {
    forall i, j | 0 <= i < |cells| && 0 <= j < |cells[i]| ::
      cells[i][j] >= WALL && (cells[i][j] == START ==> Pos(i, j) == Pos(0, 0))
  }

  /** Resetting twice is resetting once. */
  lemma ResetIdempotent(cells: Grid, t: Pos)
    requires Holds(cells, Pos(0, 0)) && Holds(cells, t)
    ensures Reset(Reset(cells, t), t) == Reset(cells, t)
  {
    var once := Reset(cells, t);
    GridExt(Reset(once, t), once);
  }

  /** A ready board is a fixed point of the reset. */
  lemma ResetReadyFixed(cells: Grid, t: Pos)
    requires Ready(cells, t)
    ensures Reset(cells, t) == cells
  {
    GridExt(Reset(cells, t), cells);
  }

  /** Resetting a settled grid makes it ready. */
  lemma ResetReady(cells: Grid, t: Pos)
    requires Holds(cells, Pos(0, 0)) && Holds(cells, t) && t != Pos(0, 0) && Settled(cells)
    ensures Ready(Reset(cells, t), t)
  {
  }

  /** The fresh grid has the board's dimensions and is ready. */
  lemma EmptyGridReady(t: Pos)
    requires 0 <= t.row < ROWS && 0 <= t.col < COLS && t != Pos(0, 0)
    ensures Shaped(EmptyGrid(t), ROWS, COLS) && Ready(EmptyGrid(t), t)
    ensures forall i, j | 0 <= i < ROWS && 0 <= j < COLS && Pos(i, j) != t && Pos(i, j) != Pos(0, 0) ::
      EmptyGrid(t)[i][j] == UNVISITED
  {
  }

  /** The random grid has the board's dimensions and is ready; its walls are exactly the
      cells other than start and target whose coin came up closed. */
  lemma RandomGridReady(open: seq<seq<bool>>, t: Pos)
    requires Coins(open) && TargetRange(t)
    ensures Shaped(RandomGrid(open, t), ROWS, COLS) && Ready(RandomGrid(open, t), t)
    ensures forall i, j | 0 <= i < ROWS && 0 <= j < COLS && Pos(i, j) != t && Pos(i, j) != Pos(0, 0) ::
      (RandomGrid(open, t)[i][j] == WALL <==> !open[i][j])
  {
  }

  // ---------------------------------------------------------------------------
  // Mouse edits

  /** `toggle(i, j)` as written, for the mouse-button mask `buttons` on cell `p` with
      current target `t`: the result is the new grid and the new target. The right button
      (2) moves the target to `p`; the left button (1) flips `p` between wall and UNVISITED;
      any other mask only clears the positive cells, the target among them. */
  function Toggle(cells: Grid, t: Pos, p: Pos, buttons: int): (r: (Grid, Pos))
    requires Holds(cells, Pos(0, 0)) && Holds(cells, t) && Holds(cells, p)
    ensures |r.0| == |cells| && forall i | 0 <= i < |cells| :: |r.0[i]| == |cells[i]|
    ensures r.1 == if buttons == 2 then p else t
    ensures forall i, j | 0 <= i < |cells| && 0 <= j < |cells[i]| && Pos(i, j) != p && Pos(i, j) != t && Pos(i, j) != Pos(0, 0) ::
      r.0[i][j] == if cells[i][j] > 0 then UNVISITED else cells[i][j]
    ensures (buttons == 1 || buttons == 2) && p != t && p != Pos(0, 0) && t != Pos(0, 0) ==>
      Get(r.0, r.1) == TARGET && Get(r.0, Pos(0, 0)) == START
  {
    var cleared := Clear(cells);
    if buttons == 2 then
      (Set(Set(Set(cleared, p, TARGET), Pos(0, 0), START), t, UNVISITED), p)
    else if buttons == 1 then
      var flipped := if cleared[p.row][p.col] >= 0 then WALL else UNVISITED;
      (Set(Set(Set(cleared, p, flipped), Pos(0, 0), START), t, TARGET), t)
    else
      (cleared, t)
  }

  /** The edit as evidently intended: a mask other than 1 or 2 resets the board and keeps
      the target, as the other edits do. */
  function Edit(cells: Grid, t: Pos, p: Pos, buttons: int): (r: (Grid, Pos))
    requires Holds(cells, Pos(0, 0)) && Holds(cells, t) && Holds(cells, p)
    ensures |r.0| == |cells| && forall i | 0 <= i < |cells| :: |r.0[i]| == |cells[i]|
    ensures r.1 == if buttons == 2 then p else t
    ensures forall i, j | 0 <= i < |cells| && 0 <= j < |cells[i]| && Pos(i, j) != p && Pos(i, j) != t && Pos(i, j) != Pos(0, 0) ::
      r.0[i][j] == if cells[i][j] > 0 then UNVISITED else cells[i][j]
    ensures p != t && p != Pos(0, 0) && t != Pos(0, 0) ==> Get(r.0, r.1) == TARGET && Get(r.0, Pos(0, 0)) == START
  {
    if buttons == 1 || buttons == 2 then Toggle(cells, t, p, buttons) else (Reset(cells, t), t)
  }

  /** The left button on a cell that is neither the start nor the target flips that cell
      between wall and UNVISITED and otherwise resets the board; the target stays. */
  lemma ToggleLeft(cells: Grid, t: Pos, p: Pos)
    requires Holds(cells, Pos(0, 0)) && Holds(cells, t) && Holds(cells, p)
    requires p != t && p != Pos(0, 0)
    ensures Toggle(cells, t, p, 1).1 == t
    ensures Toggle(cells, t, p, 1).0 ==
      Set(Reset(cells, t), p, if Get(cells, p) >= 0 then WALL else UNVISITED)
  {
    var r := Toggle(cells, t, p, 1).0;
    var s := Set(Reset(cells, t), p, if Get(cells, p) >= 0 then WALL else UNVISITED);
    GridExt(r, s);
  }

  /** The right button on a cell that is neither the start nor the target is a reset with
      `p` as the new target, provided the old target is not the start and its cell holds a
      positive value. */
  lemma ToggleRight(cells: Grid, t: Pos, p: Pos)
    requires Holds(cells, Pos(0, 0)) && Holds(cells, t) && Holds(cells, p)
    requires p != t && p != Pos(0, 0) && t != Pos(0, 0) && Get(cells, t) > 0
    ensures Toggle(cells, t, p, 2) == (Reset(cells, p), p)
  {
    var r := Toggle(cells, t, p, 2).0;
    var s := Reset(cells, p);
    forall i, j | 0 <= i < |r| && 0 <= j < |r[i]|
      ensures r[i][j] == s[i][j]
    {
      if Pos(i, j) == t {
        assert cells[i][j] == Get(cells, t);
      }
    }
    GridExt(r, s);
  }

  /** On a ready board, both buttons keep the board ready (the target moving with the right
      button), and the left button changes exactly the clicked cell. */
  lemma ToggleReady(cells: Grid, t: Pos, p: Pos, buttons: int)
    requires Ready(cells, t) && Holds(cells, p) && p != t && p != Pos(0, 0)
    requires buttons == 1 || buttons == 2
    ensures Ready(Toggle(cells, t, p, buttons).0, Toggle(cells, t, p, buttons).1)
    ensures buttons == 1 ==> forall i, j | 0 <= i < |cells| && 0 <= j < |cells[i]| ::
      (Toggle(cells, t, p, 1).0[i][j] != cells[i][j] <==> Pos(i, j) == p)
  {
    ResetReadyFixed(cells, t);
    if buttons == 1 {
      ToggleLeft(cells, t, p);
    } else {
      ToggleRight(cells, t, p);
    }
  }

  /** As written, a middle click (mask 4) on a ready board leaves no cell holding TARGET
      while the target is still recorded at `t`. */
  lemma ToggleLosesTarget(cells: Grid, t: Pos, p: Pos)
    requires Ready(cells, t) && Holds(cells, p)
    ensures Toggle(cells, t, p, 4).1 == t
    ensures forall i, j | 0 <= i < |cells| && 0 <= j < |cells[i]| :: Toggle(cells, t, p, 4).0[i][j] != TARGET
    ensures Get(cells, t) == TARGET && Get(Toggle(cells, t, p, 4).0, t) == UNVISITED
  {
  }

  /** The corrected edit keeps a ready board ready for every button mask: exactly one cell
      holds TARGET, the recorded one. */
  lemma EditReady(cells: Grid, t: Pos, p: Pos, buttons: int)
    requires Ready(cells, t) && Holds(cells, p) && p != t && p != Pos(0, 0)
    ensures Ready(Edit(cells, t, p, buttons).0, Edit(cells, t, p, buttons).1)
    ensures var r := Edit(cells, t, p, buttons);
      forall i, j | 0 <= i < |r.0| && 0 <= j < |r.0[i]| :: (r.0[i][j] == TARGET <==> Pos(i, j) == r.1)
  {
    if buttons == 1 || buttons == 2 {
      ToggleReady(cells, t, p, buttons);
    } else {
      ResetReadyFixed(cells, t);
    }
  }
}
