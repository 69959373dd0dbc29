/** The run loop of the board component (src/components/Grid.tsx): the state a run keeps
    between ticks, the guard that decides whether a tick takes a step, and the resets that
    every edit and button performs. The step itself is a parameter: whichever search step
    is selected produces the next frontier and the `done` flag. */
module Controller {
  import opened Cells

  /** The run state: the frontier, the step counter shown as "Step", whether the target was
      reached, and whether the run is playing. */
  datatype Run<E> = Run(stack: seq<E>, frame: nat, done: bool, started: bool)

  /** A tick takes a step exactly when the run is playing, the frontier is non-empty and
      the target has not been reached. */
  predicate CanStep<E>(r: Run<E>) {
    r.started && |r.stack| > 0 && !r.done
  }

  /** One tick whose step, if taken, returned the frontier `next` and the flag `done`. */
  function Tick<E>(r: Run<E>, next: seq<E>, done: bool): (r': Run<E>)
    ensures CanStep(r) ==> r'.stack == next && r'.done == done && r'.frame == r.frame + 1
    ensures CanStep(r) ==> r'.started
    ensures !CanStep(r) ==> r' == r
  {
    if CanStep(r) then Run(next, r.frame + 1, done, r.started) else r
  }

  /** What every reset path (a new random grid, reset, restart and each mouse edit) leaves:
      the single start entry `init`, frame 0, not done and paused. */
  function Restart<E>(init: E): (r: Run<E>)
    ensures r.stack == [init] && r.frame == 0 && !r.done && !r.started
  {
    Run([init], 0, false, false)
  }

  /** The reset every path of the board performs: the frontier `[[0, 0, 0]]`, the start at
      distance 0. It does not step until play is pressed, and then it does. */
  function Initial(): (r: Run<Entry>)
    ensures r.stack == [Entry(Pos(0, 0), 0)] && r.frame == 0 && !r.done && !r.started
    ensures !CanStep(r) && CanStep(Play(r, true))
  {
    Restart(Entry(Pos(0, 0), 0))
  }

  /** The restart button: a reset followed by play; its first tick takes a step. */
  function Replay<E>(init: E): (r: Run<E>)
    ensures CanStep(r) && r.stack == [init] && r.frame == 0
  {
    Restart(init).(started := true)
  }

  /** The play and pause buttons only set the playing flag. */
  function Play<E>(r: Run<E>, on: bool): (r': Run<E>)
    ensures r'.stack == r.stack && r'.frame == r.frame && r'.done == r.done && r'.started == on
  {
    r.(started := on)
  }

  /** The run after a sequence of ticks whose steps return `steps` in order. */
  function Ticks<E>(r: Run<E>, steps: seq<(seq<E>, bool)>): Run<E>
    decreases |steps|
  {
    if steps == [] then r
    else Ticks(Tick(r, steps[0].0, steps[0].1), steps[1..])
  }

  /** A run that cannot step, because it is paused, has an empty frontier or is done, stays
      as it is whatever the ticks. */
  lemma {:induction false} TicksStill<E>(r: Run<E>, steps: seq<(seq<E>, bool)>)
    requires !CanStep(r)
    ensures Ticks(r, steps) == r
    decreases |steps|
  {
    if steps != [] {
      TicksStill(Tick(r, steps[0].0, steps[0].1), steps[1..]);
    }
  }

  /** Every tick adds at most one to the counter, and the playing flag never changes. */
  lemma {:induction false} TicksFrame<E>(r: Run<E>, steps: seq<(seq<E>, bool)>)
    ensures r.frame <= Ticks(r, steps).frame <= r.frame + |steps|
    ensures Ticks(r, steps).started == r.started
    decreases |steps|
  {
    if steps != [] {
      TicksFrame(Tick(r, steps[0].0, steps[0].1), steps[1..]);
    }
  }

  /** Once a step reports the target, the run is done and later ticks change nothing. */
  lemma {:induction false} TicksDone<E>(r: Run<E>, steps: seq<(seq<E>, bool)>)
    requires r.done
    ensures Ticks(r, steps) == r
  {
    TicksStill(r, steps);
  }

  /** While every step keeps a non-empty frontier and does not report the target, a
      playing run counts exactly one frame per tick and ends with the last step's frontier. */
  lemma {:induction false} TicksCount<E>(r: Run<E>, steps: seq<(seq<E>, bool)>)
    requires CanStep(r)
    requires forall k | 0 <= k < |steps| :: |steps[k].0| > 0 && !steps[k].1
    ensures Ticks(r, steps).frame == r.frame + |steps|
    ensures CanStep(Ticks(r, steps))
    ensures steps != [] ==> Ticks(r, steps).stack == steps[|steps| - 1].0
    decreases |steps|
  {
    if steps != [] {
      var r1 := Tick(r, steps[0].0, steps[0].1);
      TicksCount(r1, steps[1..]);
      if |steps| > 1 {
        assert steps[1..][|steps[1..]| - 1] == steps[|steps| - 1];
      }
    }
  }
}
