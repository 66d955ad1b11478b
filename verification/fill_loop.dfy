/**
 * The minute loop of `FillSet.execute` (dbc/filling.py), stated on values: one pass reads
 * the inflow of the current minute, ticks when it is positive, and moves the clock; the
 * loop repeats passes until the clock reaches the horizon.
 */
module FillLoop {
  import opened Wrappers
  import opened Graph
  import opened FillNodes
  import opened FillRules
  import opened Reconstruction

  /**
   * One pass from clock `ct` with step `step`: the new state, clock and step. Under
   * positive inflow the state ticks; a tick that leaves time unused sets the clock back
   * from the next minute by that time and keeps it as the step. Without positive inflow
   * nothing but the clock changes.
   */
  function Pass(cells: Cells, s: Sim, ct: real, step: real, vs: seq<real>): (Sim, real, real)
    requires ArenaOK(cells) && Inv(cells, s) && 0.0 <= ct && ct.Floor < |vs| && step >= 0.0
  {
    var fl := ct.Floor;
    var v := vs[Trunc(ct)];
    if v > 0.0 then
      var (r, left) := TickResult(cells, s, ct, v, step);
      if left != 0.0 then (r, fl as real + 1.0 - left, left)
      else (r, fl as real + 1.0, TIME_STEP_MINUTE)
    else (s, fl as real + 1.0, TIME_STEP_MINUTE)
  }

  /**
   * Under positive inflow a pass is the tick of the minute: the state is the tick's, and
   * a tick that leaves time `left` unused sets the clock to `left` before the next minute
   * with step `left`; otherwise the clock moves to the next minute with a whole step.
   */
  lemma PassTicks(cells: Cells, s: Sim, ct: real, step: real, vs: seq<real>, r: Sim, left: real)
    requires ArenaOK(cells) && Inv(cells, s) && 0.0 <= ct && ct.Floor < |vs| && step >= 0.0
    requires vs[ct.Floor] > 0.0
    requires (r, left) == TickResult(cells, s, ct, vs[ct.Floor], step)
    ensures left != 0.0 ==> Pass(cells, s, ct, step, vs) == (r, ct.Floor as real + 1.0 - left, left)
    ensures left == 0.0 ==> Pass(cells, s, ct, step, vs) == (r, ct.Floor as real + 1.0, TIME_STEP_MINUTE)
  {
  }

  /** Without positive inflow a pass changes nothing but the clock, which moves to the next minute. */
  lemma PassQuiet(cells: Cells, s: Sim, ct: real, step: real, vs: seq<real>)
    requires ArenaOK(cells) && Inv(cells, s) && 0.0 <= ct && ct.Floor < |vs| && step >= 0.0
    requires vs[ct.Floor] <= 0.0
    ensures Pass(cells, s, ct, step, vs) == (s, ct.Floor as real + 1.0, TIME_STEP_MINUTE)
  {
  }

  /**
   * A pass keeps the invariant and only appends to the queue; the eligible set never
   * grows; and it makes progress: the clock moves into a later minute, or it stays in the
   * minute and either fewer features are eligible or a completed node waits to be
   * promoted where none did before.
   */
  lemma PassProgress(cells: Cells, s: Sim, ct: real, step: real, vs: seq<real>)
    requires ArenaOK(cells) && Inv(cells, s) && 0.0 <= ct && ct.Floor < |vs|
    requires 0.0 < step <= TIME_STEP_MINUTE
    ensures var (r, ct', step') := Pass(cells, s, ct, step, vs);
            && Inv(cells, r)
            && 0.0 < step' <= TIME_STEP_MINUTE
            && ct.Floor as real <= ct' <= ct.Floor as real + 1.0
            && ct.Floor <= ct'.Floor
            && s.queue <= r.queue
            && Eligible(cells, r) <= Eligible(cells, s)
            && (ct'.Floor == ct.Floor ==>
                  || Eligible(cells, r) < Eligible(cells, s)
                  || (Eligible(cells, r) == Eligible(cells, s)
                      && FirstMinTf(s.fns).None? && FirstMinTf(r.fns).Some?))
  {
    var fl := ct.Floor;
    var v := vs[Trunc(ct)];
    if v > 0.0 {
      TickBounds(cells, s, ct, v, step);
      PromoteMoves(cells, s);
      var (r, left) := TickResult(cells, s, ct, v, step);
      if left != 0.0 {
        assert (fl as real + 1.0 - left).Floor == fl;
      }
    }
  }

  /**
   * The minute loop of `execute` from state `s`, clock `ct` and step `step`: passes
   * until the clock reaches the horizon `duration`; the state the loop ends in.
   */
  function Run(cells: Cells, s: Sim, ct: real, step: real, vs: seq<real>, duration: nat): Sim
    requires ArenaOK(cells) && Inv(cells, s) && 0.0 <= ct && duration <= |vs|
    requires 0.0 < step <= TIME_STEP_MINUTE
    decreases duration - ct.Floor, Eligible(cells, s), if FirstMinTf(s.fns).Some? then 0 else 1
  {
    if ct >= duration as real then s
    else
      assert ct.Floor < duration by {
        assert ct.Floor as real <= ct;
      }
      PassProgress(cells, s, ct, step, vs);
      var (r, ct', step') := Pass(cells, s, ct, step, vs);
      Run(cells, r, ct', step', vs, duration)
  }

  /**
   * The loop keeps the invariant, only appends to the queue, and never lets a feature
   * become eligible again.
   */
  lemma {:induction false} RunKeeps(cells: Cells, s: Sim, ct: real, step: real, vs: seq<real>, duration: nat)
    requires ArenaOK(cells) && Inv(cells, s) && 0.0 <= ct && duration <= |vs|
    requires 0.0 < step <= TIME_STEP_MINUTE
    decreases duration - ct.Floor, Eligible(cells, s), if FirstMinTf(s.fns).Some? then 0 else 1
    ensures var r := Run(cells, s, ct, step, vs, duration);
            && Inv(cells, r)
            && s.queue <= r.queue
            && Eligible(cells, r) <= Eligible(cells, s)
  {
    if ct < duration as real {
      assert ct.Floor < duration by {
        assert ct.Floor as real <= ct;
      }
      PassProgress(cells, s, ct, step, vs);
      var (r, ct', step') := Pass(cells, s, ct, step, vs);
      RunKeeps(cells, r, ct', step', vs, duration);
    }
  }
}
