/**
 * Reading the dynamic bearing capacity off the completed queue (dbc/filling.py,
 * `calculate_db` and `record_db`). Where the source would raise an exception (a missing
 * completion time, an unbound or out-of-range index, a division by zero) the result is
 * `None`.
 */
module Reconstruction {
  import opened Wrappers
  import opened FillNodes
  import opened FillRules

  /** Python's `s[i]`: a negative index counts from the end; out of range is an error. */
  function PyIndex(s: seq<real>, i: int): (r: Option<real>)
    ensures r.Some? <==> -|s| <= i < |s|
  {
    if 0 <= i < |s| then Some(s[i])
    else if -|s| <= i < 0 then Some(s[|s| + i])
    else None
  }

  /** The first position whose time lies after `t` (`|ts|` if none does). */
  function FirstAbove(ts: seq<real>, t: real): (j: nat)
    ensures j <= |ts|
    ensures forall i :: 0 <= i < j ==> ts[i] <= t
    ensures j < |ts| ==> t < ts[j]
  {
    if ts == [] then 0
    else if t < ts[0] then 0
    else 1 + FirstAbove(ts[1..], t)
  }

  /**
   * The index the bracketing loop of `calculate_db` leaves in `j`: one before the first
   * time after `t`, or the last index when no time is after `t`.
   */
  function Bracket(ts: seq<real>, t: real): int
    requires ts != []
  {
    var k := FirstAbove(ts, t);
    if k < |ts| then k - 1 else |ts| - 1
  }

  /** The inflow of the first `j` whole segments: the sum of `vs[k] * (ts[k+1] - ts[k])`. */
  function SegSum(ts: seq<real>, vs: seq<real>, j: nat): real
    requires j <= |vs| && j < |ts|
  {
    if j == 0 then 0.0
    else SegSum(ts, vs, j - 1) + vs[j - 1] * (ts[j] - ts[j - 1])
  }

  /** The inflow of a segment from `a` to `b` at rate `v` that has elapsed by time `t`. */
  function Share(v: real, a: real, b: real, t: real): real
    requires b - a != 0.0
  {
    v * (t - a) / (b - a)
  }

  /**
   * The branch of `calculate_db` for the first node not complete at `t`: the inflow of
   * the whole segments before the bracket plus the share of the bracket's segment
   * elapsed at `t`, added to `acc`.
   */
  function Pending(n: FillNode, t: real, acc: real): Option<real>
  {
    if n.ts == [] then None
    else
      var j := Bracket(n.ts, t);
      if j > |n.vs| then None
      else
        var whole := if j <= 0 then 0.0 else SegSum(n.ts, n.vs, j);
        var v := PyIndex(n.vs, j);
        var a := PyIndex(n.ts, j);
        var b := PyIndex(n.ts, j + 1);
        if v.None? || a.None? || b.None? then None
        else if b.value - a.value == 0.0 then None
        else Some(acc + whole + Share(v.value, a.value, b.value, t))
  }

  /**
   * The loop of `calculate_db` from queue position `i` with running total `acc`: a node
   * complete by `t` adds its capacity; the first one that is not ends the loop.
   */
  function DbFrom(q: seq<FillNode>, t: real, i: nat, acc: real): Option<real>
    requires i <= |q|
    decreases |q| - i
  {
    if i == |q| then Some(acc)
    else match q[i].tf
      case None => None
      case Some(tf) =>
        if t >= tf then DbFrom(q, t, i + 1, acc + q[i].sb) else Pending(q[i], t, acc)
  }

  /** `calculate_db(t)`. */
  function DbAt(q: seq<FillNode>, t: real): Option<real>
  {
    DbFrom(q, t, 0, 0.0)
  }

  /** The total capacity of a list of nodes. */
  function SumSb(q: seq<FillNode>): real
  {
    if q == [] then 0.0 else SumSb(q[..|q| - 1]) + q[|q| - 1].sb
  }

  /** A node complete by time `t`. */
  predicate SettledBy(n: FillNode, t: real)
  {
    n.tf.Some? && t >= n.tf.value
  }

  /** Every node before position `i` is complete by `t`: their capacities are all counted. */
  lemma {:induction false} SettledPrefix(q: seq<FillNode>, t: real, i: nat)
    requires i <= |q|
    requires forall k :: 0 <= k < i ==> SettledBy(q[k], t)
    ensures DbAt(q, t) == DbFrom(q, t, i, SumSb(q[..i]))
  {
    if i > 0 {
      SettledPrefix(q, t, i - 1);
      assert q[..i][..i - 1] == q[..i - 1];
      assert SumSb(q[..i]) == SumSb(q[..i - 1]) + q[i - 1].sb;
    } else {
      assert q[..0] == [];
    }
  }

  /** When every queued node is complete by `t`, the capacity at `t` is their total capacity. */
  lemma AllSettled(q: seq<FillNode>, t: real)
    requires forall k :: 0 <= k < |q| ==> SettledBy(q[k], t)
    ensures DbAt(q, t) == Some(SumSb(q))
  {
    SettledPrefix(q, t, |q|);
    assert q[..|q|] == q;
  }

  /**
   * When the first node not complete by `t` is a completed node of the queue whose history
   * starts by `t`, the capacity at `t` is the total capacity of the nodes before it, plus
   * its whole segments before `t`, plus the elapsed share of the segment holding `t`;
   * that segment is the one with `ts[j] <= t < ts[j + 1]`.
   */
  lemma Interpolated(q: seq<FillNode>, t: real, i: nat)
    requires i < |q| && AllDone(q)
    requires forall k :: 0 <= k < i ==> SettledBy(q[k], t)
    requires !SettledBy(q[i], t) && q[i].ts != [] && q[i].ts[0] <= t
    ensures var n := q[i];
            var j := FirstAbove(n.ts, t) - 1;
            && 0 <= j < |n.vs|
            && n.ts[j] <= t < n.ts[j + 1]
            && DbAt(q, t) == Some(SumSb(q[..i]) + SegSum(n.ts, n.vs, j) + Share(n.vs[j], n.ts[j], n.ts[j + 1], t))
  {
    SettledPrefix(q, t, i);
    var n := q[i];
    assert Done(n);
    var k := FirstAbove(n.ts, t);
    assert k >= 1;
    assert k < |n.ts|;
    var j := k - 1;
    var acc := SumSb(q[..i]);
    assert DbFrom(q, t, i, acc) == Pending(n, t, acc);
    assert Bracket(n.ts, t) == j;
    var whole := if j <= 0 then 0.0 else SegSum(n.ts, n.vs, j);
    assert whole == SegSum(n.ts, n.vs, j);
    assert PyIndex(n.vs, j) == Some(n.vs[j]);
    assert PyIndex(n.ts, j) == Some(n.ts[j]);
    assert PyIndex(n.ts, j + 1) == Some(n.ts[j + 1]);
    assert n.ts[j + 1] - n.ts[j] != 0.0;
  }

  /** Python's `int(x)`: truncation toward zero. */
  function Trunc(x: real): (r: int)
    ensures x >= 0.0 ==> r == x.Floor
    ensures x >= 0.0 ==> r as real <= x < r as real + 1.0
    ensures x < 0.0 ==> r <= 0 && r as real - 1.0 < x <= r as real
  {
    if x >= 0.0 then x.Floor else -((-x).Floor)
  }

  /** The entry `record_db` writes for a minute with no positive inflow. */
  function OutflowEntry(dbs: seq<real>, v: real): real
  {
    if dbs == [] then 0.0 else Max(Trunc(dbs[|dbs| - 1] + v), 0) as real
  }

  /** The entry for minute `t`: `calculate_db(t)` under inflow, `OutflowEntry` otherwise. */
  function Entry(q: seq<FillNode>, t: nat, v: real, dbs: seq<real>): Option<real>
  {
    if v > 0.0 then DbAt(q, t as real) else Some(OutflowEntry(dbs, v))
  }

  /** `record_db(vs)` from minute `i` on, appending to `dbs`; `false` when it raises. */
  function RecordFrom(q: seq<FillNode>, vs: seq<real>, i: nat, dbs: seq<real>): (seq<real>, bool)
    requires i <= |vs|
    decreases |vs| - i
  {
    if i == |vs| then (dbs, true)
    else match Entry(q, i, vs[i], dbs)
      case None => (dbs, false)
      case Some(e) => RecordFrom(q, vs, i + 1, dbs + [e])
  }

  /**
   * With no positive inflow the recorded value is a whole number of people, never
   * negative, and never above the previous value when that one is not negative.
   */
  lemma OutflowBounds(dbs: seq<real>, v: real)
    requires v <= 0.0
    ensures OutflowEntry(dbs, v) >= 0.0
    ensures OutflowEntry(dbs, v) == OutflowEntry(dbs, v).Floor as real
    ensures dbs != [] && dbs[|dbs| - 1] >= 0.0 ==> OutflowEntry(dbs, v) <= dbs[|dbs| - 1]
  {
  }

  /**
   * `record_db` only appends: the earlier entries stay; when it does not raise it adds one
   * entry per minute, `calculate_db(t)` for a minute with inflow and the outflow rule
   * applied to the entry before it otherwise.
   */
  lemma {:induction false} RecordEntries(q: seq<FillNode>, vs: seq<real>, i: nat, dbs: seq<real>)
    requires i <= |vs|
    decreases |vs| - i
    ensures var (r, ok) := RecordFrom(q, vs, i, dbs);
            && |dbs| <= |r| && r[..|dbs|] == dbs
            && (ok ==> |r| == |dbs| + |vs| - i)
            && (ok ==> forall k :: i <= k < |vs| ==>
                  Entry(q, k, vs[k], r[..|dbs| + k - i]) == Some(r[|dbs| + k - i]))
  {
    if i < |vs| {
      match Entry(q, i, vs[i], dbs)
      case None =>
      case Some(e) =>
        var dbs' := dbs + [e];
        RecordEntries(q, vs, i + 1, dbs');
        var (r, ok) := RecordFrom(q, vs, i + 1, dbs');
        assert r[..|dbs|] == r[..|dbs'|][..|dbs|];
        if ok {
          assert r[..|dbs| + i - i] == dbs;
        }
    }
  }
}
