/**
 * The rules of the fill simulation of dbc/filling.py, stated on values: the state of a
 * `FillSet` is a `Sim` (active list, its id set, completed queue), and every step of the
 * simulation is a function from one `Sim` to the next. The `FillSet` class is proved to
 * follow these functions; the lemmas here say what the functions guarantee.
 */
module FillRules {
  import opened Wrappers
  import opened Graph
  import opened FillNodes

  /** The length of one simulation step, in minutes. */
  const TIME_STEP_MINUTE: real := 1.0

  /** Every neighbour is a feature and no capacity is negative. */
  predicate ArenaOK(cells: Cells)
  {
    Closed(cells) && forall k :: k in cells ==> cells[k].sb >= 0.0
  }

  /** What a node can still take in. */
  function Remaining(n: FillNode): real
  {
    n.sb - n.db
  }

  /**
   * A node `add` creates for a feature is a well-formed active node with the feature's
   * whole capacity remaining and nothing to promote.
   */
  lemma NewNodeActive(id: Id, sb: real)
    requires sb >= 0.0
    ensures Active(NewNode(id, sb)) && Remaining(NewNode(id, sb)) == sb && !Done(NewNode(id, sb))
  {
  }

  predicate PositiveRates(vs: seq<real>)
  {
    forall i :: 0 <= i < |vs| ==> vs[i] > 0.0
  }

  /**
   * A node of the active list: filled within its capacity, one positive rate per inflow
   * time, full once it has a completion time.
   */
  predicate Active(n: FillNode)
  {
    0.0 <= n.db <= n.sb && |n.ts| == |n.vs| && PositiveRates(n.vs) && (n.tf.Some? ==> n.db == n.sb)
  }

  /**
   * A node of the completed queue: it has a completion time, and it is either an entrance
   * (nothing to fill, complete at time 0, no history) or its last time is its completion
   * time, one more time than rates.
   */
  predicate Done(n: FillNode)
  {
    && n.tf.Some?
    && PositiveRates(n.vs)
    && ((n.sb == 0.0 && n.tf == Some(0.0) && n.ts == [] && n.vs == [])
        || (|n.ts| == |n.vs| + 1 && n.ts[|n.ts| - 1] == n.tf.value))
  }

  predicate AllDone(q: seq<FillNode>)
  {
    forall i :: 0 <= i < |q| ==> Done(q[i])
  }

  /** The part of a `FillSet` the simulation changes: `fns`, `unique_set`, `FQ.queue`. */
  datatype Sim = Sim(fns: seq<FillNode>, unique: set<Id>, queue: seq<FillNode>)

  /**
   * The invariant of a running simulation: active ids are distinct and are exactly
   * `unique`, every active node is a feature with the feature's capacity and is `Active`,
   * and every queued node is a `Done` feature.
   */
  predicate Inv(cells: Cells, s: Sim)
  {
    && DistinctIds(s.fns)
    && s.unique == IdSet(s.fns)
    && (forall i :: 0 <= i < |s.fns| ==> Tracked(cells, s.fns[i]))
    && (forall i :: 0 <= i < |s.queue| ==> s.queue[i].id in cells)
    && AllDone(s.queue)
  }

  /** An active node of a feature of the arena, with that feature's capacity. */
  predicate Tracked(cells: Cells, n: FillNode)
  {
    n.id in cells && n.sb == cells[n.id].sb && Active(n)
  }

  /**
   * `pick_filled_node`: the first active node with the least completion time, `None` when
   * no active node has one.
   */
  function FirstMinTf(fns: seq<FillNode>): (r: Option<nat>)
    ensures r.Some? ==> r.value < |fns| && fns[r.value].tf.Some?
  {
    if fns == [] then None
    else
      var last := |fns| - 1;
      var r := FirstMinTf(fns[..last]);
      var n := fns[last];
      if n.tf.Some? && (r.None? || n.tf.value < fns[r.value].tf.value) then Some(last) else r
  }

  /**
   * There is no pick exactly when no active node has a completion time; the pick has the
   * least completion time, and every node before it has a strictly greater one.
   */
  lemma {:induction false} FirstMinTfSpec(fns: seq<FillNode>)
    ensures var r := FirstMinTf(fns);
            && (r.None? <==> forall i :: 0 <= i < |fns| ==> fns[i].tf.None?)
            && (r.Some? ==> forall i :: 0 <= i < |fns| && fns[i].tf.Some? ==> fns[r.value].tf.value <= fns[i].tf.value)
            && (r.Some? ==> forall i :: 0 <= i < r.value && fns[i].tf.Some? ==> fns[r.value].tf.value < fns[i].tf.value)
  {
    if fns != [] {
      var last := |fns| - 1;
      var init := fns[..last];
      FirstMinTfSpec(init);
      assert forall i :: 0 <= i < last ==> fns[i] == init[i];
    }
  }

  /**
   * `pick_filling_node`: the first active node with the least remaining capacity, `None`
   * when the list is empty.
   */
  function FirstMinRemaining(fns: seq<FillNode>): (r: Option<nat>)
    ensures r.None? <==> fns == []
    ensures r.Some? ==> r.value < |fns|
  {
    if fns == [] then None
    else
      var last := |fns| - 1;
      var r := FirstMinRemaining(fns[..last]);
      if r.None? || Remaining(fns[last]) < Remaining(fns[r.value]) then Some(last) else r
  }

  /** The pick has the least remaining capacity, and every node before it a strictly greater one. */
  lemma {:induction false} FirstMinRemainingSpec(fns: seq<FillNode>)
    ensures var r := FirstMinRemaining(fns);
            && (r.Some? ==> forall i :: 0 <= i < |fns| ==> Remaining(fns[r.value]) <= Remaining(fns[i]))
            && (r.Some? ==> forall i :: 0 <= i < r.value ==> Remaining(fns[r.value]) < Remaining(fns[i]))
  {
    if fns != [] {
      var last := |fns| - 1;
      var init := fns[..last];
      FirstMinRemainingSpec(init);
      var p := FirstMinRemaining(init);
      assert forall i :: 0 <= i < last ==> fns[i] == init[i];
      if p.Some? && Remaining(fns[last]) >= Remaining(fns[p.value]) {
        assert FirstMinRemaining(fns) == p;
      } else {
        assert FirstMinRemaining(fns) == Some(last);
      }
    }
  }

  /** The list without its `k`-th node (`list.pop(k)`). */
  function Without(ns: seq<FillNode>, k: nat): (r: seq<FillNode>)
    requires k < |ns|
    ensures |r| == |ns| - 1
    ensures forall i :: 0 <= i < k ==> r[i] == ns[i]
    ensures forall i :: k <= i < |r| ==> r[i] == ns[i + 1]
  {
    ns[..k] + ns[k + 1..]
  }

  lemma WithoutIds(ns: seq<FillNode>, k: nat)
    requires k < |ns| && DistinctIds(ns)
    ensures DistinctIds(Without(ns, k))
    ensures IdSet(Without(ns, k)) == IdSet(ns) - {ns[k].id}
  {
  }

  lemma IdSetConcat(a: seq<FillNode>, b: seq<FillNode>)
    ensures IdSet(a + b) == IdSet(a) + IdSet(b)
  {
  }

  /** The completed form of an active node: its completion time closes its history. */
  function Completed(n: FillNode): FillNode
    requires n.tf.Some?
  {
    n.(ts := n.ts + [n.tf.value])
  }

  /**
   * `update_FQ`: the earliest completed active node moves to the queue, and each of its
   * neighbours that is neither active nor queued becomes a fresh active node, in
   * neighbour order. Without a completed node nothing changes.
   */
  function Promote(cells: Cells, s: Sim): Sim
    requires ArenaOK(cells) && Inv(cells, s)
  {
    match FirstMinTf(s.fns)
    case None => s
    case Some(k) =>
      var n := s.fns[k];
      var queue := s.queue + [Completed(n)];
      var unique := s.unique - {n.id};
      var added := Fresh(cells[n.id].connected, unique + IdSet(queue));
      Sim(Without(s.fns, k) + NewNodes(cells, added), unique + Elems(added), queue)
  }

  /** What the simulation may still touch: the active ids and every feature not yet queued. */
  function Eligible(cells: Cells, s: Sim): set<Id>
  {
    IdSet(s.fns) + (cells.Keys - IdSet(s.queue))
  }

  /** Appending fresh nodes for new, distinct ids keeps the active list well formed. */
  lemma AppendFresh(cells: Cells, rest: seq<FillNode>, added: seq<Id>)
    requires ArenaOK(cells) && DistinctIds(rest) && NoDup(added)
    requires forall i :: 0 <= i < |rest| ==> Tracked(cells, rest[i])
    requires forall x :: x in added ==> x in cells && x !in IdSet(rest)
    ensures DistinctIds(rest + NewNodes(cells, added))
    ensures forall i :: 0 <= i < |rest + NewNodes(cells, added)| ==> Tracked(cells, (rest + NewNodes(cells, added))[i])
    ensures IdSet(rest + NewNodes(cells, added)) == IdSet(rest) + Elems(added)
  {
    var newcomers := NewNodes(cells, added);
    NewNodesIds(cells, added);
    IdSetConcat(rest, newcomers);
    var fns := rest + newcomers;
    forall i, j | 0 <= i < j < |fns| ensures fns[i].id != fns[j].id {
      if j >= |rest| && i < |rest| {
        assert fns[i] in rest;
        assert fns[j].id == added[j - |rest|];
      } else if i >= |rest| {
        assert fns[i].id == added[i - |rest|] && fns[j].id == added[j - |rest|];
      }
    }
    forall i | |rest| <= i < |fns| ensures Tracked(cells, fns[i]) {
      assert added[i - |rest|] in added;
    }
  }

  /** Appending one well-formed node with a new id keeps the invariant. */
  lemma AppendActive(cells: Cells, s: Sim, n: FillNode)
    requires Inv(cells, s) && Tracked(cells, n) && n.id !in s.unique
    ensures Inv(cells, Sim(s.fns + [n], s.unique + {n.id}, s.queue))
  {
  }

  lemma PromoteInv(cells: Cells, s: Sim)
    requires ArenaOK(cells) && Inv(cells, s)
    ensures Inv(cells, Promote(cells, s))
  {
    if FirstMinTf(s.fns).Some? {
      var k := FirstMinTf(s.fns).value;
      var n := s.fns[k];
      var queue := s.queue + [Completed(n)];
      var unique := s.unique - {n.id};
      var added := Fresh(cells[n.id].connected, unique + IdSet(queue));
      FreshSpec(cells[n.id].connected, unique + IdSet(queue));
      var rest := Without(s.fns, k);
      WithoutIds(s.fns, k);
      forall i | 0 <= i < |rest| ensures Tracked(cells, rest[i]) {
        if i >= k { assert rest[i] == s.fns[i + 1]; }
      }
      AppendFresh(cells, rest, added);
      assert Tracked(cells, n);
      assert Done(Completed(n));
    }
  }

  /**
   * Promotion never lets a queued feature back into the simulation, and it strictly
   * shrinks `Eligible` whenever there is a completed node to promote.
   */
  lemma PromoteShrinks(cells: Cells, s: Sim)
    requires ArenaOK(cells) && Inv(cells, s)
    ensures Eligible(cells, Promote(cells, s)) <= Eligible(cells, s)
    ensures FirstMinTf(s.fns).Some? ==> Eligible(cells, Promote(cells, s)) < Eligible(cells, s)
  {
    if FirstMinTf(s.fns).Some? {
      var k := FirstMinTf(s.fns).value;
      var n := s.fns[k];
      var queue := s.queue + [Completed(n)];
      var unique := s.unique - {n.id};
      var added := Fresh(cells[n.id].connected, unique + IdSet(queue));
      FreshSpec(cells[n.id].connected, unique + IdSet(queue));
      WithoutIds(s.fns, k);
      NewNodesIds(cells, added);
      IdSetConcat(Without(s.fns, k), NewNodes(cells, added));
      IdSetConcat(s.queue, [Completed(n)]);
      assert IdSet([Completed(n)]) == {n.id};
      assert n in s.fns;
      forall x | x in Elems(added) ensures x in Eligible(cells, s) {
        assert x in cells[n.id].connected;
      }
      assert n.id !in Eligible(cells, Promote(cells, s));
    }
  }

  /**
   * What `update_FQ` does to the ids: the promoted node is the earliest completed one, it
   * leaves the active list and closes the queue, and afterwards each of its neighbours is
   * active or queued; a neighbour becomes active only if it was neither before.
   */
  lemma PromoteMoves(cells: Cells, s: Sim)
    requires ArenaOK(cells) && Inv(cells, s)
    ensures FirstMinTf(s.fns).None? ==> Promote(cells, s) == s
    ensures FirstMinTf(s.fns).Some? ==>
              var n := s.fns[FirstMinTf(s.fns).value];
              var r := Promote(cells, s);
              && r.queue == s.queue + [Completed(n)]
              && n.id !in IdSet(r.fns)
              && (forall y :: y in cells[n.id].connected ==> y in IdSet(r.fns) || y in IdSet(r.queue))
              && (forall x :: x in IdSet(r.fns) <==>
                    (x in IdSet(s.fns) && x != n.id)
                    || (x in cells[n.id].connected && x !in IdSet(s.fns) && x !in IdSet(r.queue)))
  {
    if FirstMinTf(s.fns).Some? {
      var k := FirstMinTf(s.fns).value;
      var n := s.fns[k];
      var queue := s.queue + [Completed(n)];
      var unique := s.unique - {n.id};
      var added := Fresh(cells[n.id].connected, unique + IdSet(queue));
      FreshSpec(cells[n.id].connected, unique + IdSet(queue));
      WithoutIds(s.fns, k);
      NewNodesIds(cells, added);
      IdSetConcat(Without(s.fns, k), NewNodes(cells, added));
      IdSetConcat(s.queue, [Completed(n)]);
      assert IdSet([Completed(n)]) == {n.id};
    }
  }

  /**
   * Step 5 of `tick` on the chosen node: it takes inflow at rate `v` from time `t`. If it
   * can be filled within `step` it completes at `t + remaining / v` and the unused time is
   * returned; otherwise it takes `step * v` and 0 is returned.
   */
  function Feed(n: FillNode, t: real, v: real, step: real): (FillNode, real)
    requires v > 0.0
  {
    var fillingTime := Remaining(n) / v;
    var fed := n.(ts := n.ts + [t], vs := n.vs + [v]);
    if fillingTime <= step then (fed.(tf := Some(t + fillingTime), db := n.sb), step - fillingTime)
    else (fed.(db := n.db + step * v), 0.0)
  }

  /** Step 5 of `tick`: the active node with the least remaining capacity is fed. */
  function Fill(s: Sim, t: real, v: real, step: real): (Sim, real)
    requires s.fns != [] && v > 0.0
  {
    var k := FirstMinRemaining(s.fns).value;
    var (m, left) := Feed(s.fns[k], t, v, step);
    (s.(fns := s.fns[k := m]), left)
  }

  /** `tick(t, v, step)`: promote, then fill if anything is left active. */
  function TickResult(cells: Cells, s: Sim, t: real, v: real, step: real): (Sim, real)
    requires ArenaOK(cells) && Inv(cells, s) && v > 0.0
  {
    var p := Promote(cells, s);
    if p.fns == [] then (p, 0.0) else Fill(p, t, v, step)
  }

  /**
   * A fed node records the sample `(t, v)`, takes in `v` times the part of the step it
   * used, and completes (at the end of that part) exactly when its remaining capacity
   * fits in the step; it stays within its capacity, and the time returned is the unused
   * part of the step.
   */
  lemma FeedNode(n: FillNode, t: real, v: real, step: real)
    requires Active(n) && v > 0.0 && step >= 0.0
    ensures var (m, left) := Feed(n, t, v, step);
            && Active(m) && m.id == n.id && m.sb == n.sb
            && 0.0 <= left <= step
            && m.ts == n.ts + [t] && m.vs == n.vs + [v]
            && m.db == n.db + (step - left) * v
            && (Remaining(n) <= step * v ==> m.tf == Some(t + (step - left)) && m.db == n.sb)
            && (Remaining(n) > step * v ==> m.tf == n.tf && left == 0.0)
  {
  }

  /** Replacing an active node by a well-formed one with the same id keeps the invariant. */
  lemma ReplaceKeepsInv(cells: Cells, s: Sim, k: nat, m: FillNode)
    requires Inv(cells, s) && k < |s.fns|
    requires m.id == s.fns[k].id && Tracked(cells, m)
    ensures Inv(cells, s.(fns := s.fns[k := m]))
    ensures IdSet(s.fns[k := m]) == IdSet(s.fns)
  {
    var fns := s.fns[k := m];
    forall x | x in IdSet(s.fns) ensures x in IdSet(fns) {
      var n :| n in s.fns && n.id == x;
      var i :| 0 <= i < |s.fns| && s.fns[i] == n;
      assert fns[i].id == x;
    }
    forall x | x in IdSet(fns) ensures x in IdSet(s.fns) {
      var n :| n in fns && n.id == x;
      var i :| 0 <= i < |fns| && fns[i] == n;
      assert s.fns[i].id == x;
    }
  }

  /**
   * One fill step feeds exactly the node with the least remaining capacity (see
   * `FeedNode`); no other node changes, the queue does not change, and the invariant
   * holds afterwards.
   */
  lemma FillStep(cells: Cells, s: Sim, t: real, v: real, step: real)
    requires Inv(cells, s) && s.fns != [] && v > 0.0 && step >= 0.0
    ensures var (r, left) := Fill(s, t, v, step);
            var k := FirstMinRemaining(s.fns).value;
            && Inv(cells, r)
            && IdSet(r.fns) == IdSet(s.fns)
            && r.queue == s.queue
            && |r.fns| == |s.fns|
            && (forall i :: 0 <= i < |s.fns| && i != k ==> r.fns[i] == s.fns[i])
            && (r.fns[k], left) == Feed(s.fns[k], t, v, step)
  {
    var k := FirstMinRemaining(s.fns).value;
    assert Tracked(cells, s.fns[k]);
    FeedNode(s.fns[k], t, v, step);
    var (m, left) := Feed(s.fns[k], t, v, step);
    ReplaceKeepsInv(cells, s, k, m);
  }

  /**
   * A tick keeps the invariant, returns a part of the step, reports unused time only when
   * some active node has completed, and never lets `Eligible` grow; it shrinks it when a
   * completed node was there to promote.
   */
  lemma TickBounds(cells: Cells, s: Sim, t: real, v: real, step: real)
    requires ArenaOK(cells) && Inv(cells, s) && v > 0.0 && step >= 0.0
    ensures var (r, left) := TickResult(cells, s, t, v, step);
            && Inv(cells, r)
            && 0.0 <= left <= step
            && (left > 0.0 ==> FirstMinTf(r.fns).Some?)
            && r.queue == Promote(cells, s).queue
            && (Promote(cells, s).fns == [] ==> r == Promote(cells, s) && left == 0.0)
            && Eligible(cells, r) <= Eligible(cells, s)
            && (FirstMinTf(s.fns).Some? ==> Eligible(cells, r) < Eligible(cells, s))
  {
    var p := Promote(cells, s);
    PromoteInv(cells, s);
    PromoteShrinks(cells, s);
    if p.fns != [] {
      FillStep(cells, p, t, v, step);
      var k := FirstMinRemaining(p.fns).value;
      assert Tracked(cells, p.fns[k]);
      FeedNode(p.fns[k], t, v, step);
      var (r, left) := Fill(p, t, v, step);
      if left > 0.0 {
        assert r.fns[k].tf.Some?;
        FirstMinTfSpec(r.fns);
      }
    }
  }

  /**
   * The end of `execute`: if anything is still active, the node with the least remaining
   * capacity is closed at the current time and queued (it stays in the active list too).
   */
  function Finish(s: Sim, time: real): Sim
  {
    match FirstMinRemaining(s.fns)
    case None => s
    case Some(k) =>
      var n := s.fns[k].(tf := Some(time));
      var n' := n.(ts := n.ts + [time]);
      Sim(s.fns[k := n'], s.unique, s.queue + [n'])
  }

  /**
   * The end-of-horizon step queues one more node, closed at `time` and otherwise as it
   * was, and keeps every queued node complete; with nothing active it changes nothing.
   */
  lemma FinishQueue(cells: Cells, s: Sim, time: real)
    requires Inv(cells, s)
    ensures var r := Finish(s, time);
            && AllDone(r.queue)
            && (forall i :: 0 <= i < |r.queue| ==> r.queue[i].id in cells)
            && (s.fns == [] ==> r == s)
            && (s.fns != [] ==>
                  var n := s.fns[FirstMinRemaining(s.fns).value];
                  r.queue == s.queue + [n.(tf := Some(time), ts := n.ts + [time])])
  {
  }
}
