/**
 * `FillSet` of dbc/filling.py: the fill simulation of an attraction. Entrances start in
 * the completed queue; the active list starts with their zero-capacity neighbours. Each
 * tick promotes the earliest completed active node (its neighbours join the active list)
 * and feeds the inflow of the minute to the active node with the least remaining
 * capacity. After the horizon the dynamic bearing capacity of every minute is read off
 * the completed queue.
 */
module Filling {
  import opened Wrappers
  import opened Graph
  import opened FillNodes
  import opened FillRules
  import opened FillInit
  import opened Reconstruction
  import opened FillLoop

  /** The features of `features` whose id is not in `done`, in order. */
  function Unfilled(features: seq<Id>, done: set<Id>): (r: seq<Id>)
    ensures |r| <= |features|
    ensures forall x :: x in r <==> x in features && x !in done
  {
    if features == [] then []
    else
      var init := features[..|features| - 1];
      var f := features[|features| - 1];
      assert forall x :: x in features <==> x in init || x == f;
      Unfilled(init, done) + (if f !in done then [f] else [])
  }

  /** Step 5 of `tick`: the chosen node takes inflow at rate `v` from time `t` (see `Feed`). */
  method FeedStep(n: FillNode, t: real, v: real, step: real) returns (m: FillNode, left: real)
    requires v > 0.0
    ensures (m, left) == Feed(n, t, v, step)
  {
    var fillingTime := (n.sb - n.db) / v;
    m := n.(ts := n.ts + [t], vs := n.vs + [v]);
    if fillingTime <= step {
      m := m.(tf := Some(t + fillingTime), db := m.sb);
      left := step - fillingTime;
    } else {
      m := m.(db := m.db + step * v);
      left := 0.0;
    }
  }

  /** The bracketing loop of `calculate_db`: the index it leaves in `j`. */
  method BracketIndex(ts: seq<real>, t: real) returns (j: int)
    requires ts != []
    ensures j == Bracket(ts, t)
  {
    var k := 0;
    while k < |ts|
      invariant 0 <= k <= |ts|
      invariant forall m :: 0 <= m < k ==> ts[m] <= t
    {
      if t < ts[k] {
        break;
      }
      k := k + 1;
    }
    assert k == FirstAbove(ts, t);
    j := if k < |ts| then k - 1 else |ts| - 1;
  }

  /**
   * The summing loop of `calculate_db`: `acc` plus the inflow of the first `j` whole
   * segments; `None` when it runs past the recorded rates.
   */
  method WholeSegments(ts: seq<real>, vs: seq<real>, j: int, acc: real) returns (r: Option<real>)
    requires ts != [] && j < |ts|
    ensures j > |vs| ==> r.None?
    ensures j <= |vs| ==> r == Some(acc + if j <= 0 then 0.0 else SegSum(ts, vs, j))
  {
    var db := acc;
    var k := 0;
    while k < j
      invariant 0 <= k && (k <= j || k == 0)
      invariant k <= |vs|
      invariant db == acc + SegSum(ts, vs, k)
    {
      if k >= |vs| {
        return None;
      }
      db := db + vs[k] * (ts[k + 1] - ts[k]);
      k := k + 1;
    }
    r := Some(db);
  }

  /**
   * The branch of `calculate_db` for the first node not complete at `t`, with `acc` the
   * capacity counted so far (see `Pending`).
   */
  method PendingDb(n: FillNode, t: real, acc: real) returns (r: Option<real>)
    ensures r == Pending(n, t, acc)
  {
    if |n.ts| == 0 {
      return None;
    }
    var j := BracketIndex(n.ts, t);
    var whole := WholeSegments(n.ts, n.vs, j, acc);
    if whole.None? {
      return None;
    }
    var db := whole.value;
    var v := PyIndex(n.vs, j);
    var a := PyIndex(n.ts, j);
    var b := PyIndex(n.ts, j + 1);
    if v.None? || a.None? || b.None? || b.value - a.value == 0.0 {
      return None;
    }
    r := Some(db + Share(v.value, a.value, b.value, t));
  }

  /** The loop of `__init__` that adds up the capacities of the features. */
  method SumCapacity(cells: Cells, features: seq<Id>) returns (total: real)
    requires forall f :: f in features ==> f in cells
    ensures total == Capacity(cells, features)
  {
    total := 0.0;
    var i := 0;
    while i < |features|
      invariant 0 <= i <= |features|
      invariant total == Capacity(cells, features[..i])
    {
      assert features[..i + 1][..i] == features[..i];
      total := total + cells[features[i]].sb;
      i := i + 1;
    }
    assert features[..i] == features;
  }

  class FillSet {
    /** The arena of features; their neighbour dicts do not change during the simulation. */
    const cells: Cells
    const features: seq<Id>
    /** The gateway names that make a polygon an entrance. */
    const gateways: seq<string>
    const fq: FillQueue
    var simulationDuration: real
    var totalPassengerFlow: real
    var fns: seq<FillNode>
    var currentTime: real
    var uniqueSet: set<Id>
    var dbs: seq<real>
    var sb: real

    /** The part of the state the simulation rules talk about. */
    function Snapshot(): Sim
      reads this`fns, this`uniqueSet, fq`queue
    {
      Sim(fns, uniqueSet, fq.queue)
    }

    ghost predicate Valid()
      reads this, fq
    {
      && ArenaOK(cells)
      && (forall f :: f in features ==> f in cells)
      && currentTime >= 0.0
      && Inv(cells, Snapshot())
    }

    /**
     * `FillSet(features)`: sums the capacities, queues the entrances as complete at time 0
     * and runs `_initialize`.
     */
    constructor (cells: Cells, features: seq<Id>, gateways: seq<string>)
      requires ArenaOK(cells) && forall f :: f in features ==> f in cells
      ensures Valid() && fresh(fq)
      ensures this.cells == cells && this.features == features && this.gateways == gateways
      ensures Snapshot() == InitialSim(cells, features, gateways)
      ensures sb == Capacity(cells, features)
      ensures currentTime == 0.0 && simulationDuration == 0.0 && totalPassengerFlow == 0.0 && dbs == []
    {
      this.cells := cells;
      this.features := features;
      this.gateways := gateways;
      simulationDuration := 0.0;
      totalPassengerFlow := 0.0;
      fns := [];
      currentTime := 0.0;
      uniqueSet := {};
      fq := new FillQueue();
      dbs := [];
      var total := SumCapacity(cells, features);
      sb := total;
      new;
      QueueEntrances();
      EntranceNodesSpec(cells, features, gateways);
      Initialize();
    }

    /** The loop of `__init__` that queues each entrance, complete at time 0. */
    method QueueEntrances()
      requires forall f :: f in features ==> f in cells
      modifies fq
      ensures fq.queue == old(fq.queue) + EntranceNodes(cells, features, gateways)
    {
      ghost var q0 := fq.queue;
      var i := 0;
      while i < |features|
        invariant 0 <= i <= |features|
        invariant fq.queue == q0 + EntranceNodes(cells, features[..i], gateways)
      {
        var f := features[i];
        assert features[..i + 1][..i] == features[..i];
        if IsEntrance(cells[f].kind, gateways) {
          fq.Add(EntranceNode(f));
        }
        i := i + 1;
      }
      assert features[..i] == features;
    }

    /**
     * `_initialize`: every zero-capacity neighbour of an entrance that is not yet active
     * becomes active, complete at time 0. The queue test it makes is handed a node, not an
     * id, so it never skips a neighbour that is already queued.
     */
    method Initialize()
      requires Valid()
      modifies this`fns, this`uniqueSet
      ensures Valid()
      ensures fns == old(fns) + SeedNodes(cells, Seeds(cells, Candidates(cells, features, gateways), old(uniqueSet)))
      ensures uniqueSet == old(uniqueSet) + Elems(Seeds(cells, Candidates(cells, features, gateways), old(uniqueSet)))
    {
      ghost var seen := uniqueSet;
      ghost var base := fns;
      CandidatesInArena(cells, features, gateways);
      ghost var cands: seq<Id> := [];
      var i := 0;
      while i < |features|
        invariant 0 <= i <= |features|
        invariant cands == Candidates(cells, features[..i], gateways)
        invariant fns == base + SeedNodes(cells, Seeds(cells, cands, seen))
        invariant uniqueSet == seen + Elems(Seeds(cells, cands, seen))
      {
        var f := features[i];
        CandidatesSnoc(cells, features, gateways, i);
        if IsEntrance(cells[f].kind, gateways) {
          var conn := cells[f].connected;
          SeedsStep(cells, base, cands, conn, seen);
          SeedNeighbours(conn);
          cands := cands + conn;
        }
        i := i + 1;
      }
      assert features[..i] == features;
      SeedsSpec(cells, cands, seen);
      AppendSeeds(cells, old(Snapshot()), Seeds(cells, cands, seen));
    }

    /**
     * The inner loop of `_initialize` over one entrance's neighbours. The queue test it
     * makes is handed a node, not an id, so it never skips a neighbour that is queued.
     */
    method SeedNeighbours(conn: seq<Id>)
      requires forall x :: x in conn ==> x in cells
      modifies this`fns, this`uniqueSet
      ensures fns == old(fns) + SeedNodes(cells, Seeds(cells, conn, old(uniqueSet)))
      ensures uniqueSet == old(uniqueSet) + Elems(Seeds(cells, conn, old(uniqueSet)))
    {
      ghost var seen := uniqueSet;
      ghost var base := fns;
      ghost var seeds: seq<Id> := [];
      var active := fns;
      var unique := uniqueSet;
      var j := 0;
      while j < |conn|
        invariant 0 <= j <= |conn|
        invariant seeds == Seeds(cells, conn[..j], seen)
        invariant active == base + SeedNodes(cells, seeds)
        invariant unique == seen + Elems(seeds)
      {
        var id := conn[j];
        SeedsSnoc(cells, conn, j, seen);
        assert id in unique <==> id in seen || id in seeds;
        if cells[id].sb == 0.0 && id !in unique {
          var node := NewNode(id, cells[id].sb);
          var queued := fq.HasNode(NodeProbe(node));
          if !queued {
            node := node.(tf := Some(0.0));
            SeedNodesSnoc(cells, seeds, id);
            assert Elems(seeds + [id]) == Elems(seeds) + {id};
            active := active + [node];
            unique := unique + {id};
            seeds := seeds + [id];
          }
        }
        j := j + 1;
      }
      assert conn[..j] == conn;
      fns := active;
      uniqueSet := unique;
    }

    /**
     * `add`: a feature neither active nor queued becomes a fresh active node
     * (`AppendActive` shows this keeps the invariant).
     */
    method Add(id: Id)
      requires id in cells
      modifies this`fns, this`uniqueSet
      ensures id !in old(uniqueSet) && id !in IdSet(fq.queue) ==>
                fns == old(fns) + [NewNode(id, cells[id].sb)] && uniqueSet == old(uniqueSet) + {id}
      ensures id in old(uniqueSet) || id in IdSet(fq.queue) ==>
                fns == old(fns) && uniqueSet == old(uniqueSet)
    {
      var queued := fq.HasNode(IdProbe(id));
      if id !in uniqueSet && !queued {
        fns := fns + [NewNode(id, cells[id].sb)];
        uniqueSet := uniqueSet + {id};
      }
    }

    /** `remove`: the active node with this id leaves the list and is returned. */
    method Remove(id: Id) returns (r: Option<FillNode>)
      requires DistinctIds(fns) && uniqueSet == IdSet(fns)
      modifies this`fns, this`uniqueSet
      ensures DistinctIds(fns) && uniqueSet == IdSet(fns)
      ensures id !in old(uniqueSet) ==> r.None? && fns == old(fns) && uniqueSet == old(uniqueSet)
      ensures id in old(uniqueSet) ==>
                var k := IndexOf(old(fns), id);
                && k < |old(fns)|
                && r == Some(old(fns)[k])
                && fns == Without(old(fns), k)
                && uniqueSet == old(uniqueSet) - {id}
    {
      if id !in uniqueSet {
        return None;
      }
      uniqueSet := uniqueSet - {id};
      var index := 0;
      while index < |fns|
        invariant 0 <= index <= |fns|
        invariant forall i :: 0 <= i < index ==> fns[i].id != id
      {
        if fns[index].id == id {
          break;
        }
        index := index + 1;
      }
      assert index == IndexOf(fns, id);
      WithoutIds(fns, index);
      r := Some(fns[index]);
      fns := Without(fns, index);
    }

    /** `pick_filled_node`, as a position in the active list. */
    method PickFilledNode() returns (r: Option<nat>)
      ensures r == FirstMinTf(fns)
    {
      r := None;
      var minTf: Option<real> := None;
      var i := 0;
      while i < |fns|
        invariant 0 <= i <= |fns|
        invariant r == FirstMinTf(fns[..i])
        invariant minTf.None? <==> r.None?
        invariant r.Some? ==> r.value < i && minTf == fns[r.value].tf
      {
        assert fns[..i + 1][..i] == fns[..i];
        var n := fns[i];
        if n.tf.Some? && (minTf.None? || n.tf.value < minTf.value) {
          minTf := n.tf;
          r := Some(i);
        }
        i := i + 1;
      }
      assert fns[..i] == fns;
    }

    /** `pick_filling_node`, as a position in the active list. */
    method PickFillingNode() returns (r: Option<nat>)
      ensures r == FirstMinRemaining(fns)
    {
      r := None;
      var minRemaining: Option<real> := None;
      var i := 0;
      while i < |fns|
        invariant 0 <= i <= |fns|
        invariant r == FirstMinRemaining(fns[..i])
        invariant minRemaining.None? <==> r.None?
        invariant r.Some? ==> r.value < i && minRemaining == Some(Remaining(fns[r.value]))
      {
        assert fns[..i + 1][..i] == fns[..i];
        var remaining := fns[i].sb - fns[i].db;
        if minRemaining.None? || remaining < minRemaining.value {
          r := Some(i);
          minRemaining := Some(remaining);
        }
        i := i + 1;
      }
      assert fns[..i] == fns;
    }

    /** `update_FQ`: one promotion step (see `Promote`). */
    method UpdateFQ()
      requires Valid()
      modifies this`fns, this`uniqueSet, fq
      ensures Valid()
      ensures Snapshot() == Promote(cells, old(Snapshot()))
    {
      PromoteInv(cells, Snapshot());
      var picked := PickFilledNode();
      if picked.Some? {
        PromoteAt(picked.value);
      }
    }

    /**
     * The body of `update_FQ` once node `k` is picked: it is queued with its history
     * closed, leaves the active list, and its fresh neighbours are added.
     */
    method PromoteAt(k: nat)
      requires Valid() && FirstMinTf(fns) == Some(k)
      modifies this`fns, this`uniqueSet, fq
      ensures Snapshot() == Promote(cells, old(Snapshot()))
    {
      ghost var s := Snapshot();
      var n := fns[k];
      assert Tracked(cells, n);
      assert n.id in s.unique by { assert n in s.fns; }
      assert IndexOf(s.fns, n.id) == k;
      var completed := n.(ts := n.ts + [n.tf.value]);
      fq.Add(completed);
      var _ := Remove(n.id);
      assert fns == Without(s.fns, k) && uniqueSet == s.unique - {n.id};
      assert fq.queue == s.queue + [Completed(n)];
      AddNeighbours(cells[n.id].connected);
    }

    /** The loop of `update_FQ` that hands each neighbour of the promoted node to `add`. */
    method AddNeighbours(conn: seq<Id>)
      requires forall x :: x in conn ==> x in cells
      modifies this`fns, this`uniqueSet
      ensures fns == old(fns) + NewNodes(cells, Fresh(conn, old(uniqueSet) + IdSet(fq.queue)))
      ensures uniqueSet == old(uniqueSet) + Elems(Fresh(conn, old(uniqueSet) + IdSet(fq.queue)))
    {
      ghost var rest := fns;
      ghost var unique := uniqueSet;
      ghost var seen := uniqueSet + IdSet(fq.queue);
      ghost var added: seq<Id> := [];
      var j := 0;
      while j < |conn|
        invariant 0 <= j <= |conn|
        invariant added == Fresh(conn[..j], seen)
        invariant fns == rest + NewNodes(cells, added)
        invariant uniqueSet == unique + Elems(added)
      {
        var id := conn[j];
        FreshSnoc(conn, j, seen);
        NewNodesSnoc(cells, added, id);
        assert id in uniqueSet <==> id in unique || id in added;
        Add(id);
        if id !in seen && id !in added {
          assert Elems(added + [id]) == Elems(added) + {id};
          added := added + [id];
        }
        j := j + 1;
      }
      assert conn[..j] == conn;
    }

    /**
     * `tick(t, v, time_step)`: promote, then feed the node with the least remaining
     * capacity; returns the unused part of the step (see `TickResult` and `TickBounds`).
     */
    method Tick(t: real, v: real, step: real) returns (left: real)
      requires Valid() && v > 0.0 && step >= 0.0
      modifies this`fns, this`uniqueSet, fq
      ensures Valid()
      ensures (Snapshot(), left) == TickResult(cells, old(Snapshot()), t, v, step)
      ensures 0.0 <= left <= step && (left > 0.0 ==> FirstMinTf(fns).Some?)
      ensures Eligible(cells, Snapshot()) <= Eligible(cells, old(Snapshot()))
      ensures FirstMinTf(old(fns)).Some? ==> Eligible(cells, Snapshot()) < Eligible(cells, old(Snapshot()))
      ensures old(fq.queue) <= fq.queue
    {
      ghost var s := Snapshot();
      ghost var r := TickResult(cells, s, t, v, step);
      TickBounds(cells, s, t, v, step);
      UpdateFQ();
      if |fns| == 0 {
        assert Snapshot() == r.0;
        return 0.0;
      }
      var k := PickFillingNode();
      var n;
      n, left := FeedStep(fns[k.value], t, v, step);
      fns := fns[k.value := n];
      assert (Snapshot(), left) == r;
      assert Inv(cells, Snapshot());
    }

    /**
     * `execute(vs, duration)`: adds up the positive inflow, runs the minute loop until
     * the current time reaches the horizon, closes the node still filling, and records
     * the capacity of every minute. `settled` is the state the loop ends in; `ok` is false
     * when `record_db` raises.
     */
    method Execute(vs: seq<real>, duration: nat) returns (ok: bool, ghost settled: Sim)
      requires Valid() && duration <= |vs|
      modifies this, fq
      ensures totalPassengerFlow == old(totalPassengerFlow) + PositiveSum(vs)
      ensures simulationDuration == duration as real
      ensures sb == old(sb)
      ensures currentTime == if old(currentTime) < duration as real then duration as real else old(currentTime)
      ensures settled == Run(cells, old(Snapshot()), old(currentTime), TIME_STEP_MINUTE, vs, duration)
      ensures Inv(cells, settled)
      ensures Eligible(cells, settled) <= Eligible(cells, old(Snapshot()))
      ensures |old(fq.queue)| <= |settled.queue| && settled.queue[..|old(fq.queue)|] == old(fq.queue)
      ensures Snapshot() == Finish(settled, currentTime)
      ensures AllDone(fq.queue) && forall i :: 0 <= i < |fq.queue| ==> fq.queue[i].id in cells
      ensures (dbs, ok) == RecordFrom(fq.queue, vs, 0, old(dbs))
    {
      var total := totalPassengerFlow;
      var i := 0;
      while i < |vs|
        invariant 0 <= i <= |vs|
        invariant total == old(totalPassengerFlow) + PositiveSum(vs[..i])
      {
        assert vs[..i + 1][..i] == vs[..i];
        if vs[i] > 0.0 {
          total := total + vs[i];
        }
        i := i + 1;
      }
      assert vs[..i] == vs;
      totalPassengerFlow := total;
      simulationDuration := duration as real;

      Simulate(vs, duration);
      settled := Snapshot();
      CloseFilling();
      ok := RecordDb(vs);
    }

    /**
     * The simulation loop of `execute`: minute by minute, a tick under positive inflow,
     * until the current time reaches the horizon. A tick that leaves part of the step
     * unused moves the clock back from the next minute by that part and runs again.
     */
    method Simulate(vs: seq<real>, duration: nat)
      requires Valid() && duration <= |vs|
      modifies this`fns, this`uniqueSet, this`currentTime, fq
      ensures Valid()
      ensures Snapshot() == Run(cells, old(Snapshot()), old(currentTime), TIME_STEP_MINUTE, vs, duration)
      ensures currentTime == if old(currentTime) < duration as real then duration as real else old(currentTime)
      ensures Eligible(cells, Snapshot()) <= Eligible(cells, old(Snapshot()))
      ensures |old(fq.queue)| <= |fq.queue| && fq.queue[..|old(fq.queue)|] == old(fq.queue)
    {
      var timeStep := TIME_STEP_MINUTE;
      ghost var s0 := Snapshot();
      ghost var ct0 := currentTime;
      ghost var q0 := fq.queue;
      while currentTime < duration as real
        invariant Valid()
        invariant 0.0 < timeStep <= TIME_STEP_MINUTE
        invariant if ct0 < duration as real then currentTime <= duration as real else currentTime == ct0
        invariant Eligible(cells, Snapshot()) <= Eligible(cells, s0)
        invariant q0 <= fq.queue
        invariant Run(cells, s0, ct0, TIME_STEP_MINUTE, vs, duration) == Run(cells, Snapshot(), currentTime, timeStep, vs, duration)
        decreases duration - currentTime.Floor, Eligible(cells, Snapshot()), if FirstMinTf(fns).Some? then 0 else 1
      {
        assert currentTime.Floor < duration by {
          assert currentTime.Floor as real <= currentTime;
        }
        timeStep := Advance(vs, duration, timeStep);
      }
    }

    /**
     * One pass of the simulation loop of `execute`. Each pass makes progress: it moves the
     * clock into a later minute, or it stays in the minute and either promotes a completed
     * node (so fewer features remain eligible) or leaves a completed node to promote next.
     */
    method Advance(vs: seq<real>, duration: nat, timeStep: real) returns (nextStep: real)
      requires Valid() && duration <= |vs| && currentTime < duration as real
      requires 0.0 < timeStep <= TIME_STEP_MINUTE
      modifies this`fns, this`uniqueSet, this`currentTime, fq
      ensures Valid()
      ensures (Snapshot(), currentTime, nextStep) == Pass(cells, old(Snapshot()), old(currentTime), timeStep, vs)
      ensures 0.0 < nextStep <= TIME_STEP_MINUTE
      ensures currentTime <= duration as real
      ensures Eligible(cells, Snapshot()) <= Eligible(cells, old(Snapshot()))
      ensures old(fq.queue) <= fq.queue
      ensures old(currentTime).Floor <= currentTime.Floor
      ensures currentTime.Floor == old(currentTime).Floor ==>
                || Eligible(cells, Snapshot()) < Eligible(cells, old(Snapshot()))
                || (Eligible(cells, Snapshot()) == Eligible(cells, old(Snapshot()))
                    && FirstMinTf(old(fns)).None? && FirstMinTf(fns).Some?)
    {
      assert currentTime.Floor < duration by {
        assert currentTime.Floor as real <= currentTime < duration as real;
      }
      PassProgress(cells, Snapshot(), currentTime, timeStep, vs);
      nextStep := TickOrWait(vs, timeStep);
    }

    /**
     * The body of the loop of `execute`: a tick under positive inflow, then the clock
     * moves as one pass says.
     */
    method TickOrWait(vs: seq<real>, timeStep: real) returns (nextStep: real)
      requires Valid() && currentTime.Floor < |vs|
      requires 0.0 < timeStep <= TIME_STEP_MINUTE
      modifies this`fns, this`uniqueSet, this`currentTime, fq
      ensures (Snapshot(), currentTime, nextStep) == Pass(cells, old(Snapshot()), old(currentTime), timeStep, vs)
    {
      ghost var s := Snapshot();
      ghost var ct := currentTime;
      var floor := currentTime.Floor;
      var v := vs[Trunc(currentTime)];
      if v > 0.0 {
        var timeLeft := Tick(currentTime, v, timeStep);
        if timeLeft != 0.0 {
          nextStep := timeLeft;
          currentTime := floor as real + 1.0 - nextStep;
        } else {
          nextStep := TIME_STEP_MINUTE;
          currentTime := floor as real + 1.0;
        }
        PassTicks(cells, s, ct, timeStep, vs, Snapshot(), timeLeft);
      } else {
        nextStep := TIME_STEP_MINUTE;
        currentTime := floor as real + 1.0;
        PassQuiet(cells, s, ct, timeStep, vs);
      }
    }

    /** The end of `execute`: the node still filling is closed at the current time and queued. */
    method CloseFilling()
      requires Inv(cells, Snapshot())
      modifies this`fns, fq
      ensures Snapshot() == Finish(old(Snapshot()), currentTime)
      ensures AllDone(fq.queue) && forall i :: 0 <= i < |fq.queue| ==> fq.queue[i].id in cells
    {
      FinishQueue(cells, Snapshot(), currentTime);
      if |fns| != 0 {
        var k := PickFillingNode();
        var n := fns[k.value].(tf := Some(currentTime));
        n := n.(ts := n.ts + [n.tf.value]);
        fns := fns[k.value := n];
        fq.Add(n);
      }
    }

    /** `calculate_db(t)`; `None` where the source raises (see `DbAt`). */
    method CalculateDb(t: real) returns (r: Option<real>)
      ensures r == DbAt(fq.queue, t)
    {
      var q := fq.queue;
      var db := 0.0;
      var i := 0;
      while i < |q|
        invariant 0 <= i <= |q|
        invariant DbAt(q, t) == DbFrom(q, t, i, db)
      {
        var n := q[i];
        if n.tf.None? {
          return None;
        }
        if t >= n.tf.value {
          db := db + n.sb;
        } else {
          r := PendingDb(n, t, db);
          return;
        }
        i := i + 1;
      }
      r := Some(db);
    }

    /** `record_db(vs)`: one entry per minute (see `RecordFrom` and `RecordEntries`). */
    method RecordDb(vs: seq<real>) returns (ok: bool)
      modifies this`dbs
      ensures (dbs, ok) == RecordFrom(fq.queue, vs, 0, old(dbs))
    {
      ghost var q := fq.queue;
      var t := 0;
      while t < |vs|
        invariant 0 <= t <= |vs|
        invariant RecordFrom(q, vs, 0, old(dbs)) == RecordFrom(q, vs, t, dbs)
      {
        var v := vs[t];
        var db: real;
        if v > 0.0 {
          var r := CalculateDb(t as real);
          if r.None? {
            return false;
          }
          db := r.value;
        } else {
          db := if |dbs| == 0 then 0.0 else Max(Trunc(dbs[|dbs| - 1] + v), 0) as real;
        }
        dbs := dbs + [db];
        t := t + 1;
      }
      ok := true;
    }

    /** `get_not_filled_features`: the features that never reached the completed queue. */
    method GetNotFilledFeatures() returns (r: seq<Id>)
      ensures r == Unfilled(features, IdSet(fq.queue))
    {
      var q := fq.queue;
      var done: set<Id> := {};
      var i := 0;
      while i < |q|
        invariant 0 <= i <= |q|
        invariant done == IdSet(q[..i])
      {
        assert q[..i + 1] == q[..i] + [q[i]];
        IdSetConcat(q[..i], [q[i]]);
        assert IdSet([q[i]]) == {q[i].id};
        done := done + {q[i].id};
        i := i + 1;
      }
      assert q[..i] == q;
      r := [];
      i := 0;
      while i < |features|
        invariant 0 <= i <= |features|
        invariant r == Unfilled(features[..i], done)
      {
        assert features[..i + 1][..i] == features[..i];
        if features[i] !in done {
          r := r + [features[i]];
        }
        i := i + 1;
      }
      assert features[..i] == features;
    }
  }
}
