/**
 * The starting state of a `FillSet` (dbc/filling.py, `__init__` and `_initialize`): the
 * static capacity, the entrances queued as already complete, and the zero-capacity
 * neighbours of the entrances as the first active nodes.
 */
module FillInit {
  import opened Wrappers
  import opened Graph
  import opened FillNodes
  import opened FillRules

  /** `self.sb`: the sum of the capacities of the features. */
  function Capacity(cells: Cells, features: seq<Id>): (r: real)
    requires forall f :: f in features ==> f in cells
    ensures ArenaOK(cells) ==> r >= 0.0
  {
    if features == [] then 0.0
    else
      var init := features[..|features| - 1];
      assert forall f :: f in init ==> f in features;
      Capacity(cells, init) + cells[features[|features| - 1]].sb
  }

  /** The total of the positive entries of `vs` (`total_passenger_flow`). */
  function PositiveSum(vs: seq<real>): (r: real)
    ensures r >= 0.0
    ensures (forall i :: 0 <= i < |vs| ==> vs[i] <= 0.0) ==> r == 0.0
  {
    if vs == [] then 0.0
    else
      var v := vs[|vs| - 1];
      PositiveSum(vs[..|vs| - 1]) + (if v > 0.0 then v else 0.0)
  }

  /** The queued form of an entrance: nothing to fill, complete at time 0. */
  function EntranceNode(id: Id): FillNode
  {
    FillNode(id, 0.0, 0.0, Some(0.0), [], [])
  }

  /** The entrances among `features`, in order, as queued nodes. */
  function EntranceNodes(cells: Cells, features: seq<Id>, gateways: seq<string>): seq<FillNode>
    requires forall f :: f in features ==> f in cells
  {
    if features == [] then []
    else
      var init := features[..|features| - 1];
      var f := features[|features| - 1];
      assert forall g :: g in init ==> g in features;
      EntranceNodes(cells, init, gateways) + (if IsEntrance(cells[f].kind, gateways) then [EntranceNode(f)] else [])
  }

  /** The neighbours of the entrances among `features`, entrance by entrance, in dict order. */
  function Candidates(cells: Cells, features: seq<Id>, gateways: seq<string>): seq<Id>
    requires forall f :: f in features ==> f in cells
  {
    if features == [] then []
    else
      var init := features[..|features| - 1];
      var f := features[|features| - 1];
      assert forall g :: g in init ==> g in features;
      Candidates(cells, init, gateways) + (if IsEntrance(cells[f].kind, gateways) then cells[f].connected else [])
  }

  /** The zero-capacity ids of `ids` not in `seen`, each once, in first-seen order. */
  function Seeds(cells: Cells, ids: seq<Id>, seen: set<Id>): (r: seq<Id>)
    ensures forall x :: x in r ==> x in cells
  {
    if ids == [] then []
    else
      var r := Seeds(cells, ids[..|ids| - 1], seen);
      var x := ids[|ids| - 1];
      if x in cells && cells[x].sb == 0.0 && x !in seen && x !in r then r + [x] else r
  }

  /** The seeds are distinct, and they are exactly the zero-capacity ids of `ids` not in `seen`. */
  lemma {:induction false} SeedsSpec(cells: Cells, ids: seq<Id>, seen: set<Id>)
    ensures var r := Seeds(cells, ids, seen);
            && NoDup(r)
            && forall x :: x in r <==> x in ids && x in cells && cells[x].sb == 0.0 && x !in seen
  {
    if ids != [] {
      var init := ids[..|ids| - 1];
      assert forall y :: y in ids <==> y in init || y == ids[|ids| - 1];
      SeedsSpec(cells, init, seen);
    }
  }

  /** Seeding from one more id of `ids`. */
  lemma SeedsSnoc(cells: Cells, ids: seq<Id>, j: nat, seen: set<Id>)
    requires j < |ids|
    ensures var r := Seeds(cells, ids[..j], seen);
            var x := ids[j];
            Seeds(cells, ids[..j + 1], seen)
            == if x in cells && cells[x].sb == 0.0 && x !in seen && x !in r then r + [x] else r
  {
    assert ids[..j + 1][..j] == ids[..j];
  }

  /** The active node `_initialize` makes for a seed: complete at time 0. */
  function SeedNode(cells: Cells, id: Id): FillNode
    requires id in cells
  {
    FillNode(id, cells[id].sb, 0.0, Some(0.0), [], [])
  }

  function SeedNodes(cells: Cells, ids: seq<Id>): (r: seq<FillNode>)
    requires forall x :: x in ids ==> x in cells
    ensures |r| == |ids| && forall i :: 0 <= i < |ids| ==> r[i] == SeedNode(cells, ids[i])
  {
    seq(|ids|, i requires 0 <= i < |ids| => SeedNode(cells, ids[i]))
  }

  lemma SeedNodesSnoc(cells: Cells, ids: seq<Id>, x: Id)
    requires forall y :: y in ids ==> y in cells
    requires x in cells
    ensures SeedNodes(cells, ids + [x]) == SeedNodes(cells, ids) + [SeedNode(cells, x)]
  {
  }

  lemma SeedNodesConcat(cells: Cells, a: seq<Id>, b: seq<Id>)
    requires forall y :: y in a ==> y in cells
    requires forall y :: y in b ==> y in cells
    ensures SeedNodes(cells, a + b) == SeedNodes(cells, a) + SeedNodes(cells, b)
  {
  }

  /** Seeding from `a + b` is seeding from `a`, then from `b` with `a`'s seeds seen. */
  lemma {:induction false} SeedsAppend(cells: Cells, a: seq<Id>, b: seq<Id>, seen: set<Id>)
    ensures Seeds(cells, a + b, seen) == Seeds(cells, a, seen) + Seeds(cells, b, seen + Elems(Seeds(cells, a, seen)))
  {
    if b == [] {
      assert a + b == a;
    } else {
      var init := b[..|b| - 1];
      var x := b[|b| - 1];
      SeedsAppend(cells, a, init, seen);
      assert (a + b)[..|a + b| - 1] == a + init;
    }
  }

  /** Seeding from one more entrance's neighbours extends the seeds of the earlier ones. */
  lemma SeedsStep(cells: Cells, base: seq<FillNode>, cands: seq<Id>, conn: seq<Id>, seen: set<Id>)
    ensures var earlier := Seeds(cells, cands, seen);
            var later := Seeds(cells, conn, seen + Elems(earlier));
            && base + SeedNodes(cells, earlier) + SeedNodes(cells, later) == base + SeedNodes(cells, Seeds(cells, cands + conn, seen))
            && seen + Elems(earlier) + Elems(later) == seen + Elems(Seeds(cells, cands + conn, seen))
  {
    var earlier := Seeds(cells, cands, seen);
    var later := Seeds(cells, conn, seen + Elems(earlier));
    SeedsAppend(cells, cands, conn, seen);
    SeedNodesConcat(cells, earlier, later);
    assert Elems(earlier + later) == Elems(earlier) + Elems(later);
  }

  /** One more feature extends the candidates by its neighbours when it is an entrance. */
  lemma CandidatesSnoc(cells: Cells, features: seq<Id>, gateways: seq<string>, i: nat)
    requires i < |features| && forall f :: f in features ==> f in cells
    ensures Candidates(cells, features[..i + 1], gateways)
            == Candidates(cells, features[..i], gateways)
               + (if IsEntrance(cells[features[i]].kind, gateways) then cells[features[i]].connected else [])
  {
    assert features[..i + 1][..i] == features[..i];
  }

  /** Appending the seed nodes of new, distinct zero-capacity ids keeps the invariant. */
  lemma AppendSeeds(cells: Cells, s: Sim, seeds: seq<Id>)
    requires ArenaOK(cells) && Inv(cells, s) && NoDup(seeds)
    requires forall x :: x in seeds ==> x in cells && cells[x].sb == 0.0 && x !in s.unique
    ensures Inv(cells, Sim(s.fns + SeedNodes(cells, seeds), s.unique + Elems(seeds), s.queue))
  {
  }

  lemma {:induction false} CandidatesInArena(cells: Cells, features: seq<Id>, gateways: seq<string>)
    requires Closed(cells) && forall f :: f in features ==> f in cells
    ensures forall x :: x in Candidates(cells, features, gateways) <==>
              exists e :: e in features && IsEntrance(cells[e].kind, gateways) && x in cells[e].connected
    ensures forall x :: x in Candidates(cells, features, gateways) ==> x in cells
  {
    if features != [] {
      var init := features[..|features| - 1];
      var f := features[|features| - 1];
      assert forall g :: g in features <==> g in init || g == f;
      CandidatesInArena(cells, init, gateways);
    }
  }

  lemma {:induction false} EntranceNodesSpec(cells: Cells, features: seq<Id>, gateways: seq<string>)
    requires forall f :: f in features ==> f in cells
    ensures var q := EntranceNodes(cells, features, gateways);
            && (forall x :: x in IdSet(q) <==> x in features && IsEntrance(cells[x].kind, gateways))
            && (forall i :: 0 <= i < |q| ==> q[i] == EntranceNode(q[i].id) && q[i].id in cells)
  {
    if features != [] {
      var init := features[..|features| - 1];
      var f := features[|features| - 1];
      assert forall g :: g in features <==> g in init || g == f;
      EntranceNodesSpec(cells, init, gateways);
      var q0 := EntranceNodes(cells, init, gateways);
      if IsEntrance(cells[f].kind, gateways) {
        IdSetConcat(q0, [EntranceNode(f)]);
        assert IdSet([EntranceNode(f)]) == {f};
      } else {
        assert EntranceNodes(cells, features, gateways) == q0;
      }
    }
  }

  /** The state right after `__init__`. */
  function InitialSim(cells: Cells, features: seq<Id>, gateways: seq<string>): Sim
    requires forall f :: f in features ==> f in cells
  {
    var seeds := Seeds(cells, Candidates(cells, features, gateways), {});
    Sim(SeedNodes(cells, seeds), Elems(seeds), EntranceNodes(cells, features, gateways))
  }

  lemma {:induction false} SeedNodesIds(cells: Cells, ids: seq<Id>)
    requires forall x :: x in ids ==> x in cells
    ensures IdSet(SeedNodes(cells, ids)) == Elems(ids)
  {
    var ns := SeedNodes(cells, ids);
    forall x | x in Elems(ids) ensures x in IdSet(ns) {
      var i :| 0 <= i < |ids| && ids[i] == x;
      assert ns[i] in ns;
    }
  }

  /**
   * The starting state satisfies the simulation invariant; the queue holds exactly the
   * entrances among the features, each with nothing to fill and complete at time 0; the
   * active list holds exactly the zero-capacity neighbours of those entrances, each once
   * and each complete at time 0.
   */
  lemma InitialState(cells: Cells, features: seq<Id>, gateways: seq<string>)
    requires ArenaOK(cells) && forall f :: f in features ==> f in cells
    ensures var s := InitialSim(cells, features, gateways);
            && Inv(cells, s)
            && (forall x :: x in IdSet(s.queue) <==> x in features && IsEntrance(cells[x].kind, gateways))
            && (forall i :: 0 <= i < |s.queue| ==> s.queue[i].sb == 0.0 && s.queue[i].tf == Some(0.0))
            && (forall x :: x in IdSet(s.fns) <==>
                  x in cells && cells[x].sb == 0.0
                  && exists e :: e in features && IsEntrance(cells[e].kind, gateways) && x in cells[e].connected)
            && (forall i :: 0 <= i < |s.fns| ==> s.fns[i].tf == Some(0.0))
  {
    CandidatesInArena(cells, features, gateways);
    EntranceNodesSpec(cells, features, gateways);
    var seeds := Seeds(cells, Candidates(cells, features, gateways), {});
    SeedsSpec(cells, Candidates(cells, features, gateways), {});
    SeedNodesIds(cells, seeds);
    var s := InitialSim(cells, features, gateways);
    forall i, j | 0 <= i < j < |s.fns| ensures s.fns[i].id != s.fns[j].id {
      assert s.fns[i].id == seeds[i] && s.fns[j].id == seeds[j];
    }
    forall i | 0 <= i < |s.fns| ensures Tracked(cells, s.fns[i]) {
      assert seeds[i] in seeds;
    }
  }
}
