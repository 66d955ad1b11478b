/**
 * Filtering the venue graph down to what an entrance can reach:
 * `Feature.get_all_connected_features` and the validation half of `prepare_features`
 * (dynamicBearing/feature.py).
 */
module Reachability {
  import opened Wrappers
  import opened Graph

  /** How many entries of `stack` are already recorded in `seen`. */
  function RecordedCount(stack: seq<Id>, seen: seq<Id>): nat
  {
    if stack == [] then 0
    else RecordedCount(stack[..|stack| - 1], seen) + (if stack[|stack| - 1] in seen then 1 else 0)
  }

  /** The ids of `ns` not recorded in `seen`, in order: what the walk pushes for one feature. */
  function Unrecorded(ns: seq<Id>, seen: seq<Id>): (u: seq<Id>)
    ensures forall y :: y in u <==> y in ns && y !in seen
  {
    if ns == [] then []
    else
      var init := ns[..|ns| - 1];
      var y := ns[|ns| - 1];
      assert forall z :: z in ns <==> z in init || z == y;
      Unrecorded(init, seen) + (if y !in seen then [y] else [])
  }

  lemma {:induction false} RecordedCountAppend(a: seq<Id>, b: seq<Id>, seen: seq<Id>)
    ensures RecordedCount(a + b, seen) == RecordedCount(a, seen) + RecordedCount(b, seen)
  {
    if b == [] {
      assert a + b == a;
    } else {
      var init := b[..|b| - 1];
      RecordedCountAppend(a, init, seen);
      assert (a + b)[..|a + b| - 1] == a + init;
    }
  }

  /** Pushing only unrecorded ids adds nothing to the count of recorded stack entries. */
  lemma {:induction false} UnrecordedCount(ns: seq<Id>, seen: seq<Id>)
    ensures RecordedCount(Unrecorded(ns, seen), seen) == 0
  {
    if ns != [] {
      var init := ns[..|ns| - 1];
      var y := ns[|ns| - 1];
      UnrecordedCount(init, seen);
      RecordedCountAppend(Unrecorded(init, seen), if y !in seen then [y] else [], seen);
      assert [y][..0] == [];
    }
  }

  /** The inner loop of the walk: push each neighbour not yet recorded. */
  method PushUnrecorded(stack: seq<Id>, ns: seq<Id>, seen: seq<Id>) returns (r: seq<Id>)
    ensures r == stack + Unrecorded(ns, seen)
  {
    r := stack;
    var j := 0;
    while j < |ns|
      invariant 0 <= j <= |ns|
      invariant r == stack + Unrecorded(ns[..j], seen)
    {
      assert ns[..j + 1][..j] == ns[..j];
      if ns[j] !in seen {
        r := r + [ns[j]];
      }
      j := j + 1;
    }
    assert ns[..j] == ns;
  }

  /**
   * `get_all_connected_features`: a depth-first walk with an explicit stack that may hold
   * an id more than once; an id is recorded the first time it is popped. The result is the
   * key order of the recorded dict: the start first, each id once, and exactly the ids
   * reachable from the start, so it is closed under adjacency.
   */
  method GetAllConnectedFeatures(cells: Cells, start: Id) returns (r: seq<Id>)
    requires start in cells && Closed(cells)
    ensures NoDup(r) && |r| > 0 && r[0] == start
    ensures forall x :: x in r <==> Reachable(cells, start, x)
    ensures ClosedUnder(cells, Elems(r))
  {
    r := [];
    var stack := [start];
    ReachableSelf(cells, start);
    while stack != []
      invariant NoDup(r)
      invariant r == [] ==> stack == [start]
      invariant r != [] ==> r[0] == start
      invariant forall x :: x in r ==> x in cells && Reachable(cells, start, x)
      invariant forall x :: x in stack ==> x in cells && Reachable(cells, start, x)
      invariant forall a, b :: a in r && b in cells[a].connected ==> b in r || b in stack
      decreases cells.Keys - Elems(r), RecordedCount(stack, r)
    {
      var x := stack[|stack| - 1];
      ghost var held := stack;
      assert stack == stack[..|stack| - 1] + [x];
      RecordedCountAppend(stack[..|stack| - 1], [x], r);
      assert [x][..0] == [];
      stack := stack[..|stack| - 1];
      ghost var before := r;
      if x !in r {
        r := r + [x];
        assert Elems(r) == Elems(before) + {x};
      }
      ghost var popped := stack;
      var ns := cells[x].connected;
      forall y | y in ns ensures Reachable(cells, start, y) {
        ReachableStep(cells, start, x, y);
      }
      stack := PushUnrecorded(stack, ns, r);
      RecordedCountAppend(popped, Unrecorded(ns, r), r);
      UnrecordedCount(ns, r);
      forall a, b | a in r && b in cells[a].connected ensures b in r || b in stack {
        if a == x {
          assert b in ns;
        } else {
          assert a in before;
          if b !in before && b != x {
            assert b in held;
            assert b in popped;
          }
        }
      }
    }
    forall a | a in Elems(r) && a in cells ensures forall b :: b in cells[a].connected ==> b in Elems(r) {
    }
    forall x | Reachable(cells, start, x) ensures x in r {
      ClosedHoldsReachable(cells, Elems(r), start, x);
    }
  }

  /** An entrance that can route flow: a gateway polygon that is not nested-isolated. */
  predicate ValidEntrance(cells: Cells, e: Id, gateways: seq<string>)
    requires e in cells && Closed(cells) && DictLike(cells)
  {
    IsEntrance(cells[e].kind, gateways) && !CheckNestedIsolation(cells, e)
  }

  /** The ids reachable from `e`. */
  ghost function ReachSet(cells: Cells, e: Id): set<Id>
  {
    set x | x in cells && Reachable(cells, e, x)
  }

  /** The ids reachable from some id of `es`. */
  ghost function ReachAll(cells: Cells, es: seq<Id>): (s: set<Id>)
    ensures forall x :: x in s <==> exists e :: e in es && Reachable(cells, e, x)
  {
    if es == [] then {}
    else
      var init := es[..|es| - 1];
      assert forall e :: e in es <==> e in init || e == es[|es| - 1];
      ReachAll(cells, init) + ReachSet(cells, es[|es| - 1])
  }

  /** What the union over the valid entrances holds, as `prepare_features` promises it. */
  lemma PreparedSet(cells: Cells, features: seq<Id>, gateways: seq<string>, entrances: seq<Id>, r: seq<Id>)
    requires Closed(cells) && DictLike(cells)
    requires forall f :: f in features ==> f in cells
    requires forall e :: e in entrances <==> e in features && ValidEntrance(cells, e, gateways)
    requires Elems(r) == ReachAll(cells, entrances)
    ensures forall x :: x in r <==>
              exists e :: e in features && ValidEntrance(cells, e, gateways) && Reachable(cells, e, x)
    ensures ClosedUnder(cells, Elems(r))
    ensures r == [] <==> forall e :: e in features ==> !ValidEntrance(cells, e, gateways)
  {
    forall x
      ensures x in r <==> exists e :: e in features && ValidEntrance(cells, e, gateways) && Reachable(cells, e, x)
    {
      assert x in r <==> x in Elems(r);
      if x in r {
        var e :| e in entrances && Reachable(cells, e, x);
        assert e in features && ValidEntrance(cells, e, gateways);
      }
      if exists e :: e in features && ValidEntrance(cells, e, gateways) && Reachable(cells, e, x) {
        var e :| e in features && ValidEntrance(cells, e, gateways) && Reachable(cells, e, x);
        assert e in entrances;
        assert x in Elems(r);
      }
    }
    forall a, b | a in Elems(r) && a in cells && b in cells[a].connected ensures b in Elems(r) {
      var e :| e in entrances && Reachable(cells, e, a);
      ReachableStep(cells, e, a, b);
    }
    if exists e :: e in features && ValidEntrance(cells, e, gateways) {
      var e :| e in features && ValidEntrance(cells, e, gateways);
      ReachableSelf(cells, e);
      assert e in r;
    }
    if r != [] {
      assert r[0] in r;
    }
  }

  /** The first loop of the validation in `prepare_features`: the valid entrances, in order. */
  method ValidEntrances(cells: Cells, features: seq<Id>, gateways: seq<string>) returns (entrances: seq<Id>)
    requires Closed(cells) && DictLike(cells)
    requires forall f :: f in features ==> f in cells
    ensures forall e :: e in entrances <==> e in features && ValidEntrance(cells, e, gateways)
  {
    entrances := [];
    var i := 0;
    while i < |features|
      invariant 0 <= i <= |features|
      invariant forall e :: e in entrances <==> e in features[..i] && ValidEntrance(cells, e, gateways)
    {
      var f := features[i];
      assert forall e :: e in features[..i + 1] <==> e in features[..i] || e == f;
      if IsEntrance(cells[f].kind, gateways) && !CheckNestedIsolation(cells, f) {
        entrances := entrances + [f];
      }
      i := i + 1;
    }
    assert features[..i] == features;
  }

  /**
   * The inner loop of `prepare_features`: each id of `component` becomes a key of the dict
   * of connected features, so the keys gain the new ids at the end, in order.
   */
  method MergeKeys(keys: seq<Id>, component: seq<Id>) returns (r: seq<Id>)
    requires NoDup(keys) && NoDup(component)
    ensures r == keys + Unrecorded(component, keys)
    ensures NoDup(r) && Elems(r) == Elems(keys) + Elems(component)
  {
    r := keys;
    var k := 0;
    while k < |component|
      invariant 0 <= k <= |component|
      invariant r == keys + Unrecorded(component[..k], keys)
    {
      var c := component[k];
      assert component[..k + 1][..k] == component[..k];
      assert c !in component[..k];
      assert c in r <==> c in keys;
      if c !in r {
        r := r + [c];
      }
      k := k + 1;
    }
    assert component[..k] == component;
    UnrecordedNoDup(component, keys);
  }

  /** Appending the unrecorded ids of a list without repeats keeps the keys free of repeats. */
  lemma {:induction false} UnrecordedNoDup(ns: seq<Id>, keys: seq<Id>)
    requires NoDup(keys) && NoDup(ns)
    ensures NoDup(keys + Unrecorded(ns, keys))
  {
    if ns != [] {
      var init := ns[..|ns| - 1];
      var y := ns[|ns| - 1];
      assert NoDup(init);
      UnrecordedNoDup(init, keys);
      assert y !in init;
      var r := keys + Unrecorded(ns, keys);
      var a := keys + Unrecorded(init, keys);
      if y !in keys {
        assert r == a + [y];
        assert y !in a;
        forall i, j | 0 <= i < j < |r| ensures r[i] != r[j] {
          if j == |a| {
            assert r[i] == a[i];
          }
        }
      } else {
        assert r == a;
      }
    }
  }

  /**
   * Lines 109-123 of `prepare_features` after the adjacency is built: keep the valid
   * entrances, then union, without repeats, the features each of them reaches. The result
   * is exactly what some valid entrance reaches, it is closed under adjacency, and it is
   * empty exactly when no feature is a valid entrance.
   */
  method PrepareFeatures(cells: Cells, features: seq<Id>, gateways: seq<string>) returns (r: seq<Id>)
    requires Closed(cells) && DictLike(cells)
    requires forall f :: f in features ==> f in cells
    ensures NoDup(r)
    ensures forall x :: x in r <==>
              exists e :: e in features && ValidEntrance(cells, e, gateways) && Reachable(cells, e, x)
    ensures ClosedUnder(cells, Elems(r))
    ensures r == [] <==> forall e :: e in features ==> !ValidEntrance(cells, e, gateways)
  {
    var entrances := ValidEntrances(cells, features, gateways);
    r := [];
    var i := 0;
    while i < |entrances|
      invariant 0 <= i <= |entrances|
      invariant NoDup(r)
      invariant Elems(r) == ReachAll(cells, entrances[..i])
    {
      var e := entrances[i];
      var component := GetAllConnectedFeatures(cells, e);
      r := MergeKeys(r, component);
      assert Elems(component) == ReachSet(cells, e);
      assert entrances[..i + 1][..i] == entrances[..i];
      i := i + 1;
    }
    assert entrances[..i] == entrances;

    PreparedSet(cells, features, gateways, entrances, r);
  }
}
