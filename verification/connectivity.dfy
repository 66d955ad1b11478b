/**
 * Building the adjacency of the venue graph: `check_connectivity` and the loop of
 * `prepare_features` that runs it for every feature (dynamicBearing/feature.py).
 * The geometric intersects-or-touches test is an oracle `touches` on ids.
 */
module Connectivity {
  import opened Wrappers
  import opened Graph

  /** `d[k] = ...` on the key order of a dict: a new key goes last, an old one stays put. */
  function Put(keys: seq<Id>, k: Id): (r: seq<Id>)
    ensures Elems(r) == Elems(keys) + {k}
    ensures NoDup(keys) ==> NoDup(r)
  {
    if k in keys then keys else keys + [k]
  }

  /** Records the edge between `f` and `b` in both neighbour dicts. */
  function Link(cells: Cells, f: Id, b: Id): (r: Cells)
    requires f in cells && b in cells && f != b
    ensures r.Keys == cells.Keys
  {
    var c := cells[f := cells[f].(connected := Put(cells[f].connected, b))];
    c[b := c[b].(connected := Put(c[b].connected, f))]
  }

  /** The arena after `check_connectivity(f, fs)`, one candidate of `fs` at a time. */
  function Connect(cells: Cells, f: Id, fs: seq<Id>, touches: (Id, Id) -> bool): (r: Cells)
    requires f in cells && forall x :: x in fs ==> x in cells
    ensures r.Keys == cells.Keys
  {
    if fs == [] then cells
    else
      var c := Connect(cells, f, fs[..|fs| - 1], touches);
      var b := fs[|fs| - 1];
      if b != f && !Intersect(c, f, b) && touches(b, f) then Link(c, f, b) else c
  }

  /** The arena after `check_connectivity(f, all)` for every `f` of `order`, in turn. */
  function ConnectEach(cells: Cells, order: seq<Id>, all: seq<Id>, touches: (Id, Id) -> bool): (r: Cells)
    requires forall x :: x in order ==> x in cells
    requires forall x :: x in all ==> x in cells
    ensures r.Keys == cells.Keys
  {
    if order == [] then cells
    else Connect(ConnectEach(cells, order[..|order| - 1], all, touches), order[|order| - 1], all, touches)
  }

  /** A well-formed adjacency: distinct keys, no self edge, symmetric. */
  predicate WellLinked(cells: Cells)
  {
    DictLike(cells) && Irreflexive(cells) && Symmetric(cells)
  }

  /** Linking two unlinked, different cells adds exactly their edge, both ways. */
  lemma LinkEdges(c: Cells, f: Id, b: Id)
    requires f in c && b in c && f != b && WellLinked(c) && b !in c[f].connected
    ensures WellLinked(Link(c, f, b))
    ensures forall x, y :: x in c && y in c ==>
              (y in Link(c, f, b)[x].connected
               <==> y in c[x].connected || (x == f && y == b) || (x == b && y == f))
  {
  }

  /** Linking two features of the arena names no id outside it. */
  lemma LinkClosed(c: Cells, f: Id, b: Id)
    requires f in c && b in c && f != b && Closed(c)
    ensures Closed(Link(c, f, b))
  {
  }

  /** `check_connectivity` only links features of the arena, so every neighbour stays a feature. */
  lemma {:induction false} ConnectClosed(cells: Cells, f: Id, fs: seq<Id>, touches: (Id, Id) -> bool)
    requires f in cells && forall x :: x in fs ==> x in cells
    requires Closed(cells)
    ensures Closed(Connect(cells, f, fs, touches))
  {
    if fs != [] {
      var init := fs[..|fs| - 1];
      var b := fs[|fs| - 1];
      ConnectClosed(cells, f, init, touches);
      var c := Connect(cells, f, init, touches);
      if b != f && !Intersect(c, f, b) && touches(b, f) {
        LinkClosed(c, f, b);
      }
    }
  }

  /** The connectivity pass over every feature keeps every neighbour a feature. */
  lemma {:induction false} ConnectEachClosed(cells: Cells, order: seq<Id>, all: seq<Id>, touches: (Id, Id) -> bool)
    requires forall x :: x in order ==> x in cells
    requires forall x :: x in all ==> x in cells
    requires Closed(cells)
    ensures Closed(ConnectEach(cells, order, all, touches))
  {
    if order != [] {
      var init := order[..|order| - 1];
      ConnectEachClosed(cells, init, all, touches);
      ConnectClosed(ConnectEach(cells, init, all, touches), order[|order| - 1], all, touches);
    }
  }

  /** Whether the edge `x -> y` of `r` is the one `check_connectivity(f, fs)` leaves. */
  ghost predicate EdgeAfterConnect(cells: Cells, r: Cells, f: Id, fs: seq<Id>, touches: (Id, Id) -> bool, x: Id, y: Id)
    requires x in cells && x in r
  {
    y in r[x].connected
    <==> y in cells[x].connected
         || (x == f && y in fs && y != f && touches(y, f))
         || (y == f && x in fs && x != f && touches(x, f))
  }

  /** The edges `check_connectivity(f, fs)` leaves, as a relation on ids. */
  ghost predicate ConnectRelation(cells: Cells, r: Cells, f: Id, fs: seq<Id>, touches: (Id, Id) -> bool)
    requires r.Keys == cells.Keys
  {
    forall x, y :: x in cells && y in cells ==> EdgeAfterConnect(cells, r, f, fs, touches, x, y)
  }

  /** One more candidate `b` of `check_connectivity(f, ...)` keeps `ConnectRelation`. */
  lemma ConnectStep(cells: Cells, c: Cells, f: Id, init: seq<Id>, b: Id, touches: (Id, Id) -> bool)
    requires c.Keys == cells.Keys && f in cells && b in cells
    requires WellLinked(c) && ConnectRelation(cells, c, f, init, touches)
    ensures var r := if b != f && !Intersect(c, f, b) && touches(b, f) then Link(c, f, b) else c;
            WellLinked(r) && ConnectRelation(cells, r, f, init + [b], touches)
  {
    var fs := init + [b];
    var linked := b != f && !Intersect(c, f, b) && touches(b, f);
    var r := if linked then Link(c, f, b) else c;
    if linked {
      LinkEdges(c, f, b);
    }
    forall x, y | x in cells && y in cells
      ensures EdgeAfterConnect(cells, r, f, fs, touches, x, y)
    {
      assert y in fs <==> y in init || y == b;
      assert x in fs <==> x in init || x == b;
      assert EdgeAfterConnect(cells, c, f, init, touches, x, y);
      if !linked && b != f && touches(b, f) {
        assert f in c[b].connected;
      }
    }
  }

  /**
   * One `check_connectivity(f, fs)` call adds exactly the edges between `f` and the
   * candidates `b != f` with `touches(b, f)`, in both directions, and keeps the adjacency
   * well formed.
   */
  lemma {:induction false} ConnectEdges(cells: Cells, f: Id, fs: seq<Id>, touches: (Id, Id) -> bool)
    requires f in cells && forall x :: x in fs ==> x in cells
    requires WellLinked(cells)
    ensures WellLinked(Connect(cells, f, fs, touches))
    ensures ConnectRelation(cells, Connect(cells, f, fs, touches), f, fs, touches)
  {
    if fs == [] {
      forall x, y | x in cells && y in cells
        ensures EdgeAfterConnect(cells, cells, f, fs, touches, x, y)
      {
      }
    } else {
      var init := fs[..|fs| - 1];
      var b := fs[|fs| - 1];
      assert init + [b] == fs;
      ConnectEdges(cells, f, init, touches);
      var c := Connect(cells, f, init, touches);
      assert Connect(cells, f, fs, touches)
             == if b != f && !Intersect(c, f, b) && touches(b, f) then Link(c, f, b) else c;
      ConnectStep(cells, c, f, init, b, touches);
    }
  }

  /** Whether the edge `x -> y` of `r` is the one the connectivity pass over `order` leaves. */
  ghost predicate EdgeAfterBuild(r: Cells, order: seq<Id>, all: seq<Id>, touches: (Id, Id) -> bool, x: Id, y: Id)
    requires x in r
  {
    y in r[x].connected
    <==> x != y && ((x in order && y in all && touches(y, x)) || (y in order && x in all && touches(x, y)))
  }

  /**
   * The loop of `prepare_features` over a list of features, started from cells without
   * neighbours, links two features exactly when they are different and the oracle holds
   * in either direction.
   */
  lemma {:induction false} ConnectEachEdges(cells: Cells, order: seq<Id>, all: seq<Id>, touches: (Id, Id) -> bool)
    requires forall x :: x in order ==> x in cells
    requires forall x :: x in all ==> x in cells
    requires forall x :: x in cells ==> cells[x].connected == []
    ensures WellLinked(ConnectEach(cells, order, all, touches))
    ensures forall x, y :: x in cells && y in cells ==>
              EdgeAfterBuild(ConnectEach(cells, order, all, touches), order, all, touches, x, y)
  {
    var r := ConnectEach(cells, order, all, touches);
    if order == [] {
      forall x, y | x in cells && y in cells
        ensures EdgeAfterBuild(r, order, all, touches, x, y)
      {
      }
    } else {
      var init := order[..|order| - 1];
      var f := order[|order| - 1];
      ConnectEachEdges(cells, init, all, touches);
      var c := ConnectEach(cells, init, all, touches);
      ConnectEdges(c, f, all, touches);
      assert r == Connect(c, f, all, touches);
      forall x, y | x in cells && y in cells
        ensures EdgeAfterBuild(r, order, all, touches, x, y)
      {
        assert x in order <==> x in init || x == f;
        assert y in order <==> y in init || y == f;
        assert EdgeAfterBuild(c, init, all, touches, x, y);
        assert EdgeAfterConnect(c, r, f, all, touches, x, y);
      }
    }
  }

  /** The whole adjacency built by `prepare_features` is well formed and is the oracle's. */
  lemma BuiltAdjacency(cells: Cells, features: seq<Id>, touches: (Id, Id) -> bool)
    requires forall x :: x in features ==> x in cells
    requires forall x :: x in cells ==> cells[x].connected == []
    ensures WellLinked(ConnectEach(cells, features, features, touches))
    ensures Closed(ConnectEach(cells, features, features, touches))
    ensures forall x, y :: x in cells && y in cells ==>
              (y in ConnectEach(cells, features, features, touches)[x].connected
               <==> x != y && x in features && y in features && (touches(x, y) || touches(y, x)))
  {
    ConnectEachEdges(cells, features, features, touches);
    ConnectEachClosed(cells, features, features, touches);
  }

  /** The features being linked; each owns its neighbour dict. */
  class Arena {
    var cells: Cells

    constructor (cells: Cells)
      ensures this.cells == cells
    {
      this.cells := cells;
    }

    /** `check_connectivity(f, features)`. */
    method CheckConnectivity(f: Id, features: seq<Id>, touches: (Id, Id) -> bool)
      requires f in cells && forall x :: x in features ==> x in cells
      modifies this
      ensures cells == Connect(old(cells), f, features, touches)
    {
      var i := 0;
      while i < |features|
        invariant 0 <= i <= |features|
        invariant cells == Connect(old(cells), f, features[..i], touches)
      {
        var b := features[i];
        assert features[..i + 1][..i] == features[..i];
        if b != f && !Intersect(cells, f, b) && touches(b, f) {
          cells := cells[f := cells[f].(connected := Put(cells[f].connected, b))];
          cells := cells[b := cells[b].(connected := Put(cells[b].connected, f))];
        }
        i := i + 1;
      }
      assert features[..i] == features;
    }

    /** The connectivity pass of `prepare_features`: every feature against all of them. */
    method BuildConnectivity(features: seq<Id>, touches: (Id, Id) -> bool)
      requires forall x :: x in features ==> x in cells
      modifies this
      ensures cells == ConnectEach(old(cells), features, features, touches)
    {
      var i := 0;
      while i < |features|
        invariant 0 <= i <= |features|
        invariant cells.Keys == old(cells).Keys
        invariant cells == ConnectEach(old(cells), features[..i], features, touches)
      {
        assert features[..i + 1][..i] == features[..i];
        CheckConnectivity(features[i], features, touches);
        i := i + 1;
      }
      assert features[..i] == features;
    }
  }
}
