/**
 * The venue graph of dynamicBearing/feature.py as an arena: every feature is a `Cell`
 * stored under its id, and a cell names its neighbours by id instead of holding them.
 * The neighbour list keeps the insertion order of the source's `connected_features` dict.
 */
module Graph {
  import opened Wrappers

  type Id = string

  /** The two feature classes; only a polygon has a name (and so can be an entrance). */
  datatype Kind = LINE | POLYGON(name: string)

  /** One feature: its class, its static bearing capacity and its neighbours' ids. */
  datatype Cell = Cell(kind: Kind, sb: real, connected: seq<Id>)

  type Cells = map<Id, Cell>

  /** Every neighbour id names a cell of the arena. */
  predicate Closed(cells: Cells)
  {
    forall a, b :: a in cells && b in cells[a].connected ==> b in cells
  }

  /** Every neighbour list has distinct ids, as the keys of a dict do. */
  predicate DictLike(cells: Cells)
  {
    forall a :: a in cells ==> NoDup(cells[a].connected)
  }

  /** Adjacency goes both ways. */
  predicate Symmetric(cells: Cells)
  {
    forall a, b :: a in cells && b in cells && b in cells[a].connected ==> a in cells[b].connected
  }

  /** No cell is its own neighbour. */
  predicate Irreflexive(cells: Cells)
  {
    forall a :: a in cells ==> a !in cells[a].connected
  }

  /** The ids of the cells adjacent to `id`. */
  function Neighbours(cells: Cells, id: Id): set<Id>
    requires id in cells
  {
    Elems(cells[id].connected)
  }

  /** `Feature.intersect`: is `b` already a key of the neighbour dict of `a`? */
  function Intersect(cells: Cells, a: Id, b: Id): (r: bool)
    requires a in cells
    ensures r <==> b in Neighbours(cells, a)
  {
    b in cells[a].connected
  }

  lemma IntersectIsSymmetric(cells: Cells, a: Id, b: Id)
    requires Symmetric(cells) && a in cells && b in cells
    ensures Intersect(cells, a, b) <==> Intersect(cells, b, a)
  {
  }

  /**
   * `Polygon.is_entrance` together with the `geometry_type == 'POLYGON'` test every caller
   * puts before it: a polygon whose name is one of the gateway names.
   */
  function IsEntrance(kind: Kind, gateways: seq<string>): (r: bool)
    ensures kind.LINE? ==> !r
    ensures r <==> exists name :: kind == POLYGON(name) && name in gateways
  {
    kind.POLYGON? && kind.name in gateways
  }

  lemma SingletonKeys(s: seq<Id>)
    requires NoDup(s)
    ensures |s| == 1 ==> Elems(s) == {s[0]}
    ensures forall x :: Elems(s) == {x} ==> |s| == 1
  {
    DistinctCard(s);
  }

  /**
   * `Feature.check_nested_isolation`: a cell with no neighbour, or with exactly one
   * neighbour whose only neighbour is this cell.
   */
  function CheckNestedIsolation(cells: Cells, id: Id): (r: bool)
    requires id in cells && Closed(cells) && DictLike(cells)
    ensures r <==> Neighbours(cells, id) == {}
                   || exists n :: n in cells && Neighbours(cells, id) == {n} && Neighbours(cells, n) == {id}
  {
    var conn := cells[id].connected;
    SingletonKeys(conn);
    assert |conn| == 0 <==> Neighbours(cells, id) == {} by {
      if |conn| > 0 { assert conn[0] in Neighbours(cells, id); }
    }
    if |conn| == 0 then true
    else if |conn| == 1 then
      var other := cells[conn[0]].connected;
      SingletonKeys(other);
      |other| == 1 && id in other
    else false
  }

  /** A walk through the arena along adjacency edges. */
  ghost predicate IsPath(cells: Cells, p: seq<Id>)
  {
    |p| >= 1
    && (forall i :: 0 <= i < |p| ==> p[i] in cells)
    && forall i :: 0 <= i < |p| - 1 ==> p[i] in cells && p[i + 1] in cells[p[i]].connected
  }

  /** `t` can be reached from `s` by following neighbour ids. */
  ghost predicate Reachable(cells: Cells, s: Id, t: Id)
  {
    exists p :: IsPath(cells, p) && p[0] == s && p[|p| - 1] == t
  }

  /** Every neighbour of a member of `s` is in `s`. */
  ghost predicate ClosedUnder(cells: Cells, s: set<Id>)
  {
    forall a, b :: a in s && a in cells && b in cells[a].connected ==> b in s
  }

  lemma ReachableSelf(cells: Cells, s: Id)
    requires s in cells
    ensures Reachable(cells, s, s)
  {
    assert IsPath(cells, [s]);
  }

  lemma ReachableStep(cells: Cells, s: Id, a: Id, b: Id)
    requires Reachable(cells, s, a) && a in cells && b in cells && b in cells[a].connected
    ensures Reachable(cells, s, b)
  {
    var p :| IsPath(cells, p) && p[0] == s && p[|p| - 1] == a;
    var q := p + [b];
    assert IsPath(cells, q);
    assert q[0] == s && q[|q| - 1] == b;
  }

  /** A set closed under adjacency holds everything reachable from its members. */
  lemma {:induction false} ClosedHoldsReachable(cells: Cells, s: set<Id>, a: Id, b: Id)
    requires ClosedUnder(cells, s) && a in s && Reachable(cells, a, b)
    ensures b in s
  {
    var p :| IsPath(cells, p) && p[0] == a && p[|p| - 1] == b;
    var i := 0;
    while i < |p| - 1
      invariant 0 <= i < |p|
      invariant p[i] in s
    {
      assert p[i] in cells && p[i + 1] in cells[p[i]].connected;
      i := i + 1;
    }
  }
}
