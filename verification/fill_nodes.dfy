/**
 * `FillNode` and `FillQueue` of dbc/filling.py. A node is a value here; the collections
 * that hold it (the active list and the completed queue) are fields of their owners.
 */
module FillNodes {
  import opened Wrappers
  import opened Graph

  /**
   * The simulation state of one feature: its capacity `sb` (zero for an entrance), the
   * amount `db` filled so far, the completion time `tf` (unset until the node is full),
   * and the times `ts` and rates `vs` at which it received inflow.
   */
  datatype FillNode = FillNode(id: Id, sb: real, db: real, tf: Option<real>, ts: seq<real>, vs: seq<real>)

  /** `FillNode(feature)`: empty history, nothing filled, no completion time. */
  function NewNode(id: Id, sb: real): (n: FillNode)
    ensures n.id == id && n.sb == sb && n.db == 0.0 && n.tf.None? && n.ts == [] && n.vs == []
  {
    FillNode(id, sb, 0.0, None, [], [])
  }

  /** The ids held by a list of nodes. */
  function IdSet(ns: seq<FillNode>): set<Id>
  {
    set n | n in ns :: n.id
  }

  /** No two nodes of the list share an id. */
  predicate DistinctIds(ns: seq<FillNode>)
  {
    forall i, j :: 0 <= i < j < |ns| ==> ns[i].id != ns[j].id
  }

  /** Position of the first node with this id (`|ns|` if there is none). */
  function IndexOf(ns: seq<FillNode>, id: Id): (k: nat)
    ensures k <= |ns| && (k < |ns| <==> id in IdSet(ns))
    ensures k < |ns| ==> ns[k].id == id
    ensures forall i :: 0 <= i < k ==> ns[i].id != id
  {
    if ns == [] then 0
    else if ns[0].id == id then 0
    else
      var k := IndexOf(ns[1..], id);
      assert IdSet(ns) == IdSet(ns[1..]) + {ns[0].id} by {
        assert ns == [ns[0]] + ns[1..];
      }
      k + 1
  }

  /**
   * What `FillQueue.has_node` is handed: an id, or (at dbc/filling.py:100) a whole node.
   * The method compares each queued node's id with what it is handed, and a string is
   * never equal to a node object.
   */
  datatype Probe = IdProbe(id: Id) | NodeProbe(node: FillNode)

  predicate Matches(n: FillNode, p: Probe)
  {
    p.IdProbe? && n.id == p.id
  }

  /** The ids of `ids` not in `seen`, each once, in first-seen order: repeated `add` calls. */
  function Fresh(ids: seq<Id>, seen: set<Id>): (r: seq<Id>)
    ensures forall x :: x in r ==> x in ids
  {
    if ids == [] then []
    else
      var r := Fresh(ids[..|ids| - 1], seen);
      var x := ids[|ids| - 1];
      if x in seen || x in r then r else r + [x]
  }

  /** The fresh ids are distinct, and they are exactly the ids of `ids` not in `seen`. */
  lemma {:induction false} FreshSpec(ids: seq<Id>, seen: set<Id>)
    ensures var r := Fresh(ids, seen);
            && NoDup(r)
            && forall x :: x in r <==> x in ids && x !in seen
  {
    if ids != [] {
      var init := ids[..|ids| - 1];
      assert forall y :: y in ids <==> y in init || y == ids[|ids| - 1];
      FreshSpec(init, seen);
    }
  }

  /** One more id of `ids` is added when it is neither seen nor added already. */
  lemma FreshSnoc(ids: seq<Id>, j: nat, seen: set<Id>)
    requires j < |ids|
    ensures var r := Fresh(ids[..j], seen);
            Fresh(ids[..j + 1], seen) == if ids[j] in seen || ids[j] in r then r else r + [ids[j]]
  {
    assert ids[..j + 1][..j] == ids[..j];
  }

  /** One fresh node per id, in order. */
  function NewNodes(cells: Cells, ids: seq<Id>): (r: seq<FillNode>)
    requires forall x :: x in ids ==> x in cells
  {
    seq(|ids|, i requires 0 <= i < |ids| => NewNode(ids[i], cells[ids[i]].sb))
  }

  lemma NewNodesIds(cells: Cells, ids: seq<Id>)
    requires forall x :: x in ids ==> x in cells
    ensures IdSet(NewNodes(cells, ids)) == Elems(ids)
  {
    var ns := NewNodes(cells, ids);
    forall x | x in Elems(ids) ensures x in IdSet(ns) {
      var i :| 0 <= i < |ids| && ids[i] == x;
      assert ns[i] in ns;
    }
  }

  lemma NewNodesSnoc(cells: Cells, ids: seq<Id>, x: Id)
    requires forall y :: y in ids ==> y in cells
    requires x in cells
    ensures NewNodes(cells, ids + [x]) == NewNodes(cells, ids) + [NewNode(x, cells[x].sb)]
  {
  }

  /** The completed queue. */
  class FillQueue {
    var queue: seq<FillNode>

    constructor ()
      ensures queue == []
    {
      queue := [];
    }

    /** `FillQueue.add`: append at the end. */
    method Add(node: FillNode)
      modifies this
      ensures queue == old(queue) + [node]
    {
      queue := queue + [node];
    }

    /**
     * `FillQueue.has_node`: is some queued node's id equal to what was handed in?
     * Handed a node instead of an id, the answer is always no.
     */
    method HasNode(p: Probe) returns (b: bool)
      ensures b <==> exists i :: 0 <= i < |queue| && Matches(queue[i], p)
      ensures p.IdProbe? ==> (b <==> p.id in IdSet(queue))
      ensures p.NodeProbe? ==> !b
    {
      var i := 0;
      while i < |queue|
        invariant 0 <= i <= |queue|
        invariant forall k :: 0 <= k < i ==> !Matches(queue[k], p)
      {
        if Matches(queue[i], p) {
          assert queue[i] in queue;
          return true;
        }
        i := i + 1;
      }
      b := false;
      if p.IdProbe? && p.id in IdSet(queue) {
        var n :| n in queue && n.id == p.id;
        var k :| 0 <= k < |queue| && queue[k] == n;
        assert Matches(queue[k], p);
      }
    }
  }
}
