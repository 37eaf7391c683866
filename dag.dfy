/**
  DAG.java as a class over two mutable maps. `add` is replace-or-reject: it detaches
  the node, attaches the new upstream set, runs the depth-first cycle search and on a
  cycle restores the snapshot it took of the node's old upstream set.
*/
module Dag {
  import opened Graphs

  /** The `curPath` list that `CheckForCycles` grows and shrinks in place. */
  class PathList {
    var items: seq<Id>

    constructor (items: seq<Id>)
      ensures this.items == items
    {
      this.items := items;
    }
  }

  /** DAG.checkForCycles: depth-first search over `links` from the last id of
      `curPath`, looking for a neighbour equal to its first id. On success the path
      is left holding the cycle (ending with that first id); otherwise it is left
      exactly as it was, and then no walk leads back to the first id without
      passing through the path. */
  method CheckForCycles(links: LinkMap, curPath: PathList) returns (found: bool)
    requires |curPath.items| > 0
    modifies curPath
    ensures found ==> ClosesCycle(links, old(curPath.items), curPath.items)
    ensures !found ==> curPath.items == old(curPath.items) && NoReturn(links, old(curPath.items))
    decreases Nodes(links) - set x | x in curPath.items
  {
    var start := curPath.items;
    var first, last := start[0], Last(start);
    var rest := Get(links, last);
    while rest != {}
      invariant curPath.items == start
      invariant rest <= Get(links, last)
      invariant forall n | n in Get(links, last) - rest :: n != first && (n in start || NoReturn(links, start + [n]))
      decreases rest
    {
      var n :| n in rest;
      rest := rest - {n};
      if n == first {
        curPath.items := curPath.items + [n];
        assert curPath.items[..|start|] == start;
        return true;
      }
      if n !in curPath.items {
        EdgeEndsInNodes(links, last, n);
        curPath.items := curPath.items + [n];
        assert (set x | x in curPath.items) == (set x | x in start) + {n};
        found := CheckForCycles(links, curPath);
        if found {
          ClosesCycleExtend(links, start, n, curPath.items);
          return;
        }
        curPath.items := curPath.items[..|curPath.items| - 1];
      }
    }
    assert Get(links, last) - rest == Get(links, last);
    NoReturnFromNeighbours(links, start);
    return false;
  }

  /** DAG.add's search: `checkForCycles` from a fresh path list holding `id` alone. */
  method FindCycle(links: LinkMap, id: Id) returns (found: bool, cycle: seq<Id>)
    ensures found ==> ClosesCycle(links, [id], cycle)
    ensures !found ==> NoReturn(links, [id])
  {
    var path := new PathList([id]);
    found := CheckForCycles(links, path);
    cycle := path.items;
  }

  /** The outcome of `Add`; a cycle carries the path DAG.CycleException reports. */
  datatype AddResult = Added | Cycle(path: seq<Id>)

  class Dag {
    var upstream: LinkMap
    var downstream: LinkMap

    ghost function Model(): Graph
      reads this
    {
      Graph(upstream, downstream)
    }

    ghost predicate Valid()
      reads this
    {
      Graphs.Valid(Model())
    }

    constructor ()
      ensures Valid()
      ensures forall k :: Get(upstream, k) == {} && Get(downstream, k) == {}
    {
      var e := Empty();
      upstream, downstream := e.up, e.down;
    }

    /** DAG.getUpstreamLinks: the ids `id` depends on, empty when it has none. */
    function GetUpstreamLinks(id: Id): (r: set<Id>)
      reads this
      requires Valid()
      ensures id !in upstream ==> r == {}
      ensures forall b :: b in r <==> id in Get(downstream, b)
      ensures id !in r
    {
      NoSelfLoop(upstream, id);
      InverseAt(Model(), id);
      Get(upstream, id)
    }

    /** DAG.getDownstreamLinks: the ids that depend on `id`, empty when there are none. */
    function GetDownstreamLinks(id: Id): (r: set<Id>)
      reads this
      requires Valid()
      ensures id !in downstream ==> r == {}
      ensures forall a :: a in r <==> id in Get(upstream, a)
      ensures id !in r
    {
      NoSelfLoop(upstream, id);
      InverseAt(Model(), id);
      Get(downstream, id)
    }

    /** DAG.remove: drop `id`'s upstream edges and take `id` out of the downstream
        set of each former upstream node. */
    method Remove(id: Id)
      requires WellFormed(Model())
      modifies this
      ensures Model() == Detach(old(Model()), id)
      ensures WellFormed(Model())
      ensures old(Valid()) ==> Valid()
    {
      ghost var g := Model();
      var ups := Get(upstream, id);
      upstream := upstream - {id};
      DropEdges(id, ups);
      DetachWellFormed(g, id);
      if old(Valid()) {
        DetachValid(g, id);
      }
    }

    /** Takes `id` out of the downstream set of each of `ups`, dropping a set that
        becomes empty. */
    method DropEdges(id: Id, ups: set<Id>)
      requires NoEmpty(downstream)
      modifies this
      ensures upstream == old(upstream)
      ensures downstream == RemoveFrom(old(downstream), ups, id)
    {
      ghost var d0 := downstream;
      var rest := ups;
      while rest != {}
        invariant rest <= ups
        invariant upstream == old(upstream)
        invariant downstream == RemoveFrom(d0, ups - rest, id)
        decreases rest
      {
        var u :| u in rest;
        RemoveFromStep(d0, ups - rest, u, id);
        var s := Get(downstream, u) - {id};
        if s == {} {
          downstream := downstream - {u};
        } else {
          downstream := downstream[u := s];
        }
        assert ups - (rest - {u}) == (ups - rest) + {u};
        rest := rest - {u};
      }
      assert ups - rest == ups;
    }

    /** Records `ups` as the upstream set of `id` (which has none) and adds `id` to
        the downstream set of each of them. */
    method AddEdges(id: Id, ups: set<Id>)
      requires NoEmpty(downstream) && id !in upstream
      modifies this
      ensures Model() == Attach(old(Model()), id, ups)
    {
      ghost var g := Model();
      if ups != {} {
        upstream := upstream[id := ups];
      }
      var rest := ups;
      while rest != {}
        invariant rest <= ups
        invariant upstream == if ups == {} then g.up else g.up[id := ups]
        invariant downstream == AddTo(g.down, ups - rest, id)
        decreases rest
      {
        var u :| u in rest;
        AddToStep(g.down, ups - rest, u, id);
        downstream := downstream[u := Get(downstream, u) + {id}];
        assert ups - (rest - {u}) == (ups - rest) + {u};
        rest := rest - {u};
      }
      assert ups - rest == ups;
    }

    /** DAG.add: replace `id`'s upstream set by `ups`, or, if that would close a
        cycle, leave both maps exactly as they were and report the cycle. */
    method Add(id: Id, ups: set<Id>) returns (r: AddResult)
      requires Valid()
      modifies this
      ensures Valid()
      ensures r.Added? ==> Model() == Place(old(Model()), id, ups)
      ensures r.Cycle? ==> Model() == old(Model())
      ensures r.Added? <==> Acyclic(Place(old(Model()), id, ups).up)
      ensures r.Cycle? ==> ups != {} && |r.path| >= 2 && r.path[0] == id && Last(r.path) == id
      ensures r.Cycle? ==> IsWalk(Place(old(Model()), id, ups).up, r.path)
    {
      ghost var g := Model();
      var previous := GetUpstreamLinks(id);
      Remove(id);
      if ups == {} {
        PlaceEmptyIsDetach(g, id);
        DetachValid(g, id);
        return Added;
      }
      DetachWellFormed(g, id);
      AddEdges(id, ups);
      PlaceWellFormed(g, id, ups);
      PlaceAcyclic(g, id, ups);
      var found, cycle := FindCycle(upstream, id);
      if found {
        ClosesCycleNotAcyclic(upstream, id, cycle);
        Restore(id, previous, g, ups);
        return Cycle(cycle);
      }
      return Added;
    }

    /** Add's rollback: the tentative edges go and the previous upstream set of `id`
        comes back, which gives back the graph from before the call. */
    method Restore(id: Id, previous: set<Id>, ghost g: Graph, ghost ups: set<Id>)
      requires WellFormed(g) && previous == Get(g.up, id)
      requires Model() == Place(g, id, ups) && WellFormed(Model())
      modifies this
      ensures Model() == g
    {
      Remove(id);
      AddEdges(id, previous);
      Rollback(g, id, ups);
    }
  }
}
