/**
  Pure model of the dependency graph kept by DAG.java: two adjacency maps from a
  cell id to a set of ids, `up` ("the ids this cell's formula reads") and `down`
  ("the ids whose formulas read this cell"), the operations that detach and attach
  one node's upstream edges, walks and acyclicity, and the facts about them that
  the imperative class in module Dag relies on.
*/
module Graphs {

  type Id = string
  type LinkMap = map<Id, set<Id>>

  /** Links of `k`, or the empty set when `k` has none (a missing key is "no links"). */
  function Get(m: LinkMap, k: Id): set<Id> {
    if k in m then m[k] else {}
  }

  predicate Edge(m: LinkMap, a: Id, b: Id) {
    b in Get(m, a)
  }

  /** No key is kept with an empty set, so a map is determined by `Get`. */
  ghost predicate NoEmpty(m: LinkMap) {
    forall k | k in m :: m[k] != {}
  }

  datatype Graph = Graph(up: LinkMap, down: LinkMap)

  /** `b` is upstream of `a` exactly when `a` is downstream of `b`. */
  ghost predicate Inverse(g: Graph) {
    forall a, b :: Edge(g.up, a, b) <==> Edge(g.down, b, a)
  }

  ghost predicate WellFormed(g: Graph) {
    NoEmpty(g.up) && NoEmpty(g.down) && Inverse(g)
  }

  function Last(s: seq<Id>): Id
    requires |s| > 0
  {
    s[|s| - 1]
  }

  /** A non-empty sequence of ids, each consecutive pair joined by an edge of `m`. */
  ghost predicate IsWalk(m: LinkMap, w: seq<Id>) {
    |w| >= 1 && forall i | 0 <= i < |w| - 1 :: Edge(m, w[i], w[i + 1])
  }

  /** No walk of one edge or more comes back to where it started. */
  ghost predicate Acyclic(m: LinkMap) {
    forall w | IsWalk(m, w) && |w| >= 2 :: w[0] != Last(w)
  }

  lemma FirstEdge(m: LinkMap, w: seq<Id>)
    requires IsWalk(m, w) && |w| >= 2
    ensures w[1] in Get(m, w[0])
  {
    assert Edge(m, w[0], w[1]);
  }

  /** The invariant DAG.java keeps between calls. */
  ghost predicate Valid(g: Graph) {
    WellFormed(g) && Acyclic(g.up)
  }

  function Empty(): (g: Graph)
    ensures Valid(g)
    ensures forall k :: Get(g.up, k) == {} && Get(g.down, k) == {}
  {
    var g := Graph(map[], map[]);
    assert forall w | IsWalk(g.up, w) && |w| >= 2 :: false by {
      forall w | IsWalk(g.up, w) && |w| >= 2 ensures false {
        FirstEdge(g.up, w);
        assert false;
      }
    }
    g
  }

  // ---------------------------------------------------------------------------
  // Detaching and attaching one node's upstream edges

  /** Removes `x` from the link set of every key in `ks`, dropping sets that become empty. */
  function RemoveFrom(m: LinkMap, ks: set<Id>, x: Id): (r: LinkMap)
    ensures forall k :: Get(r, k) == if k in ks then Get(m, k) - {x} else Get(m, k)
    ensures NoEmpty(m) ==> NoEmpty(r)
  {
    map k | k in m && (k !in ks || m[k] - {x} != {}) :: if k in ks then m[k] - {x} else m[k]
  }

  /** Adds `x` to the link set of every key in `ks`. */
  function AddTo(m: LinkMap, ks: set<Id>, x: Id): (r: LinkMap)
    ensures forall k :: Get(r, k) == if k in ks then Get(m, k) + {x} else Get(m, k)
    ensures NoEmpty(m) ==> NoEmpty(r)
  {
    map k | k in m.Keys + ks :: if k in ks then Get(m, k) + {x} else Get(m, k)
  }

  /** DAG.remove: drop the upstream edges of `id` and `id` from the downstream set
      of each former upstream node; `id`'s own downstream set is left alone. */
  function Detach(g: Graph, id: Id): (r: Graph)
    ensures id !in r.up
    ensures forall k | k != id :: Get(r.up, k) == Get(g.up, k)
    ensures forall k :: Get(r.down, k) == if k in Get(g.up, id) then Get(g.down, k) - {id} else Get(g.down, k)
  {
    Graph(g.up - {id}, RemoveFrom(g.down, Get(g.up, id), id))
  }

  /** Records `ups` as the upstream set of a node that has none, and the matching
      downstream edges. */
  function Attach(g: Graph, id: Id, ups: set<Id>): (r: Graph)
    requires id !in g.up
    ensures Get(r.up, id) == ups
    ensures forall k | k != id :: Get(r.up, k) == Get(g.up, k)
    ensures forall k :: Get(r.down, k) == if k in ups then Get(g.down, k) + {id} else Get(g.down, k)
  {
    Graph(if ups == {} then g.up else g.up[id := ups], AddTo(g.down, ups, id))
  }

  /** The graph DAG.add tries to commit: `id`'s old upstream edges replaced by `ups`. */
  function Place(g: Graph, id: Id, ups: set<Id>): Graph {
    Attach(Detach(g, id), id, ups)
  }

  // ---------------------------------------------------------------------------
  // Cycle witnesses as built by the depth-first search

  /** `w` leaves the last id of `path` and comes back to its first id without
      passing through any id of `path` on the way. */
  ghost predicate Escape(m: LinkMap, path: seq<Id>, w: seq<Id>) {
    |path| > 0 && IsWalk(m, w) && |w| >= 2 && w[0] == Last(path) && Last(w) == path[0] &&
    forall i | 0 < i < |w| - 1 :: w[i] !in path
  }

  ghost predicate NoReturn(m: LinkMap, path: seq<Id>) {
    forall w :: !Escape(m, path, w)
  }

  /** `ext` is `path` followed by a walk from its last id back to its first id. */
  ghost predicate ClosesCycle(m: LinkMap, path: seq<Id>, ext: seq<Id>) {
    |path| > 0 && |ext| > |path| && ext[..|path|] == path && Last(ext) == path[0] &&
    forall i | |path| - 1 <= i < |ext| - 1 :: Edge(m, ext[i], ext[i + 1])
  }

  /** The set of ids appearing as a key or in a link set. */
  ghost function Nodes(m: LinkMap): set<Id> {
    m.Keys + set k, b | k in m && b in m[k] :: b
  }

  lemma EdgeEndsInNodes(m: LinkMap, a: Id, b: Id)
    requires Edge(m, a, b)
    ensures b in Nodes(m)
  {
  }

  // ---------------------------------------------------------------------------
  // Detach and Place keep the two maps consistent

  /** Without empty entries a link map is determined by its `Get` values. */
  lemma MapsEqual(m1: LinkMap, m2: LinkMap)
    requires NoEmpty(m1) && NoEmpty(m2)
    requires forall k :: Get(m1, k) == Get(m2, k)
    ensures m1 == m2
  {
    forall k | k in m1 ensures k in m2 && m1[k] == m2[k] {
      assert Get(m1, k) == Get(m2, k);
    }
    forall k | k in m2 ensures k in m1 {
      assert Get(m1, k) == Get(m2, k);
    }
  }

  lemma DetachWellFormed(g: Graph, id: Id)
    requires WellFormed(g)
    ensures WellFormed(Detach(g, id))
  {
    var r := Detach(g, id);
    forall k | k in r.up ensures r.up[k] != {} {
      assert Get(r.up, k) == Get(g.up, k);
    }
    forall a, b ensures Edge(r.up, a, b) <==> Edge(r.down, b, a) {
      assert Edge(g.up, a, b) <==> Edge(g.down, b, a);
      assert Edge(g.up, id, b) <==> Edge(g.down, b, id);
    }
  }

  lemma PlaceWellFormed(g: Graph, id: Id, ups: set<Id>)
    requires WellFormed(g)
    ensures WellFormed(Place(g, id, ups))
  {
    DetachWellFormed(g, id);
    AttachWellFormed(Detach(g, id), id, ups);
  }

  lemma AttachWellFormed(h: Graph, id: Id, ups: set<Id>)
    requires WellFormed(h) && id !in h.up
    ensures WellFormed(Attach(h, id, ups))
  {
    var r := Attach(h, id, ups);
    forall k | k in r.up ensures r.up[k] != {} {
      if k != id { assert Get(r.up, k) == Get(h.up, k); }
    }
    forall a, b ensures Edge(r.up, a, b) <==> Edge(r.down, b, a) {
      assert Edge(h.up, a, b) <==> Edge(h.down, b, a);
      assert Edge(h.up, id, b) <==> Edge(h.down, b, id);
    }
  }

  /** Detaching a node with no upstream edges changes nothing (DAG.remove's no-op case). */
  lemma DetachWithoutUpstreamIsNoOp(g: Graph, id: Id)
    requires NoEmpty(g.up) && NoEmpty(g.down)
    requires Get(g.up, id) == {}
    ensures Detach(g, id) == g
  {
    var r := Detach(g, id);
    MapsEqual(r.down, g.down);
    assert id !in g.up;
  }

  /** DAG.add with no upstream ids has exactly the effect of DAG.remove. */
  lemma PlaceEmptyIsDetach(g: Graph, id: Id)
    requires NoEmpty(g.down)
    ensures Place(g, id, {}) == Detach(g, id)
  {
    var h := Detach(g, id);
    MapsEqual(Place(g, id, {}).down, h.down);
  }

  /** Detaching `id` leaves its own downstream set alone once the graph has no self-loop. */
  lemma {:induction false} DetachKeepsOwnDownstream(g: Graph, id: Id)
    requires Acyclic(g.up)
    ensures Get(Detach(g, id).down, id) == Get(g.down, id)
  {
    NoSelfLoop(g.up, id);
  }

  lemma NoSelfLoop(m: LinkMap, id: Id)
    requires Acyclic(m)
    ensures !Edge(m, id, id)
  {
    var w := [id, id];
    assert w[0] == Last(w);
    assert !IsWalk(m, w);
  }

  /** Removing the tentative edges again gives back the detached graph. */
  lemma DetachPlace(g: Graph, id: Id, ups: set<Id>)
    requires WellFormed(g)
    ensures Detach(Place(g, id, ups), id) == Detach(g, id)
  {
    DetachWellFormed(g, id);
    var h := Detach(g, id);
    var p := Attach(h, id, ups);
    assert Get(p.up, id) == ups;
    forall k | k in ups ensures id !in Get(h.down, k) {
      assert Edge(h.up, id, k) <==> Edge(h.down, k, id);
    }
    RemoveAfterAdd(h.down, ups, id);
    UpAfterAttach(h, id, ups);
  }

  lemma UpAfterAttach(h: Graph, id: Id, ups: set<Id>)
    requires id !in h.up
    ensures Attach(h, id, ups).up - {id} == h.up
  {
  }

  lemma RemoveAfterAdd(m: LinkMap, ks: set<Id>, x: Id)
    requires NoEmpty(m)
    requires forall k | k in ks :: x !in Get(m, k)
    ensures RemoveFrom(AddTo(m, ks, x), ks, x) == m
  {
    var r := RemoveFrom(AddTo(m, ks, x), ks, x);
    forall k ensures Get(r, k) == Get(m, k) {
    }
    MapsEqual(r, m);
  }

  /** Re-attaching the old upstream set after a detach gives back the graph. */
  lemma AttachDetach(g: Graph, id: Id)
    requires WellFormed(g)
    ensures Attach(Detach(g, id), id, Get(g.up, id)) == g
  {
    var r := Attach(Detach(g, id), id, Get(g.up, id));
    forall k ensures Get(r.down, k) == Get(g.down, k) {
      assert Edge(g.up, id, k) <==> Edge(g.down, k, id);
    }
    MapsEqual(r.down, g.down);
    forall k ensures Get(r.up, k) == Get(g.up, k) {
    }
    AttachNoEmpty(Detach(g, id), id, Get(g.up, id));
    MapsEqual(r.up, g.up);
  }

  lemma AttachNoEmpty(g: Graph, id: Id, ups: set<Id>)
    requires id !in g.up && NoEmpty(g.up)
    ensures NoEmpty(Attach(g, id, ups).up)
  {
  }

  /** The rollback in DAG.add: the graph after undoing a tentative placement is the original. */
  lemma Rollback(g: Graph, id: Id, ups: set<Id>)
    requires WellFormed(g)
    ensures Attach(Detach(Place(g, id, ups), id), id, Get(g.up, id)) == g
  {
    DetachPlace(g, id, ups);
    AttachDetach(g, id);
  }

  /** Adding the same upstream set twice is the same as adding it once. */
  lemma PlaceIdempotent(g: Graph, id: Id, ups: set<Id>)
    requires WellFormed(g)
    ensures Place(Place(g, id, ups), id, ups) == Place(g, id, ups)
  {
    DetachPlace(g, id, ups);
  }

  // ---------------------------------------------------------------------------
  // Walks

  lemma WalkSlice(m: LinkMap, w: seq<Id>, lo: nat, hi: nat)
    requires IsWalk(m, w) && lo < hi <= |w|
    ensures IsWalk(m, w[lo..hi])
  {
    var v := w[lo..hi];
    forall i | 0 <= i < |v| - 1 ensures Edge(m, v[i], v[i + 1]) {
      assert v[i] == w[lo + i] && v[i + 1] == w[lo + i + 1];
    }
  }

  /** Two walks meeting end to start make one walk. */
  lemma WalkJoin(m: LinkMap, a: seq<Id>, b: seq<Id>)
    requires IsWalk(m, a) && IsWalk(m, b) && Last(a) == b[0]
    ensures IsWalk(m, a + b[1..]) && |a + b[1..]| == |a| + |b| - 1
  {
    var v := a + b[1..];
    forall i | 0 <= i < |v| - 1 ensures Edge(m, v[i], v[i + 1]) {
      if i < |a| - 1 {
        assert v[i] == a[i] && v[i + 1] == a[i + 1];
      } else {
        var j := i - |a| + 1;
        assert v[i] == b[j] && v[i + 1] == b[j + 1];
      }
    }
  }

  /** A walk of a graph all of whose link sets are contained in another's is a walk of the other. */
  lemma WalkInSupergraph(m1: LinkMap, m2: LinkMap, w: seq<Id>)
    requires forall a :: Get(m1, a) <= Get(m2, a)
    requires IsWalk(m1, w)
    ensures IsWalk(m2, w)
  {
    forall i | 0 <= i < |w| - 1 ensures Edge(m2, w[i], w[i + 1]) {
      assert Edge(m1, w[i], w[i + 1]);
    }
  }

  /** DAG.remove keeps the graph acyclic. */
  lemma DetachAcyclic(g: Graph, id: Id)
    requires Acyclic(g.up)
    ensures Acyclic(Detach(g, id).up)
  {
    var r := Detach(g, id);
    forall w | IsWalk(r.up, w) && |w| >= 2 ensures w[0] != Last(w) {
      WalkInSupergraph(r.up, g.up, w);
    }
  }

  lemma DetachValid(g: Graph, id: Id)
    requires Valid(g)
    ensures Valid(Detach(g, id))
  {
    DetachWellFormed(g, id);
    DetachAcyclic(g, id);
  }

  /** A downstream walk read backwards is an upstream walk. */
  lemma ReversedWalk(g: Graph, w: seq<Id>) returns (v: seq<Id>)
    requires Inverse(g) && IsWalk(g.down, w)
    ensures IsWalk(g.up, v) && |v| == |w| && v[0] == Last(w) && Last(v) == w[0]
  {
    var n := |w|;
    v := seq(n, i requires 0 <= i < n => w[n - 1 - i]);
    forall i | 0 <= i < n - 1 ensures Edge(g.up, v[i], v[i + 1]) {
      assert v[i] == w[n - 1 - i] && v[i + 1] == w[n - 2 - i];
      assert Edge(g.down, w[n - 2 - i], w[n - 1 - i]);
    }
  }

  /** With `up` and `down` inverse, a graph acyclic upstream is acyclic downstream. */
  lemma InverseAcyclic(g: Graph)
    requires Inverse(g) && Acyclic(g.up)
    ensures Acyclic(g.down)
  {
    forall w | IsWalk(g.down, w) && |w| >= 2 ensures w[0] != Last(w) {
      var v := ReversedWalk(g, w);
    }
  }

  // ---------------------------------------------------------------------------
  // The depth-first search is complete

  /** A walk from `n` back to the start of `path` that avoids `path` can be shortened
      to one that also avoids `n` after its start. */
  lemma {:induction false} CutAtLastVisit(m: LinkMap, path: seq<Id>, n: Id, w: seq<Id>)
    requires |path| > 0 && n !in path
    requires IsWalk(m, w) && |w| >= 2 && w[0] == n && Last(w) == path[0]
    requires forall i | 0 < i < |w| - 1 :: w[i] !in path
    ensures !NoReturn(m, path + [n])
    decreases |w|
  {
    if j :| 0 < j < |w| - 1 && w[j] == n {
      var v := w[j..];
      WalkSlice(m, w, j, |w|);
      forall i | 0 < i < |v| - 1 ensures v[i] !in path {
        assert v[i] == w[j + i];
      }
      CutAtLastVisit(m, path, n, v);
    } else {
      var p := path + [n];
      assert Last(p) == n && p[0] == path[0];
      assert Escape(m, p, w);
    }
  }

  /** The step the search takes after a node's neighbours are exhausted: if no
      neighbour is the start of the path and every neighbour not on the path leads
      nowhere back, then no walk leads back from the end of the path. */
  lemma NoReturnFromNeighbours(m: LinkMap, path: seq<Id>)
    requires |path| > 0
    requires forall n | n in Get(m, Last(path)) :: n != path[0] && (n in path || NoReturn(m, path + [n]))
    ensures NoReturn(m, path)
  {
    forall w ensures !Escape(m, path, w) {
      if Escape(m, path, w) {
        FirstEdge(m, w);
        var n := w[1];
        if |w| == 2 {
          assert false;
        } else {
          assert n !in path;
          WalkSlice(m, w, 1, |w|);
          var v := w[1..];
          forall i | 0 < i < |v| - 1 ensures v[i] !in path {
            assert v[i] == w[i + 1];
          }
          CutAtLastVisit(m, path, n, v);
          assert false;
        }
      }
    }
  }

  /** A cycle witness reported by the search is a cycle. */
  lemma ClosesCycleNotAcyclic(m: LinkMap, id: Id, ext: seq<Id>)
    requires ClosesCycle(m, [id], ext)
    ensures IsWalk(m, ext) && ext[0] == id && Last(ext) == id && |ext| >= 2
    ensures !Acyclic(m)
  {
    assert ext[0] == ext[..1][0];
  }

  /** A closed walk through `x` can be cut at its first return to `x`. */
  lemma {:induction false} FirstReturn(m: LinkMap, x: Id, v: seq<Id>)
    requires IsWalk(m, v) && |v| >= 2 && v[0] == x && Last(v) == x
    ensures !NoReturn(m, [x])
    decreases |v|
  {
    if j :| 0 < j < |v| - 1 && v[j] == x {
      WalkSlice(m, v, 0, j + 1);
      FirstReturn(m, x, v[..j + 1]);
    } else {
      assert Escape(m, [x], v);
    }
  }

  /** The graph DAG.add tries to commit is acyclic exactly when the search seeded
      with `[id]` finds no way back to `id`. */
  lemma PlaceAcyclic(g: Graph, id: Id, ups: set<Id>)
    requires Acyclic(g.up)
    ensures Acyclic(Place(g, id, ups).up) <==> NoReturn(Place(g, id, ups).up, [id])
  {
    var h := Detach(g, id);
    var t := Place(g, id, ups).up;
    DetachAcyclic(g, id);
    if Acyclic(t) {
      forall w ensures !Escape(t, [id], w) {
      }
    }
    if NoReturn(t, [id]) {
      forall w | IsWalk(t, w) && |w| >= 2 ensures w[0] != Last(w) {
        if w[0] == Last(w) {
          ClosedWalkThrough(h, id, ups, w);
          assert false;
        }
      }
    }
  }

  /** A closed walk of the placed graph either avoids `id` (and so is a closed walk of
      the detached graph) or can be rotated into one from `id` back to `id`. */
  lemma ClosedWalkThrough(h: Graph, id: Id, ups: set<Id>, w: seq<Id>)
    requires id !in h.up && Acyclic(h.up)
    requires IsWalk(Attach(h, id, ups).up, w) && |w| >= 2 && w[0] == Last(w)
    ensures !NoReturn(Attach(h, id, ups).up, [id])
  {
    var t := Attach(h, id, ups).up;
    if k :| 0 <= k < |w| - 1 && w[k] == id {
      var v := Rotate(t, w, k);
      FirstReturn(t, id, v);
    } else {
      WalkAvoiding(h, id, ups, w);
      assert false;
    }
  }

  /** A closed walk rotated to start and end at its `k`-th id. */
  lemma Rotate(m: LinkMap, w: seq<Id>, k: nat) returns (v: seq<Id>)
    requires IsWalk(m, w) && |w| >= 2 && w[0] == Last(w) && k < |w| - 1
    ensures IsWalk(m, v) && |v| >= 2 && v[0] == w[k] && Last(v) == w[k]
  {
    WalkSlice(m, w, k, |w|);
    WalkSlice(m, w, 0, k + 1);
    var a := w[k..];
    var b := w[..k + 1];
    WalkJoin(m, a, b);
    v := a + b[1..];
    if k == 0 {
      assert v == a;
    } else {
      assert Last(v) == b[k];
    }
  }

  /** A walk of the placed graph that never leaves from `id` is a walk of the detached graph. */
  lemma WalkAvoiding(h: Graph, id: Id, ups: set<Id>, w: seq<Id>)
    requires id !in h.up
    requires IsWalk(Attach(h, id, ups).up, w)
    requires forall k | 0 <= k < |w| - 1 :: w[k] != id
    ensures IsWalk(h.up, w)
  {
    var t := Attach(h, id, ups).up;
    forall i | 0 <= i < |w| - 1 ensures Edge(h.up, w[i], w[i + 1]) {
      assert Edge(t, w[i], w[i + 1]);
    }
  }

  // ---------------------------------------------------------------------------
  // Everything transitively below a node (what Spreadsheet.notifyDownstreamOfChange visits)

  ghost predicate Reaches(m: LinkMap, x: Id, y: Id) {
    exists w :: IsWalk(m, w) && |w| >= 2 && w[0] == x && Last(w) == y
  }

  /** The ids reachable from `x` by one edge or more of `m`. */
  ghost function Beneath(m: LinkMap, x: Id): set<Id> {
    set y | y in Nodes(m) && Reaches(m, x, y)
  }

  lemma WalkEndsInNodes(m: LinkMap, w: seq<Id>)
    requires IsWalk(m, w) && |w| >= 2
    ensures Last(w) in Nodes(m)
  {
    assert Edge(m, w[|w| - 2], w[|w| - 1]);
  }

  lemma BeneathIsReach(m: LinkMap, x: Id, y: Id)
    ensures y in Beneath(m, x) <==> Reaches(m, x, y)
  {
    if Reaches(m, x, y) {
      var w :| IsWalk(m, w) && |w| >= 2 && w[0] == x && Last(w) == y;
      WalkEndsInNodes(m, w);
    }
  }

  /** A direct neighbour is below, and so is everything below it. */
  lemma BeneathStep(m: LinkMap, x: Id, d: Id)
    requires Edge(m, x, d)
    ensures d in Beneath(m, x)
    ensures Beneath(m, d) <= Beneath(m, x)
  {
    var e := [x, d];
    assert IsWalk(m, e);
    BeneathIsReach(m, x, d);
    forall y | y in Beneath(m, d) ensures y in Beneath(m, x) {
      BeneathIsReach(m, d, y);
      var w :| IsWalk(m, w) && |w| >= 2 && w[0] == d && Last(w) == y;
      WalkJoin(m, e, w);
      assert (e + w[1..])[0] == x && Last(e + w[1..]) == y;
      BeneathIsReach(m, x, y);
    }
  }

  /** The set below a node is closed under taking neighbours. */
  lemma BeneathClosed(m: LinkMap, x: Id, k: Id, j: Id)
    requires k in Beneath(m, x) && Edge(m, k, j)
    ensures j in Beneath(m, x)
  {
    BeneathIsReach(m, x, k);
    var w :| IsWalk(m, w) && |w| >= 2 && w[0] == x && Last(w) == k;
    var e := [k, j];
    assert IsWalk(m, e);
    WalkJoin(m, w, e);
    assert (w + e[1..])[0] == x && Last(w + e[1..]) == j;
    BeneathIsReach(m, x, j);
  }

  /** Whatever is below `x` is a neighbour of `x` or below one. */
  lemma BeneathSplit(m: LinkMap, x: Id, y: Id)
    requires y in Beneath(m, x)
    ensures exists d :: Edge(m, x, d) && (y == d || y in Beneath(m, d))
  {
    BeneathIsReach(m, x, y);
    var w :| IsWalk(m, w) && |w| >= 2 && w[0] == x && Last(w) == y;
    FirstEdge(m, w);
    var d := w[1];
    if |w| > 2 {
      WalkSlice(m, w, 1, |w|);
      assert w[1..][0] == d && Last(w[1..]) == y;
      BeneathIsReach(m, d, y);
    }
    assert Edge(m, x, d);
  }

  /** In an acyclic graph nothing is below itself. */
  lemma NotBeneathItself(m: LinkMap, x: Id)
    requires Acyclic(m)
    ensures x !in Beneath(m, x)
  {
    BeneathIsReach(m, x, x);
  }

  /** The measure that makes the downstream recursion terminate. */
  lemma BeneathShrinks(m: LinkMap, x: Id, d: Id)
    requires Acyclic(m) && Edge(m, x, d)
    ensures Beneath(m, d) < Beneath(m, x)
  {
    BeneathStep(m, x, d);
    NotBeneathItself(m, d);
  }

  /** A cycle found one level deeper in the search is a cycle for the shorter path too. */
  lemma ClosesCycleExtend(m: LinkMap, path: seq<Id>, n: Id, ext: seq<Id>)
    requires |path| > 0 && Edge(m, Last(path), n)
    requires ClosesCycle(m, path + [n], ext)
    ensures ClosesCycle(m, path, ext)
  {
    var p := path + [n];
    assert ext[..|path|] == p[..|path|] == path;
    assert ext[|path| - 1] == Last(path) && ext[|path|] == n;
    assert p[0] == path[0];
  }

  /** One iteration of the loop in DAG.remove. */
  lemma RemoveFromStep(m: LinkMap, done: set<Id>, u: Id, x: Id)
    requires NoEmpty(m) && u !in done
    ensures var cur := RemoveFrom(m, done, x);
            var s := Get(cur, u) - {x};
            (if s == {} then cur - {u} else cur[u := s]) == RemoveFrom(m, done + {u}, x)
  {
    var cur := RemoveFrom(m, done, x);
    var s := Get(cur, u) - {x};
    var next := if s == {} then cur - {u} else cur[u := s];
    forall k ensures Get(next, k) == Get(RemoveFrom(m, done + {u}, x), k) {
    }
    MapsEqual(next, RemoveFrom(m, done + {u}, x));
  }

  /** One iteration of the loop that adds a node to the downstream sets of its upstream ids. */
  lemma AddToStep(m: LinkMap, done: set<Id>, u: Id, x: Id)
    requires NoEmpty(m)
    ensures var cur := AddTo(m, done, x);
            cur[u := Get(cur, u) + {x}] == AddTo(m, done + {u}, x)
  {
    var cur := AddTo(m, done, x);
    var next := cur[u := Get(cur, u) + {x}];
    forall k ensures Get(next, k) == Get(AddTo(m, done + {u}, x), k) {
    }
    MapsEqual(next, AddTo(m, done + {u}, x));
  }

  /** What the two getters of DAG.java promise about each other. */
  lemma InverseAt(g: Graph, id: Id)
    requires Inverse(g)
    ensures forall b :: b in Get(g.up, id) <==> id in Get(g.down, b)
    ensures forall a :: a in Get(g.down, id) <==> id in Get(g.up, a)
  {
    forall b ensures b in Get(g.up, id) <==> id in Get(g.down, b) {
      assert Edge(g.up, id, b) <==> Edge(g.down, b, id);
    }
    forall a ensures a in Get(g.down, id) <==> id in Get(g.up, a) {
      assert Edge(g.up, a, id) <==> Edge(g.down, id, a);
    }
  }
}
