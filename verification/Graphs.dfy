/** Directed graphs given as adjacency lists, the walks through them, and the two facts that
    every depth-first search of the catalog rests on: a list in which each node's successors
    come earlier is free of cycles, and a closed set holds everything reachable from it. */
module Graphs {

  type Id = string
  type Graph = map<Id, seq<Id>>

  predicate Edge(g: Graph, u: Id, v: Id) {
    u in g && v in g[u]
  }

  /** A non-empty list of nodes, each joined to the next by an edge. */
  predicate IsWalk(g: Graph, p: seq<Id>) {
    && p != []
    && forall i :: 0 <= i < |p| - 1 ==> Edge(g, p[i], p[i + 1])
  }

  ghost predicate WalkBetween(g: Graph, p: seq<Id>, u: Id, v: Id) {
    IsWalk(g, p) && p[0] == u && p[|p| - 1] == v
  }

  ghost predicate Reaches(g: Graph, u: Id, v: Id) {
    exists p :: WalkBetween(g, p, u, v)
  }

  ghost predicate ReachedFrom(g: Graph, roots: seq<Id>, v: Id) {
    exists r :: r in roots && Reaches(g, r, v)
  }

  predicate IsCycle(g: Graph, p: seq<Id>) {
    |p| >= 2 && IsWalk(g, p) && p[0] == p[|p| - 1]
  }

  ghost predicate Acyclic(g: Graph) {
    forall p :: !IsCycle(g, p)
  }

  ghost predicate ClosedUnder(g: Graph, s: set<Id>) {
    forall u, v :: u in s && Edge(g, u, v) ==> v in s
  }

  ghost predicate NoDup<T(!new)>(s: seq<T>) {
    forall i, j :: 0 <= i < j < |s| ==> s[i] != s[j]
  }

  function Elements<T>(s: seq<T>): set<T> {
    set x | x in s
  }

  /** Every successor of a listed node is listed strictly before it. */
  ghost predicate PostOrder(g: Graph, order: seq<Id>) {
    forall i, v :: 0 <= i < |order| && Edge(g, order[i], v) ==> v in order[..i]
  }

  /** Every name the graph mentions: its keys and the targets of its edges. */
  function Nodes(g: Graph): set<Id> {
    g.Keys + (set u, v | u in g && v in g[u] :: v)
  }

  lemma ReachSelf(g: Graph, u: Id)
    ensures Reaches(g, u, u)
  {
    assert WalkBetween(g, [u], u, u);
  }

  lemma ReachStep(g: Graph, u: Id, v: Id, w: Id)
    requires Reaches(g, u, v) && Edge(g, v, w)
    ensures Reaches(g, u, w)
  {
    var p :| WalkBetween(g, p, u, v);
    assert WalkBetween(g, p + [w], u, w);
  }

  lemma ReachTrans(g: Graph, u: Id, v: Id, w: Id)
    requires Reaches(g, u, v) && Reaches(g, v, w)
    ensures Reaches(g, u, w)
  {
    var p :| WalkBetween(g, p, u, v);
    var q :| WalkBetween(g, q, v, w);
    assert WalkBetween(g, p + q[1..], u, w);
  }

  /** Walks never leave a closed set. */
  lemma {:induction false} WalkStaysIn(g: Graph, s: set<Id>, p: seq<Id>)
    requires ClosedUnder(g, s) && IsWalk(g, p) && p[0] in s
    ensures forall x :: x in p ==> x in s
    decreases |p|
  {
    if |p| > 1 {
      assert Edge(g, p[0], p[1]);
      assert IsWalk(g, p[1..]) by {
        forall i | 0 <= i < |p[1..]| - 1 ensures Edge(g, p[1..][i], p[1..][i + 1]) {
          assert Edge(g, p[i + 1], p[i + 2]);
        }
      }
      WalkStaysIn(g, s, p[1..]);
    }
  }

  lemma ReachableStaysIn(g: Graph, s: set<Id>, u: Id, v: Id)
    requires ClosedUnder(g, s) && u in s && Reaches(g, u, v)
    ensures v in s
  {
    var p :| WalkBetween(g, p, u, v);
    WalkStaysIn(g, s, p);
  }

  /** A walk that starts at a listed node only descends the list. */
  lemma {:induction false} WalkDescends(g: Graph, order: seq<Id>, k: nat, p: seq<Id>)
    requires PostOrder(g, order) && k < |order| && IsWalk(g, p) && p[0] == order[k]
    ensures forall j :: 1 <= j < |p| ==> p[j] in order[..k]
    decreases |p|
  {
    if |p| > 1 {
      assert Edge(g, order[k], p[1]);
      var m :| 0 <= m < k && order[m] == p[1];
      var q := p[1..];
      assert IsWalk(g, q) by {
        forall i | 0 <= i < |q| - 1 ensures Edge(g, q[i], q[i + 1]) {
          assert Edge(g, p[i + 1], p[i + 2]);
        }
      }
      WalkDescends(g, order, m, q);
      forall j | 1 <= j < |p| ensures p[j] in order[..k] {
        if j > 1 {
          assert p[j] == q[j - 1] && q[j - 1] in order[..m];
        }
      }
    }
  }

  /** No cycle passes through a node of a duplicate-free post-order. */
  lemma PostOrderHasNoCycle(g: Graph, order: seq<Id>, p: seq<Id>)
    requires PostOrder(g, order) && NoDup(order) && p != [] && p[0] in order
    ensures !IsCycle(g, p)
  {
    if IsCycle(g, p) {
      var k :| 0 <= k < |order| && order[k] == p[0];
      WalkDescends(g, order, k, p);
    }
  }

  lemma PostOrderIsClosed(g: Graph, order: seq<Id>)
    requires PostOrder(g, order)
    ensures ClosedUnder(g, Elements(order))
  {}

  /** A walk through a node of a cycle: the cycle can be entered wherever the walk ends. */
  lemma SuffixIsCycle(g: Graph, path: seq<Id>, id: Id, start: nat)
    requires IsWalk(g, path) && Edge(g, path[|path| - 1], id)
    requires start < |path| && path[start] == id
    ensures IsCycle(g, path[start..] + [id])
  {}

  lemma PostOrderExtends(g: Graph, order: seq<Id>, id: Id)
    requires PostOrder(g, order)
    requires id in g ==> forall v :: v in g[id] ==> v in order
    ensures PostOrder(g, order + [id])
  {
    var next := order + [id];
    forall i, v | 0 <= i < |next| && Edge(g, next[i], v) ensures v in next[..i] {
      if i < |order| {
        assert v in order[..i] && next[..i] == order[..i];
      } else {
        assert next[..i] == order;
      }
    }
  }
}
