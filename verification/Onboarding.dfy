/** The connectivity check of the onboarding group: a stack search from the group's first node. */
module Onboarding {
  import opened Graphs
  import opened Catalogs

  /** Records a link in one direction; a link already there is not repeated. */
  function AddLink(adjacency: Graph, a: Id, b: Id): (r: Graph)
    requires a in adjacency
    ensures r.Keys == adjacency.Keys
    ensures forall x, y :: Edge(r, x, y) <==> Edge(adjacency, x, y) || (x == a && y == b)
  {
    if b in adjacency[a] then adjacency else adjacency[a := adjacency[a] + [b]]
  }

  predicate LinkedIn(grouped: seq<Workflow>, ids: set<Id>, a: Id, b: Id) {
    exists w :: w in grouped && LinkedBy(w, w.dependencies, ids, a, b)
  }

  predicate LinkedBy(w: Workflow, dependencies: seq<Id>, ids: set<Id>, a: Id, b: Id) {
    (w.id == a && b in dependencies && b in ids) || (w.id == b && a in dependencies && a in ids)
  }

  method BuildAdjacency(grouped: seq<Workflow>, ids: set<Id>) returns (adjacency: Graph)
    requires ids == set w | w in grouped :: w.id
    ensures adjacency.Keys == ids
    ensures forall a, b :: Edge(adjacency, a, b) <==> LinkedIn(grouped, ids, a, b)
  {
    adjacency := map id | id in ids :: [];
    for i := 0 to |grouped|
      invariant adjacency.Keys == ids
      invariant forall a, b :: Edge(adjacency, a, b) <==> LinkedIn(grouped[..i], ids, a, b)
    {
      var w := grouped[i];
      ghost var before := adjacency;
      for j := 0 to |w.dependencies|
        invariant adjacency.Keys == ids
        invariant forall a, b :: Edge(adjacency, a, b) <==>
                    (Edge(before, a, b) || LinkedBy(w, w.dependencies[..j], ids, a, b))
      {
        var d := w.dependencies[j];
        assert w.dependencies[..j + 1] == w.dependencies[..j] + [d];
        if d in ids {
          adjacency := AddLink(adjacency, w.id, d);
          adjacency := AddLink(adjacency, d, w.id);
        }
      }
      assert w.dependencies[..|w.dependencies|] == w.dependencies;
      assert grouped[..i + 1] == grouped[..i] + [w];
      assert forall a, b :: LinkedIn(grouped[..i + 1], ids, a, b) <==>
        (LinkedIn(grouped[..i], ids, a, b) || LinkedBy(w, w.dependencies, ids, a, b));
    }
    assert grouped[..|grouped|] == grouped;
  }

  lemma SameEdgesSameReach(g: Graph, h: Graph, u: Id, v: Id)
    requires forall a, b :: Edge(g, a, b) ==> Edge(h, a, b)
    requires Reaches(g, u, v)
    ensures Reaches(h, u, v)
  {
    var p :| WalkBetween(g, p, u, v);
    assert WalkBetween(h, p, u, v);
  }

  /** In an undirected graph a path can be walked back. */
  lemma {:induction false} ReachBack(g: Graph, p: seq<Id>, u: Id, v: Id)
    requires forall a, b :: Edge(g, a, b) ==> Edge(g, b, a)
    requires WalkBetween(g, p, u, v)
    ensures Reaches(g, v, u)
    decreases |p|
  {
    if |p| == 1 {
      ReachSelf(g, u);
    } else {
      assert Edge(g, p[0], p[1]);
      var q := p[1..];
      forall i | 0 <= i < |q| - 1 ensures Edge(g, q[i], q[i + 1]) {
        assert Edge(g, p[i + 1], p[i + 2]);
      }
      ReachBack(g, q, p[1], v);
      ReachStep(g, v, p[1], u);
    }
  }

  /** The members outside the first node's component; nothing is pushed on the stack twice. */
  method Unreached(adjacency: Graph, start: Id) returns (reached: set<Id>, ghost pushed: seq<Id>)
    requires start in adjacency
    requires forall a, b :: Edge(adjacency, a, b) ==> b in adjacency
    ensures forall x :: x in reached <==> Reaches(adjacency, start, x)
    ensures NoDup(pushed) && Elements(pushed) == reached
  {
    reached := {start};
    var stack := [start];
    pushed := [start];
    ReachSelf(adjacency, start);
    while stack != []
      invariant start in reached && reached <= adjacency.Keys
      invariant forall x :: x in reached ==> Reaches(adjacency, start, x)
      invariant forall x :: x in stack ==> x in reached
      invariant forall u, v :: u in reached && u !in stack && Edge(adjacency, u, v) ==> v in reached
      invariant NoDup(pushed) && Elements(pushed) == reached
      decreases adjacency.Keys - reached, |stack|
    {
      var current := stack[|stack| - 1];
      ghost var rest := stack[..|stack| - 1];
      assert stack == rest + [current];
      assert forall x :: x in stack <==> x in rest || x == current;
      stack := stack[..|stack| - 1];
      ghost var before, under := reached, stack;
      for i := 0 to |adjacency[current]|
        invariant before <= reached <= adjacency.Keys
        invariant before == reached ==> stack == under
        invariant forall x :: x in reached ==> Reaches(adjacency, start, x)
        invariant forall x :: x in stack ==> x in reached
        invariant forall x :: x in under ==> x in stack
        invariant forall x :: x in reached && x !in before ==> x in stack
        invariant forall j :: 0 <= j < i ==> adjacency[current][j] in reached
        invariant NoDup(pushed) && Elements(pushed) == reached
      {
        var neighbor := adjacency[current][i];
        assert Edge(adjacency, current, neighbor);
        if neighbor !in reached {
          ReachStep(adjacency, start, current, neighbor);
          assert forall x :: x in stack + [neighbor] <==> x in stack || x == neighbor;
          assert neighbor !in pushed;
          reached := reached + {neighbor};
          stack := stack + [neighbor];
          pushed := pushed + [neighbor];
        }
      }
    }
    forall x | Reaches(adjacency, start, x) ensures x in reached {
      ReachableStaysIn(adjacency, reached, start, x);
    }
  }

  datatype Disconnection = Connected | Disconnected(start: Id, unreachable: set<Id>)

  lemma GroupEdges(c: Catalog)
    ensures GroupGraph(c).Keys == GroupIds(c)
    ensures forall a, b :: Edge(GroupGraph(c), a, b) <==> Linked(c, a, b)
  {}

  /** The members of the group, in order; the first of them is the first of the catalog. */
  method Members(c: Catalog) returns (grouped: seq<Workflow>)
    ensures forall w :: w in grouped <==> w in c.workflows && InGroup(w)
    ensures grouped != [] ==> IsFirst(c, grouped[0].id)
  {
    grouped := [];
    ghost var first := 0;
    for i := 0 to |c.workflows|
      invariant forall w :: w in grouped <==> w in c.workflows[..i] && InGroup(w)
      invariant grouped == [] ==> forall j :: 0 <= j < i ==> !InGroup(c.workflows[j])
      invariant grouped != [] ==> 0 <= first < i && c.workflows[first] == grouped[0]
      invariant grouped != [] ==> forall j :: 0 <= j < first ==> !InGroup(c.workflows[j])
    {
      assert c.workflows[..i + 1] == c.workflows[..i] + [c.workflows[i]];
      if InGroup(c.workflows[i]) {
        if grouped == [] { first := i; }
        grouped := grouped + [c.workflows[i]];
      }
    }
    assert c.workflows[..|c.workflows|] == c.workflows;
    if grouped != [] {
      assert grouped[0] in grouped && c.workflows[first].id == grouped[0].id && InGroup(c.workflows[first]);
    }
  }

  /** The id of the first workflow of the group. */
  predicate IsFirst(c: Catalog, start: Id) {
    exists i :: 0 <= i < |c.workflows| && c.workflows[i].id == start && InGroup(c.workflows[i])
      && forall j :: 0 <= j < i ==> !InGroup(c.workflows[j])
  }

  lemma LinkedBothWays(c: Catalog, a: Id, b: Id)
    ensures Linked(c, a, b) <==> Linked(c, b, a)
  {}

  /** A group all of which is joined to one member is connected, and only then. */
  lemma JoinedToOne(c: Catalog, start: Id)
    requires start in GroupIds(c)
    ensures GroupConnected(c) <==> forall x :: x in GroupIds(c) ==> Reaches(GroupGraph(c), start, x)
  {
    var g := GroupGraph(c);
    GroupEdges(c);
    forall a, b ensures Edge(g, a, b) ==> Edge(g, b, a) {
      LinkedBothWays(c, a, b);
    }
    hide GroupGraph;
    hide Linked;
    hide GroupIds;
    if forall x :: x in GroupIds(c) ==> Reaches(g, start, x) {
      forall a, b | a in GroupIds(c) && b in GroupIds(c) ensures Reaches(g, a, b) {
        var p :| WalkBetween(g, p, start, a);
        ReachBack(g, p, start, a);
        ReachTrans(g, a, start, b);
      }
    }
  }

  lemma SameReach(g: Graph, h: Graph, u: Id)
    requires forall a, b :: Edge(g, a, b) <==> Edge(h, a, b)
    ensures forall x :: Reaches(g, u, x) <==> Reaches(h, u, x)
  {
    hide Edge;
    forall x ensures Reaches(g, u, x) <==> Reaches(h, u, x) {
      if Reaches(g, u, x) { SameEdgesSameReach(g, h, u, x); }
      if Reaches(h, u, x) { SameEdgesSameReach(h, g, u, x); }
    }
  }

  /** Reported exactly when the group is not connected, naming exactly the members that no path of
      the group joins to its first node. */
  method CheckGroup(c: Catalog) returns (verdict: Disconnection)
    ensures verdict == Connected <==> GroupConnected(c)
    ensures verdict.Disconnected? ==> IsFirst(c, verdict.start)
    ensures verdict.Disconnected? ==>
      forall x :: x in verdict.unreachable <==> x in GroupIds(c) && !Reaches(GroupGraph(c), verdict.start, x)
  {
    hide *;
    var grouped := Members(c);
    if grouped == [] {
      NoGroup(c);
      return Connected;
    }
    var ids := set w | w in grouped :: w.id;
    assert grouped[0] in grouped;
    IdsAreGroup(c, grouped, ids);
    var adjacency := BuildAdjacency(grouped, ids);
    BuiltAsLinked(c, grouped, ids, adjacency);
    var start := grouped[0].id;
    var reached, _ := Unreached(adjacency, start);
    SameReach(adjacency, GroupGraph(c), start);
    JoinedToOne(c, start);
    var unreachable := ids - reached;
    if unreachable != {} {
      verdict := Disconnected(start, unreachable);
    } else {
      verdict := Connected;
      forall x | x in ids ensures x in reached {
        assert x !in unreachable;
      }
    }
  }

  lemma IdsAreGroup(c: Catalog, grouped: seq<Workflow>, ids: set<Id>)
    requires ids == (set w | w in grouped :: w.id) && forall w :: w in grouped <==> w in c.workflows && InGroup(w)
    ensures ids == GroupIds(c)
  {}

  lemma BuiltAsLinked(c: Catalog, grouped: seq<Workflow>, ids: set<Id>, adjacency: Graph)
    requires ids == GroupIds(c) && forall w :: w in grouped <==> w in c.workflows && InGroup(w)
    requires adjacency.Keys == ids && forall a, b :: Edge(adjacency, a, b) <==> LinkedIn(grouped, ids, a, b)
    ensures forall a, b :: Edge(adjacency, a, b) <==> Edge(GroupGraph(c), a, b)
    ensures forall a, b :: Edge(adjacency, a, b) ==> b in adjacency
  {
    GroupEdges(c);
    hide Edge;
    hide GroupGraph;
    forall a, b ensures LinkedIn(grouped, ids, a, b) <==> Linked(c, a, b) {}
  }

  lemma NoGroup(c: Catalog)
    requires forall w :: w in c.workflows ==> !InGroup(w)
    ensures GroupConnected(c)
  {
    assert GroupIds(c) == {};
  }
}
