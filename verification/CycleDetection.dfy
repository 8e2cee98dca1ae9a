/** The validator's cycle check: a recursive depth-first search over declared dependencies that
    keeps the nodes being expanded, the nodes finished with and the path between them. */
module CycleDetection {
  import opened Graphs

  datatype Node = Node(id: Id, dependencies: seq<Id>)

  /** The edge map of a node list; a repeated id keeps its last list of dependencies. */
  function EdgesOf(nodes: seq<Node>): (g: Graph)
    ensures forall id :: id in g <==> exists n :: n in nodes && n.id == id
  {
    if nodes == [] then map[]
    else
      var last := nodes[|nodes| - 1];
      var rest := nodes[..|nodes| - 1];
      assert nodes == rest + [last];
      EdgesOf(rest)[last.id := last.dependencies]
  }

  function Successors(g: Graph, u: Id): seq<Id> {
    if u in g then g[u] else []
  }

  /** What the search knows between any two of its steps. */
  ghost predicate SearchInv(g: Graph, active: set<Id>, settled: set<Id>, path: seq<Id>,
                            cycles: seq<seq<Id>>, order: seq<Id>, expanded: seq<Id>)
  {
    && NoDup(path) && Elements(path) == active
    && (path != [] ==> IsWalk(g, path))
    && NoDup(order) && Elements(order) == settled
    && active !! settled
    && NoDup(expanded) && Elements(expanded) == active + settled
    && active + settled <= Nodes(g)
    && (forall u, v :: u in settled && Edge(g, u, v) ==> v in settled + active)
    && (forall c :: c in cycles ==> IsCycle(g, c))
    && (cycles == [] ==> PostOrder(g, order))
  }

  ghost predicate MayVisit(g: Graph, path: seq<Id>, id: Id) {
    id in Nodes(g) && (path != [] ==> Edge(g, path[|path| - 1], id))
  }

  lemma EnterKeeps(g: Graph, active: set<Id>, settled: set<Id>, path: seq<Id>,
                   cycles: seq<seq<Id>>, order: seq<Id>, expanded: seq<Id>, id: Id)
    requires SearchInv(g, active, settled, path, cycles, order, expanded)
    requires MayVisit(g, path, id) && id !in active && id !in settled
    ensures SearchInv(g, active + {id}, settled, path + [id], cycles, order, expanded + [id])
  {}

  lemma ReportKeeps(g: Graph, active: set<Id>, settled: set<Id>, path: seq<Id>,
                    cycles: seq<seq<Id>>, order: seq<Id>, expanded: seq<Id>, id: Id)
    requires SearchInv(g, active, settled, path, cycles, order, expanded)
    requires MayVisit(g, path, id) && id in active
    ensures id in path
    ensures forall k :: 0 <= k < |path| && path[k] == id ==>
      SearchInv(g, active, settled, path, cycles + [path[k..] + [id]], order, expanded)
  {
    assert id in Elements(path);
    forall k | 0 <= k < |path| && path[k] == id
      ensures SearchInv(g, active, settled, path, cycles + [path[k..] + [id]], order, expanded)
    {
      SuffixIsCycle(g, path, id, k);
    }
  }

  /** Walking on from the node just entered is allowed, and fewer nodes are left to enter. */
  lemma DependencyFollows(g: Graph, active: set<Id>, settled: set<Id>, path: seq<Id>,
                          cycles: seq<seq<Id>>, order: seq<Id>, expanded: seq<Id>, id: Id, v: Id)
    requires SearchInv(g, active, settled, path, cycles, order, expanded)
    requires path != [] && path[|path| - 1] == id && v in Successors(g, id)
    ensures MayVisit(g, path, v) && id in active && id in Nodes(g)
  {
    assert id in Elements(path);
    assert Edge(g, id, v);
  }

  lemma LeaveKeeps(g: Graph, active: set<Id>, settled: set<Id>, path: seq<Id>,
                   cycles: seq<seq<Id>>, order: seq<Id>, expanded: seq<Id>, id: Id)
    requires SearchInv(g, active + {id}, settled, path + [id], cycles, order, expanded)
    requires id !in active
    requires forall v :: v in Successors(g, id) ==> v in settled + active + {id}
    requires cycles == [] ==> forall v :: v in Successors(g, id) ==> v in settled
    ensures SearchInv(g, active, settled + {id}, path, cycles, order + [id], expanded)
  {
    var walk := path + [id];
    forall i | 0 <= i < |path| - 1 ensures Edge(g, path[i], path[i + 1]) {
      assert Edge(g, walk[i], walk[i + 1]);
    }
    ElementsSnoc(path, id);
    ElementsSnoc(order, id);
    NoDupPrefix(path, id);
    forall u, v | u in settled + {id} && Edge(g, u, v) ensures v in settled + {id} + active {
      if u == id {
        assert v in Successors(g, id);
      }
    }
    if cycles == [] {
      PostOrderExtends(g, order, id);
    }
  }

  lemma ElementsSnoc(s: seq<Id>, x: Id)
    ensures Elements(s + [x]) == Elements(s) + {x}
  {}

  lemma NoDupPrefix(s: seq<Id>, x: Id)
    requires NoDup(s + [x])
    ensures NoDup(s) && x !in Elements(s)
  {
    assert forall i :: 0 <= i < |s| ==> (s + [x])[i] == s[i];
    assert (s + [x])[|s|] == x;
  }

  class Detector {
    const edges: Graph
    var active: set<Id>
    var settled: set<Id>
    var pathStack: seq<Id>
    var cycles: seq<seq<Id>>      // the path of every cycle issue pushed so far
    ghost var order: seq<Id>      // the settled nodes, in the order they were settled
    ghost var expanded: seq<Id>   // the nodes whose dependencies were walked, in that order

    ghost predicate Valid()
      reads this
    {
      SearchInv(edges, active, settled, pathStack, cycles, order, expanded)
    }

    constructor (edges: Graph)
      ensures Valid() && this.edges == edges
      ensures pathStack == [] && settled == {} && cycles == []
    {
      this.edges := edges;
      active, settled, pathStack, cycles := {}, {}, [], [];
      order, expanded := [], [];
    }

    /** Expands `id` unless it is finished with; a node met again while it is still active closes
        a cycle, which is reported. The search leaves the path as it found it. */
    method Visit(id: Id)
      requires Valid() && MayVisit(edges, pathStack, id)
      modifies this
      ensures Valid()
      ensures active == old(active) && pathStack == old(pathStack)
      ensures settled >= old(settled) && old(cycles) <= cycles
      ensures id in settled || (id in active && cycles != [])
      decreases Nodes(edges) - active - settled
    {
      assert id in Nodes(edges);
      hide SearchInv;
      hide Nodes;
      hide MayVisit;
      hide Successors;
      if id in settled {
        return;
      }
      if id in active {
        ReportKeeps(edges, active, settled, pathStack, cycles, order, expanded, id);
        var start := IndexOf(pathStack, id);
        cycles := cycles + [pathStack[start..] + [id]];
        return;
      }
      EnterKeeps(edges, active, settled, pathStack, cycles, order, expanded, id);
      active := active + {id};
      pathStack := pathStack + [id];
      expanded := expanded + [id];
      var dependencies := Successors(edges, id);
      for i := 0 to |dependencies|
        invariant Valid()
        invariant active == old(active) + {id} && pathStack == old(pathStack) + [id]
        invariant settled >= old(settled) && old(cycles) <= cycles
        invariant forall j :: 0 <= j < i ==> dependencies[j] in settled + active
        invariant cycles == [] ==> forall j :: 0 <= j < i ==> dependencies[j] in settled
      {
        DependencyFollows(edges, active, settled, pathStack, cycles, order, expanded, id, dependencies[i]);
        assert id in Nodes(edges) - old(active) - old(settled) && id !in Nodes(edges) - active - settled;
        Visit(dependencies[i]);
      }
      assert id !in old(active);
      LeaveKeeps(edges, old(active), settled, old(pathStack), cycles, order, expanded, id);
      pathStack := pathStack[..|pathStack| - 1];
      active := active - {id};
      settled := settled + {id};
      order := order + [id];
    }
  }

  method IndexOf(s: seq<Id>, id: Id) returns (k: nat)
    requires id in s
    ensures k < |s| && s[k] == id && id !in s[..k]
  {
    k := 0;
    while s[k] != id
      invariant k < |s| && id !in s[..k]
      decreases |s| - k
    {
      k := k + 1;
    }
  }

  /** Reports only genuine cycles, reports one exactly when the graph has one, and expands every
      node the graph mentions exactly once. */
  method DetectCycles(nodes: seq<Node>) returns (cycles: seq<seq<Id>>, ghost expanded: seq<Id>)
    ensures forall c :: c in cycles ==> IsCycle(EdgesOf(nodes), c)
    ensures cycles == [] <==> Acyclic(EdgesOf(nodes))
    ensures NoDup(expanded) && Elements(expanded) == Nodes(EdgesOf(nodes))
  {
    var edges := BuildEdges(nodes);
    var detector := new Detector(edges);
    var remaining := edges.Keys;
    while remaining != {}
      invariant detector.Valid() && detector.edges == edges
      invariant detector.pathStack == [] && remaining <= edges.Keys
      invariant edges.Keys - remaining <= detector.settled
    {
      var id :| id in remaining;
      detector.Visit(id);
      remaining := remaining - {id};
    }
    cycles := detector.cycles;
    expanded := detector.expanded;
    assert detector.active == {};
    if cycles == [] {
      forall p ensures !IsCycle(edges, p) {
        if IsCycle(edges, p) {
          assert Edge(edges, p[0], p[1]);
          assert p[0] in Elements(detector.order);
          PostOrderHasNoCycle(edges, detector.order, p);
        }
      }
    } else {
      assert IsCycle(edges, cycles[0]);
    }
    forall x | x in Nodes(edges) ensures x in detector.settled {
      if x !in edges {
        var u :| u in edges && x in edges[u];
        assert Edge(edges, u, x);
      }
    }
  }

  method BuildEdges(nodes: seq<Node>) returns (edges: Graph)
    ensures edges == EdgesOf(nodes)
  {
    edges := map[];
    for i := 0 to |nodes|
      invariant edges == EdgesOf(nodes[..i])
    {
      assert nodes[..i + 1][..i] == nodes[..i];
      edges := edges[nodes[i].id := nodes[i].dependencies];
    }
    assert nodes[..|nodes|] == nodes;
  }
}
