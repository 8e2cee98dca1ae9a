/** A recipe's dependency closure: the depth-first search over declared dependencies, review and
    refresh edges, and the edges from a reader to the producer of what it reads. */
module Recipes {
  import opened Graphs
  import opened Catalogs
  import opened Sequences
  import opened Validation
  import opened Bridge
  import opened Adequacy
  import CycleDetection

  /** Later workflows replace earlier ones under the same id. */
  function ById(ws: seq<Workflow>): (m: map<Id, Workflow>)
    ensures forall id :: id in m ==> m[id] in ws && m[id].id == id
    ensures forall w :: w in ws ==> w.id in m
    ensures forall i :: 0 <= i < |ws| && (forall j :: i < j < |ws| ==> ws[j].id != ws[i].id) ==> m[ws[i].id] == ws[i]
  {
    if ws == [] then map[]
    else
      var last := ws[|ws| - 1];
      assert ws == ws[..|ws| - 1] + [last];
      ById(ws[..|ws| - 1])[last.id := last]
  }

  function AddOutputs(m: map<string, Id>, outputs: seq<string>, id: Id): (r: map<string, Id>)
    ensures r.Keys == m.Keys + Elements(outputs)
    ensures forall o :: o in r ==> r[o] == if o in outputs then id else m[o]
  {
    if outputs == [] then m
    else AddOutputs(m, outputs[..|outputs| - 1], id)[outputs[|outputs| - 1] := id]
  }

  /** Each output path's last declared writer. */
  function Producers(ws: seq<Workflow>): (m: map<string, Id>)
    ensures forall o :: o in m <==> exists w :: w in ws && o in w.outputPaths
    ensures forall o :: o in m ==> exists w :: w in ws && w.id == m[o] && o in w.outputPaths
  {
    if ws == [] then map[]
    else
      var front, last := ws[..|ws| - 1], ws[|ws| - 1];
      assert ws == front + [last];
      AddOutputs(Producers(front), last.outputPaths, last.id)
  }

  /** Of several writers of a path the last one in the list produces it. */
  lemma {:induction false} LastWriterProduces(ws: seq<Workflow>, i: nat, o: string)
    requires i < |ws| && o in ws[i].outputPaths && forall j :: i < j < |ws| ==> o !in ws[j].outputPaths
    ensures o in Producers(ws) && Producers(ws)[o] == ws[i].id
    decreases |ws|
  {
    if i < |ws| - 1 {
      LastWriterProduces(ws[..|ws| - 1], i, o);
    }
  }

  /** The producers of what a node reads; a node does not depend on itself, and an empty id counts
      as no producer. */
  function ReadProducers(producers: map<string, Id>, id: Id, paths: seq<string>): (r: seq<Id>)
    ensures forall p :: p in r <==>
      p != "" && p != id && exists path :: path in paths && path in producers && producers[path] == p
  {
    if paths == [] then []
    else
      var path := paths[0];
      assert paths == [path] + paths[1..];
      (if path in producers && producers[path] != "" && producers[path] != id then [producers[path]] else [])
      + ReadProducers(producers, id, paths[1..])
  }

  function Successors(producers: map<string, Id>, w: Workflow): seq<Id> {
    w.dependencies + w.reviewOf + w.refreshDependencies + ReadProducers(producers, w.id, w.inputPaths)
  }

  function RecipeGraph(ws: seq<Workflow>): Graph {
    map id | id in ById(ws) :: Successors(Producers(ws), ById(ws)[id])
  }

  lemma RecipeEdge(ws: seq<Workflow>, u: Id, v: Id)
    requires u in ById(ws) && v in Successors(Producers(ws), ById(ws)[u])
    ensures Edge(RecipeGraph(ws), u, v)
  {
    hide ById;
    hide Producers;
    hide Successors;
  }

  // ---- which edges a recipe follows ----------------------------------------------------------

  /** The workflow an id stands for: the last one of that id. */
  predicate StandsFor(ws: seq<Workflow>, i: nat, id: Id) {
    i < |ws| && ws[i].id == id && forall j :: i < j < |ws| ==> ws[j].id != id
  }

  /** The last workflow that declares a path among its outputs. */
  predicate WritesLast(ws: seq<Workflow>, k: nat, path: string) {
    k < |ws| && path in ws[k].outputPaths && forall j :: k < j < |ws| ==> path !in ws[j].outputPaths
  }

  ghost predicate LastWriterIs(ws: seq<Workflow>, path: string, id: Id) {
    exists k: nat :: WritesLast(ws, k, path) && ws[k].id == id
  }

  /** What a workflow leads to: what it declares, and the last writers of all it reads. */
  ghost predicate LeadsTo(ws: seq<Workflow>, w: Workflow, v: Id) {
    || v in w.dependencies || v in w.reviewOf || v in w.refreshDependencies
    || (v != "" && v != w.id && exists path :: path in w.inputPaths && LastWriterIs(ws, path, v))
  }

  lemma {:induction false} SomeoneWritesLast(ws: seq<Workflow>, path: string) returns (k: nat)
    requires exists w :: w in ws && path in w.outputPaths
    ensures WritesLast(ws, k, path)
    decreases |ws|
  {
    var last := |ws| - 1;
    if path in ws[last].outputPaths {
      k := last;
    } else {
      assert ws == ws[..last] + [ws[last]];
      k := SomeoneWritesLast(ws[..last], path);
    }
  }

  lemma ProducerIsLastWriter(ws: seq<Workflow>, path: string, id: Id)
    ensures path in Producers(ws) && Producers(ws)[path] == id <==> LastWriterIs(ws, path, id)
  {
    if path in Producers(ws) {
      hide Producers;
      var k := SomeoneWritesLast(ws, path);
      LastWriterProduces(ws, k, path);
    }
    if LastWriterIs(ws, path, id) {
      var k: nat :| WritesLast(ws, k, path) && ws[k].id == id;
      LastWriterProduces(ws, k, path);
    }
    hide Producers;
  }

  lemma {:induction false} LastOfId(ws: seq<Workflow>, id: Id) returns (i: nat)
    requires exists w :: w in ws && w.id == id
    ensures StandsFor(ws, i, id)
    decreases |ws|
  {
    var last := |ws| - 1;
    if ws[last].id == id {
      i := last;
    } else {
      assert ws == ws[..last] + [ws[last]];
      i := LastOfId(ws[..last], id);
    }
  }

  lemma SomeoneStandsFor(ws: seq<Workflow>, id: Id) returns (i: nat)
    requires id in ById(ws)
    ensures StandsFor(ws, i, id) && ById(ws)[id] == ws[i]
  {
    var m := ById(ws);
    hide ById;
    assert m[id] in ws;
    i := LastOfId(ws, id);
  }

  /** The graph a recipe is collected over has exactly the edges the catalog means: from the workflow
      an id stands for to all it declares and to the last writer of each path it reads, and from
      nothing else. */
  lemma RecipeEdgeExactly(ws: seq<Workflow>, u: Id, v: Id)
    ensures Edge(RecipeGraph(ws), u, v) <==> exists i: nat :: StandsFor(ws, i, u) && LeadsTo(ws, ws[i], v)
  {
    var g := RecipeGraph(ws);
    assert u in g <==> u in ById(ws);
    if u in g {
      var i := SomeoneStandsFor(ws, u);
      assert g[u] == Successors(Producers(ws), ws[i]);
      SuccessorsExactly(ws, ws[i], v);
      hide ById;
      hide RecipeGraph;
      hide LeadsTo;
      hide Successors;
      forall j: nat | StandsFor(ws, j, u) ensures j == i {}
    }
    hide LeadsTo;
    hide RecipeGraph;
    if i: nat :| StandsFor(ws, i, u) && LeadsTo(ws, ws[i], v) {
      assert ws[i] in ws && u in ById(ws);
    }
  }

  lemma SuccessorsExactly(ws: seq<Workflow>, w: Workflow, v: Id)
    ensures v in Successors(Producers(ws), w) <==> LeadsTo(ws, w, v)
  {
    forall path ensures path in Producers(ws) && Producers(ws)[path] == v <==> LastWriterIs(ws, path, v) {
      ProducerIsLastWriter(ws, path, v);
    }
    hide Producers;
    hide LastWriterIs;
    var found := ReadProducers(Producers(ws), w.id, w.inputPaths);
    assert v in Successors(Producers(ws), w) <==>
      v in w.dependencies || v in w.reviewOf || v in w.refreshDependencies || v in found;
    hide ReadProducers;
  }

  datatype Outcome = Done | Cycle(id: Id) | Missing(id: Id)

  ghost predicate CycleAt(g: Graph, id: Id) {
    exists p :: IsCycle(g, p) && p[0] == id
  }

  ghost predicate ClosureInv(g: Graph, ids: seq<Id>, visiting: set<Id>, path: seq<Id>) {
    && NoDup(ids) && PostOrder(g, ids) && Elements(ids) <= g.Keys
    && NoDup(path) && Elements(path) == visiting && visiting <= g.Keys
    && Elements(ids) !! visiting
    && (path != [] ==> IsWalk(g, path))
  }

  ghost predicate MayVisit(g: Graph, path: seq<Id>, id: Id) {
    path != [] ==> Edge(g, path[|path| - 1], id)
  }

  lemma EnterKeeps(g: Graph, ids: seq<Id>, visiting: set<Id>, path: seq<Id>, id: Id)
    requires ClosureInv(g, ids, visiting, path) && MayVisit(g, path, id)
    requires id in g && id !in visiting && id !in ids
    ensures ClosureInv(g, ids, visiting + {id}, path + [id])
  {}

  lemma LeaveKeeps(g: Graph, ids: seq<Id>, visiting: set<Id>, path: seq<Id>, id: Id)
    requires ClosureInv(g, ids, visiting + {id}, path + [id]) && id !in visiting
    requires id in g && forall v :: v in g[id] ==> v in ids
    ensures ClosureInv(g, ids + [id], visiting, path)
  {
    var walk := path + [id];
    forall i | 0 <= i < |path| - 1 ensures Edge(g, path[i], path[i + 1]) {
      assert Edge(g, walk[i], walk[i + 1]);
    }
    CycleDetection.ElementsSnoc(path, id);
    CycleDetection.ElementsSnoc(ids, id);
    CycleDetection.NoDupPrefix(path, id);
    assert id in visiting + {id};
    PostOrderExtends(g, ids, id);
  }

  lemma BackEdgeClosesCycle(g: Graph, ids: seq<Id>, visiting: set<Id>, path: seq<Id>, id: Id)
    requires ClosureInv(g, ids, visiting, path) && MayVisit(g, path, id) && id in visiting
    ensures CycleAt(g, id)
  {
    assert id in Elements(path);
    var k :| 0 <= k < |path| && path[k] == id;
    SuffixIsCycle(g, path, id, k);
    assert (path[k..] + [id])[0] == id;
  }

  class Closure {
    const graph: Graph
    var ids: seq<Id>          // the finished nodes, in insertion order
    var visiting: set<Id>
    ghost var path: seq<Id>   // the nodes being visited, outermost first

    ghost predicate Valid()
      reads this
    {
      ClosureInv(graph, ids, visiting, path)
    }

    constructor (graph: Graph)
      ensures Valid() && this.graph == graph && ids == [] && visiting == {} && path == []
    {
      this.graph := graph;
      ids, visiting, path := [], {}, [];
    }

    /** Adds `id` after everything it leads to. A node met while it is being visited and a node the
        catalog does not hold end the search. */
    method Visit(id: Id) returns (r: Outcome)
      requires Valid() && MayVisit(graph, path, id)
      modifies this
      ensures r.Done? ==> Valid() && visiting == old(visiting) && path == old(path)
      ensures r.Done? ==> id in ids && old(ids) <= ids
      ensures r.Done? ==> forall x :: x in ids ==> x in old(ids) || Reaches(graph, id, x)
      ensures r.Cycle? ==> Reaches(graph, id, r.id) && CycleAt(graph, r.id)
      ensures r.Missing? ==> Reaches(graph, id, r.id) && r.id !in graph
      decreases graph.Keys - visiting
    {
      hide ClosureInv;
      ReachSelf(graph, id);
      if id in visiting {
        BackEdgeClosesCycle(graph, ids, visiting, path, id);
        return Cycle(id);
      }
      if id in ids {
        return Done;
      }
      if id !in graph {
        return Missing(id);
      }
      EnterKeeps(graph, ids, visiting, path, id);
      visiting := visiting + {id};
      path := path + [id];
      var successors := graph[id];
      for i := 0 to |successors|
        invariant Valid()
        invariant visiting == old(visiting) + {id} && path == old(path) + [id]
        invariant old(ids) <= ids
        invariant forall j :: 0 <= j < i ==> successors[j] in ids
        invariant forall x :: x in ids ==> x in old(ids) || Reaches(graph, id, x)
      {
        var next := successors[i];
        ghost var before := ids;
        assert Edge(graph, id, next);
        ReachStep(graph, id, id, next);
        r := Visit(next);
        if !r.Done? {
          ReachTrans(graph, id, next, r.id);
          return;
        }
        forall x | x in ids ensures x in old(ids) || Reaches(graph, id, x) {
          if x !in before {
            ReachTrans(graph, id, next, x);
          }
        }
      }
      LeaveKeeps(graph, ids, old(visiting), old(path), id);
      path := old(path);
      visiting := visiting - {id};
      ids := ids + [id];
      r := Done;
    }
  }

  /** Everything reachable from the roots, dependencies first. The search succeeds exactly when
      all of it is in the catalog and no cycle is within reach. */
  method Collect(graph: Graph, roots: seq<Id>) returns (r: Outcome, ids: seq<Id>)
    ensures r.Done? <==>
      (forall x :: ReachedFrom(graph, roots, x) ==> x in graph && !CycleAt(graph, x))
    ensures r.Done? ==> NoDup(ids) && PostOrder(graph, ids)
    ensures r.Done? ==> forall x :: x in ids <==> ReachedFrom(graph, roots, x)
    ensures r.Cycle? ==> ReachedFrom(graph, roots, r.id) && CycleAt(graph, r.id)
    ensures r.Missing? ==> ReachedFrom(graph, roots, r.id) && r.id !in graph
  {
    var closure := new Closure(graph);
    for k := 0 to |roots|
      invariant closure.Valid() && closure.graph == graph && closure.path == [] && closure.visiting == {}
      invariant forall j :: 0 <= j < k ==> roots[j] in closure.ids
      invariant forall x :: x in closure.ids ==> ReachedFrom(graph, roots, x)
    {
      r := closure.Visit(roots[k]);
      if !r.Done? {
        assert ReachedFrom(graph, roots, r.id);
        return r, [];
      }
    }
    r, ids := Done, closure.ids;
    PostOrderIsClosed(graph, ids);
    forall x | ReachedFrom(graph, roots, x) ensures x in ids && x in graph && !CycleAt(graph, x) {
      var root :| root in roots && Reaches(graph, root, x);
      ReachableStaysIn(graph, Elements(ids), root, x);
      assert x in Elements(ids);
      forall p | p != [] && p[0] == x ensures !IsCycle(graph, p) {
        PostOrderHasNoCycle(graph, ids, p);
      }
    }
  }

  /** What is collected is the least set that holds the roots and is closed under every edge. */
  lemma ReachedIsLeast(graph: Graph, roots: seq<Id>, s: set<Id>, x: Id)
    requires ClosedUnder(graph, s) && (forall r :: r in roots ==> r in s)
    requires ReachedFrom(graph, roots, x)
    ensures x in s
  {
    var root :| root in roots && Reaches(graph, root, x);
    ReachableStaysIn(graph, s, root, x);
  }

  function Select(c: Catalog, ids: seq<Id>): Catalog {
    c.(workflows := Filter((w: Workflow) => w.id in ids, c.workflows))
  }

  /** The selection has exactly the workflows of the given ids, and all else as it was. */
  lemma SelectKeeps(c: Catalog, ids: seq<Id>)
    ensures forall w :: w in Select(c, ids).workflows <==> w in c.workflows && w.id in ids
    ensures Select(c, ids).domains == c.domains && Select(c, ids).roles == c.roles
    ensures Select(c, ids).contextPacks == c.contextPacks && Select(c, ids).references == c.references
    ensures Select(c, ids).artifacts == c.artifacts
  {}

  /** Resolving names looks at the roles, packs and references of a catalog, not its workflows. */
  lemma {:induction false} PacksAlike(c: Catalog, s: Catalog, owner: Id, ids: seq<Id>)
    requires s.contextPacks == c.contextPacks && s.references == c.references
    ensures ResolvePacks(s, owner, ids).Ok? <==> ResolvePacks(c, owner, ids).Ok?
    decreases |ids|
  {
    if ids != [] {
      PacksAlike(c, s, owner, ids[1..]);
    }
  }

  lemma WorkflowAlike(c: Catalog, s: Catalog, w: Workflow)
    requires s == c.(workflows := s.workflows)
    ensures ProjectWorkflow(s, w).Ok? <==> ProjectWorkflow(c, w).Ok?
  {
    if LookupRole(c, w.roleId).Some? {
      var role := LookupRole(c, w.roleId).value;
      PacksAlike(c, s, role.id, role.contextPackIds);
    }
  }

  /** A selection from a clean catalog crosses the bridge if and only if the domain of each selected
      workflow is one the runtime or the maintainer owns. */
  lemma SelectionProjects(c: Catalog, ids: seq<Id>)
    requires Clean(c)
    ensures ToCatalogInput(Select(c, ids)).Ok? <==>
      forall w :: w in c.workflows && w.id in ids ==> Classify(c.domains, w.domainId) != Unknown
  {
    var s := Select(c, ids);
    assert forall w :: w in s.workflows <==> w in c.workflows && w.id in ids;
    FirstIn(UnknownWorkflows(s));
    forall w | w in RuntimeWorkflows(s) ensures ProjectWorkflow(s, w).Ok? {
      CleanWorkflowProjects(c, w);
      WorkflowAlike(c, s, w);
    }
    hide Clean;
    hide ProjectWorkflow;
    hide Select;
    ProjectAllPointwise(s, RuntimeWorkflows(s));
  }

  ghost predicate KeepsEdge(input: GraphInput, w: Workflow, target: Id) {
    exists n :: n in input.workflows && n.id == w.id
      && (target in w.dependencies ==> target in n.dependencies)
      && (target in w.reviewOf ==> target in n.reviewOf)
      && (target in w.refreshDependencies ==> target in n.refreshDependencies)
  }

  /** Restricting the catalog to a closed set of ids loses no dependency, review or refresh edge
      between runtime workflows. */
  lemma SelectionKeepsEdges(c: Catalog, ids: seq<Id>, w: Workflow, target: Workflow)
    requires NoDup(WorkflowIds(c)) && ClosedUnder(RecipeGraph(c.workflows), Elements(ids))
    requires w in c.workflows && w.id in ids && IsRuntime(c, w)
    requires target in c.workflows && IsRuntime(c, target)
    requires target.id in w.dependencies + w.reviewOf + w.refreshDependencies
    ensures var r := ToCatalogInput(Select(c, ids));
      r.Ok? ==> HasNode(r.value, target.id) && KeepsEdge(r.value, w, target.id)
  {
    SelectionHoldsTarget(c, ids, w, target);
    hide RecipeGraph;
    hide ToCatalogInput;
    if ToCatalogInput(Select(c, ids)).Ok? {
      NodeKeepsEdge(Select(c, ids), w, target.id);
    }
  }

  lemma SelectionHoldsTarget(c: Catalog, ids: seq<Id>, w: Workflow, target: Workflow)
    requires NoDup(WorkflowIds(c)) && ClosedUnder(RecipeGraph(c.workflows), Elements(ids))
    requires w in c.workflows && w.id in ids && IsRuntime(c, w)
    requires target in c.workflows && IsRuntime(c, target)
    requires target.id in w.dependencies + w.reviewOf + w.refreshDependencies
    ensures w in RuntimeWorkflows(Select(c, ids)) && target.id in RuntimeIds(Select(c, ids))
  {
    WorkflowIsById(c, w);
    var g := RecipeGraph(c.workflows);
    assert Edge(g, w.id, target.id);
    assert w.id in Elements(ids);
    assert target.id in Elements(ids);
    var s := Select(c, ids);
    assert IsRuntime(s, w) && IsRuntime(s, target) && w in s.workflows && target in s.workflows;
  }

  lemma NodeKeepsEdge(s: Catalog, w: Workflow, target: Id)
    requires ToCatalogInput(s).Ok? && w in RuntimeWorkflows(s) && target in RuntimeIds(s)
    ensures HasNode(ToCatalogInput(s).value, target) && KeepsEdge(ToCatalogInput(s).value, w, target)
  {
    RuntimeIdHasNode(s, target);
    ProjectedNodes(s);
    hide ToCatalogInput;
    hide RuntimeIds;
    hide HasNode;
    var k :| 0 <= k < |RuntimeWorkflows(s)| && RuntimeWorkflows(s)[k] == w;
    var n := ToCatalogInput(s).value.workflows[k];
    assert FromWorkflow(s, n, w);
    assert n in ToCatalogInput(s).value.workflows;
  }

  lemma WorkflowIsById(c: Catalog, w: Workflow)
    requires NoDup(WorkflowIds(c)) && w in c.workflows
    ensures w.id in ById(c.workflows) && ById(c.workflows)[w.id] == w
  {
    var ws := c.workflows;
    var i :| 0 <= i < |ws| && ws[i] == w;
    forall j | i < j < |ws| ensures ws[j].id != w.id {
      assert WorkflowIds(c)[i] == w.id && WorkflowIds(c)[j] == ws[j].id;
    }
    hide WorkflowIds;
    hide NoDup;
    var m := ById(ws);
    hide ById;
    assert ws[i].id in m;
  }

  ghost predicate ReadsFrom(ws: seq<Workflow>, reader: Id, producer: Id) {
    reader in ById(ws) && producer in ReadProducers(Producers(ws), reader, ById(ws)[reader].inputPaths)
  }

  /** An edge of a clean catalog that is no declared dependency runs from a reader to a producer. */
  lemma CleanRecipeEdge(c: Catalog, u: Id, v: Id)
    requires Clean(c) && Edge(RecipeGraph(c.workflows), u, v)
    ensures Edge(DependencyGraph(c), u, v) || ReadsFrom(c.workflows, u, v)
  {
    CleanWorkflowIdsAreDistinct(c);
    var w := ById(c.workflows)[u];
    CleanWorkflow(c, w);
    hide Clean;
    if v in w.dependencies {
      DependencyEdge(c, u, v);
    }
  }

  /** Validation already excludes every other cycle: a cycle a recipe is refused for passes from a
      node to the producer of one of its inputs without declaring the dependency. */
  lemma RecipeCyclesReadBack(c: Catalog, p: seq<Id>)
    requires Clean(c) && IsCycle(RecipeGraph(c.workflows), p)
    ensures exists i :: 0 <= i < |p| - 1 && ReadsFrom(c.workflows, p[i], p[i + 1])
              && !Edge(DependencyGraph(c), p[i], p[i + 1])
  {
    var g, d := RecipeGraph(c.workflows), DependencyGraph(c);
    assert !IsCycle(d, p);
    assert !IsWalk(d, p);
    var i :| 0 <= i < |p| - 1 && !Edge(d, p[i], p[i + 1]);
    assert Edge(g, p[i], p[i + 1]);
    CleanRecipeEdge(c, p[i], p[i + 1]);
  }

  /** In a clean catalog a recipe of known workflows never runs into a missing node. */
  lemma CleanRecipeHasNoMissingNode(c: Catalog, roots: seq<Id>, x: Id)
    requires Clean(c) && (forall r :: r in roots ==> r in WorkflowIds(c))
    requires ReachedFrom(RecipeGraph(c.workflows), roots, x)
    ensures x in RecipeGraph(c.workflows)
  {
    var g := RecipeGraph(c.workflows);
    forall id | id in WorkflowIds(c) ensures id in g.Keys {
      var k :| 0 <= k < |WorkflowIds(c)| && WorkflowIds(c)[k] == id;
      assert c.workflows[k] in c.workflows;
    }
    forall u, v | u in g.Keys && Edge(g, u, v) ensures v in g.Keys {
      var w := ById(c.workflows)[u];
      CleanWorkflow(c, w);
      if v in ReadProducers(Producers(c.workflows), u, w.inputPaths) {
        var path :| path in Producers(c.workflows) && Producers(c.workflows)[path] == v;
        var writer :| writer in c.workflows && writer.id == v;
      } else {
        assert v in w.dependencies;
        assert v in WorkflowIds(c);
      }
    }
    ReachedIsLeast(g, roots, g.Keys, x);
  }

  datatype RecipeResult = Projected(input: GraphInput) | Refused(outcome: Outcome) | Unprojected(error: BridgeError)

  /** Everything within reach of a recipe lies on no cycle, and its domains are owned by the runtime
      or the maintainer. */
  ghost predicate Selectable(c: Catalog, roots: seq<Id>) {
    var g := RecipeGraph(c.workflows);
    && (forall x :: ReachedFrom(g, roots, x) ==> !CycleAt(g, x))
    && (forall w :: w in c.workflows && ReachedFrom(g, roots, w.id) ==> Classify(c.domains, w.domainId) != Unknown)
  }

  /** Selecting a recipe of known workflows of a clean catalog fails for two reasons only: a cycle
      within its reach, or a selected workflow whose domain nobody owns. */
  method ToRecipeInput(c: Catalog, roots: seq<Id>) returns (r: RecipeResult, ids: seq<Id>)
    ensures r.Projected? ==> ToCatalogInput(Select(c, ids)) == Ok(r.input)
    ensures r.Projected? ==> PostOrder(RecipeGraph(c.workflows), ids) && ClosedUnder(RecipeGraph(c.workflows), Elements(ids))
    ensures Clean(c) && (forall x :: x in roots ==> x in WorkflowIds(c)) ==> (r.Projected? <==> Selectable(c, roots))
    ensures r.Refused? <==>
      !(forall x :: ReachedFrom(RecipeGraph(c.workflows), roots, x) ==>
          x in RecipeGraph(c.workflows) && !CycleAt(RecipeGraph(c.workflows), x))
    ensures r.Refused? ==> !r.outcome.Done? && ReachedFrom(RecipeGraph(c.workflows), roots, r.outcome.id)
    ensures r.Refused? && r.outcome.Cycle? ==> CycleAt(RecipeGraph(c.workflows), r.outcome.id)
    ensures r.Refused? && r.outcome.Missing? ==> r.outcome.id !in RecipeGraph(c.workflows)
    ensures r.Unprojected? ==> ToCatalogInput(Select(c, ids)) == Err(r.error)
    ensures !r.Refused? ==> forall x :: x in ids <==> ReachedFrom(RecipeGraph(c.workflows), roots, x)
  {
    var g := RecipeGraph(c.workflows);
    var outcome;
    outcome, ids := Collect(g, roots);
    hide RecipeGraph;
    hide ToCatalogInput;
    if Clean(c) && forall x :: x in roots ==> x in WorkflowIds(c) {
      forall x | ReachedFrom(g, roots, x) ensures x in g {
        CleanRecipeHasNoMissingNode(c, roots, x);
      }
    }
    if !outcome.Done? {
      return Refused(outcome), ids;
    }
    PostOrderIsClosed(g, ids);
    if Clean(c) {
      SelectionProjects(c, ids);
    }
    match ToCatalogInput(Select(c, ids))
    case Ok(input) => r := Projected(input);
    case Err(error) => r := Unprojected(error);
  }
}
