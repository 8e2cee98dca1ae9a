/** What a clean validation guarantees about the bridge. */
module Adequacy {
  import opened Graphs
  import opened Catalogs
  import opened Sequences
  import opened Validation
  import opened Bridge
  import CycleDetection

  lemma NoneRepeated(s: seq<string>)
    ensures NoDup(s) <==> forall x :: !Repeated(s, x)
  {
    if forall x :: !Repeated(s, x) {
      forall i, j | 0 <= i < j < |s| ensures s[i] != s[j] {
        assert !Repeated(s, s[i]);
      }
    }
  }

  lemma ValidIdHasSegment(id: Id)
    requires IsCatalogId(id)
    ensures FirstSegment(id) != ""
  {}

  /** The validator's duplicate test, blind to an id with nothing before its first dot, misses no
      duplicate among well-formed ids. */
  lemma CleanIdsAreDistinct(c: Catalog)
    requires Clean(c)
    ensures NoDup(AllIds(c))
  {
    var ids := AllIds(c);
    hide AllIds;
    forall x ensures !Repeated(ids, x) {
      if Repeated(ids, x) {
        assert x in ids;
        assert !Defect(c, Issue(IdInvalid, "", x)) && !Defect(c, Issue(IdDuplicate, "", x));
        assert !IdDefect(ids, Issue(IdInvalid, "", x)) && !IdDefect(ids, Issue(IdDuplicate, "", x));
        ValidIdHasSegment(x);
      }
    }
    NoneRepeated(ids);
  }

  lemma NoDupSlice<T(!new)>(s: seq<T>, lo: nat, hi: nat)
    requires NoDup(s) && lo <= hi <= |s|
    ensures NoDup(s[lo..hi])
  {}

  lemma CleanWorkflowIdsAreDistinct(c: Catalog)
    requires Clean(c)
    ensures NoDup(WorkflowIds(c))
  {
    CleanIdsAreDistinct(c);
    var before := c.areaIds + DomainIds(c) + c.phaseIds + c.laneIds + RoleIds(c) + PackIds(c) + ReferenceIds(c);
    var lo := |before|;
    assert AllIds(c) == before + WorkflowIds(c) + (ArtifactIds(c) + c.gateIds);
    assert AllIds(c)[lo..lo + |WorkflowIds(c)|] == WorkflowIds(c);
    NoDupSlice(AllIds(c), lo, lo + |WorkflowIds(c)|);
  }

  /** A clean workflow names only known roles and references and keeps its review and refresh
      edges among its dependencies. */
  lemma CleanWorkflow(c: Catalog, w: Workflow)
    requires Clean(c) && w in c.workflows
    ensures forall d :: d in w.dependencies ==> d in WorkflowIds(c)
    ensures forall d :: d in w.refreshDependencies ==> d in w.dependencies
    ensures forall d :: d in w.reviewOf ==> d in w.dependencies && d != w.id
    ensures w.roleId in RoleIds(c)
    ensures forall r :: r in w.referenceIds ==> r in ReferenceIds(c)
    ensures forall o :: o in w.outputPaths ==> o in ArtifactPaths(c)
  {
    forall code, value ensures !WorkflowDefect(c, w, code, value) {
      assert !Defect(c, Issue(code, w.id, value));
      assert !WorkflowReport(c, w, Issue(code, w.id, value));
    }
    assert !WorkflowDefect(c, w, RoleUnknown, w.roleId);
    forall d | d in w.dependencies ensures d in WorkflowIds(c) {
      assert !WorkflowDefect(c, w, UnknownDependency, d);
    }
    forall d | d in w.refreshDependencies ensures d in w.dependencies {
      assert !WorkflowDefect(c, w, RefreshNotDependency, d);
    }
    forall d | d in w.reviewOf ensures d in w.dependencies && d != w.id {
      assert !WorkflowDefect(c, w, ReviewSelf, d) && !WorkflowDefect(c, w, ReviewNotDependency, d);
    }
    forall r | r in w.referenceIds ensures r in ReferenceIds(c) {
      assert !WorkflowDefect(c, w, ReferenceUnknown, r);
    }
    forall o | o in w.outputPaths ensures o in ArtifactPaths(c) {
      assert !WorkflowDefect(c, w, UnknownOutput, o);
    }
  }

  lemma CleanPack(c: Catalog, p: ContextPack)
    requires Clean(c) && p in c.contextPacks
    ensures forall r :: r in p.referenceIds ==> r in ReferenceIds(c)
  {
    forall r | r in p.referenceIds ensures r in ReferenceIds(c) {
      assert !Defect(c, Issue(PackReferenceUnknown, p.id, r));
      assert !PackDefect(c, p, Issue(PackReferenceUnknown, p.id, r));
    }
  }

  lemma CleanRole(c: Catalog, role: Role)
    requires Clean(c) && role in c.roles
    ensures forall p :: p in role.contextPackIds ==> p in PackIds(c)
  {
    forall p | p in role.contextPackIds ensures p in PackIds(c) {
      assert !Defect(c, Issue(RolePackUnknown, role.id, p));
      assert !RoleDefect(c, role, Issue(RolePackUnknown, role.id, p));
    }
  }

  lemma {:induction false} CleanPacksResolve(c: Catalog, owner: Id, ids: seq<Id>)
    requires Clean(c) && forall p :: p in ids ==> p in PackIds(c)
    ensures ResolvePacks(c, owner, ids).Ok?
    decreases |ids|
  {
    hide Clean;
    if ids != [] {
      assert ids[0] in PackIds(c);
      var k :| 0 <= k < |PackIds(c)| && PackIds(c)[k] == ids[0];
      assert c.contextPacks[k] in c.contextPacks && c.contextPacks[k].id == ids[0];
      var pack := LookupPack(c, ids[0]).value;
      CleanPack(c, pack);
      CleanPacksResolve(c, owner, ids[1..]);
    }
  }

  lemma CleanWorkflowProjects(c: Catalog, w: Workflow)
    requires Clean(c) && w in c.workflows
    ensures ProjectWorkflow(c, w).Ok?
  {
    hide Clean;
    CleanWorkflow(c, w);
    var k :| 0 <= k < |RoleIds(c)| && RoleIds(c)[k] == w.roleId;
    assert c.roles[k] in c.roles && c.roles[k].id == w.roleId;
    var role := LookupRole(c, w.roleId).value;
    CleanRole(c, role);
    CleanPacksResolve(c, role.id, role.contextPackIds);
  }

  lemma {:induction false} ProjectAllPointwise(c: Catalog, ws: seq<Workflow>)
    ensures ProjectAll(c, ws).Ok? <==> forall w :: w in ws ==> ProjectWorkflow(c, w).Ok?
    ensures ProjectAll(c, ws).Ok? ==> |ProjectAll(c, ws).value| == |ws|
    ensures ProjectAll(c, ws).Ok? ==> forall k :: 0 <= k < |ws| ==>
      ProjectWorkflow(c, ws[k]).Ok? && ProjectAll(c, ws).value[k] == ProjectWorkflow(c, ws[k]).value
    decreases |ws|
  {
    hide ProjectWorkflow;
    if ws != [] {
      ProjectAllPointwise(c, ws[1..]);
      assert forall w :: w in ws <==> w == ws[0] || w in ws[1..];
      if ProjectAll(c, ws).Ok? {
        forall k | 0 <= k < |ws|
          ensures ProjectWorkflow(c, ws[k]).Ok? && ProjectAll(c, ws).value[k] == ProjectWorkflow(c, ws[k]).value
        {
          if k > 0 {
            assert ws[1..][k - 1] == ws[k];
          }
        }
      }
    }
  }

  /** A clean catalog crosses the bridge if and only if the domain of each of its workflows is one
      the runtime or the maintainer owns; validation alone does not promise it, because a domain
      without an authority flag is reported by no check. */
  lemma CleanCatalogProjects(c: Catalog)
    requires Clean(c)
    ensures ToCatalogInput(c).Ok? <==> forall w :: w in c.workflows ==> Classify(c.domains, w.domainId) != Unknown
  {
    var unknown := UnknownWorkflows(c);
    if unknown == [] {
      forall w | w in c.workflows ensures Classify(c.domains, w.domainId) != Unknown {
        assert w !in unknown;
      }
      forall w | w in RuntimeWorkflows(c) ensures ProjectWorkflow(c, w).Ok? {
        CleanWorkflowProjects(c, w);
      }
      ProjectAllPointwise(c, RuntimeWorkflows(c));
    } else {
      assert unknown[0] in unknown;
    }
  }

  // ---- the projected graph ------------------------------------------------------------------

  lemma {:induction false} EdgeNamesNode(nodes: seq<CycleDetection.Node>, u: Id, v: Id)
    requires Edge(CycleDetection.EdgesOf(nodes), u, v)
    ensures exists n :: n in nodes && n.id == u && v in n.dependencies
    decreases |nodes|
  {
    var last := nodes[|nodes| - 1];
    if last.id != u {
      EdgeNamesNode(nodes[..|nodes| - 1], u, v);
    } else {
      assert last in nodes;
    }
  }

  lemma {:induction false} NodeMakesEdge(nodes: seq<CycleDetection.Node>, k: nat, v: Id)
    requires k < |nodes| && v in nodes[k].dependencies
    requires forall i, j :: 0 <= i < j < |nodes| ==> nodes[i].id != nodes[j].id
    ensures Edge(CycleDetection.EdgesOf(nodes), nodes[k].id, v)
    decreases |nodes|
  {
    if k < |nodes| - 1 {
      NodeMakesEdge(nodes[..|nodes| - 1], k, v);
    }
  }

  /** Between distinct workflows the dependency graph is exactly what they declare. */
  lemma DependencyEdge(c: Catalog, u: Id, v: Id)
    requires NoDup(WorkflowIds(c))
    ensures Edge(DependencyGraph(c), u, v) <==> exists w :: w in c.workflows && w.id == u && v in w.dependencies
  {
    var nodes := DependencyNodes(c);
    if Edge(DependencyGraph(c), u, v) {
      EdgeNamesNode(nodes, u, v);
      var n :| n in nodes && n.id == u && v in n.dependencies;
      var k :| 0 <= k < |nodes| && nodes[k] == n;
      assert c.workflows[k] in c.workflows && c.workflows[k].id == u;
    }
    if w :| w in c.workflows && w.id == u && v in w.dependencies {
      var k :| 0 <= k < |c.workflows| && c.workflows[k] == w;
      assert nodes[k] == CycleDetection.Node(w.id, w.dependencies);
      forall i, j | 0 <= i < j < |nodes| ensures nodes[i].id != nodes[j].id {
        assert WorkflowIds(c)[i] != WorkflowIds(c)[j];
      }
      NodeMakesEdge(nodes, k, v);
    }
  }

  lemma SubgraphAcyclic(g: Graph, h: Graph)
    requires Acyclic(h) && forall u, v :: Edge(g, u, v) ==> Edge(h, u, v)
    ensures Acyclic(g)
  {
    forall p ensures !IsCycle(g, p) {
      if IsCycle(g, p) {
        assert IsCycle(h, p);
      }
    }
  }

  predicate FromWorkflow(c: Catalog, n: GraphNode, w: Workflow) {
    && n.id == w.id && n.outputPaths == w.outputPaths && n.inputPaths == w.inputPaths
    && n.dependencies == Keep(w.dependencies, RuntimeIds(c))
    && n.reviewOf == Keep(w.reviewOf, RuntimeIds(c))
    && n.refreshDependencies == Keep(w.refreshDependencies, RuntimeIds(c))
  }

  /** The projected nodes are the runtime workflows, one for one and in order. */
  lemma ProjectedNodes(c: Catalog)
    requires ToCatalogInput(c).Ok?
    ensures |ToCatalogInput(c).value.workflows| == |RuntimeWorkflows(c)|
    ensures forall k :: 0 <= k < |RuntimeWorkflows(c)| ==>
      FromWorkflow(c, ToCatalogInput(c).value.workflows[k], RuntimeWorkflows(c)[k])
  {
    ProjectAllPointwise(c, RuntimeWorkflows(c));
    var input := ToCatalogInput(c).value;
    assert input.workflows == ProjectAll(c, RuntimeWorkflows(c)).value;
  }

  ghost predicate HasNode(input: GraphInput, id: Id) {
    exists m :: m in input.workflows && m.id == id
  }

  /** Every dependency that crosses the bridge leads to a node that crossed too; none is invented
      and none between two runtime workflows is lost. */
  lemma ProjectedEdges(c: Catalog, k: nat, d: Id)
    requires ToCatalogInput(c).Ok? && k < |RuntimeWorkflows(c)| == |ToCatalogInput(c).value.workflows|
    ensures d in ToCatalogInput(c).value.workflows[k].dependencies <==>
      d in RuntimeWorkflows(c)[k].dependencies && HasNode(ToCatalogInput(c).value, d)
    ensures d in ToCatalogInput(c).value.workflows[k].reviewOf <==>
      d in RuntimeWorkflows(c)[k].reviewOf && HasNode(ToCatalogInput(c).value, d)
    ensures d in ToCatalogInput(c).value.workflows[k].refreshDependencies <==>
      d in RuntimeWorkflows(c)[k].refreshDependencies && HasNode(ToCatalogInput(c).value, d)
  {
    ProjectedNodes(c);
    RuntimeIdHasNode(c, d);
    hide ToCatalogInput;
    hide HasNode;
    hide RuntimeIds;
    hide RuntimeWorkflows;
    assert FromWorkflow(c, ToCatalogInput(c).value.workflows[k], RuntimeWorkflows(c)[k]);
  }

  lemma RuntimeIdHasNode(c: Catalog, d: Id)
    requires ToCatalogInput(c).Ok?
    ensures d in RuntimeIds(c) <==> HasNode(ToCatalogInput(c).value, d)
  {
    if d in RuntimeIds(c) {
      var w :| w in RuntimeWorkflows(c) && w.id == d;
      RuntimeWorkflowHasNode(c, w);
    }
    if HasNode(ToCatalogInput(c).value, d) {
      NodeIsRuntimeWorkflow(c, d);
    }
  }

  lemma RuntimeWorkflowHasNode(c: Catalog, w: Workflow)
    requires ToCatalogInput(c).Ok? && w in RuntimeWorkflows(c)
    ensures HasNode(ToCatalogInput(c).value, w.id)
  {
    ProjectedNodes(c);
    hide ToCatalogInput;
    var j :| 0 <= j < |RuntimeWorkflows(c)| && RuntimeWorkflows(c)[j] == w;
    assert FromWorkflow(c, ToCatalogInput(c).value.workflows[j], w);
    assert ToCatalogInput(c).value.workflows[j] in ToCatalogInput(c).value.workflows;
  }

  lemma NodeIsRuntimeWorkflow(c: Catalog, d: Id)
    requires ToCatalogInput(c).Ok? && HasNode(ToCatalogInput(c).value, d)
    ensures d in RuntimeIds(c)
  {
    ProjectedNodes(c);
    hide ToCatalogInput;
    hide RuntimeWorkflows;
    var nodes := ToCatalogInput(c).value.workflows;
    var m :| m in nodes && m.id == d;
    hide HasNode;
    var j :| 0 <= j < |nodes| && nodes[j] == m;
    assert FromWorkflow(c, m, RuntimeWorkflows(c)[j]);
    assert RuntimeWorkflows(c)[j] in RuntimeWorkflows(c);
  }

  /** The executable dependency graph of a clean catalog has no cycle. */
  lemma ProjectedGraphIsAcyclic(c: Catalog)
    requires Clean(c) && ToCatalogInput(c).Ok?
    ensures Acyclic(InputGraph(ToCatalogInput(c).value))
  {
    var input := ToCatalogInput(c).value;
    CleanWorkflowIdsAreDistinct(c);
    forall u, v | Edge(InputGraph(input), u, v) ensures Edge(DependencyGraph(c), u, v) {
      ProjectedEdgeIsDeclared(c, u, v);
      DependencyEdge(c, u, v);
    }
    SubgraphAcyclic(InputGraph(input), DependencyGraph(c));
  }

  lemma ProjectedEdgeIsDeclared(c: Catalog, u: Id, v: Id)
    requires ToCatalogInput(c).Ok? && Edge(InputGraph(ToCatalogInput(c).value), u, v)
    ensures exists w :: w in c.workflows && w.id == u && v in w.dependencies
  {
    ProjectedNodes(c);
    var input := ToCatalogInput(c).value;
    hide ToCatalogInput;
    var k := InputEdgeNamesNode(input, u, v);
    hide InputGraph;
    var w := RuntimeWorkflows(c)[k];
    assert FromWorkflow(c, input.workflows[k], w);
    assert w in RuntimeWorkflows(c);
  }

  lemma InputEdgeNamesNode(input: GraphInput, u: Id, v: Id) returns (k: nat)
    requires Edge(InputGraph(input), u, v)
    ensures k < |input.workflows| && input.workflows[k].id == u && v in input.workflows[k].dependencies
  {
    var nodes := MapSeq((n: GraphNode) => CycleDetection.Node(n.id, n.dependencies), input.workflows);
    EdgeNamesNode(nodes, u, v);
    var n :| n in nodes && n.id == u && v in n.dependencies;
    k :| 0 <= k < |nodes| && nodes[k] == n;
  }

  // ---- single artifact, single writer -------------------------------------------------------

  lemma {:induction false} OutputAt(ws: seq<Workflow>, k: nat, j: nat) returns (at: nat)
    requires k < |ws| && j < |ws[k].outputPaths|
    ensures |AllOutputs(ws[..k])| <= at < |AllOutputs(ws[..k + 1])| <= |AllOutputs(ws)|
    ensures AllOutputs(ws)[at] == ws[k].outputPaths[j]
    ensures at == |AllOutputs(ws[..k])| + j
    decreases |ws|
  {
    var front := ws[..|ws| - 1];
    if k == |ws| - 1 {
      at := |AllOutputs(front)| + j;
      assert ws[..k + 1] == ws;
    } else {
      at := OutputAt(front, k, j);
      assert front[..k] == ws[..k] && front[..k + 1] == ws[..k + 1];
    }
  }

  lemma {:induction false} OutputsGrow(ws: seq<Workflow>, i: nat, k: nat)
    requires i <= k <= |ws|
    ensures |AllOutputs(ws[..i])| <= |AllOutputs(ws[..k])|
    decreases k
  {
    if i < k {
      OutputsGrow(ws, i, k - 1);
      assert ws[..k][..k - 1] == ws[..k - 1];
    }
  }

  /** No path is written twice, whether by two workflows or twice by one. */
  lemma CleanWritersAreUnique(c: Catalog, k: nat, j: nat, k': nat, j': nat)
    requires Clean(c)
    requires k < |c.workflows| && j < |c.workflows[k].outputPaths|
    requires k' < |c.workflows| && j' < |c.workflows[k'].outputPaths|
    requires c.workflows[k].outputPaths[j] == c.workflows[k'].outputPaths[j']
    ensures k == k' && j == j'
  {
    var p := c.workflows[k].outputPaths[j];
    var at := OutputAt(c.workflows, k, j);
    var at' := OutputAt(c.workflows, k', j');
    assert !Defect(c, Issue(AmbiguousWrite, "", p));
    assert !Repeated(AllOutputs(c.workflows), p);
    if k < k' {
      OutputsGrow(c.workflows, k + 1, k');
    } else if k' < k {
      OutputsGrow(c.workflows, k' + 1, k);
    }
  }

  /** In the projected graph each output path has one writing node and one place in its list. */
  lemma ProjectedWritersAreUnique(c: Catalog, k: nat, j: nat, k': nat, j': nat)
    requires Clean(c) && ToCatalogInput(c).Ok?
    requires k < |ToCatalogInput(c).value.workflows| && j < |ToCatalogInput(c).value.workflows[k].outputPaths|
    requires k' < |ToCatalogInput(c).value.workflows| && j' < |ToCatalogInput(c).value.workflows[k'].outputPaths|
    requires ToCatalogInput(c).value.workflows[k].outputPaths[j] == ToCatalogInput(c).value.workflows[k'].outputPaths[j']
    ensures k == k' && j == j'
  {
    ProjectedNodes(c);
    var nodes, ws := ToCatalogInput(c).value.workflows, RuntimeWorkflows(c);
    assert FromWorkflow(c, nodes[k], ws[k]) && FromWorkflow(c, nodes[k'], ws[k']);
    var isRuntime := (w: Workflow) => IsRuntime(c, w);
    var at := FilterIndex(isRuntime, c.workflows, k);
    var at' := FilterIndex(isRuntime, c.workflows, k');
    CleanWritersAreUnique(c, at, j, at', j');
  }

  /** A path of a kept artifact picks out one entry of the kept list. */
  lemma KeptArtifactIsUnique(c: Catalog, keep: Artifact -> bool, o: string, i: nat) returns (at: nat)
    requires NoDup(ArtifactPaths(c)) && i < |c.artifacts| && c.artifacts[i].path == o && keep(c.artifacts[i])
    ensures at < |Filter(keep, c.artifacts)| && Filter(keep, c.artifacts)[at].path == o
    ensures forall m :: 0 <= m < |Filter(keep, c.artifacts)| && Filter(keep, c.artifacts)[m].path == o ==> m == at
  {
    var kept := Filter(keep, c.artifacts);
    assert c.artifacts[i] in kept;
    hide Filter;
    hide NoDup;
    at :| 0 <= at < |kept| && kept[at] == c.artifacts[i];
    forall m | 0 <= m < |kept| && kept[m].path == o ensures m == at {
      var x := FilterIndex(keep, c.artifacts, m);
      var y := FilterIndex(keep, c.artifacts, at);
      PathPicksIndex(c, x, y);
    }
  }

  lemma PathPicksIndex(c: Catalog, x: nat, y: nat)
    requires NoDup(ArtifactPaths(c)) && x < |c.artifacts| && y < |c.artifacts|
    requires c.artifacts[x].path == c.artifacts[y].path
    ensures x == y
  {
    assert ArtifactPaths(c)[x] == ArtifactPaths(c)[y];
  }

  lemma CleanArtifactPathsAreDistinct(c: Catalog)
    requires Clean(c)
    ensures NoDup(ArtifactPaths(c))
  {
    forall o ensures !Repeated(ArtifactPaths(c), o) {
      assert !Defect(c, Issue(ArtifactPathDuplicate, "", o));
    }
    NoneRepeated(ArtifactPaths(c));
  }

  /** Each projected output path is the path of exactly one projected artifact. */
  lemma ProjectedArtifactIsUnique(c: Catalog, k: nat, o: string) returns (at: nat)
    requires Clean(c) && ToCatalogInput(c).Ok?
    requires k < |ToCatalogInput(c).value.workflows| && o in ToCatalogInput(c).value.workflows[k].outputPaths
    ensures at < |ToCatalogInput(c).value.artifacts| && ToCatalogInput(c).value.artifacts[at].path == o
    ensures forall i :: 0 <= i < |ToCatalogInput(c).value.artifacts| && ToCatalogInput(c).value.artifacts[i].path == o ==> i == at
  {
    ProjectedNodes(c);
    CleanArtifactPathsAreDistinct(c);
    var ws := RuntimeWorkflows(c);
    var outputs := AllOutputs(ws);
    var keep := (a: Artifact) => a.path in outputs || a.path == FINGERPRINT_PATH;
    assert ToCatalogInput(c).value.artifacts == Filter(keep, c.artifacts);
    assert FromWorkflow(c, ToCatalogInput(c).value.workflows[k], ws[k]);
    assert o in ws[k].outputPaths && ws[k] in c.workflows by { hide ToCatalogInput; }
    CleanWorkflow(c, ws[k]);
    hide ToCatalogInput;
    hide Clean;
    hide NoDup;
    var j :| 0 <= j < |ws[k].outputPaths| && ws[k].outputPaths[j] == o;
    var place := OutputAt(ws, k, j);
    assert outputs[place] == o;
    var i :| 0 <= i < |ArtifactPaths(c)| && ArtifactPaths(c)[i] == o;
    at := KeptArtifactIsUnique(c, keep, o, i);
  }
}
