/** The bridge from the authored catalog to the graph the engine executes: maintainer-only
    workflows are filtered out, every name is resolved, and anything unresolvable is refused. */
module Bridge {
  import opened Graphs
  import opened Catalogs
  import opened Options
  import opened Sequences
  import CycleDetection

  datatype Result<+T> = Ok(value: T) | Err(error: BridgeError)
  datatype BridgeError =
    | UnknownDomains(workflowIds: seq<Id>)
    | UnresolvedReference(owner: Id, referenceId: Id)
    | UnresolvedRole(owner: Id, roleId: Id)
    | UnresolvedPack(owner: Id, packId: Id)

  datatype DomainClass = Runtime | Machine | Unknown

  const MACHINE_DOMAIN := "domain.machine"
  const SYSTEM_DOMAINS := ["domain.process", "domain.orchestration"]
  const GRANTABLE_DOMAINS :=
    ["domain.research", "domain.product", "domain.experience", "domain.words", "domain.design", "domain.engineering",
     "domain.growth", "domain.data", "domain.money", "domain.store", "domain.trust", "domain.operations"]

  /** An explicit flag wins; an absent one falls back on the base catalog's default. */
  predicate FlagOr(flag: Flag, default: bool) {
    flag == Yes || (flag != No && default)
  }

  function Authority(d: Domain): DomainClass {
    var machine := FlagOr(d.machine, d.id == MACHINE_DOMAIN);
    var system := FlagOr(d.system, d.id in SYSTEM_DOMAINS);
    var grantable := !machine && !system && FlagOr(d.grantable, d.id in GRANTABLE_DOMAINS);
    if machine then Machine
    else if grantable || system then Runtime
    else Unknown
  }

  function Classify(domains: seq<Domain>, id: Id): DomainClass {
    if domains == [] then Unknown
    else if domains[0].id == id then Authority(domains[0])
    else Classify(domains[1..], id)
  }

  predicate IsRuntime(c: Catalog, w: Workflow) {
    Classify(c.domains, w.domainId) == Runtime
  }

  function RuntimeWorkflows(c: Catalog): (r: seq<Workflow>)
    ensures forall w :: w in r <==> w in c.workflows && IsRuntime(c, w)
  {
    Filter((w: Workflow) => IsRuntime(c, w), c.workflows)
  }

  function UnknownWorkflows(c: Catalog): (r: seq<Workflow>)
    ensures forall w :: w in r <==> w in c.workflows && Classify(c.domains, w.domainId) == Unknown
  {
    Filter((w: Workflow) => Classify(c.domains, w.domainId) == Unknown, c.workflows)
  }

  function RuntimeIds(c: Catalog): set<Id> {
    set w | w in RuntimeWorkflows(c) :: w.id
  }

  function Keep(ids: seq<Id>, known: set<Id>): (r: seq<Id>)
    ensures forall x :: x in r <==> x in ids && x in known
  {
    Filter(id => id in known, ids)
  }

  /** Resolves each id, refusing at the first one that names nothing. */
  function ResolveReferences(c: Catalog, owner: Id, ids: seq<Id>): (r: Result<seq<Reference>>)
    ensures r.Ok? <==> forall id :: id in ids ==> id in ReferenceIds(c)
    ensures r.Ok? ==> |r.value| == |ids|
    ensures r.Ok? ==> forall k :: 0 <= k < |ids| ==> r.value[k] in c.references && r.value[k].id == ids[k]
  {
    if ids == [] then Ok([])
    else if ids[0] !in ReferenceIds(c) then Err(UnresolvedReference(owner, ids[0]))
    else
      assert Reference(ids[0]) in c.references by {
        var k :| 0 <= k < |ReferenceIds(c)| && ReferenceIds(c)[k] == ids[0];
        assert c.references[k].id == ids[0];
      }
      match ResolveReferences(c, owner, ids[1..])
      case Err(e) => Err(e)
      case Ok(rest) => Ok([Reference(ids[0])] + rest)
  }

  /** The last entry with an id, as a map built from the list keeps it. */
  function LastWith<T(!new)>(key: T -> Id, entries: seq<T>, id: Id): (r: Option<T>)
    ensures r.None? <==> forall x :: x in entries ==> key(x) != id
    ensures r.Some? ==> r.value in entries && key(r.value) == id
    ensures r.Some? ==>
      (exists i :: 0 <= i < |entries| && entries[i] == r.value && forall j :: i < j < |entries| ==> key(entries[j]) != id)
  {
    if entries == [] then None
    else if key(entries[|entries| - 1]) == id then Some(entries[|entries| - 1])
    else LastWith(key, entries[..|entries| - 1], id)
  }

  function LookupRole(c: Catalog, id: Id): Option<Role> {
    LastWith((r: Role) => r.id, c.roles, id)
  }

  function LookupPack(c: Catalog, id: Id): Option<ContextPack> {
    LastWith((p: ContextPack) => p.id, c.contextPacks, id)
  }

  function ResolvePacks(c: Catalog, owner: Id, ids: seq<Id>): Result<seq<seq<Reference>>> {
    if ids == [] then Ok([])
    else match LookupPack(c, ids[0])
      case None => Err(UnresolvedPack(owner, ids[0]))
      case Some(pack) =>
        match ResolveReferences(c, pack.id, pack.referenceIds)
        case Err(e) => Err(e)
        case Ok(references) =>
          match ResolvePacks(c, owner, ids[1..])
          case Err(e) => Err(e)
          case Ok(rest) => Ok([references] + rest)
  }

  datatype GraphNode = GraphNode(
    id: Id, domainId: Id, references: seq<Reference>, packs: seq<seq<Reference>>,
    reviewOf: seq<Id>, dependencies: seq<Id>, refreshDependencies: seq<Id>,
    inputPaths: seq<string>, outputPaths: seq<string>)

  datatype GraphInput = GraphInput(artifacts: seq<Artifact>, workflows: seq<GraphNode>)

  function ProjectWorkflow(c: Catalog, w: Workflow): Result<GraphNode> {
    match ResolveReferences(c, w.id, w.referenceIds)
    case Err(e) => Err(e)
    case Ok(references) =>
      match LookupRole(c, w.roleId)
      case None => Err(UnresolvedRole(w.id, w.roleId))
      case Some(role) =>
        match ResolvePacks(c, role.id, role.contextPackIds)
        case Err(e) => Err(e)
        case Ok(packs) =>
          var ids := RuntimeIds(c);
          Ok(GraphNode(w.id, w.domainId, references, packs,
                       Keep(w.reviewOf, ids), Keep(w.dependencies, ids), Keep(w.refreshDependencies, ids),
                       w.inputPaths, w.outputPaths))
  }

  function ProjectAll(c: Catalog, ws: seq<Workflow>): Result<seq<GraphNode>> {
    if ws == [] then Ok([])
    else match ProjectWorkflow(c, ws[0])
      case Err(e) => Err(e)
      case Ok(node) =>
        match ProjectAll(c, ws[1..])
        case Err(e) => Err(e)
        case Ok(rest) => Ok([node] + rest)
  }

  const FINGERPRINT_PATH: string := "run/app-source-fingerprint.sha256"

  function ToCatalogInput(c: Catalog): Result<GraphInput> {
    if UnknownWorkflows(c) != [] then Err(UnknownDomains(MapSeq((w: Workflow) => w.id, UnknownWorkflows(c))))
    else
      match ProjectAll(c, RuntimeWorkflows(c))
      case Err(e) => Err(e)
      case Ok(nodes) =>
        var outputs := AllOutputs(RuntimeWorkflows(c));
        Ok(GraphInput(Filter((a: Artifact) => a.path in outputs || a.path == FINGERPRINT_PATH, c.artifacts), nodes))
  }

  function InputGraph(input: GraphInput): Graph {
    CycleDetection.EdgesOf(MapSeq((n: GraphNode) => CycleDetection.Node(n.id, n.dependencies), input.workflows))
  }
}
