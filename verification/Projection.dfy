/** What crosses the bridge, said of the catalog's own records: which workflows have a node, what a
    node holds, which artifacts are kept, and when the projection is refused. */
module Projection {
  import opened Graphs
  import opened Catalogs
  import opened Options
  import opened Sequences
  import opened Bridge
  import opened Adequacy

  // ---- authority ----------------------------------------------------------------------------

  /** The domains whose work founders grant in the base catalog. */
  predicate IsBaseDomain(id: Id) {
    || id == "domain.research" || id == "domain.product" || id == "domain.experience" || id == "domain.words"
    || id == "domain.design" || id == "domain.engineering" || id == "domain.growth" || id == "domain.data"
    || id == "domain.money" || id == "domain.store" || id == "domain.trust" || id == "domain.operations"
  }

  /** An explicit flag wins; an absent one takes the default of the domain's name. */
  predicate IsMachine(d: Domain) {
    d.machine == Yes || (d.machine == Unset && d.id == "domain.machine")
  }

  predicate IsSystem(d: Domain) {
    d.system == Yes || (d.system == Unset && (d.id == "domain.process" || d.id == "domain.orchestration"))
  }

  predicate IsGrantable(d: Domain) {
    d.grantable == Yes || (d.grantable == Unset && IsBaseDomain(d.id))
  }

  /** The engine runs the domain's work: it is no maintainer's, and a founder or the system owns it. */
  predicate Runs(d: Domain) {
    !IsMachine(d) && (IsSystem(d) || IsGrantable(d))
  }

  /** The record a domain id stands for: the first of that id. */
  predicate IsFirst(ds: seq<Domain>, i: nat, id: Id) {
    i < |ds| && ds[i].id == id && forall j :: 0 <= j < i ==> ds[j].id != id
  }

  ghost predicate Stands(ds: seq<Domain>, id: Id, d: Domain) {
    exists i: nat :: IsFirst(ds, i, id) && ds[i] == d
  }

  ghost predicate RunsIn(ds: seq<Domain>, id: Id) {
    exists d :: Stands(ds, id, d) && Runs(d)
  }

  ghost predicate MachineIn(ds: seq<Domain>, id: Id) {
    exists d :: Stands(ds, id, d) && IsMachine(d)
  }

  lemma BaseDomains(id: Id)
    ensures id in GRANTABLE_DOMAINS <==> IsBaseDomain(id)
  {
    assert GRANTABLE_DOMAINS[0] == "domain.research" && GRANTABLE_DOMAINS[1] == "domain.product";
    assert GRANTABLE_DOMAINS[2] == "domain.experience" && GRANTABLE_DOMAINS[3] == "domain.words";
    assert GRANTABLE_DOMAINS[4] == "domain.design" && GRANTABLE_DOMAINS[5] == "domain.engineering";
    assert GRANTABLE_DOMAINS[6] == "domain.growth" && GRANTABLE_DOMAINS[7] == "domain.data";
    assert GRANTABLE_DOMAINS[8] == "domain.money" && GRANTABLE_DOMAINS[9] == "domain.store";
    assert GRANTABLE_DOMAINS[10] == "domain.trust" && GRANTABLE_DOMAINS[11] == "domain.operations";
  }

  lemma SystemDomains(id: Id)
    ensures id in SYSTEM_DOMAINS <==> id == "domain.process" || id == "domain.orchestration"
  {
    assert SYSTEM_DOMAINS[0] == "domain.process" && SYSTEM_DOMAINS[1] == "domain.orchestration";
  }

  lemma AuthorityExactly(d: Domain)
    ensures Authority(d) == Machine <==> IsMachine(d)
    ensures Authority(d) == Runtime <==> Runs(d)
  {
    BaseDomains(d.id);
    SystemDomains(d.id);
    hide GRANTABLE_DOMAINS;
    hide SYSTEM_DOMAINS;
    hide IsBaseDomain;
  }

  lemma {:induction false} ClassifyFirst(ds: seq<Domain>, id: Id, i: nat)
    requires IsFirst(ds, i, id)
    ensures Classify(ds, id) == Authority(ds[i])
    decreases |ds|
  {
    if ds[0].id != id {
      ClassifyFirst(ds[1..], id, i - 1);
    }
  }

  lemma {:induction false} ClassifyNone(ds: seq<Domain>, id: Id)
    requires forall d :: d in ds ==> d.id != id
    ensures Classify(ds, id) == Unknown
    decreases |ds|
  {
    if ds != [] {
      ClassifyNone(ds[1..], id);
    }
  }

  lemma {:induction false} FirstOf(ds: seq<Domain>, id: Id) returns (i: nat)
    requires exists d :: d in ds && d.id == id
    ensures IsFirst(ds, i, id)
    decreases |ds|
  {
    if ds[0].id == id {
      i := 0;
    } else {
      assert ds == [ds[0]] + ds[1..];
      var k := FirstOf(ds[1..], id);
      i := k + 1;
    }
  }

  lemma FirstIsOne(ds: seq<Domain>, id: Id, i: nat, j: nat)
    requires IsFirst(ds, i, id) && IsFirst(ds, j, id)
    ensures i == j
  {}

  lemma StandsIsIn(ds: seq<Domain>, id: Id, d: Domain)
    ensures Stands(ds, id, d) ==> d in ds && d.id == id
  {}

  /** How a domain id is classified, by the first record of that id. */
  lemma ClassifyExactly(ds: seq<Domain>, id: Id)
    ensures Classify(ds, id) == Runtime <==> RunsIn(ds, id)
    ensures Classify(ds, id) == Machine <==> MachineIn(ds, id)
  {
    hide Classify;
    hide Authority;
    hide Runs;
    hide IsMachine;
    if exists d :: d in ds && d.id == id {
      var i := FirstOf(ds, id);
      ClassifyFirst(ds, id, i);
      AuthorityExactly(ds[i]);
      assert Stands(ds, id, ds[i]);
      forall d | Stands(ds, id, d) ensures d == ds[i] {
        var j: nat :| IsFirst(ds, j, id) && ds[j] == d;
        FirstIsOne(ds, id, i, j);
      }
    } else {
      ClassifyNone(ds, id);
      forall d ensures !Stands(ds, id, d) {
        StandsIsIn(ds, id, d);
      }
    }
  }

  // ---- which workflows have a node ----------------------------------------------------------

  lemma IdPicksWorkflow(c: Catalog, w: Workflow, x: Workflow)
    requires NoDup(WorkflowIds(c)) && w in c.workflows && x in c.workflows && w.id == x.id
    ensures w == x
  {
    var i :| 0 <= i < |c.workflows| && c.workflows[i] == w;
    var j :| 0 <= j < |c.workflows| && c.workflows[j] == x;
    assert WorkflowIds(c)[i] == w.id && WorkflowIds(c)[j] == x.id;
  }

  /** A workflow has a node if and only if the first record of its domain is no maintainer's and is
      owned by the system or a founder. */
  lemma WorkflowHasNode(c: Catalog, w: Workflow)
    requires ToCatalogInput(c).Ok? && NoDup(WorkflowIds(c)) && w in c.workflows
    ensures HasNode(ToCatalogInput(c).value, w.id) <==> RunsIn(c.domains, w.domainId)
  {
    ClassifyExactly(c.domains, w.domainId);
    RuntimeIdHasNode(c, w.id);
    hide ToCatalogInput;
    hide HasNode;
    hide RunsIn;
    hide Classify;
    if w.id in RuntimeIds(c) {
      var x :| x in RuntimeWorkflows(c) && x.id == w.id;
      IdPicksWorkflow(c, w, x);
    }
    if IsRuntime(c, w) {
      assert w in RuntimeWorkflows(c);
    }
  }

  /** A workflow in a maintainer's domain never has one, whatever else its record says. */
  lemma MachineHasNoNode(c: Catalog, w: Workflow, i: nat)
    requires ToCatalogInput(c).Ok? && NoDup(WorkflowIds(c)) && w in c.workflows
    requires IsFirst(c.domains, i, w.domainId)
    requires c.domains[i].machine == Yes || (c.domains[i].machine == Unset && c.domains[i].id == "domain.machine")
    ensures !HasNode(ToCatalogInput(c).value, w.id)
  {
    WorkflowHasNode(c, w);
    hide ToCatalogInput;
    hide HasNode;
    forall d | Stands(c.domains, w.domainId, d) ensures !Runs(d) {
      var j: nat :| IsFirst(c.domains, j, w.domainId) && c.domains[j] == d;
      FirstIsOne(c.domains, w.domainId, i, j);
    }
  }

  // ---- what a node holds --------------------------------------------------------------------

  /** The record a role id, or a pack id, stands for: the last of that id. */
  predicate IsLastRole(c: Catalog, i: nat, id: Id) {
    i < |c.roles| && c.roles[i].id == id && forall j :: i < j < |c.roles| ==> c.roles[j].id != id
  }

  predicate IsLastPack(c: Catalog, i: nat, id: Id) {
    i < |c.contextPacks| && c.contextPacks[i].id == id
    && forall j :: i < j < |c.contextPacks| ==> c.contextPacks[j].id != id
  }

  predicate AreKnown(c: Catalog, ids: seq<Id>) {
    forall id :: id in ids ==> Reference(id) in c.references
  }

  ghost predicate PackResolves(c: Catalog, id: Id) {
    exists k: nat :: IsLastPack(c, k, id) && AreKnown(c, c.contextPacks[k].referenceIds)
  }

  ghost predicate RoleResolves(c: Catalog, id: Id) {
    exists i: nat :: IsLastRole(c, i, id) && forall p :: p in c.roles[i].contextPackIds ==> PackResolves(c, p)
  }

  /** Everything the workflow names is there to be resolved. */
  ghost predicate Resolves(c: Catalog, w: Workflow) {
    AreKnown(c, w.referenceIds) && RoleResolves(c, w.roleId)
  }

  predicate AreReferences(ids: seq<Id>, found: seq<Reference>) {
    |found| == |ids| && forall k :: 0 <= k < |ids| ==> found[k].id == ids[k]
  }

  /** The references of each pack the role loads, in the order of the role. */
  ghost predicate ArePacks(c: Catalog, ids: seq<Id>, packs: seq<seq<Reference>>) {
    && |packs| == |ids|
    && forall m :: 0 <= m < |ids| ==> IsPack(c, ids[m], packs[m])
  }

  ghost predicate IsPack(c: Catalog, id: Id, found: seq<Reference>) {
    exists k: nat :: IsLastPack(c, k, id) && AreReferences(c.contextPacks[k].referenceIds, found)
  }

  /** The references, the packs and the domain of a node are its workflow's. */
  ghost predicate CarriesKnowledge(c: Catalog, n: GraphNode, w: Workflow) {
    && n.domainId == w.domainId && AreReferences(w.referenceIds, n.references)
    && exists i: nat :: IsLastRole(c, i, w.roleId) && ArePacks(c, c.roles[i].contextPackIds, n.packs)
  }

  lemma KnownIds(c: Catalog, id: Id)
    ensures id in ReferenceIds(c) <==> Reference(id) in c.references
  {
    if id in ReferenceIds(c) {
      var k :| 0 <= k < |ReferenceIds(c)| && ReferenceIds(c)[k] == id;
      assert c.references[k].id == id;
    }
    if Reference(id) in c.references {
      var k :| 0 <= k < |c.references| && c.references[k] == Reference(id);
      assert ReferenceIds(c)[k] == id;
    }
  }

  lemma ReferencesExactly(c: Catalog, owner: Id, ids: seq<Id>)
    ensures ResolveReferences(c, owner, ids).Ok? <==> AreKnown(c, ids)
    ensures ResolveReferences(c, owner, ids).Ok? ==> AreReferences(ids, ResolveReferences(c, owner, ids).value)
  {
    forall id | id in ids ensures id in ReferenceIds(c) <==> Reference(id) in c.references {
      KnownIds(c, id);
    }
    hide ReferenceIds;
  }

  lemma RoleExactly(c: Catalog, id: Id, i: nat)
    requires IsLastRole(c, i, id)
    ensures LookupRole(c, id) == Some(c.roles[i])
  {
    var r := LookupRole(c, id);
    assert c.roles[i] in c.roles;
    assert r.Some?;
    var k :| 0 <= k < |c.roles| && c.roles[k] == r.value && forall j :: k < j < |c.roles| ==> c.roles[j].id != id;
    assert k == i;
  }

  lemma PackExactly(c: Catalog, id: Id, i: nat)
    requires IsLastPack(c, i, id)
    ensures LookupPack(c, id) == Some(c.contextPacks[i])
  {
    var r := LookupPack(c, id);
    assert c.contextPacks[i] in c.contextPacks;
    assert r.Some?;
    var k :| 0 <= k < |c.contextPacks| && c.contextPacks[k] == r.value
      && forall j :: k < j < |c.contextPacks| ==> c.contextPacks[j].id != id;
    assert k == i;
  }

  lemma RoleIsLast(c: Catalog, id: Id) returns (i: nat)
    requires LookupRole(c, id).Some?
    ensures IsLastRole(c, i, id)
  {
    var r := LookupRole(c, id).value;
    i :| 0 <= i < |c.roles| && c.roles[i] == r && forall j :: i < j < |c.roles| ==> c.roles[j].id != id;
  }

  lemma PackIsLast(c: Catalog, id: Id) returns (i: nat)
    requires LookupPack(c, id).Some?
    ensures IsLastPack(c, i, id)
  {
    var r := LookupPack(c, id).value;
    i :| 0 <= i < |c.contextPacks| && c.contextPacks[i] == r
      && forall j :: i < j < |c.contextPacks| ==> c.contextPacks[j].id != id;
  }

  lemma LastPackIsOne(c: Catalog, id: Id, i: nat, j: nat)
    requires IsLastPack(c, i, id) && IsLastPack(c, j, id)
    ensures i == j
  {}

  lemma LastRoleIsOne(c: Catalog, id: Id, i: nat, j: nat)
    requires IsLastRole(c, i, id) && IsLastRole(c, j, id)
    ensures i == j
  {}

  /** One pack of a role: found and resolved, or not. */
  lemma OnePack(c: Catalog, id: Id)
    ensures PackResolves(c, id) <==> LookupPack(c, id).Some? && AreKnown(c, LookupPack(c, id).value.referenceIds)
  {
    if LookupPack(c, id).Some? {
      var i := PackIsLast(c, id);
      PackExactly(c, id, i);
      hide LookupPack;
      hide AreKnown;
      forall k: nat | IsLastPack(c, k, id) ensures k == i {
        LastPackIsOne(c, id, i, k);
      }
    } else {
      forall k: nat ensures !IsLastPack(c, k, id) {
        if IsLastPack(c, k, id) {
          PackExactly(c, id, k);
        }
      }
    }
  }

  lemma {:induction false} PacksExactly(c: Catalog, owner: Id, ids: seq<Id>)
    ensures ResolvePacks(c, owner, ids).Ok? <==> forall p :: p in ids ==> PackResolves(c, p)
    ensures ResolvePacks(c, owner, ids).Ok? ==> ArePacks(c, ids, ResolvePacks(c, owner, ids).value)
    decreases |ids|
  {
    if ids != [] {
      assert ids == [ids[0]] + ids[1..];
      OnePack(c, ids[0]);
      PacksExactly(c, owner, ids[1..]);
      if LookupPack(c, ids[0]).Some? {
        var pack := LookupPack(c, ids[0]).value;
        ReferencesExactly(c, pack.id, pack.referenceIds);
        var k := PackIsLast(c, ids[0]);
        PackExactly(c, ids[0], k);
        hide LookupPack;
        hide PackResolves;
        hide AreKnown;
        hide ResolveReferences;
        if ResolvePacks(c, owner, ids).Ok? {
          var all := ResolvePacks(c, owner, ids).value;
          assert IsPack(c, ids[0], all[0]);
          forall m | 0 <= m < |ids| ensures IsPack(c, ids[m], all[m]) {
            if m > 0 {
              assert IsPack(c, ids[1..][m - 1], all[1..][m - 1]);
            }
          }
        }
      }
    }
  }

  lemma ProjectExactly(c: Catalog, w: Workflow)
    ensures ProjectWorkflow(c, w).Ok? <==> Resolves(c, w)
    ensures ProjectWorkflow(c, w).Ok? ==> CarriesKnowledge(c, ProjectWorkflow(c, w).value, w)
  {
    ReferencesExactly(c, w.id, w.referenceIds);
    if LookupRole(c, w.roleId).Some? {
      var role := LookupRole(c, w.roleId).value;
      var i := RoleIsLast(c, w.roleId);
      RoleExactly(c, w.roleId, i);
      PacksExactly(c, role.id, role.contextPackIds);
      hide LookupRole;
      hide ResolvePacks;
      hide ResolveReferences;
      hide PackResolves;
      hide ArePacks;
      hide AreKnown;
      forall k: nat | IsLastRole(c, k, w.roleId) ensures k == i {
        LastRoleIsOne(c, w.roleId, i, k);
      }
    } else {
      forall k: nat ensures !IsLastRole(c, k, w.roleId) {
        if IsLastRole(c, k, w.roleId) {
          RoleExactly(c, w.roleId, k);
        }
      }
    }
  }

  /** Each node carries the references of its workflow and of the packs of its workflow's role, in
      order, and its domain. */
  lemma NodesCarryKnowledge(c: Catalog, k: nat)
    requires ToCatalogInput(c).Ok? && k < |ToCatalogInput(c).value.workflows|
    ensures |RuntimeWorkflows(c)| == |ToCatalogInput(c).value.workflows|
    ensures CarriesKnowledge(c, ToCatalogInput(c).value.workflows[k], RuntimeWorkflows(c)[k])
  {
    var ws := RuntimeWorkflows(c);
    ProjectAllPointwise(c, ws);
    assert ToCatalogInput(c).value.workflows == ProjectAll(c, ws).value;
    hide ToCatalogInput;
    hide RuntimeWorkflows;
    ProjectExactly(c, ws[k]);
    hide ProjectWorkflow;
    hide CarriesKnowledge;
  }

  // ---- when the projection is refused -------------------------------------------------------

  /** The ids of the workflows whose domain nobody owns, in catalog order. */
  ghost predicate AreUnowned(c: Catalog, ids: seq<Id>) {
    forall id :: id in ids <==> exists w :: w in c.workflows && w.id == id && !Owned(c, w)
  }

  /** For every catalog: it crosses the bridge if and only if the domain of each workflow is owned
      and all that the workflows to be run name can be resolved. An unowned domain is refused first,
      and the refusal names the workflows concerned. */
  lemma CatalogProjectsExactly(c: Catalog)
    ensures ToCatalogInput(c).Ok? <==> forall w :: w in c.workflows ==> Owned(c, w) && (RunsIn(c.domains, w.domainId) ==> Resolves(c, w))
    ensures (exists w :: w in c.workflows && !Owned(c, w)) <==> ToCatalogInput(c).Err? && ToCatalogInput(c).error.UnknownDomains?
    ensures ToCatalogInput(c).Err? && ToCatalogInput(c).error.UnknownDomains? ==> AreUnowned(c, ToCatalogInput(c).error.workflowIds)
  {
    hide *;
    BridgeCases(c);
    UnknownAreUnowned(c);
    RuntimeResolve(c);
  }

  ghost predicate Owned(c: Catalog, w: Workflow) {
    RunsIn(c.domains, w.domainId) || MachineIn(c.domains, w.domainId)
  }

  /** The branches of the bridge. */
  lemma BridgeCases(c: Catalog)
    ensures UnknownWorkflows(c) != [] ==> ToCatalogInput(c) == Err(UnknownDomains(UnownedIds(c)))
    ensures UnknownWorkflows(c) == [] ==> (ToCatalogInput(c).Ok? <==> ProjectAll(c, RuntimeWorkflows(c)).Ok?)
    ensures UnknownWorkflows(c) == [] && ToCatalogInput(c).Err? ==> !ToCatalogInput(c).error.UnknownDomains?
  {
    ProjectErrors(c, RuntimeWorkflows(c));
    hide ProjectAll;
  }

  function UnownedIds(c: Catalog): seq<Id> {
    MapSeq((w: Workflow) => w.id, UnknownWorkflows(c))
  }

  lemma UnknownAreUnowned(c: Catalog)
    ensures UnknownWorkflows(c) != [] <==> exists w :: w in c.workflows && !Owned(c, w)
    ensures AreUnowned(c, UnownedIds(c))
  {
    var ws, ids := UnknownWorkflows(c), UnownedIds(c);
    FirstIn(ws);
    forall w | w in c.workflows ensures w in ws <==> !Owned(c, w) {
      ClassifyExactly(c.domains, w.domainId);
      hide Classify;
    }
    assert forall w :: w in ws ==> w in c.workflows;
    assert |ids| == |ws| && forall k :: 0 <= k < |ws| ==> ids[k] == ws[k].id;
    hide UnknownWorkflows;
    hide UnownedIds;
    hide Owned;
    forall id | id in ids ensures exists w :: w in c.workflows && w.id == id && !Owned(c, w) {
      var k :| 0 <= k < |ids| && ids[k] == id;
      assert ws[k] in ws;
    }
    forall w | w in ws ensures w.id in ids {
      var k :| 0 <= k < |ws| && ws[k] == w;
      assert ids[k] == w.id;
    }
  }

  lemma RuntimeResolve(c: Catalog)
    ensures ProjectAll(c, RuntimeWorkflows(c)).Ok? <==>
      forall w :: w in c.workflows && RunsIn(c.domains, w.domainId) ==> Resolves(c, w)
  {
    var ws := RuntimeWorkflows(c);
    forall w | w in c.workflows ensures w in ws <==> RunsIn(c.domains, w.domainId) {
      ClassifyExactly(c.domains, w.domainId);
    }
    assert forall w :: w in ws ==> w in c.workflows;
    ProjectAllPointwise(c, ws);
    forall w ensures ProjectWorkflow(c, w).Ok? <==> Resolves(c, w) {
      ProjectExactly(c, w);
    }
    hide *;
  }

  lemma {:induction false} ReferenceErrors(c: Catalog, owner: Id, ids: seq<Id>)
    ensures ResolveReferences(c, owner, ids).Err? ==> ResolveReferences(c, owner, ids).error.UnresolvedReference?
    decreases |ids|
  {
    if ids != [] {
      ReferenceErrors(c, owner, ids[1..]);
    }
  }

  lemma {:induction false} PackErrors(c: Catalog, owner: Id, ids: seq<Id>)
    ensures ResolvePacks(c, owner, ids).Err? ==> !ResolvePacks(c, owner, ids).error.UnknownDomains?
    decreases |ids|
  {
    if ids != [] {
      PackErrors(c, owner, ids[1..]);
      if LookupPack(c, ids[0]).Some? {
        ReferenceErrors(c, LookupPack(c, ids[0]).value.id, LookupPack(c, ids[0]).value.referenceIds);
      }
    }
  }

  lemma {:induction false} ProjectErrors(c: Catalog, ws: seq<Workflow>)
    ensures ProjectAll(c, ws).Err? ==> !ProjectAll(c, ws).error.UnknownDomains?
    decreases |ws|
  {
    if ws != [] {
      ProjectErrors(c, ws[1..]);
      ReferenceErrors(c, ws[0].id, ws[0].referenceIds);
      if LookupRole(c, ws[0].roleId).Some? {
        var role := LookupRole(c, ws[0].roleId).value;
        PackErrors(c, role.id, role.contextPackIds);
      }
    }
  }

  // ---- which artifacts are kept -------------------------------------------------------------

  /** An artifact is kept if and only if a workflow to be run writes it, or it is the source
      fingerprint. */
  lemma KeptArtifacts(c: Catalog, a: Artifact)
    requires ToCatalogInput(c).Ok?
    ensures a in ToCatalogInput(c).value.artifacts <==>
      a in c.artifacts
      && (a.path == "run/app-source-fingerprint.sha256"
          || exists w :: w in c.workflows && RunsIn(c.domains, w.domainId) && a.path in w.outputPaths)
  {
    var ws := RuntimeWorkflows(c);
    var kept := Filter((x: Artifact) => x.path in AllOutputs(ws) || x.path == FINGERPRINT_PATH, c.artifacts);
    assert ToCatalogInput(c).value.artifacts == kept;
    assert a in kept <==> a in c.artifacts && (a.path in AllOutputs(ws) || a.path == FINGERPRINT_PATH);
    OutputsExactly(ws, a.path);
    forall w | w in c.workflows ensures w in ws <==> RunsIn(c.domains, w.domainId) {
      ClassifyExactly(c.domains, w.domainId);
    }
    assert forall w :: w in ws ==> w in c.workflows;
    hide ToCatalogInput;
    hide RuntimeWorkflows;
    hide RunsIn;
    hide AllOutputs;
    hide Filter;
  }

  lemma {:induction false} OutputsExactly(ws: seq<Workflow>, path: string)
    ensures path in AllOutputs(ws) <==> exists w :: w in ws && path in w.outputPaths
    decreases |ws|
  {
    if ws != [] {
      var last := |ws| - 1;
      OutputsExactly(ws[..last], path);
      assert ws == ws[..last] + [ws[last]];
    }
  }
}
