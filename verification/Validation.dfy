/** The validator's structural checks: identity, references between nodes, review edges, cycles,
    single writers and the onboarding group. A report is made exactly when its defect exists. */
module Validation {
  import opened Graphs
  import opened Catalogs
  import opened Options
  import opened Sequences
  import CycleDetection
  import Onboarding

  datatype Code =
    | IdInvalid | IdDuplicate
    | PackReferenceUnknown | RolePackUnknown
    | UnknownDomain | UnknownDependency | UnknownRefreshDependency | RefreshNotDependency
    | ReviewTargetUnknown | ReviewSelf | ReviewNotDependency | ReviewOutputOverlap
    | UnknownOutput | RoleUnknown | ReferenceUnknown
    | AmbiguousWrite | ArtifactPathDuplicate

  datatype Issue =
    | Issue(code: Code, owner: Id, value: string)
    | CycleIssue(path: seq<Id>)
    | GroupDisconnected(start: Id, unreachable: set<Id>)

  predicate Says(i: Issue, code: Code, owner: Id) {
    i.Issue? && i.code == code && i.owner == owner
  }

  predicate Repeated(s: seq<string>, x: string) {
    exists i, j :: 0 <= i < j < |s| && s[i] == x && s[j] == x
  }

  /** The first workflow with an id, as an array search finds it. */
  function FindWorkflow(ws: seq<Workflow>, id: Id): (r: Option<Workflow>)
    ensures r.None? <==> forall w :: w in ws ==> w.id != id
    ensures r.Some? ==> r.value in ws && r.value.id == id
  {
    if ws == [] then None
    else if ws[0].id == id then Some(ws[0])
    else FindWorkflow(ws[1..], id)
  }

  predicate SharesOutput(c: Catalog, w: Workflow, target: Id) {
    var t := FindWorkflow(c.workflows, target);
    t.Some? && exists o :: o in w.outputPaths && o in t.value.outputPaths
  }

  /** What each code means for one workflow. */
  predicate WorkflowDefect(c: Catalog, w: Workflow, code: Code, value: string) {
    match code
    case UnknownDomain => value == w.domainId && value !in DomainIds(c)
    case UnknownDependency => value in w.dependencies && value !in WorkflowIds(c)
    case UnknownRefreshDependency => value in w.refreshDependencies && value !in WorkflowIds(c)
    case RefreshNotDependency => value in w.refreshDependencies && value !in w.dependencies
    case ReviewTargetUnknown => value in w.reviewOf && value !in WorkflowIds(c)
    case ReviewSelf => value in w.reviewOf && value == w.id
    case ReviewNotDependency => value in w.reviewOf && value != w.id && value !in w.dependencies
    case ReviewOutputOverlap => value in w.reviewOf && value != w.id && SharesOutput(c, w, value)
    case UnknownOutput => value in w.outputPaths && value !in ArtifactPaths(c)
    case RoleUnknown => value == w.roleId && value !in RoleIds(c)
    case ReferenceUnknown => value in w.referenceIds && value !in ReferenceIds(c)
    case _ => false
  }

  predicate WorkflowReport(c: Catalog, w: Workflow, i: Issue) {
    i.Issue? && i.owner == w.id && WorkflowDefect(c, w, i.code, i.value)
  }

  predicate PackDefect(c: Catalog, p: ContextPack, i: Issue) {
    Says(i, PackReferenceUnknown, p.id) && i.value in p.referenceIds && i.value !in ReferenceIds(c)
  }

  predicate RoleDefect(c: Catalog, r: Role, i: Issue) {
    Says(i, RolePackUnknown, r.id) && i.value in r.contextPackIds && i.value !in PackIds(c)
  }

  predicate IdDefect(ids: seq<Id>, i: Issue) {
    || (Says(i, IdInvalid, "") && i.value in ids && !IsCatalogId(i.value))
    || (Says(i, IdDuplicate, "") && Repeated(ids, i.value) && FirstSegment(i.value) != "")
  }

  /** The defects of a catalog that a single pair of node and value exhibits. */
  predicate Defect(c: Catalog, i: Issue)
    requires i.Issue?
  {
    || IdDefect(AllIds(c), i)
    || (exists p :: p in c.contextPacks && PackDefect(c, p, i))
    || (exists r :: r in c.roles && RoleDefect(c, r, i))
    || (exists w :: w in c.workflows && WorkflowReport(c, w, i))
    || (Says(i, AmbiguousWrite, "") && Repeated(AllOutputs(c.workflows), i.value))
    || (Says(i, ArtifactPathDuplicate, "") && Repeated(ArtifactPaths(c), i.value))
  }

  function DependencyNodes(c: Catalog): seq<CycleDetection.Node> {
    MapSeq((w: Workflow) => CycleDetection.Node(w.id, w.dependencies), c.workflows)
  }

  function DependencyGraph(c: Catalog): Graph {
    CycleDetection.EdgesOf(DependencyNodes(c))
  }

  /** Nothing to report. */
  ghost predicate Clean(c: Catalog) {
    && (forall i: Issue :: i.Issue? ==> !Defect(c, i))
    && Acyclic(DependencyGraph(c))
    && GroupConnected(c)
  }

  // ---- the checks ---------------------------------------------------------------------------

  /** One report for every value outside the known set. */
  method CheckKnown(known: seq<Id>, values: seq<Id>, code: Code, owner: Id) returns (issues: seq<Issue>)
    ensures forall i :: i in issues <==>
      Says(i, code, owner) && i.value in values && i.value !in known
  {
    issues := [];
    for k := 0 to |values|
      invariant forall i :: i in issues <==>
        Says(i, code, owner) && i.value in values[..k] && i.value !in known
    {
      assert values[..k + 1] == values[..k] + [values[k]];
      if values[k] !in known {
        issues := issues + [Issue(code, owner, values[k])];
      }
    }
    assert values[..|values|] == values;
  }

  method CheckIds(ids: seq<Id>) returns (issues: seq<Issue>)
    ensures forall i :: i in issues <==> IdDefect(ids, i)
    ensures forall i :: i in issues ==> i.Issue?
  {
    hide IsCatalogId;
    hide FirstSegment;
    hide IdDefect;
    issues := [];
    var seen: map<Id, string> := map[];
    IdDefectNone();
    for k := 0 to |ids|
      invariant forall x :: x in seen <==> x in ids[..k]
      invariant forall x :: x in seen ==> seen[x] == FirstSegment(x)
      invariant forall i :: i in issues <==> IdDefect(ids[..k], i)
      invariant forall i :: i in issues ==> i.Issue?
    {
      var id := ids[k];
      assert ids[..k + 1] == ids[..k] + [id];
      IdDefectSnoc(ids[..k], id);
      if !IsCatalogId(id) {
        issues := issues + [Issue(IdInvalid, "", id)];
      }
      if id in seen && seen[id] != "" {
        issues := issues + [Issue(IdDuplicate, "", id)];
      }
      seen := seen[id := FirstSegment(id)];
    }
    assert ids[..|ids|] == ids;
  }

  lemma IdDefectNone()
    ensures forall i :: !IdDefect([], i)
  {}

  lemma IdDefectSnoc(done: seq<Id>, id: Id)
    ensures forall i :: IdDefect(done + [id], i) <==>
      (IdDefect(done, i)
       || (i == Issue(IdInvalid, "", id) && !IsCatalogId(id))
       || (i == Issue(IdDuplicate, "", id) && id in done && FirstSegment(id) != ""))
  {
    hide IsCatalogId;
    hide FirstSegment;
    RepeatedSnoc(done, id);
    assert forall x :: x in done + [id] <==> x in done || x == id;
  }

  lemma RepeatedSnoc(s: seq<string>, x: string)
    ensures forall y :: Repeated(s + [x], y) <==> Repeated(s, y) || (y == x && x in s)
  {
    var t := s + [x];
    forall y ensures Repeated(t, y) <==> Repeated(s, y) || (y == x && x in s) {
      if Repeated(s, y) {
        var i, j :| 0 <= i < j < |s| && s[i] == y && s[j] == y;
        assert t[i] == y && t[j] == y;
      }
      if y == x && x in s {
        var i :| 0 <= i < |s| && s[i] == x;
        assert t[i] == y && t[|s|] == y;
      }
      if Repeated(t, y) {
        var i, j :| 0 <= i < j < |t| && t[i] == y && t[j] == y;
        assert s[i] == y;
        if j < |s| { assert s[j] == y; }
      }
    }
  }

  predicate IsRefreshCode(i: Issue) {
    i.Issue? && (i.code == UnknownRefreshDependency || i.code == RefreshNotDependency)
  }

  method CheckRefresh(c: Catalog, w: Workflow) returns (issues: seq<Issue>)
    ensures forall i: Issue :: i in issues <==> (IsRefreshCode(i) && WorkflowReport(c, w, i))
  {
    issues := [];
    for k := 0 to |w.refreshDependencies|
      invariant forall i: Issue :: i in issues <==>
        (IsRefreshCode(i) && WorkflowReport(c, w, i) && i.value in w.refreshDependencies[..k])
    {
      var d := w.refreshDependencies[k];
      assert w.refreshDependencies[..k + 1] == w.refreshDependencies[..k] + [d];
      if d !in WorkflowIds(c) {
        issues := issues + [Issue(UnknownRefreshDependency, w.id, d)];
      }
      if d !in w.dependencies {
        issues := issues + [Issue(RefreshNotDependency, w.id, d)];
      }
    }
    assert w.refreshDependencies[..|w.refreshDependencies|] == w.refreshDependencies;
  }

  predicate IsReviewCode(i: Issue) {
    i.Issue? && (i.code == ReviewTargetUnknown || i.code == ReviewSelf
                 || i.code == ReviewNotDependency || i.code == ReviewOutputOverlap)
  }

  /** The isolated-review edge: a known, different, depended-on node whose outputs the reviewer
      does not write. A self-review is reported and not judged further. */
  method CheckReviews(c: Catalog, w: Workflow) returns (issues: seq<Issue>)
    ensures forall i: Issue :: i in issues <==> (IsReviewCode(i) && WorkflowReport(c, w, i))
  {
    hide SharesOutput;
    hide WorkflowIds;
    issues := [];
    for k := 0 to |w.reviewOf|
      invariant forall i: Issue :: i in issues <==>
        (IsReviewCode(i) && WorkflowReport(c, w, i) && i.value in w.reviewOf[..k])
    {
      var target := w.reviewOf[k];
      assert w.reviewOf[..k + 1] == w.reviewOf[..k] + [target];
      if target !in WorkflowIds(c) {
        issues := issues + [Issue(ReviewTargetUnknown, w.id, target)];
      }
      if target == w.id {
        issues := issues + [Issue(ReviewSelf, w.id, target)];
        continue;
      }
      if target !in w.dependencies {
        issues := issues + [Issue(ReviewNotDependency, w.id, target)];
      }
      if SharesOutput(c, w, target) {
        issues := issues + [Issue(ReviewOutputOverlap, w.id, target)];
      }
    }
    assert w.reviewOf[..|w.reviewOf|] == w.reviewOf;
  }

  method CheckWorkflow(c: Catalog, w: Workflow) returns (issues: seq<Issue>)
    ensures forall i: Issue :: i in issues <==> WorkflowReport(c, w, i)
  {
    hide SharesOutput;
    var domain := CheckKnown(DomainIds(c), [w.domainId], UnknownDomain, w.id);
    var dependencies := CheckKnown(WorkflowIds(c), w.dependencies, UnknownDependency, w.id);
    var refresh := CheckRefresh(c, w);
    var reviews := CheckReviews(c, w);
    var outputs := CheckKnown(ArtifactPaths(c), w.outputPaths, UnknownOutput, w.id);
    var role := CheckKnown(RoleIds(c), [w.roleId], RoleUnknown, w.id);
    var references := CheckKnown(ReferenceIds(c), w.referenceIds, ReferenceUnknown, w.id);
    issues := domain + dependencies + refresh + reviews + outputs + role + references;
    forall i: Issue ensures i in issues <==> WorkflowReport(c, w, i) {
      if i.Issue? {
        match i.code {
          case UnknownDomain => case UnknownDependency => case UnknownOutput =>
          case RoleUnknown => case ReferenceUnknown =>
          case _ =>
        }
      }
    }
  }

  /** Reports every path that two output declarations name, by counting its writers. */
  method CheckWriters(ws: seq<Workflow>) returns (issues: seq<Issue>)
    ensures forall i :: i in issues <==>
      Says(i, AmbiguousWrite, "") && Repeated(AllOutputs(ws), i.value)
  {
    var counts: map<string, nat> := map[];
    ghost var written: seq<string> := [];
    for k := 0 to |ws|
      invariant written == AllOutputs(ws[..k])
      invariant forall p :: p in counts <==> p in written
      invariant forall p :: p in counts ==> counts[p] >= 1 && (counts[p] > 1 <==> Repeated(written, p))
    {
      var outputs := ws[k].outputPaths;
      ghost var before := written;
      for j := 0 to |outputs|
        invariant written == before + outputs[..j]
        invariant forall p :: p in counts <==> p in written
        invariant forall p :: p in counts ==> counts[p] >= 1 && (counts[p] > 1 <==> Repeated(written, p))
      {
        var p := outputs[j];
        RepeatedSnoc(written, p);
        assert before + outputs[..j + 1] == written + [p];
        assert forall q :: q in written + [p] <==> q in written || q == p;
        if p !in counts {
          assert !Repeated(written, p);
        }
        counts := counts[p := (if p in counts then counts[p] else 0) + 1];
        written := written + [p];
      }
      assert outputs[..|outputs|] == outputs;
      assert ws[..k + 1][..k] == ws[..k];
    }
    assert ws[..|ws|] == ws;
    issues := [];
    var remaining := counts.Keys;
    while remaining != {}
      invariant remaining <= counts.Keys
      invariant forall i :: i in issues <==>
        Says(i, AmbiguousWrite, "") && i.value in counts.Keys - remaining && Repeated(written, i.value)
    {
      var p :| p in remaining;
      if counts[p] > 1 {
        issues := issues + [Issue(AmbiguousWrite, "", p)];
      }
      remaining := remaining - {p};
    }
  }

  /** Reports every value met a second time. */
  method CheckUnique(values: seq<string>) returns (issues: seq<Issue>)
    ensures forall i :: i in issues <==>
      Says(i, ArtifactPathDuplicate, "") && Repeated(values, i.value)
  {
    issues := [];
    var seen: set<string> := {};
    for k := 0 to |values|
      invariant forall x :: x in seen <==> x in values[..k]
      invariant forall i :: i in issues <==>
        Says(i, ArtifactPathDuplicate, "") && Repeated(values[..k], i.value)
    {
      assert values[..k + 1] == values[..k] + [values[k]];
      RepeatedSnoc(values[..k], values[k]);
      if values[k] in seen {
        issues := issues + [Issue(ArtifactPathDuplicate, "", values[k])];
      }
      seen := seen + {values[k]};
    }
    assert values[..|values|] == values;
  }

  /** Sound and complete for every modelled defect: a plain report names a defect the catalog has
      and every such defect is reported; a reported cycle is a cycle of the declared dependencies
      and some cycle is reported when there is one; a clean result means a clean catalog. */
  method ValidateCatalog(c: Catalog) returns (issues: seq<Issue>)
    ensures forall i: Issue :: i.Issue? ==> (i in issues <==> Defect(c, i))
    ensures forall i: Issue :: i.CycleIssue? && i in issues ==> IsCycle(DependencyGraph(c), i.path)
    ensures (exists i :: i in issues && i.CycleIssue?) <==> !Acyclic(DependencyGraph(c))
    ensures (exists i :: i in issues && i.GroupDisconnected?) <==> !GroupConnected(c)
    ensures issues == [] <==> Clean(c)
  {
    hide Defect;
    var before, after := CheckPlain(c);
    var cycles := CheckCycles(c);
    var group := CheckGroup(c);
    issues := before + cycles + after + group;
    if cycles != [] { assert cycles[0] in issues; }
    if group != [] { assert group[0] in issues; }
    if issues != [] { assert issues[0] in issues; }
  }

  /** The plain reports made before the cycle check and those made after it. */
  method CheckPlain(c: Catalog) returns (before: seq<Issue>, after: seq<Issue>)
    ensures forall i :: i in before || i in after ==> i.Issue?
    ensures forall i: Issue :: i.Issue? ==> (i in before || i in after <==> Defect(c, i))
  {
    hide WorkflowReport;
    hide IdDefect;
    hide PackDefect;
    hide RoleDefect;
    hide Repeated;
    var ids := CheckIds(AllIds(c));
    var packs := CheckPacks(c);
    var roles := CheckRoles(c);
    var workflows := CheckWorkflows(c);
    before := ids + packs + roles + workflows;
    var writers := CheckWriters(c.workflows);
    var artifacts := CheckUnique(ArtifactPaths(c));
    after := writers + artifacts;
  }

  method CheckPacks(c: Catalog) returns (issues: seq<Issue>)
    ensures forall i :: i in issues <==> exists p :: p in c.contextPacks && PackDefect(c, p, i)
    ensures forall i :: i in issues ==> i.Issue?
  {
    issues := [];
    for k := 0 to |c.contextPacks|
      invariant forall i :: i in issues <==> exists p :: p in c.contextPacks[..k] && PackDefect(c, p, i)
    {
      var p := c.contextPacks[k];
      assert c.contextPacks[..k + 1] == c.contextPacks[..k] + [p];
      var found := CheckKnown(ReferenceIds(c), p.referenceIds, PackReferenceUnknown, p.id);
      assert forall i :: i in found <==> PackDefect(c, p, i);
      issues := issues + found;
    }
    assert c.contextPacks[..|c.contextPacks|] == c.contextPacks;
  }

  method CheckRoles(c: Catalog) returns (issues: seq<Issue>)
    ensures forall i :: i in issues <==> exists r :: r in c.roles && RoleDefect(c, r, i)
    ensures forall i :: i in issues ==> i.Issue?
  {
    issues := [];
    for k := 0 to |c.roles|
      invariant forall i :: i in issues <==> exists r :: r in c.roles[..k] && RoleDefect(c, r, i)
    {
      var r := c.roles[k];
      assert c.roles[..k + 1] == c.roles[..k] + [r];
      var found := CheckKnown(PackIds(c), r.contextPackIds, RolePackUnknown, r.id);
      assert forall i :: i in found <==> RoleDefect(c, r, i);
      issues := issues + found;
    }
    assert c.roles[..|c.roles|] == c.roles;
  }

  method CheckWorkflows(c: Catalog) returns (issues: seq<Issue>)
    ensures forall i :: i in issues <==> exists w :: w in c.workflows && WorkflowReport(c, w, i)
    ensures forall i :: i in issues ==> i.Issue?
  {
    hide WorkflowDefect;
    issues := [];
    for k := 0 to |c.workflows|
      invariant forall i :: i in issues <==> exists w :: w in c.workflows[..k] && WorkflowReport(c, w, i)
    {
      var w := c.workflows[k];
      assert c.workflows[..k + 1] == c.workflows[..k] + [w];
      var found := CheckWorkflow(c, w);
      issues := issues + found;
    }
    assert c.workflows[..|c.workflows|] == c.workflows;
  }

  method CheckCycles(c: Catalog) returns (issues: seq<Issue>)
    ensures forall i :: i in issues ==> i.CycleIssue? && IsCycle(DependencyGraph(c), i.path)
    ensures issues == [] <==> Acyclic(DependencyGraph(c))
  {
    var cycles, _ := CycleDetection.DetectCycles(DependencyNodes(c));
    issues := MapSeq(p => CycleIssue(p), cycles);
  }

  method CheckGroup(c: Catalog) returns (issues: seq<Issue>)
    ensures forall i :: i in issues ==> i.GroupDisconnected?
    ensures issues == [] <==> GroupConnected(c)
  {
    var verdict := Onboarding.CheckGroup(c);
    issues := if verdict.Connected? then [] else [GroupDisconnected(verdict.start, verdict.unreachable)];
  }
}
