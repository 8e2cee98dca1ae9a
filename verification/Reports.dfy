/** What the validator's reports say of the catalog's own records, and what a catalog without reports
    looks like. */
module Reports {
  import opened Graphs
  import opened Catalogs
  import opened Options
  import opened Sequences
  import opened Validation
  import opened Adequacy
  import opened Projection

  // ---- identities ---------------------------------------------------------------------------

  predicate IsKind(kind: string) {
    || kind == "area" || kind == "domain" || kind == "phase" || kind == "lane" || kind == "role"
    || kind == "context" || kind == "reference" || kind == "workflow" || kind == "artifact" || kind == "gate"
  }

  predicate IsNameStart(c: char) {
    'a' <= c <= 'z' || '0' <= c <= '9'
  }

  predicate IsNameRest(c: char) {
    IsNameStart(c) || c == '.' || c == '-'
  }

  predicate IsName(name: string) {
    name != "" && IsNameStart(name[0]) && forall c :: c in name ==> IsNameRest(c)
  }

  lemma KindsAre(kind: string)
    ensures kind in KINDS <==> IsKind(kind)
  {
    assert KINDS[0] == "area" && KINDS[1] == "domain" && KINDS[2] == "phase" && KINDS[3] == "lane" && KINDS[4] == "role";
    assert KINDS[5] == "context" && KINDS[6] == "reference" && KINDS[7] == "workflow" && KINDS[8] == "artifact" && KINDS[9] == "gate";
  }

  /** An id is a kind, a dot and a name. */
  lemma CatalogIdExactly(s: string)
    ensures IsCatalogId(s) <==> exists kind, name :: IsKind(kind) && IsName(name) && s == kind + "." + name
  {
    if IsCatalogId(s) {
      var kind :| kind in KINDS && IsIdOf(kind, s);
      KindsAre(kind);
      IdSplits(kind, s);
    }
    if kind, name :| IsKind(kind) && IsName(name) && s == kind + "." + name {
      KindsAre(kind);
      IdJoins(kind, name);
    }
  }

  lemma IdSplits(kind: string, s: string)
    requires IsIdOf(kind, s)
    ensures IsName(s[|kind| + 1..]) && s == kind + "." + s[|kind| + 1..]
  {
    var name := s[|kind| + 1..];
    assert s[..|kind| + 1] == kind + ".";
    forall c | c in name ensures IsNameRest(c) {
      var i :| 0 <= i < |name| && name[i] == c;
      assert s[|kind| + 1 + i] == c;
    }
  }

  lemma IdJoins(kind: string, name: string)
    requires IsName(name)
    ensures IsIdOf(kind, kind + "." + name)
  {
    var s := kind + "." + name;
    assert s[..|kind| + 1] == kind + "." && s[|kind| + 1] == name[0];
    forall i | |kind| + 1 < i < |s| ensures IsLowerAlnum(s[i]) || s[i] == '.' || s[i] == '-' {
      assert s[i] == name[i - |kind| - 1] && name[i - |kind| - 1] in name;
    }
  }

  /** What the duplicate test remembers: the id up to its first dot. */
  lemma {:induction false} SegmentExactly(s: string)
    ensures FirstSegment(s) <= s && '.' !in FirstSegment(s)
    ensures FirstSegment(s) == s || s[|FirstSegment(s)|] == '.'
    decreases |s|
  {
    if s != "" && s[0] != '.' {
      SegmentExactly(s[1..]);
      assert s == [s[0]] + s[1..];
    }
  }

  predicate HasId(c: Catalog, id: Id) {
    || id in c.areaIds || (exists d :: d in c.domains && d.id == id) || id in c.phaseIds || id in c.laneIds
    || (exists r :: r in c.roles && r.id == id) || (exists p :: p in c.contextPacks && p.id == id)
    || Reference(id) in c.references || (exists w :: w in c.workflows && w.id == id)
    || (exists a :: a in c.artifacts && a.id == id) || id in c.gateIds
  }

  lemma MapMembers<T(!new)>(key: T -> Id, entries: seq<T>, id: Id)
    ensures id in MapSeq(key, entries) <==> exists x :: x in entries && key(x) == id
  {
    var ids := MapSeq(key, entries);
    if id in ids {
      var k :| 0 <= k < |ids| && ids[k] == id;
      assert entries[k] in entries;
    }
    if x :| x in entries && key(x) == id {
      var k :| 0 <= k < |entries| && entries[k] == x;
      assert ids[k] == id;
    }
  }

  /** The validator looks at the ids of all ten groups, each entry once. */
  lemma AllIdsExactly(c: Catalog)
    ensures forall id :: id in AllIds(c) <==> HasId(c, id)
    ensures |AllIds(c)| == |c.areaIds| + |c.domains| + |c.phaseIds| + |c.laneIds| + |c.roles| + |c.contextPacks|
      + |c.references| + |c.workflows| + |c.artifacts| + |c.gateIds|
  {
    forall id ensures id in AllIds(c) <==> HasId(c, id) {
      MapMembers((d: Domain) => d.id, c.domains, id);
      MapMembers((r: Role) => r.id, c.roles, id);
      MapMembers((p: ContextPack) => p.id, c.contextPacks, id);
      KnownIds(c, id);
      MapMembers((w: Workflow) => w.id, c.workflows, id);
      MapMembers((a: Artifact) => a.id, c.artifacts, id);
      hide MapSeq;
    }
  }

  // ---- reports ------------------------------------------------------------------------------

  ghost predicate HasWorkflow(c: Catalog, id: Id) {
    exists w :: w in c.workflows && w.id == id
  }

  ghost predicate Declares(c: Catalog, path: string) {
    exists a :: a in c.artifacts && a.path == path
  }

  /** The first workflow of an id writes a path that `w` writes too. */
  ghost predicate WritesAlike(c: Catalog, w: Workflow, id: Id) {
    exists k: nat :: IsFirstWorkflow(c, k, id) && exists o :: o in w.outputPaths && o in c.workflows[k].outputPaths
  }

  predicate IsFirstWorkflow(c: Catalog, k: nat, id: Id) {
    k < |c.workflows| && c.workflows[k].id == id && forall j :: 0 <= j < k ==> c.workflows[j].id != id
  }

  lemma {:induction false} FoundExactly(ws: seq<Workflow>, id: Id)
    ensures FindWorkflow(ws, id).None? <==> forall w :: w in ws ==> w.id != id
    ensures FindWorkflow(ws, id).Some? ==>
      exists k: nat :: k < |ws| && ws[k].id == id && (forall j :: 0 <= j < k ==> ws[j].id != id) && FindWorkflow(ws, id).value == ws[k]
    decreases |ws|
  {
    if ws != [] && ws[0].id != id {
      FoundExactly(ws[1..], id);
      if FindWorkflow(ws[1..], id).Some? {
        var k: nat :| k < |ws[1..]| && ws[1..][k].id == id && (forall j :: 0 <= j < k ==> ws[1..][j].id != id)
          && FindWorkflow(ws[1..], id).value == ws[1..][k];
        forall j | 0 <= j < k + 1 ensures ws[j].id != id {
          if j > 0 { assert ws[1..][j - 1].id != id; }
        }
        assert ws[k + 1] == ws[1..][k];
      }
    }
  }

  lemma SharedExactly(c: Catalog, w: Workflow, id: Id)
    ensures SharesOutput(c, w, id) <==> WritesAlike(c, w, id)
  {
    FoundExactly(c.workflows, id);
    if FindWorkflow(c.workflows, id).Some? {
      var k: nat :| k < |c.workflows| && c.workflows[k].id == id && (forall j :: 0 <= j < k ==> c.workflows[j].id != id)
        && FindWorkflow(c.workflows, id).value == c.workflows[k];
      assert IsFirstWorkflow(c, k, id);
      forall m: nat | IsFirstWorkflow(c, m, id) ensures m == k {}
    }
  }

  /** What a report says of the workflow it names. */
  ghost predicate Tells(c: Catalog, w: Workflow, code: Code, v: string) {
    || (code == UnknownDomain && v == w.domainId && forall d :: d in c.domains ==> d.id != v)
    || (code == UnknownDependency && v in w.dependencies && !HasWorkflow(c, v))
    || (code == UnknownRefreshDependency && v in w.refreshDependencies && !HasWorkflow(c, v))
    || (code == RefreshNotDependency && v in w.refreshDependencies && v !in w.dependencies)
    || (code == ReviewTargetUnknown && v in w.reviewOf && !HasWorkflow(c, v))
    || (code == ReviewSelf && v in w.reviewOf && v == w.id)
    || (code == ReviewNotDependency && v in w.reviewOf && v != w.id && v !in w.dependencies)
    || (code == ReviewOutputOverlap && v in w.reviewOf && v != w.id && WritesAlike(c, w, v))
    || (code == UnknownOutput && v in w.outputPaths && !Declares(c, v))
    || (code == RoleUnknown && v == w.roleId && forall r :: r in c.roles ==> r.id != v)
    || (code == ReferenceUnknown && v in w.referenceIds && Reference(v) !in c.references)
  }

  /** A report about a workflow is made exactly for what it says. */
  lemma WorkflowReportExactly(c: Catalog, w: Workflow, code: Code, v: string)
    ensures WorkflowDefect(c, w, code, v) <==> Tells(c, w, code, v)
  {
    MapMembers((d: Domain) => d.id, c.domains, v);
    MapMembers((r: Role) => r.id, c.roles, v);
    MapMembers((x: Workflow) => x.id, c.workflows, v);
    MapMembers((a: Artifact) => a.path, c.artifacts, v);
    KnownIds(c, v);
    SharedExactly(c, w, v);
    hide MapSeq;
    hide SharesOutput;
    hide WritesAlike;
    match code {
      case UnknownDomain => case UnknownDependency => case UnknownRefreshDependency => case RefreshNotDependency =>
      case ReviewTargetUnknown => case ReviewSelf => case ReviewNotDependency => case ReviewOutputOverlap =>
      case UnknownOutput => case RoleUnknown => case ReferenceUnknown =>
      case _ =>
    }
  }

  // ---- a catalog without reports ------------------------------------------------------------

  /** The workflow's names are known, its refresh and review edges are dependencies, and it writes
      nothing that a workflow it reviews writes. */
  ghost predicate Sound(c: Catalog, w: Workflow) {
    && (exists d :: d in c.domains && d.id == w.domainId) && (exists r :: r in c.roles && r.id == w.roleId)
    && (forall d :: d in w.dependencies ==> HasWorkflow(c, d))
    && (forall d :: d in w.refreshDependencies ==> d in w.dependencies)
    && (forall t :: t in w.reviewOf ==> t != w.id && t in w.dependencies && !WritesAlike(c, w, t))
    && AreKnown(c, w.referenceIds) && (forall o :: o in w.outputPaths ==> Declares(c, o))
  }

  lemma SoundExactly(c: Catalog, w: Workflow)
    ensures (forall code, v :: !Tells(c, w, code, v)) <==> Sound(c, w)
  {
    hide HasWorkflow;
    hide Declares;
    hide WritesAlike;
    if forall code, v :: !Tells(c, w, code, v) {
      assert !Tells(c, w, UnknownDomain, w.domainId) && !Tells(c, w, RoleUnknown, w.roleId);
      forall d | d in w.dependencies ensures HasWorkflow(c, d) { assert !Tells(c, w, UnknownDependency, d); }
      forall d | d in w.refreshDependencies ensures d in w.dependencies { assert !Tells(c, w, RefreshNotDependency, d); }
      forall t | t in w.reviewOf ensures t != w.id && t in w.dependencies && !WritesAlike(c, w, t) {
        assert !Tells(c, w, ReviewSelf, t) && !Tells(c, w, ReviewNotDependency, t) && !Tells(c, w, ReviewOutputOverlap, t);
      }
      forall r | r in w.referenceIds ensures Reference(r) in c.references { assert !Tells(c, w, ReferenceUnknown, r); }
      forall o | o in w.outputPaths ensures Declares(c, o) { assert !Tells(c, w, UnknownOutput, o); }
    }
  }

  ghost predicate IdsAreSound(c: Catalog) {
    (forall id :: HasId(c, id) ==> IsCatalogId(id)) && NoDup(AllIds(c))
  }

  ghost predicate PacksAreSound(c: Catalog) {
    && (forall p :: p in c.contextPacks ==> AreKnown(c, p.referenceIds))
    && (forall r, id :: r in c.roles && id in r.contextPackIds ==> HasPack(c, id))
  }

  ghost predicate HasPack(c: Catalog, id: Id) {
    exists p :: p in c.contextPacks && p.id == id
  }

  ghost predicate FilesAreSound(c: Catalog) {
    NoDup(AllOutputs(c.workflows)) && NoDup(ArtifactPaths(c))
  }

  lemma NoIdReport(c: Catalog)
    ensures (forall i :: !IdDefect(AllIds(c), i)) <==> IdsAreSound(c)
  {
    var ids := AllIds(c);
    AllIdsExactly(c);
    NoneRepeated(ids);
    hide AllIds;
    hide HasId;
    hide IsCatalogId;
    hide NoDup;
    if forall i :: !IdDefect(ids, i) {
      forall id | id in ids ensures IsCatalogId(id) { assert !IdDefect(ids, Issue(IdInvalid, "", id)); }
      forall id ensures !Repeated(ids, id) {
        assert !IdDefect(ids, Issue(IdDuplicate, "", id));
        if id in ids { ValidIdHasSegment(id); }
      }
    }
  }

  ghost predicate LoadsSilently(c: Catalog, i: Issue) {
    (forall p :: p in c.contextPacks ==> !PackDefect(c, p, i)) && (forall r :: r in c.roles ==> !RoleDefect(c, r, i))
  }

  lemma NoLoadReport(c: Catalog)
    ensures (forall i :: LoadsSilently(c, i)) <==> PacksAreSound(c)
  {
    forall id ensures id in ReferenceIds(c) <==> Reference(id) in c.references { KnownIds(c, id); }
    forall id ensures id in PackIds(c) <==> HasPack(c, id) {
      MapMembers((p: ContextPack) => p.id, c.contextPacks, id);
    }
    hide ReferenceIds;
    hide PackIds;
    if PacksAreSound(c) {
      forall i ensures LoadsSilently(c, i) {}
    }
    if forall i :: LoadsSilently(c, i) {
      forall p, id | p in c.contextPacks && id in p.referenceIds ensures Reference(id) in c.references {
        assert LoadsSilently(c, Issue(PackReferenceUnknown, p.id, id));
        assert !PackDefect(c, p, Issue(PackReferenceUnknown, p.id, id));
      }
      forall r, id | r in c.roles && id in r.contextPackIds ensures HasPack(c, id) {
        assert LoadsSilently(c, Issue(RolePackUnknown, r.id, id));
        assert !RoleDefect(c, r, Issue(RolePackUnknown, r.id, id));
        assert id in PackIds(c);
      }
      hide LoadsSilently;
      hide HasPack;
      assert PacksAreSound(c);
    }
  }

  lemma NoFileReport(c: Catalog)
    ensures (forall i :: FilesSilent(c, i)) <==> FilesAreSound(c)
  {
    var outputs, paths := AllOutputs(c.workflows), ArtifactPaths(c);
    NoneRepeated(outputs);
    NoneRepeated(paths);
    hide NoDup;
    hide Repeated;
    hide AllOutputs;
    hide ArtifactPaths;
    if forall i :: FilesSilent(c, i) {
      forall x ensures !Repeated(outputs, x) && !Repeated(paths, x) {
        assert FilesSilent(c, Issue(AmbiguousWrite, "", x)) && FilesSilent(c, Issue(ArtifactPathDuplicate, "", x));
        assert Says(Issue(AmbiguousWrite, "", x), AmbiguousWrite, "");
        assert Says(Issue(ArtifactPathDuplicate, "", x), ArtifactPathDuplicate, "");
      }
    }
  }

  lemma NoWorkflowReport(c: Catalog, w: Workflow)
    ensures WorkflowSilent(c, w) <==> Sound(c, w)
  {
    SoundExactly(c, w);
    forall code, v ensures WorkflowDefect(c, w, code, v) <==> Tells(c, w, code, v) { WorkflowReportExactly(c, w, code, v); }
    hide WorkflowDefect;
    hide Tells;
    hide Sound;
    if WorkflowSilent(c, w) {
      forall code, v ensures !WorkflowDefect(c, w, code, v) { assert !WorkflowReport(c, w, Issue(code, w.id, v)); }
    }
  }

  lemma OnlyIssuesAreDefects(c: Catalog, i: Issue)
    ensures !i.Issue? ==> !IdDefect(AllIds(c), i) && (forall p :: !PackDefect(c, p, i)) && (forall r :: !RoleDefect(c, r, i))
    ensures !i.Issue? ==> (forall w :: !WorkflowReport(c, w, i))
    ensures !i.Issue? ==> !Says(i, AmbiguousWrite, "") && !Says(i, ArtifactPathDuplicate, "")
  {}

  ghost predicate FilesSilent(c: Catalog, i: Issue) {
    && !(Says(i, AmbiguousWrite, "") && Repeated(AllOutputs(c.workflows), i.value))
    && !(Says(i, ArtifactPathDuplicate, "") && Repeated(ArtifactPaths(c), i.value))
  }

  ghost predicate WorkflowSilent(c: Catalog, w: Workflow) {
    forall i :: !WorkflowReport(c, w, i)
  }

  lemma PlainSilence(c: Catalog)
    ensures (forall i: Issue :: i.Issue? ==> !Defect(c, i)) <==>
      && (forall i :: !IdDefect(AllIds(c), i)) && (forall i :: LoadsSilently(c, i)) && (forall i :: FilesSilent(c, i))
      && (forall w :: w in c.workflows ==> WorkflowSilent(c, w))
  {
    forall i: Issue | !i.Issue?
      ensures !IdDefect(AllIds(c), i) && LoadsSilently(c, i) && FilesSilent(c, i) && forall w :: !WorkflowReport(c, w, i)
    {
      OnlyIssuesAreDefects(c, i);
    }
    hide IdDefect;
    hide PackDefect;
    hide RoleDefect;
    hide WorkflowReport;
    hide Says;
    hide Repeated;
    hide AllIds;
    hide AllOutputs;
    hide ArtifactPaths;
    forall i: Issue | i.Issue?
      ensures !Defect(c, i) <==>
        !IdDefect(AllIds(c), i) && LoadsSilently(c, i) && FilesSilent(c, i) && (forall w :: w in c.workflows ==> !WorkflowReport(c, w, i))
    {}
    hide Defect;
    hide LoadsSilently;
    hide FilesSilent;
  }

  /** A catalog is silent exactly when its ids are well formed and distinct, every name is known, the
      edges are dependencies, no path is written or declared twice, the declared dependencies have no
      cycle and the onboarding group is connected. */
  lemma CleanExactly(c: Catalog)
    ensures Clean(c) <==>
      && IdsAreSound(c) && PacksAreSound(c) && FilesAreSound(c) && (forall w :: w in c.workflows ==> Sound(c, w))
      && Acyclic(DependencyGraph(c)) && GroupConnected(c)
  {
    PlainSilence(c);
    NoIdReport(c);
    NoLoadReport(c);
    NoFileReport(c);
    forall w ensures WorkflowSilent(c, w) <==> Sound(c, w) { NoWorkflowReport(c, w); }
    assert Clean(c) <==> (forall i: Issue :: i.Issue? ==> !Defect(c, i)) && Acyclic(DependencyGraph(c)) && GroupConnected(c);
    hide *;
  }

  // ---- the onboarding group -----------------------------------------------------------------

  predicate IsMember(c: Catalog, w: Workflow, id: Id) {
    w in c.workflows && w.id == id && w.groupId == Some("onboarding-system")
  }

  /** Two members are joined exactly when one declares the other, whichever way round. */
  lemma GroupEdgeExactly(c: Catalog, a: Id, b: Id)
    ensures Edge(GroupGraph(c), a, b) <==>
      && (exists w :: IsMember(c, w, a)) && (exists w :: IsMember(c, w, b))
      && ((exists w :: IsMember(c, w, a) && b in w.dependencies) || (exists w :: IsMember(c, w, b) && a in w.dependencies))
  {
    MemberExactly(c, a);
    MemberExactly(c, b);
    var near := set x | x in GroupIds(c) && Linked(c, a, x);
    assert a in GroupIds(c) ==> GroupGraph(c)[a] == ListOf(near);
    assert b in near <==> b in GroupIds(c) && Linked(c, a, b);
    assert a in GroupGraph(c) <==> a in GroupIds(c);
    hide GroupGraph;
    hide GroupIds;
    if a in GroupIds(c) && b in GroupIds(c) {
      assert Linked(c, a, b) <==>
        (exists w :: IsMember(c, w, a) && b in w.dependencies) || (exists w :: IsMember(c, w, b) && a in w.dependencies);
    }
  }

  lemma MemberExactly(c: Catalog, id: Id)
    ensures id in GroupIds(c) <==> exists w :: IsMember(c, w, id)
  {
    if w :| IsMember(c, w, id) {
      assert w in c.workflows && InGroup(w);
    }
    if id in GroupIds(c) {
      var w :| w in c.workflows && InGroup(w) && w.id == id;
      assert IsMember(c, w, id);
    }
  }
}
