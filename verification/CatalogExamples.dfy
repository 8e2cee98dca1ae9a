/** Two clean catalogs that are refused all the same, one by the bridge and one by the recipe
    selection: what validation leaves open does occur. */
module CatalogExamples {
  import opened Graphs
  import opened Catalogs
  import opened Options
  import opened Validation
  import opened Bridge
  import opened Adequacy
  import opened Recipes
  import CycleDetection

  const FOUNDER_LANGUAGE: Id := "context.founder-language"

  const READER := Workflow("workflow.a", "domain.x", "role.r", None, [], [], [], ["reference.k"], ["p"], ["q"])
  const WRITER := Workflow("workflow.b", "domain.x", "role.r", None, ["workflow.a"], [], [], ["reference.k"], [], ["p"])

  /** One workflow reads what the other writes, and the other depends on it. */
  function Example(grantable: Flag): Catalog {
    Catalog(["area.a"], [Domain("domain.x", Unset, Unset, grantable)], [], [],
            [Role("role.r", [FOUNDER_LANGUAGE])], [ContextPack(FOUNDER_LANGUAGE, ["reference.k"])], [Reference("reference.k")],
            [READER, WRITER], [Artifact("artifact.p", "p"), Artifact("artifact.q", "q")], [])
  }

  const IDS: seq<Id> :=
    ["area.a", "domain.x", "role.r", FOUNDER_LANGUAGE, "reference.k", "workflow.a", "workflow.b", "artifact.p", "artifact.q"]

  /** What the validator asks besides the modelled checks, of the fields the model has: there is an
      area for the domains, every role loads the founder-language pack, every pack and every
      workflow binds knowledge, every reference is bound, every workflow has an output and reads
      only declared artifacts, and there is no phase, lane or gate to judge. What it asks beyond
      that is left to fields outside the model. */
  predicate Furnished(c: Catalog) {
    && c.areaIds != [] && c.phaseIds == [] && c.laneIds == [] && c.gateIds == []
    && (forall r :: r in c.roles ==> FOUNDER_LANGUAGE in r.contextPackIds)
    && (forall p :: p in c.contextPacks ==> p.referenceIds != [])
    && (forall w :: w in c.workflows ==> w.referenceIds != [] && w.outputPaths != [])
    && (forall w, i :: w in c.workflows && i in w.inputPaths ==> i in ArtifactPaths(c))
    && (forall r :: r in c.references ==> exists w :: w in c.workflows && r.id in w.referenceIds)
  }

  lemma ExampleIsFurnished(grantable: Flag)
    ensures Furnished(Example(grantable))
  {
    var c := Example(grantable);
    ExampleIds(grantable);
    assert READER in c.workflows && "p" in ["p", "q"];
    forall r | r in c.references ensures exists w :: w in c.workflows && r.id in w.referenceIds {
      assert r.id in READER.referenceIds;
    }
  }

  lemma ExampleIds(grantable: Flag)
    ensures AllIds(Example(grantable)) == IDS
    ensures WorkflowIds(Example(grantable)) == ["workflow.a", "workflow.b"]
    ensures DomainIds(Example(grantable)) == ["domain.x"] && RoleIds(Example(grantable)) == ["role.r"]
    ensures PackIds(Example(grantable)) == [FOUNDER_LANGUAGE] && ReferenceIds(Example(grantable)) == ["reference.k"]
    ensures ArtifactPaths(Example(grantable)) == ["p", "q"] && AllOutputs([READER, WRITER]) == ["q", "p"]
  {
    assert [READER, WRITER][..1] == [READER] && [READER][..0] == [];
    assert AllOutputs([READER]) == ["q"];
  }

  lemma IdIsValid(kind: string, name: string, s: string)
    requires kind in KINDS && s == kind + "." + name && name != "" && IsLowerAlnum(name[0])
    requires forall i :: 0 < i < |name| ==> IsLowerAlnum(name[i]) || name[i] == '.' || name[i] == '-'
    ensures IsCatalogId(s)
  {
    var head := kind + ".";
    assert s[..|head|] == head && s[|head|..] == name;
    forall i | |head| <= i < |s| ensures s[i] == name[i - |head|] {}
    assert IsIdOf(kind, s);
  }

  lemma GroupIdsAreValid()
    ensures IsCatalogId("area.a") && IsCatalogId("domain.x") && IsCatalogId("role.r") && IsCatalogId("reference.k")
  {
    hide IsCatalogId;
    assert KINDS[0] == "area" && KINDS[1] == "domain" && KINDS[4] == "role" && KINDS[6] == "reference";
    IdIsValid("area", "a", "area.a");
    IdIsValid("domain", "x", "domain.x");
    IdIsValid("role", "r", "role.r");
    IdIsValid("reference", "k", "reference.k");
  }

  lemma PackIdIsValid()
    ensures IsCatalogId(FOUNDER_LANGUAGE)
  {
    hide IsCatalogId;
    assert KINDS[5] == "context";
    IdIsValid("context", "founder-language", FOUNDER_LANGUAGE);
  }

  lemma WorkIdsAreValid()
    ensures IsCatalogId("workflow.a") && IsCatalogId("workflow.b") && IsCatalogId("artifact.p") && IsCatalogId("artifact.q")
  {
    hide IsCatalogId;
    assert KINDS[7] == "workflow" && KINDS[8] == "artifact";
    IdIsValid("workflow", "a", "workflow.a");
    IdIsValid("workflow", "b", "workflow.b");
    IdIsValid("artifact", "p", "artifact.p");
    IdIsValid("artifact", "q", "artifact.q");
  }

  lemma IdsAreDistinct()
    ensures NoDup(IDS)
  {
    assert forall i :: 0 <= i < |IDS| ==> |IDS[i]| == [6, 8, 6, 24, 11, 10, 10, 10, 10][i];
    assert "area.a"[0] == 'a' && "role.r"[0] == 'r';
    assert "workflow.a"[0] == 'w' && "workflow.b"[0] == 'w' && "artifact.p"[0] == 'a' && "artifact.q"[0] == 'a';
    assert "workflow.a"[9] == 'a' && "workflow.b"[9] == 'b' && "artifact.p"[9] == 'p' && "artifact.q"[9] == 'q';
  }

  lemma NoDupNoRepeat(s: seq<string>)
    requires NoDup(s)
    ensures forall x :: !Repeated(s, x)
  {
    NoneRepeated(s);
  }

  lemma NoIdDefect(i: Issue)
    requires i.Issue?
    ensures !IdDefect(IDS, i)
  {
    hide IsCatalogId;
    GroupIdsAreValid();
    PackIdIsValid();
    WorkIdsAreValid();
    IdsAreDistinct();
    hide FirstSegment;
    NoDupNoRepeat(IDS);
  }

  lemma NoWorkflowDefect(grantable: Flag, w: Workflow, code: Code, value: string)
    requires w == READER || w == WRITER
    ensures !WorkflowDefect(Example(grantable), w, code, value)
  {
    ExampleIds(grantable);
    hide Example;
    assert "role.r" in ["role.r"] && "domain.x" in ["domain.x"] && "reference.k" in ["reference.k"];
    assert "workflow.a" in ["workflow.a", "workflow.b"] && "p" in ["p", "q"] && "q" in ["p", "q"];
  }

  lemma NoLoadDefect(grantable: Flag, i: Issue)
    ensures forall p :: p in Example(grantable).contextPacks ==> !PackDefect(Example(grantable), p, i)
    ensures forall r :: r in Example(grantable).roles ==> !RoleDefect(Example(grantable), r, i)
  {
    ExampleIds(grantable);
    assert FOUNDER_LANGUAGE in [FOUNDER_LANGUAGE] && "reference.k" in ["reference.k"];
  }

  lemma ExampleGraph(grantable: Flag)
    ensures DependencyGraph(Example(grantable)) == map["workflow.a" := [], "workflow.b" := ["workflow.a"]]
  {
    var nodes := DependencyNodes(Example(grantable));
    var a, b := CycleDetection.Node("workflow.a", []), CycleDetection.Node("workflow.b", ["workflow.a"]);
    assert nodes == [a, b];
    assert [a, b][..1] == [a] && [a][..0] == [];
    assert CycleDetection.EdgesOf([a]) == map["workflow.a" := []];
  }

  lemma ExampleIsAcyclic(grantable: Flag)
    ensures Acyclic(DependencyGraph(Example(grantable)))
  {
    var g := DependencyGraph(Example(grantable));
    ExampleGraph(grantable);
    assert "workflow.a"[9] != "workflow.b"[9];
    var order := ["workflow.a", "workflow.b"];
    assert order[..1] == ["workflow.a"];
    assert PostOrder(g, order);
    forall p ensures !IsCycle(g, p) {
      if IsCycle(g, p) {
        assert Edge(g, p[0], p[1]);
        assert p[0] == order[1];
        PostOrderHasNoCycle(g, order, p);
      }
    }
  }

  lemma ExampleIsClean(grantable: Flag)
    ensures Clean(Example(grantable))
  {
    var c := Example(grantable);
    ExampleIds(grantable);
    ExampleIsAcyclic(grantable);
    hide AllIds;
    hide AllOutputs;
    hide ArtifactPaths;
    hide IdDefect;
    hide WorkflowDefect;
    hide PackDefect;
    hide RoleDefect;
    hide DependencyGraph;
    forall i: Issue | i.Issue? ensures !Defect(c, i) {
      NoIdDefect(i);
      NoLoadDefect(grantable, i);
      forall w | w in c.workflows ensures !WorkflowReport(c, w, i) {
        NoWorkflowDefect(grantable, w, i.code, i.value);
      }
      assert !Repeated(["p", "q"], i.value) && !Repeated(["q", "p"], i.value);
    }
    assert GroupIds(c) == {};
  }

  /** A clean catalog whose domain has no authority flag does not cross the bridge. */
  lemma CleanButUnprojected()
    ensures Clean(Example(Unset)) && Furnished(Example(Unset)) && ToCatalogInput(Example(Unset)).Err?
  {
    var c := Example(Unset);
    ExampleIsFurnished(Unset);
    ExampleIsClean(Unset);
    CleanCatalogProjects(c);
    hide Clean;
    hide ToCatalogInput;
    assert READER in c.workflows;
    UnflaggedIsUnknown();
  }

  lemma NotOfLength(list: seq<string>, s: string)
    requires forall t :: t in list ==> |t| > |s|
    ensures s !in list
  {}

  lemma GrantableNames()
    ensures forall t :: t in GRANTABLE_DOMAINS ==> |t| > 8
  {
    forall t | t in GRANTABLE_DOMAINS ensures |t| > 8 {
      var i :| 0 <= i < |GRANTABLE_DOMAINS| && GRANTABLE_DOMAINS[i] == t;
    }
  }

  lemma UnflaggedIsUnknown()
    ensures Classify(Example(Unset).domains, "domain.x") == Unknown
    ensures Classify(Example(Yes).domains, "domain.x") == Runtime
  {
    GrantableNames();
    NotOfLength(GRANTABLE_DOMAINS, "domain.x");
    NotOfLength(SYSTEM_DOMAINS, "domain.x");
    assert |MACHINE_DOMAIN| > 8;
    OnlyTheFlagCounts("domain.x", Unset);
    OnlyTheFlagCounts("domain.x", Yes);
    hide Classify;
    hide Authority;
    hide GRANTABLE_DOMAINS;
    hide SYSTEM_DOMAINS;
  }

  lemma OnlyTheFlagCounts(id: Id, grantable: Flag)
    requires id !in GRANTABLE_DOMAINS && id !in SYSTEM_DOMAINS && id != MACHINE_DOMAIN
    ensures Classify([Domain(id, Unset, Unset, grantable)], id) == if grantable == Yes then Runtime else Unknown
  {
    ClassifyOne(Domain(id, Unset, Unset, grantable));
  }

  lemma ClassifyOne(d: Domain)
    ensures Classify([d], d.id) == Authority(d)
  {}

  /** A clean catalog that crosses the bridge, with a recipe that is refused: its two workflows lie
      on a cycle through the edge from the reader to the producer. */
  lemma CleanButRefused()
    ensures var c := Example(Yes); var g := RecipeGraph(c.workflows);
      && Clean(c) && Furnished(c) && ToCatalogInput(c).Ok?
      && IsCycle(g, ["workflow.a", "workflow.b", "workflow.a"])
      && ReachedFrom(g, ["workflow.b"], "workflow.a") && CycleAt(g, "workflow.a")
  {
    var c := Example(Yes);
    ExampleIsClean(Yes);
    ExampleIsFurnished(Yes);
    CleanCatalogProjects(c);
    UnflaggedIsUnknown();
    RecipeEdges();
    hide Clean;
    hide ToCatalogInput;
    hide RecipeGraph;
    hide Classify;
    CycleOfTwo(RecipeGraph(c.workflows), "workflow.a", "workflow.b");
  }

  lemma CycleOfTwo(g: Graph, a: Id, b: Id)
    requires Edge(g, a, b) && Edge(g, b, a)
    ensures IsCycle(g, [a, b, a]) && ReachedFrom(g, [b], a) && CycleAt(g, a)
  {
    assert IsCycle(g, [a, b, a]);
    ReachSelf(g, b);
    ReachStep(g, b, b, a);
    assert b in [b];
    assert [a, b, a][0] == a;
  }

  lemma NamesDiffer()
    ensures READER.id != WRITER.id
  {
    assert "workflow.a"[9] != "workflow.b"[9];
  }

  lemma WorkflowsById()
    ensures ById([READER, WRITER]) == map[READER.id := READER, WRITER.id := WRITER]
  {
    assert [READER, WRITER][..1] == [READER] && [READER][..0] == [];
    assert ById([READER]) == map[READER.id := READER];
  }

  lemma OneProducer(r: Workflow, w: Workflow)
    requires r.outputPaths == ["q"] && w.outputPaths == ["p"]
    ensures "p" in Producers([r, w]) && Producers([r, w])["p"] == w.id
  {
    var ws := [r, w];
    var m := Producers(ws);
    hide Producers;
    assert "p" in ws[1].outputPaths && ws[1] in ws;
    assert "p" in m;
  }

  lemma RecipeEdges()
    ensures var g := RecipeGraph([READER, WRITER]);
      Edge(g, READER.id, WRITER.id) && Edge(g, WRITER.id, READER.id)
  {
    var ws := [READER, WRITER];
    NamesDiffer();
    WorkflowsById();
    OneProducer(READER, WRITER);
    assert WRITER.id != "" && WRITER.dependencies == [READER.id] && READER.inputPaths == ["p"];
    hide ById;
    hide Producers;
    LinksBoth(Producers(ws), READER, WRITER);
    hide RecipeGraph;
    hide Recipes.Successors;
    RecipeEdge(ws, READER.id, WRITER.id);
    RecipeEdge(ws, WRITER.id, READER.id);
  }

  lemma LinksBoth(producers: map<string, Id>, r: Workflow, w: Workflow)
    requires "p" in producers && producers["p"] == w.id && w.id != "" && w.id != r.id
    requires r.inputPaths == ["p"] && w.dependencies == [r.id]
    ensures w.id in Recipes.Successors(producers, r) && r.id in Recipes.Successors(producers, w)
  {
    var found := ReadProducers(producers, r.id, r.inputPaths);
    hide ReadProducers;
    assert "p" in r.inputPaths && w.id in found;
    assert r.id in w.dependencies;
  }
}
