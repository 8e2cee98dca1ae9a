/** The slice of the catalog that the validator judges and the compiler bridge consumes. */
module Catalogs {
  import opened Graphs
  import opened Options
  import opened Sequences

  /** An optional boolean of the catalog: absent, true or false. */
  datatype Flag = Unset | Yes | No

  datatype Domain = Domain(id: Id, machine: Flag, system: Flag, grantable: Flag)
  datatype Reference = Reference(id: Id)
  datatype ContextPack = ContextPack(id: Id, referenceIds: seq<Id>)
  datatype Role = Role(id: Id, contextPackIds: seq<Id>)
  datatype Artifact = Artifact(id: Id, path: string)
  datatype Workflow = Workflow(
    id: Id, domainId: Id, roleId: Id, groupId: Option<string>,
    dependencies: seq<Id>, refreshDependencies: seq<Id>, reviewOf: seq<Id>,
    referenceIds: seq<Id>, inputPaths: seq<string>, outputPaths: seq<string>)

  datatype Catalog = Catalog(
    areaIds: seq<Id>, domains: seq<Domain>, phaseIds: seq<Id>, laneIds: seq<Id>,
    roles: seq<Role>, contextPacks: seq<ContextPack>, references: seq<Reference>,
    workflows: seq<Workflow>, artifacts: seq<Artifact>, gateIds: seq<Id>)

  function DomainIds(c: Catalog): seq<Id> { MapSeq((d: Domain) => d.id, c.domains) }
  function RoleIds(c: Catalog): seq<Id> { MapSeq((r: Role) => r.id, c.roles) }
  function PackIds(c: Catalog): seq<Id> { MapSeq((p: ContextPack) => p.id, c.contextPacks) }
  function ReferenceIds(c: Catalog): seq<Id> { MapSeq((r: Reference) => r.id, c.references) }
  function WorkflowIds(c: Catalog): seq<Id> { MapSeq((w: Workflow) => w.id, c.workflows) }
  function ArtifactIds(c: Catalog): seq<Id> { MapSeq((a: Artifact) => a.id, c.artifacts) }
  function ArtifactPaths(c: Catalog): seq<string> { MapSeq((a: Artifact) => a.path, c.artifacts) }

  /** The ids of every node group, in the order the validator visits them. */
  function AllIds(c: Catalog): seq<Id> {
    c.areaIds + DomainIds(c) + c.phaseIds + c.laneIds + RoleIds(c) + PackIds(c)
    + ReferenceIds(c) + WorkflowIds(c) + ArtifactIds(c) + c.gateIds
  }

  function AllOutputs(ws: seq<Workflow>): seq<string> {
    if ws == [] then [] else AllOutputs(ws[..|ws| - 1]) + ws[|ws| - 1].outputPaths
  }

  const KINDS: seq<string> :=
    ["area", "domain", "phase", "lane", "role", "context", "reference", "workflow", "artifact", "gate"]

  predicate IsLowerAlnum(c: char) {
    'a' <= c <= 'z' || '0' <= c <= '9'
  }

  /** One of the ten kinds, a dot, then a lower-case name. */
  predicate IsCatalogId(s: string) {
    exists k :: k in KINDS && IsIdOf(k, s)
  }

  predicate IsIdOf(kind: string, s: string) {
    && kind + "." <= s && |s| > |kind| + 1 && IsLowerAlnum(s[|kind| + 1])
    && forall i :: |kind| + 1 < i < |s| ==> IsLowerAlnum(s[i]) || s[i] == '.' || s[i] == '-'
  }

  /** The text before the first dot: what the duplicate check remembers of an id. */
  function FirstSegment(s: string): string {
    if s == "" || s[0] == '.' then "" else [s[0]] + FirstSegment(s[1..])
  }

  const ONBOARDING_GROUP := "onboarding-system"

  predicate InGroup(w: Workflow) {
    w.groupId == Some(ONBOARDING_GROUP)
  }

  function GroupIds(c: Catalog): set<Id> {
    set w | w in c.workflows && InGroup(w) :: w.id
  }

  /** Two group members joined, in either direction, by a declared dependency inside the group. */
  predicate Linked(c: Catalog, a: Id, b: Id) {
    && a in GroupIds(c) && b in GroupIds(c)
    && exists w :: w in c.workflows && InGroup(w)
         && ((w.id == a && b in w.dependencies) || (w.id == b && a in w.dependencies))
  }

  ghost function ListOf(s: set<Id>): (r: seq<Id>)
    ensures forall x :: x in r <==> x in s
  {
    if s == {} then [] else var x :| x in s; [x] + ListOf(s - {x})
  }

  /** The undirected dependency graph of the onboarding group. */
  ghost function GroupGraph(c: Catalog): Graph {
    map a | a in GroupIds(c) :: ListOf(set b | b in GroupIds(c) && Linked(c, a, b))
  }

  /** Every two members are joined by a path inside the group. */
  ghost predicate GroupConnected(c: Catalog) {
    forall a, b :: a in GroupIds(c) && b in GroupIds(c) ==> Reaches(GroupGraph(c), a, b)
  }
}
