/** Publishing browser evidence: a run writes its files under a fresh attempt directory, binds each
    to its digest, and only then replaces the pointer by renaming a temporary file over it. Any
    step may fail; a failed run removes its attempt directory. */
module Publication {
  import opened Options

  type Path = seq<string>
  type Bytes = seq<bv8>

  /** A file's content: plain bytes, or a document that binds other files. The digest is collision
      free, so a binding carries the bound content in its place. */
  datatype Content = Raw(data: Bytes) | Document(kind: string, refs: seq<Artifact>, data: Bytes)
  datatype Artifact = Artifact(path: Path, content: Content)

  type Files = map<Path, Content>

  const PROOF: Path := ["growth", "landing", "proof"]
  const PUBLISHED: Path := PROOF + ["browser-proof.json"]
  const RUNTIMES: Path := PROOF + ["browser-runtimes"]

  function Temporary(pid: string): Path {
    PROOF + ["browser-proof.json" + ".tmp-" + pid]
  }

  /** The bound file exists with the bound content, and so does everything it binds in turn. */
  predicate Intact(files: Files, a: Artifact)
    decreases a
  {
    && a.path in files && files[a.path] == a.content
    && (a.content.Document? ==> forall r :: r in a.content.refs ==> Intact(files, r))
  }

  /** The bound file and everything it binds lie under a directory. */
  predicate Inside(root: Path, a: Artifact)
    decreases a
  {
    && root <= a.path
    && (a.content.Document? ==> forall r :: r in a.content.refs ==> Inside(root, r))
  }

  predicate Held(files: Files, root: Path, a: Artifact) {
    Intact(files, a) && Inside(root, a)
  }

  predicate AllHeld(files: Files, root: Path, artifacts: seq<Artifact>) {
    forall a :: a in artifacts ==> Held(files, root, a)
  }

  /** Whatever pointer is published, the receipt and the evidence manifest it names are intact. */
  predicate Published(files: Files) {
    PUBLISHED in files ==> files[PUBLISHED].Document? && AllHeld(files, RUNTIMES, files[PUBLISHED].refs)
  }

  predicate Agree(files: Files, later: Files, root: Path) {
    forall q :: q in files && root <= q ==> q in later && later[q] == files[q]
  }

  /** A binding survives as long as the directory it lives in keeps its files. */
  lemma {:induction false} HeldKept(files: Files, later: Files, root: Path, a: Artifact)
    requires Held(files, root, a) && Agree(files, later, root)
    ensures Held(later, root, a)
    decreases a
  {
    if a.content.Document? {
      forall r | r in a.content.refs ensures Held(later, root, r) {
        HeldKept(files, later, root, r);
      }
    }
  }

  lemma AllHeldKept(files: Files, later: Files, root: Path, artifacts: seq<Artifact>)
    requires AllHeld(files, root, artifacts) && Agree(files, later, root)
    ensures AllHeld(later, root, artifacts)
  {
    forall a | a in artifacts ensures Held(later, root, a) {
      HeldKept(files, later, root, a);
    }
  }

  lemma {:induction false} InsideWider(root: Path, wider: Path, a: Artifact)
    requires Inside(root, a) && wider <= root
    ensures Inside(wider, a)
    decreases a
  {
    if a.content.Document? {
      forall r | r in a.content.refs ensures Inside(wider, r) {
        InsideWider(root, wider, r);
      }
    }
  }

  // ---- the file system ----------------------------------------------------------------------

  /** Files live in directories that exist. */
  ghost predicate WellFormed(files: Files, dirs: set<Path>) {
    && files.Keys !! dirs
    && forall q, k :: (q in files || q in dirs) && 0 < k < |q| ==> q[..k] in dirs
  }

  /** Nothing that existed is changed and nothing outside `root` appears. */
  ghost predicate OnlyAdds(files: Files, later: Files, root: Path) {
    && (forall q :: q in files ==> q in later && later[q] == files[q])
    && (forall q :: q in later ==> q in files || root <= q)
  }

  /** Every new directory lies below `root`. */
  ghost predicate DirsAdded(dirs: set<Path>, later: set<Path>, root: Path) {
    dirs <= later && forall d :: d in later ==> d in dirs || root <= d
  }

  lemma PrefixOf(d: Path, root: Path, name: Path)
    requires d <= root + name
    ensures |d| < |root| ==> root[..|d|] == d
    ensures |d| >= |root| ==> root <= d
  {
    if |d| >= |root| {
      assert d[..|root|] == root;
    }
  }

  lemma DirsBelow(files: Files, dirs: set<Path>, dirs': set<Path>, first: set<Path>, root: Path, name: Path)
    requires WellFormed(files, dirs) && root in dirs && DirsAdded(first, dirs, root)
    requires dirs <= dirs' && forall d :: d in dirs' ==> d in dirs || (d < root + name && d != [])
    ensures DirsAdded(first, dirs', root)
  {
    forall d | d in dirs' && d !in dirs ensures root <= d {
      PrefixOf(d, root, name);
    }
  }

  /** What a command adds to the faults. */
  function Failures(ok: bool): nat {
    if ok then 0 else 1
  }

  /** A stretch of commands that stops at the first failure came to nothing: the system failed one
      of them, or it failed none and there is another reason. */
  predicate FailedFor(reason: bool, before: nat, after: nat) {
    after == before + 1 || (after == before && reason)
  }

  lemma FailedForMore(reason: bool, wider: bool, before: nat, after: nat)
    requires FailedFor(reason, before, after) && (reason ==> wider)
    ensures FailedFor(wider, before, after)
  {}

  lemma RefusedItem(reason: bool, faults: nat)
    requires reason
    ensures FailedFor(reason, faults, faults)
  {}

  /** A file stands where the path needs a directory. */
  ghost predicate NoWay(files: Files, p: Path) {
    exists k :: 0 < k <= |p| && p[..k] in files
  }

  /** No new file can be made at the path. */
  ghost predicate Taken(files: Files, dirs: set<Path>, p: Path)
    requires p != []
  {
    p in files || p in dirs || NoWay(files, p[..|p| - 1])
  }

  lemma HeldMore(first: Files, files: Files, later: Files, root: Path, artifacts: seq<Artifact>)
    requires OnlyAdds(first, files, root) && OnlyAdds(files, later, root) && AllHeld(files, root, artifacts)
    ensures OnlyAdds(first, later, root) && AllHeld(later, root, artifacts)
  {
    AllHeldKept(files, later, root, artifacts);
  }

  lemma HeldOne(files: Files, root: Path, a: Artifact)
    ensures AllHeld(files, root, [a]) <==> Held(files, root, a)
  {
    hide Held;
    assert a in [a];
  }

  lemma HeldFour(files: Files, root: Path, three: seq<Artifact>, d: Artifact)
    requires |three| == 3 && AllHeld(files, root, three) && Held(files, root, d)
    ensures AllHeld(files, root, [three[0], d, three[1], three[2]])
  {
    hide Held;
  }

  lemma HeldConcat(files: Files, root: Path, a: seq<Artifact>, b: seq<Artifact>)
    ensures AllHeld(files, root, a + b) <==> AllHeld(files, root, a) && AllHeld(files, root, b)
  {
    hide Held;
    assert forall x :: x in a + b <==> x in a || x in b;
  }

  class FileSystem {
    var files: Files
    var dirs: set<Path>
    ghost var faults: nat   // how many commands the system has failed that could have been carried out

    ghost predicate Valid()
      reads this
    {
      WellFormed(files, dirs)
    }

    /** Creates a directory and its parents; a failure leaves some of them behind. */
    method Mkdir(p: Path) returns (ok: bool)
      requires Valid()
      modifies this
      ensures Valid() && files == old(files) && old(dirs) <= dirs
      ensures forall d :: d in dirs ==> d in old(dirs) || (d <= p && d != [])
      ensures ok && p != [] ==> p in dirs
      ensures !ok && p in dirs ==> p in old(dirs)
      ensures ok ==> faults == old(faults) && !NoWay(files, p)
      ensures !ok ==> FailedFor(NoWay(files, p), old(faults), faults)
    {
      for i := 1 to |p| + 1
        invariant Valid() && files == old(files) && old(dirs) <= dirs && faults == old(faults)
        invariant forall d :: d in dirs ==> d in old(dirs) || (d <= p && 0 < |d| < i)
        invariant forall k :: 0 < k < i ==> p[..k] in dirs
      {
        if p[..i] in files {
          return false;
        }
        var fault := *;
        if fault {
          faults := faults + 1;
          return false;
        }
        forall q, k | (q in files || q in dirs + {p[..i]}) && 0 < k < |q| ensures q[..k] in dirs + {p[..i]} {
          if q == p[..i] {
            assert q[..k] == p[..k];
          }
        }
        dirs := dirs + {p[..i]};
      }
      ok := true;
      assert p[..|p|] == p;
    }

    /** Writes a file that must not exist yet; a failure can leave a truncated one. */
    method WriteExclusive(p: Path, content: Content) returns (ok: bool)
      requires Valid() && |p| > 1
      modifies this
      ensures Valid() && OnlyAdds(old(files), files, p)
      ensures old(dirs) <= dirs && forall d :: d in dirs ==> d in old(dirs) || (d < p && d != [])
      ensures ok ==> files == old(files)[p := content] && faults == old(faults) && !Taken(old(files), old(dirs), p)
      ensures !ok ==> FailedFor(Taken(old(files), old(dirs), p), old(faults), faults)
    {
      ok := Mkdir(p[..|p| - 1]);
      if !ok {
        return;
      }
      if p in files || p in dirs {
        return false;
      }
      assert forall k :: 0 < k < |p| - 1 ==> p[..k] == p[..|p| - 1][..k];
      var fault := *;
      if fault {
        var written := *;
        if written {
          var truncated: Content := *;
          files := files[p := truncated];
        }
        faults := faults + 1;
        return false;
      }
      files := files[p := content];
    }

    /** Overwrites a file; a failure can leave any content. */
    method Write(p: Path, content: Content) returns (ok: bool)
      requires Valid() && |p| > 1 && p[..|p| - 1] in dirs
      modifies this
      ensures Valid() && dirs == old(dirs)
      ensures files == old(files) || (p in files && files == old(files)[p := files[p]])
      ensures ok ==> p in files && files[p] == content && faults == old(faults) && p !in dirs
      ensures !ok ==> FailedFor(p in dirs, old(faults), faults)
    {
      if p in dirs {
        return false;
      }
      assert forall k :: 0 < k < |p| - 1 ==> p[..k] == p[..|p| - 1][..k];
      var fault := *;
      if fault {
        var written := *;
        if written {
          var truncated: Content := *;
          files := files[p := truncated];
        }
        faults := faults + 1;
        return false;
      }
      files := files[p := content];
      ok := true;
    }

    /** Moves a file over another in one step, or does nothing. */
    method Rename(from: Path, to: Path) returns (ok: bool)
      requires Valid() && from in files && from != to && from != [] && to != []
      requires |from| == |to| && from[..|from| - 1] == to[..|to| - 1]
      modifies this
      ensures Valid() && dirs == old(dirs)
      ensures ok ==> files == old(files)[to := old(files)[from]] - {from}
      ensures ok ==> faults == old(faults) && to !in dirs
      ensures !ok ==> files == old(files) && FailedFor(to in dirs, old(faults), faults)
    {
      if to in dirs {
        return false;
      }
      var fault := *;
      if fault {
        faults := faults + 1;
        return false;
      }
      forall k | 0 < k < |to| ensures to[..k] in dirs {
        assert to[..k] == to[..|to| - 1][..k] == from[..|from| - 1][..k] == from[..k];
      }
      files := files[to := files[from]] - {from};
      ok := true;
    }

    /** Removes a directory and what it holds; a failure removes some of it. */
    method RemoveTree(p: Path) returns (ok: bool)
      requires Valid() && p != []
      modifies this
      ensures Valid() && Removal(old(files), old(dirs), files, dirs, p)
      ensures ok ==> forall q :: p <= q ==> q !in files && q !in dirs
      ensures faults == old(faults) + Failures(ok)
    {
      var fault := *;
      if fault {
        var doomed: set<Path> := *;
        files := map q | q in files && !(p <= q && q in doomed) :: files[q];
        var pruned := *;
        if pruned {
          dirs := set d | d in dirs && (!(p <= d) || exists q :: q in files.Keys && d <= q);
        }
        faults := faults + 1;
        return false;
      }
      files := map q | q in files && !(p <= q) :: files[q];
      dirs := set q | q in dirs && !(p <= q);
      ok := true;
    }

    /** Reads a file and binds its content. */
    method Bind(p: Path) returns (a: Option<Artifact>)
      modifies `faults
      ensures a.Some? ==> p in files && a.value == Artifact(p, files[p]) && faults == old(faults)
      ensures a.None? ==> FailedFor(p !in files, old(faults), faults)
    {
      if p !in files {
        return None;
      }
      var fault := *;
      if fault {
        faults := faults + 1;
        return None;
      }
      a := Some(Artifact(p, files[p]));
    }

    /** A check on a value of the run's own making, which may refuse it. */
    method Parse() returns (ok: bool)
      modifies `faults
      ensures faults == old(faults) + Failures(ok)
    {
      ok := *;
      if !ok {
        faults := faults + 1;
      }
    }
  }

  ghost predicate Removal(files: Files, dirs: set<Path>, files': Files, dirs': set<Path>, p: Path) {
    && files'.Keys <= files.Keys && (forall q :: q in files' ==> files'[q] == files[q])
    && dirs' <= dirs
    && (forall q :: q in files && !(p <= q) ==> q in files')
    && (forall q :: q in dirs && !(p <= q) ==> q in dirs')
  }

  // ---- one run ------------------------------------------------------------------------------

  /** `passes` gathers the checks on an observed item that precede its first write. */
  datatype Resource = Resource(name: string, body: Bytes, passes: bool)
  datatype Capture = Capture(id: string, screenshot: Bytes, transcript: Bytes, passes: bool)
  datatype Interaction = Interaction(id: string, transcript: Bytes, passes: bool)

  datatype Run = Run(
    runtime: Path, key: string, pid: string, config: Bytes,
    build: Bytes, launch: Bytes, navigation: Bytes,
    resources: seq<Resource>, captures: seq<Capture>, interactions: seq<Interaction>)

  predicate ResourcesPass(run: Run) {
    forall i :: 0 <= i < |run.resources| ==> run.resources[i].passes
  }

  predicate CapturesPass(run: Run) {
    forall i :: 0 <= i < |run.captures| ==> run.captures[i].passes
  }

  predicate InteractionsPass(run: Run) {
    forall i :: 0 <= i < |run.interactions| ==> run.interactions[i].passes
  }

  /** Every item the run is configured for was observed as it should be. */
  predicate AllPass(run: Run) {
    ResourcesPass(run) && CapturesPass(run) && InteractionsPass(run)
  }

  // ---- the names of a run's files -----------------------------------------------------------

  const BUILD: Path := ["build-manifest.json"]
  const LAUNCH: Path := ["browser-launch.json"]
  const NAVIGATION: Path := ["browser-navigation.json"]
  const RESOURCES: Path := ["resource-manifest.json"]
  const RECEIPT: Path := ["browser-runtime.json"]
  const MANIFEST: Path := ["reviewer-inputs.json"]

  predicate IsFolder(name: string) {
    name == "responses" || name == "captures" || name == "observations" || name == "receipts" || name == "interactions"
  }

  /** A file of the attempt directory itself, or of one of its folders. */
  predicate IsName(n: Path) {
    (|n| == 1 && !IsFolder(n[0])) || (|n| == 2 && IsFolder(n[0]))
  }

  function ResourceName(r: Resource): Path {
    ["responses", r.name]
  }

  function CaptureNames(c: Capture): set<Path> {
    {["captures", c.id + ".png"], ["observations", c.id + ".capture.json"], ["receipts", c.id + ".capture.json"]}
  }

  function InteractionNames(i: Interaction): set<Path> {
    {["interactions", i.id + ".json"], ["receipts", i.id + ".interaction.json"]}
  }

  predicate ResourcesDiffer(run: Run) {
    forall i, j :: 0 <= i < j < |run.resources| ==> run.resources[i].name != run.resources[j].name
  }

  predicate CapturesDiffer(run: Run) {
    forall i, j :: 0 <= i < j < |run.captures| ==> run.captures[i].id != run.captures[j].id
  }

  predicate InteractionsDiffer(run: Run) {
    forall i, j :: 0 <= i < j < |run.interactions| ==> run.interactions[i].id != run.interactions[j].id
  }

  /** No two files of the run share a name. */
  predicate NamesDiffer(run: Run) {
    ResourcesDiffer(run) && CapturesDiffer(run) && InteractionsDiffer(run)
  }

  lemma SameStem(a: string, b: string, tail: string)
    ensures a + tail == b + tail ==> a == b
  {
    if a + tail == b + tail {
      assert (a + tail)[..|a|] == a && (b + tail)[..|b|] == b;
    }
  }

  lemma CapturesClash(c: Capture, d: Capture)
    ensures CaptureNames(c) !! CaptureNames(d) <==> c.id != d.id
  {
    SameStem(c.id, d.id, ".png");
    SameStem(c.id, d.id, ".capture.json");
    FoldersDiffer();
    if c.id == d.id {
      assert ["captures", c.id + ".png"] in CaptureNames(c) && ["captures", c.id + ".png"] in CaptureNames(d);
    }
  }

  lemma InteractionsClash(i: Interaction, j: Interaction)
    ensures InteractionNames(i) !! InteractionNames(j) <==> i.id != j.id
  {
    SameStem(i.id, j.id, ".json");
    SameStem(i.id, j.id, ".interaction.json");
    FoldersDiffer();
    if i.id == j.id {
      assert ["interactions", i.id + ".json"] in InteractionNames(i) && ["interactions", i.id + ".json"] in InteractionNames(j);
    }
  }

  lemma FoldersDiffer()
    ensures "responses" != "captures" && "responses" != "observations" && "responses" != "receipts" && "responses" != "interactions"
    ensures "captures" != "observations" && "captures" != "receipts" && "captures" != "interactions"
    ensures "observations" != "receipts" && "observations" != "interactions" && "receipts" != "interactions"
  {
    assert "responses"[2] == 's' && "receipts"[2] == 'c';
    assert "responses"[0] == 'r' && "captures"[0] == 'c' && "observations"[0] == 'o' && "receipts"[0] == 'r' && "interactions"[0] == 'i';
  }

  lemma EndingsDiffer(a: string, b: string)
    ensures a + ".capture.json" != b + ".interaction.json"
  {
    var s, t := a + ".capture.json", b + ".interaction.json";
    assert ".capture.json"[7] == 'e' && ".interaction.json"[11] == 'n';
    assert |".capture.json"| == 13 && |".interaction.json"| == 17;
    assert s[|s| - 6] == 'e' && t[|t| - 6] == 'n';
  }

  /** The names of captures and interactions stand apart, and apart from the resources'. */
  lemma FamiliesDiffer(r: Resource, c: Capture, i: Interaction)
    ensures CaptureNames(c) !! InteractionNames(i)
    ensures ResourceName(r) !in CaptureNames(c) && ResourceName(r) !in InteractionNames(i)
    ensures forall n :: n in CaptureNames(c) || n in InteractionNames(i) || n == ResourceName(r) ==> |n| == 2 && IsName(n)
  {
    FoldersDiffer();
    EndingsDiffer(c.id, i.id);
  }

  lemma SinglesDiffer()
    ensures BUILD != LAUNCH && BUILD != NAVIGATION && BUILD != RESOURCES && BUILD != RECEIPT && BUILD != MANIFEST
    ensures LAUNCH != NAVIGATION && LAUNCH != RESOURCES && LAUNCH != RECEIPT && LAUNCH != MANIFEST
    ensures NAVIGATION != RESOURCES && NAVIGATION != RECEIPT && NAVIGATION != MANIFEST
    ensures RESOURCES != RECEIPT && RESOURCES != MANIFEST && RECEIPT != MANIFEST
  {
    assert BUILD[0][1] == 'u' && LAUNCH[0][1] == 'r' && NAVIGATION[0][1] == 'r' && RESOURCES[0][1] == 'e';
    assert RECEIPT[0][1] == 'r' && MANIFEST[0][1] == 'e';
    assert LAUNCH[0][8] == 'l' && NAVIGATION[0][8] == 'n' && RECEIPT[0][8] == 'r';
    assert RESOURCES[0][2] == 's' && MANIFEST[0][2] == 'v';
  }

  lemma SinglesAreNames()
    ensures IsName(BUILD) && IsName(LAUNCH) && IsName(NAVIGATION) && IsName(RESOURCES) && IsName(RECEIPT) && IsName(MANIFEST)
    ensures |BUILD| == |LAUNCH| == |NAVIGATION| == |RESOURCES| == |RECEIPT| == |MANIFEST| == 1
  {
    assert |BUILD[0]| == 19 && |LAUNCH[0]| == 19 && |NAVIGATION[0]| == 23 && |RESOURCES[0]| == 22 && |RECEIPT[0]| == 20 && |MANIFEST[0]| == 20;
    assert |"responses"| == 9 && |"captures"| == 8 && |"observations"| == 12 && |"receipts"| == 8 && |"interactions"| == 12;
  }

  function AttemptRoot(run: Run): Path {
    RUNTIMES + run.runtime + [run.key]
  }

  predicate IsDocument(a: Artifact, path: Path, kind: string, refs: seq<Artifact>) {
    a.path == path && a.content.Document? && a.content.kind == kind && a.content.refs == refs
  }

  /** The receipt, the image and the transcript of a capture, in that order. */
  predicate IsCapture(root: Path, c: Capture, v: seq<Artifact>) {
    && |v| == 3
    && v[1] == Artifact(root + ["captures", c.id + ".png"], Raw(c.screenshot))
    && v[2] == Artifact(root + ["observations", c.id + ".capture.json"], Raw(c.transcript))
    && IsDocument(v[0], root + ["receipts", c.id + ".capture.json"], "design-capture", [v[1]])
  }

  /** The receipt and the evidence of an interaction. */
  predicate IsInteraction(root: Path, i: Interaction, v: seq<Artifact>) {
    && |v| == 2
    && v[1] == Artifact(root + ["interactions", i.id + ".json"], Raw(i.transcript))
    && IsDocument(v[0], root + ["receipts", i.id + ".interaction.json"], "design-interaction", [v[1]])
  }

  predicate AreResources(root: Path, resources: seq<Resource>, v: seq<Artifact>) {
    |v| == |resources|
    && forall i :: 0 <= i < |v| ==> v[i] == Artifact(root + ["responses", resources[i].name], Raw(resources[i].body))
  }

  /** The runtime receipt: it binds the build, every configured resource and both transcripts. */
  predicate IsReceipt(root: Path, run: Run, a: Artifact) {
    && a.path == root + ["browser-runtime.json"]
    && a.content.Document? && a.content.kind == "browser-runtime-launch" && |a.content.refs| == 4
    && a.content.refs[0] == Artifact(root + ["build-manifest.json"], Raw(run.build))
    && a.content.refs[2] == Artifact(root + ["browser-launch.json"], Raw(run.launch))
    && a.content.refs[3] == Artifact(root + ["browser-navigation.json"], Raw(run.navigation))
    && a.content.refs[1].path == root + ["resource-manifest.json"]
    && a.content.refs[1].content.Document? && AreResources(root, run.resources, a.content.refs[1].content.refs)
  }

  /** The build manifest and the transcripts of launch and navigation. */
  predicate AreTranscripts(root: Path, run: Run, v: seq<Artifact>) {
    && |v| == 3
    && v[0] == Artifact(root + BUILD, Raw(run.build))
    && v[1] == Artifact(root + LAUNCH, Raw(run.launch))
    && v[2] == Artifact(root + NAVIGATION, Raw(run.navigation))
  }

  lemma BindsTranscripts(root: Path, run: Run, v: seq<Artifact>)
    requires v == [Artifact(root + BUILD, Raw(run.build)), Artifact(root + LAUNCH, Raw(run.launch)),
                   Artifact(root + NAVIGATION, Raw(run.navigation))]
    ensures AreTranscripts(root, run, v)
  {
    hide BUILD;
    hide LAUNCH;
    hide NAVIGATION;
  }

  lemma AreThree(root: Path, run: Run, v: seq<Artifact>)
    requires AreTranscripts(root, run, v)
    ensures |v| == 3
  {}

  lemma BindsReceipt(root: Path, run: Run, a: Artifact, plain: seq<Artifact>, manifest: Artifact, resources: seq<Artifact>)
    requires |plain| == 3 && AreTranscripts(root, run, plain)
    requires IsDocument(manifest, root + RESOURCES, "resource-manifest", resources) && AreResources(root, run.resources, resources)
    requires IsDocument(a, root + RECEIPT, "browser-runtime-launch", [plain[0], manifest, plain[1], plain[2]])
    ensures IsReceipt(root, run, a)
  {
    hide AreResources;
  }

  predicate CaptureAt(root: Path, c: Capture, refs: seq<Artifact>, at: nat) {
    at + 3 <= |refs| && IsCapture(root, c, refs[at..at + 3])
  }

  predicate InteractionAt(root: Path, i: Interaction, refs: seq<Artifact>, at: nat) {
    at + 2 <= |refs| && IsInteraction(root, i, refs[at..at + 2])
  }

  /** The receipt, then every one of the first captures and interactions, and nothing else. */
  predicate ListsInputs(root: Path, run: Run, receipt: Artifact, refs: seq<Artifact>, captures: nat, interactions: nat)
    requires captures <= |run.captures| && interactions <= |run.interactions|
  {
    && |refs| == 1 + 3 * captures + 2 * interactions && refs[0] == receipt
    && (forall k :: 0 <= k < captures ==> CaptureAt(root, run.captures[k], refs, 1 + 3 * k))
    && (forall k :: 0 <= k < interactions ==> InteractionAt(root, run.interactions[k], refs, 1 + 3 * captures + 2 * k))
  }

  /** The evidence manifest: it binds the receipt and every configured capture and interaction. */
  predicate IsManifest(root: Path, run: Run, receipt: Artifact, a: Artifact) {
    && a.path == root + ["reviewer-inputs.json"]
    && a.content.Document? && a.content.kind == "design-runtime-reviewer-inputs"
    && ListsInputs(root, run, receipt, a.content.refs, |run.captures|, |run.interactions|)
  }

  lemma OneMoreCapture(root: Path, run: Run, receipt: Artifact, refs: seq<Artifact>, k: nat, v: seq<Artifact>)
    requires k < |run.captures| && ListsInputs(root, run, receipt, refs, k, 0) && IsCapture(root, run.captures[k], v)
    ensures ListsInputs(root, run, receipt, refs + v, k + 1, 0)
  {
    hide IsCapture;
    hide IsInteraction;
    forall j | 0 <= j < k + 1 ensures CaptureAt(root, run.captures[j], refs + v, 1 + 3 * j) {
      if j < k {
        ListedCapture(root, run, receipt, refs, k, 0, j);
        assert (refs + v)[1 + 3 * j..1 + 3 * j + 3] == refs[1 + 3 * j..1 + 3 * j + 3];
      } else {
        assert |v| == 3 by { CaptureHasThree(root, run.captures[k], v); }
        assert (refs + v)[1 + 3 * j..1 + 3 * j + 3] == v;
      }
    }
    CaptureHasThree(root, run.captures[k], v);
  }

  lemma CaptureHasThree(root: Path, c: Capture, v: seq<Artifact>)
    requires IsCapture(root, c, v)
    ensures |v| == 3
  {}

  lemma OneMoreInteraction(root: Path, run: Run, receipt: Artifact, refs: seq<Artifact>, k: nat, v: seq<Artifact>)
    requires k < |run.interactions| && ListsInputs(root, run, receipt, refs, |run.captures|, k)
    requires IsInteraction(root, run.interactions[k], v)
    ensures ListsInputs(root, run, receipt, refs + v, |run.captures|, k + 1)
  {
    assert |v| == 2;
    hide IsCapture;
    hide IsInteraction;
    var n, all := |run.captures|, refs + v;
    forall j | 0 <= j < n ensures CaptureAt(root, run.captures[j], all, 1 + 3 * j) {
      ListedCapture(root, run, receipt, refs, n, k, j);
      assert all[1 + 3 * j..1 + 3 * j + 3] == refs[1 + 3 * j..1 + 3 * j + 3];
    }
    forall j | 0 <= j < k + 1 ensures InteractionAt(root, run.interactions[j], all, 1 + 3 * n + 2 * j) {
      var at := 1 + 3 * n + 2 * j;
      if j < k {
        ListedInteraction(root, run, receipt, refs, k, j);
        assert all[at..at + 2] == refs[at..at + 2];
      } else {
        assert all[at..at + 2] == v;
      }
    }
  }

  lemma ListedCapture(root: Path, run: Run, receipt: Artifact, refs: seq<Artifact>, captures: nat, interactions: nat, j: nat)
    requires j < captures <= |run.captures| && interactions <= |run.interactions|
    requires ListsInputs(root, run, receipt, refs, captures, interactions)
    ensures CaptureAt(root, run.captures[j], refs, 1 + 3 * j)
  {
    hide InteractionAt;
    hide CaptureAt;
  }

  lemma ListedInteraction(root: Path, run: Run, receipt: Artifact, refs: seq<Artifact>, k: nat, j: nat)
    requires j < k <= |run.interactions| && ListsInputs(root, run, receipt, refs, |run.captures|, k)
    ensures InteractionAt(root, run.interactions[j], refs, 1 + 3 * |run.captures| + 2 * j)
  {
    hide InteractionAt;
    hide CaptureAt;
  }

  /** Below the root stand exactly the used names, in their folders. */
  ghost predicate Uses(files: Files, dirs: set<Path>, root: Path, used: set<Path>) {
    && (forall n :: n in used ==> IsName(n) && root + n in files)
    && (forall q :: q in files && root <= q ==> IsUsed(root, used, q))
    && (forall d :: d in dirs && root <= d ==> d == root || (|d| == |root| + 1 && IsFolder(d[|root|])))
  }

  ghost predicate IsUsed(root: Path, used: set<Path>, q: Path) {
    exists n :: n in used && q == root + n
  }

  lemma SamePath(root: Path, a: Path, b: Path)
    ensures root + a == root + b ==> a == b
  {
    if root + a == root + b {
      assert (root + a)[|root|..] == a && (root + b)[|root|..] == b;
    }
  }

  /** The way to a name is blocked only by a used name that stands for its folder, and none does. */
  lemma WayIsFree(files: Files, dirs: set<Path>, root: Path, used: set<Path>, name: Path)
    requires WellFormed(files, dirs) && root in dirs && root != [] && Uses(files, dirs, root, used) && IsName(name)
    ensures !NoWay(files, (root + name)[..|root + name| - 1])
  {
    var way := (root + name)[..|root + name| - 1];
    forall k | 0 < k <= |way| ensures way[..k] !in files {
      if k < |root| {
        assert way[..k] == root[..k];
      } else if k == |root| {
        assert way[..k] == root;
      } else {
        assert way[..k] == root + [name[0]] && IsFolder(name[0]);
        FolderIsFree(files, dirs, root, used, name[0]);
      }
    }
  }

  lemma FolderIsFree(files: Files, dirs: set<Path>, root: Path, used: set<Path>, folder: string)
    requires Uses(files, dirs, root, used) && IsFolder(folder)
    ensures root + [folder] !in files
  {
    hide IsFolder;
    forall n | n in used ensures root + n != root + [folder] {
      SamePath(root, n, [folder]);
    }
    assert root <= root + [folder];
  }

  lemma PlaceIsNoDirectory(files: Files, dirs: set<Path>, root: Path, used: set<Path>, name: Path)
    requires Uses(files, dirs, root, used) && IsName(name)
    ensures root + name !in dirs
  {
    hide IsFolder;
    assert |root + name| == |root| + |name| && (root + name)[|root|] == name[0];
  }

  /** A name is taken if and only if it was used before. */
  lemma TakenExactly(files: Files, dirs: set<Path>, root: Path, used: set<Path>, name: Path)
    requires WellFormed(files, dirs) && root in dirs && root != [] && Uses(files, dirs, root, used) && IsName(name)
    ensures Taken(files, dirs, root + name) <==> name in used
  {
    WayIsFree(files, dirs, root, used, name);
    hide IsFolder;
    hide NoWay;
    hide WellFormed;
    var p := root + name;
    if p in files {
      assert IsUsed(root, used, p);
      var n :| n in used && p == root + n;
      SamePath(root, name, n);
    }
    PlaceIsNoDirectory(files, dirs, root, used, name);
  }

  lemma UsesMore(files: Files, dirs: set<Path>, later: Files, dirs': set<Path>, root: Path, used: set<Path>, name: Path, content: Content)
    requires Uses(files, dirs, root, used) && IsName(name) && later == files[root + name := content]
    requires dirs <= dirs' && forall d :: d in dirs' ==> d in dirs || d < root + name
    ensures Uses(later, dirs', root, used + {name})
  {
    hide IsFolder;
    forall q | q in later && root <= q ensures IsUsed(root, used + {name}, q) {
      if q in files {
        var n :| n in used && q == root + n;
        assert n in used + {name};
      } else {
        assert name in used + {name} && q == root + name;
      }
    }
    forall d | d in dirs' && root <= d ensures d == root || (|d| == |root| + 1 && IsFolder(d[|root|])) {
      if d !in dirs && |d| == |root| + 1 {
        assert |name| == 2 && d[|root|] == name[0];
      }
    }
  }

  /** The names some capture may have. */
  ghost predicate OfCaptures(n: Path) {
    exists c :: n in CaptureNames(c)
  }

  ghost predicate OfInteractions(n: Path) {
    exists i :: n in InteractionNames(i)
  }

  predicate OfResources(n: Path) {
    |n| == 2 && n[0] == "responses"
  }

  lemma ResourcesStandApart(n: Path)
    requires OfResources(n)
    ensures !OfCaptures(n) && !OfInteractions(n) && IsName(n)
  {
    FoldersDiffer();
    forall c ensures n !in CaptureNames(c) {}
    forall i ensures n !in InteractionNames(i) {}
  }

  lemma CapturesStandApart(n: Path)
    requires OfCaptures(n)
    ensures |n| == 2 && !OfInteractions(n)
  {
    var c :| n in CaptureNames(c);
    forall i ensures n !in InteractionNames(i) {
      FamiliesDiffer(Resource("", [], true), c, i);
    }
  }

  lemma SinglesAreNoResources()
    ensures !OfResources(BUILD) && !OfResources(LAUNCH) && !OfResources(NAVIGATION)
    ensures !OfResources(RESOURCES) && !OfResources(RECEIPT) && !OfResources(MANIFEST)
  {}

  lemma SinglesStandApart(n: Path)
    requires |n| == 1
    ensures !OfCaptures(n) && !OfInteractions(n) && !OfResources(n)
  {}

  /** The used names: those from before and those of the given captures. */
  ghost predicate UsedByCaptures(before: set<Path>, used: set<Path>, captures: seq<Capture>) {
    && (forall n :: n in used ==> n in before || exists c :: c in captures && n in CaptureNames(c))
    && forall c :: c in captures ==> CaptureNames(c) <= used
  }

  ghost predicate UsedByResources(before: set<Path>, used: set<Path>, resources: seq<Resource>) {
    && before <= used && (forall n :: n in used ==> n in before || exists r :: r in resources && n == ResourceName(r))
    && forall r :: r in resources ==> ResourceName(r) in used
  }

  lemma ResourceIsName(x: Resource)
    ensures ResourceName(x) == ["responses", x.name] && IsName(ResourceName(x))
  {}

  predicate NewResource(resources: seq<Resource>, x: Resource) {
    forall r :: r in resources ==> r.name != x.name
  }

  lemma ResourceIsNew(before: set<Path>, used: set<Path>, resources: seq<Resource>, x: Resource)
    requires UsedByResources(before, used, resources) && forall n :: n in before ==> !OfResources(n)
    ensures ResourceName(x) !in used <==> NewResource(resources, x)
  {
    ResourcesStandApart(ResourceName(x));
    if ResourceName(x) in used {
      var r :| r in resources && ResourceName(x) == ResourceName(r);
      assert ResourceName(x)[1] == ResourceName(r)[1];
    }
    hide IsName;
  }

  lemma ResourceIsUsed(before: set<Path>, used: set<Path>, resources: seq<Resource>, x: Resource)
    requires UsedByResources(before, used, resources)
    ensures UsedByResources(before, used + {ResourceName(x)}, resources + [x])
  {
    hide ResourceName;
    var all := resources + [x];
    assert forall r :: r in all <==> r in resources || r == x;
  }

  predicate ResourcesFit(resources: seq<Resource>) {
    && (forall i :: 0 <= i < |resources| ==> resources[i].passes)
    && forall i, j :: 0 <= i < j < |resources| ==> resources[i].name != resources[j].name
  }

  lemma ResourcesFitAll(run: Run)
    ensures ResourcesFit(run.resources) <==> ResourcesPass(run) && ResourcesDiffer(run)
  {}

  lemma NoResources(files: Files, root: Path, run: Run, used: set<Path>)
    ensures ResourcesDone(run, 0, used, used) && ListsResources(root, run, 0, [])
    ensures AllHeld(files, root, []) && OnlyAdds(files, files, root)
  {}

  /** The first `k` resources are done: they fit, and their names are used and nothing else is new. */
  ghost predicate ResourcesDone(run: Run, k: nat, before: set<Path>, used: set<Path>)
    requires k <= |run.resources|
  {
    ResourcesFit(run.resources[..k]) && UsedByResources(before, used, run.resources[..k])
  }

  lemma ResourceStep(run: Run, k: nat, before: set<Path>, used: set<Path>)
    requires k < |run.resources| && ResourcesDone(run, k, before, used) && forall n :: n in before ==> !OfResources(n)
    ensures run.resources[k].passes && ResourceName(run.resources[k]) !in used ==> ResourcesDone(run, k + 1, before, used + {ResourceName(run.resources[k])})
    ensures !run.resources[k].passes || !(ResourceName(run.resources[k]) !in used) ==> !ResourcesPass(run) || !ResourcesDiffer(run)
  {
    ResourceIsNew(before, used, run.resources[..k], run.resources[k]);
    ResourceIsUsed(before, used, run.resources[..k], run.resources[k]);
    NextResource(run, k);
    hide ResourcesFit;
    hide UsedByResources;
    hide NewResource;
    hide ResourcesPass;
    hide ResourcesDiffer;
  }

  lemma ResourcesAllDone(run: Run, before: set<Path>, used: set<Path>)
    requires ResourcesDone(run, |run.resources|, before, used)
    ensures ResourcesPass(run) && ResourcesDiffer(run)
    ensures before <= used && forall n :: n in used ==> n in before || OfResources(n)
  {
    assert run.resources[..|run.resources|] == run.resources;
    ResourcesAreUsed(before, used, run.resources);
    ResourcesFitAll(run);
    hide UsedByResources;
    hide OfResources;
    hide ResourcesFit;
  }

  predicate CapturesFit(captures: seq<Capture>) {
    && (forall i :: 0 <= i < |captures| ==> captures[i].passes)
    && forall i, j :: 0 <= i < j < |captures| ==> captures[i].id != captures[j].id
  }

  lemma CapturesFitAll(run: Run)
    ensures CapturesFit(run.captures) <==> CapturesPass(run) && CapturesDiffer(run)
  {}

  lemma NextCapture(run: Run, k: nat)
    requires k < |run.captures| && CapturesFit(run.captures[..k])
    ensures run.captures[..k + 1] == run.captures[..k] + [run.captures[k]]
    ensures !run.captures[k].passes ==> !CapturesPass(run)
    ensures !NewCapture(run.captures[..k], run.captures[k]) ==> !CapturesDiffer(run)
    ensures NewCapture(run.captures[..k], run.captures[k]) && run.captures[k].passes ==> CapturesFit(run.captures[..k + 1])
  {
    var done := run.captures[..k];
    assert forall i :: 0 <= i < k ==> done[i] == run.captures[i] && done[i] in done;
  }

  lemma CapturesAreUsed(before: set<Path>, used: set<Path>, captures: seq<Capture>)
    requires UsedByCaptures(before, used, captures)
    ensures forall n :: n in used ==> n in before || OfCaptures(n)
  {
    hide CaptureNames;
  }

  /** The first `k` captures are done: they fit, and their names are used and nothing else is new. */
  ghost predicate CapturesDone(run: Run, k: nat, before: set<Path>, used: set<Path>)
    requires k <= |run.captures|
  {
    CapturesFit(run.captures[..k]) && UsedByCaptures(before, used, run.captures[..k])
  }

  lemma CaptureStep(run: Run, k: nat, before: set<Path>, used: set<Path>)
    requires k < |run.captures| && CapturesDone(run, k, before, used) && forall n :: n in before ==> !OfCaptures(n)
    ensures run.captures[k].passes && CaptureFree(run.captures[k], used) ==> CapturesDone(run, k + 1, before, used + CaptureNames(run.captures[k]))
    ensures !run.captures[k].passes || !(CaptureFree(run.captures[k], used)) ==> !CapturesPass(run) || !CapturesDiffer(run)
  {
    CaptureIsNew(before, used, run.captures[..k], run.captures[k]);
    CaptureIsUsed(before, used, run.captures[..k], run.captures[k]);
    NextCapture(run, k);
    hide CapturesFit;
    hide UsedByCaptures;
    hide NewCapture;
    hide CapturesPass;
    hide CapturesDiffer;
  }

  lemma CapturesAllDone(run: Run, before: set<Path>, used: set<Path>)
    requires CapturesDone(run, |run.captures|, before, used)
    ensures CapturesPass(run) && CapturesDiffer(run)
    ensures forall n :: n in used ==> n in before || OfCaptures(n)
  {
    assert run.captures[..|run.captures|] == run.captures;
    CapturesAreUsed(before, used, run.captures);
    CapturesFitAll(run);
    hide UsedByCaptures;
    hide OfCaptures;
    hide CapturesFit;
  }

  lemma NoCaptures(files: Files, root: Path, run: Run, receipt: Artifact, used: set<Path>)
    requires Held(files, root, receipt)
    ensures CapturesDone(run, 0, used, used) && ListsInputs(root, run, receipt, [receipt], 0, 0)
    ensures AllHeld(files, root, [receipt]) && OnlyAdds(files, files, root)
  {
    hide Held;
  }

  predicate InteractionsFit(interactions: seq<Interaction>) {
    && (forall i :: 0 <= i < |interactions| ==> interactions[i].passes)
    && forall i, j :: 0 <= i < j < |interactions| ==> interactions[i].id != interactions[j].id
  }

  lemma InteractionsFitAll(run: Run)
    ensures InteractionsFit(run.interactions) <==> InteractionsPass(run) && InteractionsDiffer(run)
  {}

  lemma NextInteraction(run: Run, k: nat)
    requires k < |run.interactions| && InteractionsFit(run.interactions[..k])
    ensures run.interactions[..k + 1] == run.interactions[..k] + [run.interactions[k]]
    ensures !run.interactions[k].passes ==> !InteractionsPass(run)
    ensures !NewInteraction(run.interactions[..k], run.interactions[k]) ==> !InteractionsDiffer(run)
    ensures NewInteraction(run.interactions[..k], run.interactions[k]) && run.interactions[k].passes ==> InteractionsFit(run.interactions[..k + 1])
  {
    var done := run.interactions[..k];
    assert forall i :: 0 <= i < k ==> done[i] == run.interactions[i] && done[i] in done;
  }

  lemma InteractionsAreUsed(before: set<Path>, used: set<Path>, interactions: seq<Interaction>)
    requires UsedByInteractions(before, used, interactions)
    ensures forall n :: n in used ==> n in before || OfInteractions(n)
  {
    hide InteractionNames;
  }

  /** The first `k` interactions are done: they fit, and their names are used and nothing else is new. */
  ghost predicate InteractionsDone(run: Run, k: nat, before: set<Path>, used: set<Path>)
    requires k <= |run.interactions|
  {
    InteractionsFit(run.interactions[..k]) && UsedByInteractions(before, used, run.interactions[..k])
  }

  lemma InteractionStep(run: Run, k: nat, before: set<Path>, used: set<Path>)
    requires k < |run.interactions| && InteractionsDone(run, k, before, used) && forall n :: n in before ==> !OfInteractions(n)
    ensures run.interactions[k].passes && InteractionFree(run.interactions[k], used) ==> InteractionsDone(run, k + 1, before, used + InteractionNames(run.interactions[k]))
    ensures !run.interactions[k].passes || !(InteractionFree(run.interactions[k], used)) ==> !InteractionsPass(run) || !InteractionsDiffer(run)
  {
    InteractionIsNew(before, used, run.interactions[..k], run.interactions[k]);
    InteractionIsUsed(before, used, run.interactions[..k], run.interactions[k]);
    NextInteraction(run, k);
    hide InteractionsFit;
    hide UsedByInteractions;
    hide NewInteraction;
    hide InteractionsPass;
    hide InteractionsDiffer;
  }

  lemma InteractionsAllDone(run: Run, before: set<Path>, used: set<Path>)
    requires InteractionsDone(run, |run.interactions|, before, used)
    ensures InteractionsPass(run) && InteractionsDiffer(run)
    ensures forall n :: n in used ==> n in before || OfInteractions(n)
  {
    assert run.interactions[..|run.interactions|] == run.interactions;
    InteractionsAreUsed(before, used, run.interactions);
    InteractionsFitAll(run);
    hide UsedByInteractions;
    hide OfInteractions;
    hide InteractionsFit;
  }

  lemma NoInteractions(files: Files, root: Path, run: Run, used: set<Path>)
    ensures InteractionsDone(run, 0, used, used) && OnlyAdds(files, files, root)
  {}

  lemma ItemsFit(run: Run)
    ensures AllPass(run) <==> ResourcesPass(run) && CapturesPass(run) && InteractionsPass(run)
    ensures NamesDiffer(run) <==> ResourcesDiffer(run) && CapturesDiffer(run) && InteractionsDiffer(run)
  {}

  lemma NothingHeld(files: Files, root: Path)
    ensures AllHeld(files, root, []) && OnlyAdds(files, files, root)
  {}

  lemma BindsManifest(root: Path, run: Run, receipt: Artifact, a: Artifact, refs: seq<Artifact>)
    requires IsDocument(a, root + MANIFEST, "design-runtime-reviewer-inputs", refs)
    requires ListsInputs(root, run, receipt, refs, |run.captures|, |run.interactions|)
    ensures IsManifest(root, run, receipt, a)
  {
    hide ListsInputs;
  }

  lemma NextResource(run: Run, k: nat)
    requires k < |run.resources| && ResourcesFit(run.resources[..k])
    ensures run.resources[..k + 1] == run.resources[..k] + [run.resources[k]]
    ensures !run.resources[k].passes ==> !ResourcesPass(run)
    ensures !NewResource(run.resources[..k], run.resources[k]) ==> !ResourcesDiffer(run)
    ensures NewResource(run.resources[..k], run.resources[k]) && run.resources[k].passes ==> ResourcesFit(run.resources[..k + 1])
  {
    var done := run.resources[..k];
    assert forall i :: 0 <= i < k ==> done[i] == run.resources[i] && done[i] in done;
  }

  predicate ListsResources(root: Path, run: Run, k: nat, held: seq<Artifact>) {
    k <= |run.resources| && AreResources(root, run.resources[..k], held)
  }

  lemma OneMoreResource(root: Path, run: Run, held: seq<Artifact>, k: nat, a: Artifact)
    requires k < |run.resources| && ListsResources(root, run, k, held)
    requires a == Artifact(root + ["responses", run.resources[k].name], Raw(run.resources[k].body))
    ensures ListsResources(root, run, k + 1, held + [a])
  {}

  lemma AllResources(root: Path, run: Run, held: seq<Artifact>)
    requires ListsResources(root, run, |run.resources|, held)
    ensures AreResources(root, run.resources, held)
  {
    assert run.resources[..|run.resources|] == run.resources;
  }

  lemma ResourcesAreUsed(before: set<Path>, used: set<Path>, resources: seq<Resource>)
    requires UsedByResources(before, used, resources)
    ensures before <= used && forall n :: n in used ==> n in before || OfResources(n)
  {}

  ghost predicate UsedByInteractions(before: set<Path>, used: set<Path>, interactions: seq<Interaction>) {
    && (forall n :: n in used ==> n in before || exists i :: i in interactions && n in InteractionNames(i))
    && forall i :: i in interactions ==> InteractionNames(i) <= used
  }

  predicate CaptureFree(x: Capture, used: set<Path>) {
    CaptureNames(x) !! used
  }

  predicate NewCapture(captures: seq<Capture>, x: Capture) {
    forall d :: d in captures ==> d.id != x.id
  }

  /** The names of a capture are unused if and only if no capture before it has its id. */
  lemma CaptureIsNew(before: set<Path>, used: set<Path>, captures: seq<Capture>, x: Capture)
    requires UsedByCaptures(before, used, captures) && forall n :: n in before ==> !OfCaptures(n)
    ensures CaptureFree(x, used) <==> NewCapture(captures, x)
  {
    hide CaptureNames;
    forall d ensures CaptureNames(x) !! CaptureNames(d) <==> x.id != d.id {
      CapturesClash(x, d);
    }
    if forall d :: d in captures ==> d.id != x.id {
      forall n | n in CaptureNames(x) ensures n !in used {
        assert OfCaptures(n);
      }
    } else {
      var d :| d in captures && d.id == x.id;
      assert CaptureNames(d) <= used && !(CaptureNames(x) !! CaptureNames(d));
      var n :| n in CaptureNames(x) && n in CaptureNames(d);
      assert n in used;
    }
  }

  lemma CaptureIsUsed(before: set<Path>, used: set<Path>, captures: seq<Capture>, x: Capture)
    requires UsedByCaptures(before, used, captures)
    ensures UsedByCaptures(before, used + CaptureNames(x), captures + [x])
  {
    hide CaptureNames;
    var all := captures + [x];
    assert forall d :: d in all <==> d in captures || d == x;
  }

  predicate InteractionFree(x: Interaction, used: set<Path>) {
    InteractionNames(x) !! used
  }

  predicate NewInteraction(interactions: seq<Interaction>, x: Interaction) {
    forall d :: d in interactions ==> d.id != x.id
  }

  lemma InteractionIsNew(before: set<Path>, used: set<Path>, interactions: seq<Interaction>, x: Interaction)
    requires UsedByInteractions(before, used, interactions) && forall n :: n in before ==> !OfInteractions(n)
    ensures InteractionFree(x, used) <==> NewInteraction(interactions, x)
  {
    hide InteractionNames;
    forall d ensures InteractionNames(x) !! InteractionNames(d) <==> x.id != d.id {
      InteractionsClash(x, d);
    }
    if forall d :: d in interactions ==> d.id != x.id {
      forall n | n in InteractionNames(x) ensures n !in used {
        assert OfInteractions(n);
      }
    } else {
      var d :| d in interactions && d.id == x.id;
      assert InteractionNames(d) <= used && !(InteractionNames(x) !! InteractionNames(d));
      var n :| n in InteractionNames(x) && n in InteractionNames(d);
      assert n in used;
    }
  }

  lemma InteractionIsUsed(before: set<Path>, used: set<Path>, interactions: seq<Interaction>, x: Interaction)
    requires UsedByInteractions(before, used, interactions)
    ensures UsedByInteractions(before, used + InteractionNames(x), interactions + [x])
  {
    hide InteractionNames;
    var all := interactions + [x];
    assert forall d :: d in all <==> d in interactions || d == x;
  }

  lemma NamesStandApart(used: set<Path>)
    requires forall n :: n in used ==> |n| == 1 || OfResources(n)
    ensures forall n :: n in used ==> !OfCaptures(n) && !OfInteractions(n)
    ensures forall n :: OfCaptures(n) ==> |n| == 2 && !OfInteractions(n)
  {
    forall n | n in used ensures !OfCaptures(n) && !OfInteractions(n) {
      if |n| == 1 { SinglesStandApart(n); } else { ResourcesStandApart(n); }
    }
    forall n | OfCaptures(n) ensures |n| == 2 && !OfInteractions(n) { CapturesStandApart(n); }
  }

  class Producer {
    const fs: FileSystem
    const run: Run
    const root: Path
    ghost const before: Files
    ghost const dirsBefore: set<Path>
    ghost var used: set<Path>   // the names of the files written so far

    constructor (fs: FileSystem, run: Run)
      requires IsEmpty(fs.files, fs.dirs, AttemptRoot(run))
      ensures this.fs == fs && this.run == run && root == AttemptRoot(run)
      ensures before == fs.files && dirsBefore == fs.dirs && used == {} && Only()
    {
      this.fs, this.run, root := fs, run, AttemptRoot(run);
      before, dirsBefore, used := fs.files, fs.dirs, {};
    }

    /** So far the run has only added files inside its attempt directory. */
    ghost predicate Writing()
      reads this, fs
    {
      && fs.Valid() && |root| > 4 && root in fs.dirs && OnlyAdds(before, fs.files, root)
      && DirsAdded(dirsBefore, fs.dirs, root)
    }

    /** The attempt directory holds what the run has written and nothing else. */
    ghost predicate Only()
      reads this, fs
    {
      Uses(fs.files, fs.dirs, root, used)
    }

    /** Writes one evidence file. */
    method Emit(name: Path, content: Content) returns (ok: bool)
      requires Writing() && Only() && IsName(name)
      modifies fs, `used
      ensures Writing() && OnlyAdds(old(fs.files), fs.files, root) && old(fs.dirs) <= fs.dirs
      ensures ok ==> root + name in fs.files && fs.files[root + name] == content
      ensures ok ==> Only() && name !in old(used) && used == old(used) + {name} && fs.faults == old(fs.faults)
      ensures !ok ==> FailedFor(name in old(used), old(fs.faults), fs.faults)
    {
      hide Uses;
      hide Taken;
      hide DirsAdded;
      TakenExactly(fs.files, fs.dirs, root, used, name);
      ok := fs.WriteExclusive(root + name, content);
      DirsBelow(old(fs.files), old(fs.dirs), fs.dirs, dirsBefore, root, name);
      if ok {
        UsesMore(old(fs.files), old(fs.dirs), fs.files, fs.dirs, root, used, name, content);
        used := used + {name};
      }
    }

    /** Binds a plain file or a document whose own bindings hold. */
    method BindHeld(name: Path) returns (a: Option<Artifact>)
      requires Writing()
      requires root + name in fs.files ==>
        fs.files[root + name].Document? ==> AllHeld(fs.files, root, fs.files[root + name].refs)
      modifies fs`faults
      ensures Writing()
      ensures a.Some? ==> fs.faults == old(fs.faults)
      ensures a.None? ==> FailedFor(root + name !in fs.files, old(fs.faults), fs.faults)
      ensures a.Some? ==> Held(fs.files, root, a.value)
      ensures a.Some? ==> root + name in fs.files && a.value == Artifact(root + name, fs.files[root + name])
    {
      a := fs.Bind(root + name);
    }

    /** Writes a document that binds files already held, and binds it. */
    method EmitDocument(name: Path, kind: string, refs: seq<Artifact>) returns (a: Option<Artifact>)
      requires Writing() && Only() && IsName(name) && AllHeld(fs.files, root, refs)
      modifies fs, `used
      ensures Writing() && OnlyAdds(old(fs.files), fs.files, root)
      ensures a.Some? ==> Held(fs.files, root, a.value) && IsDocument(a.value, root + name, kind, refs)
      ensures a.Some? ==> Only() && name !in old(used) && used == old(used) + {name} && fs.faults == old(fs.faults)
      ensures a.None? ==> FailedFor(name in old(used), old(fs.faults), fs.faults)
    {
      hide Uses;
      var valid := fs.Parse();
      if !valid { return None; }
      var data: Bytes := *;
      var ok := Emit(name, Document(kind, refs, data));
      if !ok { return None; }
      AllHeldKept(old(fs.files), fs.files, root, refs);
      a := BindHeld(name);
    }

    /** Writes a plain file and binds it. */
    method EmitRaw(name: Path, data: Bytes) returns (a: Option<Artifact>)
      requires Writing() && Only() && IsName(name)
      modifies fs, `used
      ensures Writing() && OnlyAdds(old(fs.files), fs.files, root)
      ensures a.Some? ==> Held(fs.files, root, a.value) && a.value == Artifact(root + name, Raw(data))
      ensures a.Some? ==> Only() && name !in old(used) && used == old(used) + {name} && fs.faults == old(fs.faults)
      ensures a.None? ==> FailedFor(name in old(used), old(fs.faults), fs.faults)
    {
      hide Uses;
      var ok := Emit(name, Raw(data));
      if !ok { return None; }
      a := BindHeld(name);
    }

    method EmitResources() returns (artifacts: Option<seq<Artifact>>)
      requires Writing() && Only() && forall n :: n in used ==> !OfResources(n)
      modifies fs, `used
      ensures Writing() && OnlyAdds(old(fs.files), fs.files, root)
      ensures artifacts.Some? ==> AllHeld(fs.files, root, artifacts.value) && AreResources(root, run.resources, artifacts.value)
      ensures artifacts.Some? ==> Only() && old(used) <= used && forall n :: n in used ==> n in old(used) || OfResources(n)
      ensures artifacts.Some? ==> ResourcesPass(run) && ResourcesDiffer(run) && fs.faults == old(fs.faults)
      ensures artifacts.None? ==> FailedFor(!ResourcesPass(run) || !ResourcesDiffer(run), old(fs.faults), fs.faults)
    {
      hide *;
      NoResources(fs.files, root, run, used);
      var held: seq<Artifact> := [];
      for i := 0 to |run.resources|
        invariant Only() && ResourcesDone(run, i, old(used), used) && fs.faults == old(fs.faults)
        invariant Writing() && OnlyAdds(old(fs.files), fs.files, root) && AllHeld(fs.files, root, held)
        invariant ListsResources(root, run, i, held)
      {
        var resource := run.resources[i];
        ghost var files, names := fs.files, used;
        ResourceStep(run, i, old(used), names);
        ResourceIsName(resource);
        if !resource.passes {
          RefusedItem(!ResourcesPass(run) || !ResourcesDiffer(run), fs.faults);
          return None;
        }
        var a := EmitRaw(["responses", resource.name], resource.body);
        if a.None? {
          HeldMore(old(fs.files), files, fs.files, root, held);
          FailedForMore(ResourceName(resource) in names, !ResourcesPass(run) || !ResourcesDiffer(run), old(fs.faults), fs.faults);
          return None;
        }
        HeldMore(old(fs.files), files, fs.files, root, held);
        HeldOne(fs.files, root, a.value);
        HeldConcat(fs.files, root, held, [a.value]);
        OneMoreResource(root, run, held, i, a.value);
        held := held + [a.value];
      }
      AllResources(root, run, held);
      ResourcesAllDone(run, old(used), used);
      artifacts := Some(held);
    }

    method EmitCapture(c: Capture) returns (artifacts: Option<seq<Artifact>>)
      requires Writing() && Only()
      modifies fs, `used
      ensures Writing() && OnlyAdds(old(fs.files), fs.files, root)
      ensures artifacts.Some? ==> AllHeld(fs.files, root, artifacts.value) && IsCapture(root, c, artifacts.value)
      ensures artifacts.Some? ==> Only() && CaptureFree(c, old(used)) && used == old(used) + CaptureNames(c)
      ensures artifacts.Some? ==> c.passes && fs.faults == old(fs.faults)
      ensures artifacts.None? ==> FailedFor(!c.passes || !CaptureFree(c, old(used)), old(fs.faults), fs.faults)
    {
      hide Uses;
      FoldersDiffer();
      if !c.passes { return None; }
      var image := EmitRaw(["captures", c.id + ".png"], c.screenshot);
      if image.None? { return None; }
      ghost var files := fs.files;
      var transcript := EmitRaw(["observations", c.id + ".capture.json"], c.transcript);
      if transcript.None? { return None; }
      HeldKept(files, fs.files, root, image.value);
      files := fs.files;
      var receipt := EmitDocument(["receipts", c.id + ".capture.json"], "design-capture", [image.value]);
      if receipt.None? { return None; }
      AllHeldKept(files, fs.files, root, [image.value, transcript.value]);
      artifacts := Some([receipt.value, image.value, transcript.value]);
    }

    method EmitInteraction(i: Interaction) returns (artifacts: Option<seq<Artifact>>)
      requires Writing() && Only()
      modifies fs, `used
      ensures Writing() && OnlyAdds(old(fs.files), fs.files, root)
      ensures artifacts.Some? ==>
        |artifacts.value| == 2 && AllHeld(fs.files, root, artifacts.value) && IsInteraction(root, i, artifacts.value)
      ensures artifacts.Some? ==> Only() && InteractionFree(i, old(used)) && used == old(used) + InteractionNames(i)
      ensures artifacts.Some? ==> i.passes && fs.faults == old(fs.faults)
      ensures artifacts.None? ==> FailedFor(!i.passes || !InteractionFree(i, old(used)), old(fs.faults), fs.faults)
    {
      hide Uses;
      FoldersDiffer();
      if !i.passes { return None; }
      var evidence := EmitRaw(["interactions", i.id + ".json"], i.transcript);
      if evidence.None? { return None; }
      ghost var files := fs.files;
      var receipt := EmitDocument(["receipts", i.id + ".interaction.json"], "design-interaction", [evidence.value]);
      if receipt.None? { return None; }
      HeldKept(files, fs.files, root, evidence.value);
      artifacts := Some([receipt.value, evidence.value]);
    }

    /** The build manifest and both transcripts. */
    method EmitTranscripts() returns (held: Option<seq<Artifact>>)
      requires Writing() && Only() && used == {}
      modifies fs, `used
      ensures Writing() && OnlyAdds(old(fs.files), fs.files, root)
      ensures held.Some? ==> AllHeld(fs.files, root, held.value) && AreTranscripts(root, run, held.value)
      ensures held.Some? ==> Only() && used == {BUILD, LAUNCH, NAVIGATION} && fs.faults == old(fs.faults)
      ensures held.None? ==> FailedFor(false, old(fs.faults), fs.faults)
    {
      hide *;
      SinglesAreNames();
      SinglesDiffer();
      ghost var first := fs.files;
      var build := EmitRaw(BUILD, run.build);
      if build.None? { return None; }
      HeldOne(fs.files, root, build.value);
      ghost var some, files := [build.value], fs.files;
      var launch := EmitRaw(LAUNCH, run.launch);
      HeldMore(first, files, fs.files, root, some);
      if launch.None? { return None; }
      HeldOne(fs.files, root, launch.value);
      HeldConcat(fs.files, root, some, [launch.value]);
      some, files := some + [launch.value], fs.files;
      var navigation := EmitRaw(NAVIGATION, run.navigation);
      HeldMore(first, files, fs.files, root, some);
      if navigation.None? { return None; }
      HeldOne(fs.files, root, navigation.value);
      HeldConcat(fs.files, root, some, [navigation.value]);
      held := Some([build.value, launch.value, navigation.value]);
      assert held.value == some + [navigation.value];
      BindsTranscripts(root, run, held.value);
    }

    method EmitReceipt() returns (receipt: Option<Artifact>)
      requires Writing() && Only() && used == {}
      modifies fs, `used
      ensures Writing() && OnlyAdds(old(fs.files), fs.files, root)
      ensures receipt.Some? ==> Held(fs.files, root, receipt.value) && IsReceipt(root, run, receipt.value)
      ensures receipt.Some? ==> Only() && MANIFEST !in used && forall n :: n in used ==> |n| == 1 || OfResources(n)
      ensures receipt.Some? ==> ResourcesPass(run) && ResourcesDiffer(run) && fs.faults == old(fs.faults)
      ensures receipt.None? ==> FailedFor(!ResourcesPass(run) || !ResourcesDiffer(run), old(fs.faults), fs.faults)
    {
      hide *;
      SinglesAreNames();
      SinglesDiffer();
      ghost var first := fs.files;
      var plain := EmitTranscripts();
      if plain.None? {
        FailedForMore(false, !ResourcesPass(run) || !ResourcesDiffer(run), old(fs.faults), fs.faults);
        return None;
      }
      AreThree(root, run, plain.value);
      ghost var files := fs.files;
      SinglesAreNoResources();
      var resources := EmitResources();
      HeldMore(first, files, fs.files, root, plain.value);
      if resources.None? { return None; }
      files := fs.files;
      var manifest := EmitDocument(RESOURCES, "resource-manifest", resources.value);
      HeldMore(first, files, fs.files, root, plain.value);
      if manifest.None? { return None; }
      HeldFour(fs.files, root, plain.value, manifest.value);
      files := fs.files;
      receipt := EmitDocument(RECEIPT, "browser-runtime-launch",
                              [plain.value[0], manifest.value, plain.value[1], plain.value[2]]);
      HeldMore(first, files, fs.files, root, plain.value);
      if receipt.Some? {
        BindsReceipt(root, run, receipt.value, plain.value, manifest.value, resources.value);
      }
    }

    /** The captures' evidence, each bound behind what is bound already. */
    method EmitCaptures(receipt: Artifact) returns (refs: Option<seq<Artifact>>)
      requires Writing() && Only() && Held(fs.files, root, receipt) && forall n :: n in used ==> !OfCaptures(n)
      modifies fs, `used
      ensures Writing() && OnlyAdds(old(fs.files), fs.files, root)
      ensures refs.Some? ==> AllHeld(fs.files, root, refs.value)
      ensures refs.Some? ==> ListsInputs(root, run, receipt, refs.value, |run.captures|, 0)
      ensures refs.Some? ==> Only() && forall n :: n in used ==> n in old(used) || OfCaptures(n)
      ensures refs.Some? ==> CapturesPass(run) && CapturesDiffer(run) && fs.faults == old(fs.faults)
      ensures refs.None? ==> FailedFor(!CapturesPass(run) || !CapturesDiffer(run), old(fs.faults), fs.faults)
    {
      hide *;
      NoCaptures(fs.files, root, run, receipt, used);
      var held := [receipt];
      for k := 0 to |run.captures|
        invariant Only() && CapturesDone(run, k, old(used), used) && fs.faults == old(fs.faults)
        invariant Writing() && OnlyAdds(old(fs.files), fs.files, root)
        invariant AllHeld(fs.files, root, held) && ListsInputs(root, run, receipt, held, k, 0)
      {
        var capture := run.captures[k];
        ghost var files, names := fs.files, used;
        CaptureStep(run, k, old(used), names);
        var inputs := EmitCapture(capture);
        HeldMore(old(fs.files), files, fs.files, root, held);
        if inputs.None? {
          FailedForMore(!capture.passes || !CaptureFree(capture, names), !CapturesPass(run) || !CapturesDiffer(run),
                        old(fs.faults), fs.faults);
          return None;
        }
        HeldConcat(fs.files, root, held, inputs.value);
        OneMoreCapture(root, run, receipt, held, k, inputs.value);
        held := held + inputs.value;
      }
      CapturesAllDone(run, old(used), used);
      refs := Some(held);
    }

    method EmitInteractions(receipt: Artifact, captured: seq<Artifact>) returns (refs: Option<seq<Artifact>>)
      requires Writing() && Only() && AllHeld(fs.files, root, captured) && forall n :: n in used ==> !OfInteractions(n)
      requires ListsInputs(root, run, receipt, captured, |run.captures|, 0)
      modifies fs, `used
      ensures Writing() && OnlyAdds(old(fs.files), fs.files, root)
      ensures refs.Some? ==> AllHeld(fs.files, root, refs.value)
      ensures refs.Some? ==> ListsInputs(root, run, receipt, refs.value, |run.captures|, |run.interactions|)
      ensures refs.Some? ==> Only() && forall n :: n in used ==> n in old(used) || OfInteractions(n)
      ensures refs.Some? ==> InteractionsPass(run) && InteractionsDiffer(run) && fs.faults == old(fs.faults)
      ensures refs.None? ==> FailedFor(!InteractionsPass(run) || !InteractionsDiffer(run), old(fs.faults), fs.faults)
    {
      hide *;
      NoInteractions(fs.files, root, run, used);
      var held := captured;
      for k := 0 to |run.interactions|
        invariant Only() && InteractionsDone(run, k, old(used), used) && fs.faults == old(fs.faults)
        invariant Writing() && OnlyAdds(old(fs.files), fs.files, root)
        invariant AllHeld(fs.files, root, held) && ListsInputs(root, run, receipt, held, |run.captures|, k)
      {
        var interaction := run.interactions[k];
        ghost var files, names := fs.files, used;
        InteractionStep(run, k, old(used), names);
        var inputs := EmitInteraction(interaction);
        HeldMore(old(fs.files), files, fs.files, root, held);
        if inputs.None? {
          FailedForMore(!interaction.passes || !InteractionFree(interaction, names),
                        !InteractionsPass(run) || !InteractionsDiffer(run), old(fs.faults), fs.faults);
          return None;
        }
        HeldConcat(fs.files, root, held, inputs.value);
        OneMoreInteraction(root, run, receipt, held, k, inputs.value);
        held := held + inputs.value;
      }
      InteractionsAllDone(run, old(used), used);
      refs := Some(held);
    }

    /** Everything inside the try block up to the pointer: the receipt and the evidence manifest. */
    method EmitEvidence() returns (bound: Option<(Artifact, Artifact)>)
      requires Writing() && Only() && used == {}
      modifies fs, `used
      ensures Writing() && OnlyAdds(old(fs.files), fs.files, root)
      ensures bound.Some? ==> Held(fs.files, root, bound.value.0) && Held(fs.files, root, bound.value.1)
      ensures bound.Some? ==> IsReceipt(root, run, bound.value.0) && IsManifest(root, run, bound.value.0, bound.value.1)
      ensures bound.Some? ==> AllPass(run) && NamesDiffer(run) && fs.faults == old(fs.faults)
      ensures bound.None? ==> FailedFor(!AllPass(run) || !NamesDiffer(run), old(fs.faults), fs.faults)
    {
      hide *;
      ItemsFit(run);
      NothingHeld(fs.files, root);
      ghost var first := fs.files;
      var receipt := EmitReceipt();
      if receipt.None? {
        FailedForMore(!ResourcesPass(run) || !ResourcesDiffer(run), !AllPass(run) || !NamesDiffer(run), old(fs.faults), fs.faults);
        return None;
      }
      NamesStandApart(used);
      HeldOne(fs.files, root, receipt.value);
      ghost var files := fs.files;
      var captured := EmitCaptures(receipt.value);
      HeldMore(first, files, fs.files, root, [receipt.value]);
      if captured.None? {
        FailedForMore(!CapturesPass(run) || !CapturesDiffer(run), !AllPass(run) || !NamesDiffer(run), old(fs.faults), fs.faults);
        return None;
      }
      files := fs.files;
      var held := EmitInteractions(receipt.value, captured.value);
      HeldMore(first, files, fs.files, root, [receipt.value]);
      if held.None? {
        FailedForMore(!InteractionsPass(run) || !InteractionsDiffer(run), !AllPass(run) || !NamesDiffer(run), old(fs.faults), fs.faults);
        return None;
      }
      files := fs.files;
      SinglesAreNames();
      SinglesStandApart(MANIFEST);
      ghost var taken := MANIFEST in used;
      var manifest := EmitDocument(MANIFEST, "design-runtime-reviewer-inputs", held.value);
      HeldMore(first, files, fs.files, root, [receipt.value]);
      if manifest.None? {
        FailedForMore(taken, !AllPass(run) || !NamesDiffer(run), old(fs.faults), fs.faults);
        return None;
      }
      HeldOne(fs.files, root, receipt.value);
      BindsManifest(root, run, receipt.value, manifest.value, held.value);
      bound := Some((receipt.value, manifest.value));
    }
  }

  /** Something stands where the pointer is to be written. */
  ghost predicate PointerBlocked(files: Files, dirs: set<Path>, pid: string) {
    NoWay(files, PROOF) || Temporary(pid) in dirs || PUBLISHED in dirs
  }

  /** Writes the pointer beside its place and moves it there. */
  method WritePointer(fs: FileSystem, pid: string, pointer: Content) returns (ok: bool)
    requires fs.Valid()
    modifies fs
    ensures fs.Valid() && old(fs.dirs) <= fs.dirs && forall d :: d in fs.dirs ==> d in old(fs.dirs) || d <= PROOF
    ensures ok ==> PUBLISHED in fs.files && fs.files[PUBLISHED] == pointer && fs.faults == old(fs.faults)
    ensures ok ==> SameElsewhere(old(fs.files), fs.files, {PUBLISHED, Temporary(pid)})
    ensures !ok ==> SameElsewhere(old(fs.files), fs.files, {Temporary(pid)})
    ensures ok ==> !PointerBlocked(old(fs.files), old(fs.dirs), pid)
    ensures !ok ==> FailedFor(PointerBlocked(old(fs.files), old(fs.dirs), pid), old(fs.faults), fs.faults)
  {
    var temporary := Temporary(pid);
    assert PUBLISHED[|PUBLISHED| - 1] == "browser-proof.json" && |temporary[|temporary| - 1]| > |"browser-proof.json"|;
    assert temporary[..|temporary| - 1] == PROOF == PUBLISHED[..|PUBLISHED| - 1];
    ok := fs.Mkdir(PROOF);
    if !ok { return; }
    ok := fs.Write(temporary, pointer);
    if !ok { return; }
    ok := fs.Rename(temporary, PUBLISHED);
  }

  ghost predicate SameElsewhere(files: Files, later: Files, changed: set<Path>) {
    forall q :: q !in changed ==> (q in files <==> q in later) && (q in files ==> later[q] == files[q])
  }

  datatype Outcome = Succeeded(pointer: Content) | Refused | Failed(cleaned: bool)

  ghost predicate SamePointer(files: Files, later: Files) {
    (PUBLISHED in files <==> PUBLISHED in later) && (PUBLISHED in files ==> later[PUBLISHED] == files[PUBLISHED])
  }

  /** Another run's files are as they were; what is new is the run's own. */
  ghost predicate TouchesOnlyOwn(files: Files, later: Files, run: Run) {
    var root, own := AttemptRoot(run), {PUBLISHED, Temporary(run.pid)};
    && (forall q :: q in files && q !in own ==> q in later && later[q] == files[q])
    && (forall q :: q in later && q !in files ==> root <= q || q in own)
  }

  /** Everything passes, and the pointer is in place and names two files intact in the attempt: the
      receipt, and the manifest of every configured capture and interaction. */
  ghost predicate PublishedBy(files: Files, run: Run, pointer: Content) {
    && AllPass(run)
    && PUBLISHED in files && files[PUBLISHED] == pointer
    && pointer.Document? && pointer.data == run.config && |pointer.refs| == 2 && AllHeld(files, AttemptRoot(run), pointer.refs)
    && IsReceipt(AttemptRoot(run), run, pointer.refs[0]) && IsManifest(AttemptRoot(run), run, pointer.refs[0], pointer.refs[1])
  }

  /** What a run may do to the tree: it never touches another run's files, it moves the pointer
      only to evidence that is intact, and a failure that cleans up leaves no attempt directory. */
  ghost predicate RunEffect(files: Files, dirs: set<Path>, files': Files, dirs': set<Path>, run: Run, outcome: Outcome) {
    && TouchesOnlyOwn(files, files', run)
    && match outcome
       case Succeeded(pointer) => AttemptRoot(run) !in dirs && PublishedBy(files', run, pointer)
       case Refused => files' == files
       case Failed(cleaned) =>
         && AttemptRoot(run) !in dirs && SamePointer(files, files')
         && (cleaned ==> forall q :: AttemptRoot(run) <= q ==> q !in files' && q !in dirs')
  }

  lemma PrefixTakes(root: Path, q: Path)
    ensures root <= q ==> q[..|root|] == root && (|root| == |q| ==> q == root)
  {}

  lemma FreshRootIsEmpty(files: Files, dirs: set<Path>, root: Path)
    requires WellFormed(files, dirs) && root != [] && root !in files && root !in dirs
    ensures forall q :: root <= q ==> q !in files && q !in dirs
  {
    forall q | q in files || q in dirs ensures !(root <= q) {
      PrefixTakes(root, q);
      if |root| < |q| {
        assert q[..|root|] in dirs;
      }
    }
  }

  lemma OwnPathsAreOutside(run: Run)
    ensures !(AttemptRoot(run) <= PUBLISHED) && !(AttemptRoot(run) <= Temporary(run.pid))
    ensures |AttemptRoot(run)| > 4 && RUNTIMES <= AttemptRoot(run)
    ensures !(RUNTIMES <= PUBLISHED) && !(RUNTIMES <= Temporary(run.pid))
    ensures PUBLISHED != Temporary(run.pid)
  {
    assert |Temporary(run.pid)[3]| > |PUBLISHED[3]|;
    assert RUNTIMES[3] == "browser-runtimes" && RUNTIMES[3][8] == 'r';
    assert PUBLISHED[3] == "browser-proof.json" && PUBLISHED[3][8] == 'p';
    assert Temporary(run.pid)[3][8] == 'p';
    assert AttemptRoot(run)[..4] == RUNTIMES;
  }

  lemma SameBlock(files: Files, dirs: set<Path>, later: Files, dirs': set<Path>, run: Run)
    requires AttemptRoot(run) in dirs && WellFormed(files, dirs) && WellFormed(later, dirs')
    requires DirsAdded(dirs, dirs', AttemptRoot(run))
    ensures PointerBlocked(later, dirs', run.pid) <==> PointerBlocked(files, dirs, run.pid)
  {
    OwnPathsAreOutside(run);
    var root := AttemptRoot(run);
    forall k | 0 < k <= |PROOF| ensures PROOF[..k] in dirs && PROOF[..k] in dirs' {
      assert PROOF[..k] == RUNTIMES[..k] == root[..k];
    }
  }

  /** The attempt directory is there and holds nothing. */
  ghost predicate IsEmpty(files: Files, dirs: set<Path>, root: Path) {
    root in dirs && forall q :: root <= q ==> q !in files && (q in dirs ==> q == root)
  }

  /** What keeps a run from succeeding when the system carries out every command. */
  ghost predicate Hopeless(files: Files, dirs: set<Path>, run: Run) {
    !AllPass(run) || !NamesDiffer(run) || PointerBlocked(files, dirs, run.pid)
  }

  /** The try block: evidence first, the pointer last. */
  method TryPublish(fs: FileSystem, run: Run) returns (pointer: Option<Content>)
    requires fs.Valid() && IsEmpty(fs.files, fs.dirs, AttemptRoot(run))
    modifies fs
    ensures fs.Valid() && TouchesOnlyOwn(old(fs.files), fs.files, run)
    ensures pointer.Some? ==> PublishedBy(fs.files, run, pointer.value)
    ensures pointer.None? ==> SamePointer(old(fs.files), fs.files)
    ensures pointer.Some? ==> fs.faults == old(fs.faults) && !Hopeless(old(fs.files), old(fs.dirs), run)
    ensures pointer.None? ==> FailedFor(Hopeless(old(fs.files), old(fs.dirs), run), old(fs.faults), fs.faults)
  {
    OwnPathsAreOutside(run);
    hide IsReceipt;
    hide IsManifest;
    hide AttemptRoot;
    hide AllPass;
    hide NamesDiffer;
    hide PointerBlocked;
    hide Producer.Only;
    hide Temporary;
    hide Held;
    ghost var reason := Hopeless(fs.files, fs.dirs, run);
    var producer := new Producer(fs, run);
    var bound := producer.EmitEvidence();
    ghost var evidence := fs.files;
    SameBlock(old(fs.files), old(fs.dirs), fs.files, fs.dirs, run);
    if bound.None? {
      FailedForMore(!AllPass(run) || !NamesDiffer(run), reason, old(fs.faults), fs.faults);
      return None;
    }
    var valid := fs.Parse();
    if !valid {
      return None;
    }
    var content := Document("pointer", [bound.value.0, bound.value.1], run.config);
    var ok := WritePointer(fs, run.pid, content);
    if !ok {
      return None;
    }
    AllHeldKept(evidence, fs.files, AttemptRoot(run), content.refs);
    pointer := Some(content);
  }

  /** A file stands where the attempt directory is to be made. */
  ghost predicate AttemptBlocked(files: Files, run: Run) {
    NoWay(files, AttemptRoot(run))
  }

  /** Produces one proof. It succeeds if and only if the attempt is new and its place free, every item
      passes, no two of its files share a name, nothing stands in the way of the pointer and the system
      fails no command. Any other run fails for one of these, and then cleans up unless the removal
      fails as well. */
  method Produce(fs: FileSystem, run: Run) returns (outcome: Outcome)
    requires fs.Valid()
    modifies fs
    ensures fs.Valid() && RunEffect(old(fs.files), old(fs.dirs), fs.files, fs.dirs, run, outcome)
    ensures outcome.Succeeded? <==>
      && AttemptRoot(run) !in old(fs.dirs) && !AttemptBlocked(old(fs.files), run)
      && AllPass(run) && NamesDiffer(run) && !PointerBlocked(old(fs.files), old(fs.dirs), run.pid)
      && fs.faults == old(fs.faults)
    ensures outcome.Refused? ==>
      FailedFor(AttemptRoot(run) in old(fs.dirs) || AttemptBlocked(old(fs.files), run), old(fs.faults), fs.faults)
    ensures outcome.Failed? ==>
      FailedFor(Hopeless(old(fs.files), old(fs.dirs), run), old(fs.faults) + Failures(outcome.cleaned), fs.faults)
  {
    var root := AttemptRoot(run);
    OwnPathsAreOutside(run);
    if root in fs.files || root in fs.dirs {
      RootBlocks(fs.files, run);
      return Refused;
    }
    FreshRootIsEmpty(fs.files, fs.dirs, root);
    hide AttemptRoot;
    hide NoWay;
    hide PublishedBy;
    hide AllPass;
    hide NamesDiffer;
    hide PointerBlocked;
    var ok := fs.Mkdir(root);
    if !ok {
      return Refused;
    }
    SameBlockBefore(old(fs.files), old(fs.dirs), fs.dirs, run);
    var pointer := TryPublish(fs, run);
    if pointer.Some? {
      return Succeeded(pointer.value);
    }
    var cleaned := fs.RemoveTree(root);
    outcome := Failed(cleaned);
  }

  lemma RootBlocks(files: Files, run: Run)
    ensures AttemptRoot(run) in files ==> AttemptBlocked(files, run)
  {
    var root := AttemptRoot(run);
    assert root[..|root|] == root && |root| > 0;
  }

  lemma SameBlockBefore(files: Files, dirs: set<Path>, dirs': set<Path>, run: Run)
    requires dirs <= dirs' && forall d :: d in dirs' ==> d in dirs || d <= AttemptRoot(run)
    ensures PointerBlocked(files, dirs', run.pid) <==> PointerBlocked(files, dirs, run.pid)
  {
    OwnPathsAreOutside(run);
    OwnPathsAreNoPrefix(run);
  }

  lemma OwnPathsAreNoPrefix(run: Run)
    ensures !(PUBLISHED <= AttemptRoot(run)) && !(Temporary(run.pid) <= AttemptRoot(run))
  {
    assert RUNTIMES[3] == "browser-runtimes" && RUNTIMES[3][8] == 'r';
    assert PUBLISHED[3] == "browser-proof.json" && PUBLISHED[3][8] == 'p';
    assert Temporary(run.pid)[3][8] == 'p';
    assert AttemptRoot(run)[3] == RUNTIMES[3];
  }

  // ---- any number of runs -------------------------------------------------------------------

  datatype Tree = Tree(files: Files, dirs: set<Path>)

  ghost predicate RunStep(t: Tree, t': Tree) {
    exists run, outcome :: RunEffect(t.files, t.dirs, t'.files, t'.dirs, run, outcome)
  }

  ghost predicate History(trees: seq<Tree>) {
    trees != [] && forall i :: 0 <= i < |trees| - 1 ==> RunStep(trees[i], trees[i + 1])
  }

  /** A run changes no file below the runtimes directory that was there before it. */
  lemma RunKeepsEvidence(t: Tree, t': Tree)
    requires RunStep(t, t')
    ensures Agree(t.files, t'.files, RUNTIMES)
  {
    var run, outcome :| RunEffect(t.files, t.dirs, t'.files, t'.dirs, run, outcome);
    OwnPathsAreOutside(run);
  }

  lemma RunKeepsPublished(t: Tree, t': Tree)
    requires RunStep(t, t') && Published(t.files)
    ensures Published(t'.files)
  {
    var run, outcome :| RunEffect(t.files, t.dirs, t'.files, t'.dirs, run, outcome);
    OwnPathsAreOutside(run);
    RunKeepsEvidence(t, t');
    if outcome.Succeeded? {
      forall a | a in outcome.pointer.refs ensures Held(t'.files, RUNTIMES, a) {
        InsideWider(AttemptRoot(run), RUNTIMES, a);
      }
    } else if PUBLISHED in t'.files {
      AllHeldKept(t.files, t'.files, RUNTIMES, t.files[PUBLISHED].refs);
    }
  }

  /** Over any history of succeeding and failing runs the pointer never dangles, and evidence once
      published stays intact even after later runs have moved the pointer on. */
  lemma {:induction false} HistoryIsSafe(trees: seq<Tree>, i: nat, k: nat)
    requires History(trees) && i <= k < |trees| && Published(trees[i].files)
    ensures Published(trees[k].files)
    ensures PUBLISHED in trees[i].files ==> AllHeld(trees[k].files, RUNTIMES, trees[i].files[PUBLISHED].refs)
    decreases k
  {
    if i < k {
      HistoryIsSafe(trees, i, k - 1);
      assert RunStep(trees[k - 1], trees[k]);
      hide History;
      hide RunStep;
      hide Held;
      RunKeepsPublished(trees[k - 1], trees[k]);
      RunKeepsEvidence(trees[k - 1], trees[k]);
      if PUBLISHED in trees[i].files {
        AllHeldKept(trees[k - 1].files, trees[k].files, RUNTIMES, trees[i].files[PUBLISHED].refs);
      }
    }
  }
}
