/** Source-root selection: a directory walk that carves excluded directories out of a tree and
    keeps each maximal remaining part as one root. */
module SourceRoots {
  import opened Options

  type Path = seq<string>
  datatype Tree = File | Dir(entries: seq<Entry>)
  datatype Entry = Entry(name: string, tree: Tree)

  const GENERATED: set<string> :=
    {".git", ".dart_tool", ".gradle", ".next", "build", "DerivedData", "dist", "node_modules"}

  /** A directory lists each name once, at every depth. */
  ghost predicate Named(t: Tree)
    decreases t
  {
    t.Dir? ==>
      && (forall i, j :: 0 <= i < j < |t.entries| ==> t.entries[i].name != t.entries[j].name)
      && forall e :: e in t.entries ==> Named(e.tree)
  }

  predicate InTree(t: Tree, p: Path)
    decreases p
  {
    p == [] || (t.Dir? && exists e :: e in t.entries && e.name == p[0] && InTree(e.tree, p[1..]))
  }

  predicate Holds(exclusions: seq<Path>, target: Path) {
    exists e :: e in exclusions && target < e
  }

  function Prefix(name: string, paths: seq<Path>): (r: seq<Path>)
    ensures |r| == |paths| && forall i :: 0 <= i < |r| ==> r[i] == [name] + paths[i]
  {
    seq(|paths|, i requires 0 <= i < |paths| => [name] + paths[i])
  }

  /** The roots below a directory, as paths relative to it; reading a file as a directory fails. */
  function Walk(exclusions: seq<Path>, at: Path, t: Tree): Option<seq<Path>>
    decreases t, 1
  {
    match t
    case File => None
    case Dir(entries) => WalkEntries(exclusions, at, entries)
  }

  function WalkEntries(exclusions: seq<Path>, at: Path, entries: seq<Entry>): Option<seq<Path>>
    decreases entries, 0
  {
    if entries == [] then Some([])
    else Join(WalkEntry(exclusions, at, entries[0]), WalkEntries(exclusions, at, entries[1..]))
  }

  function WalkEntry(exclusions: seq<Path>, at: Path, e: Entry): Option<seq<Path>>
    decreases e, 2
  {
    var target := at + [e.name];
    if e.name in GENERATED || target in exclusions then Some([])
    else if !Holds(exclusions, target) then Some([[e.name]])
    else match Walk(exclusions, target, e.tree)
      case None => None
      case Some(below) => Some(Prefix(e.name, below))
  }

  function Join(a: Option<seq<Path>>, b: Option<seq<Path>>): Option<seq<Path>> {
    if a.Some? && b.Some? then Some(a.value + b.value) else None
  }

  lemma Unfold(exclusions: seq<Path>, at: Path, entries: seq<Entry>, i: nat)
    requires i < |entries|
    ensures WalkEntries(exclusions, at, entries[i..])
      == Join(WalkEntry(exclusions, at, entries[i]), WalkEntries(exclusions, at, entries[i + 1..]))
  {}

  class Selection {
    const root: Path
    const exclusions: seq<Path>
    var roots: seq<Path>

    constructor (root: Path, exclusions: seq<Path>)
      ensures this.root == root && this.exclusions == exclusions && roots == []
    {
      this.root, this.exclusions, roots := root, exclusions, [];
    }

    method Visit(directory: Path, t: Tree) returns (ok: bool)
      modifies this
      ensures ok <==> Walk(exclusions, root + directory, t).Some?
      ensures ok ==> roots == old(roots) + Below(directory, Walk(exclusions, root + directory, t).value)
      decreases t, 1
    {
      if t.File? {
        return false;
      }
      var at := root + directory;
      ghost var whole := WalkEntries(exclusions, at, t.entries);
      ghost var done: seq<Path> := [];
      assert Below(directory, done) == [];
      hide WalkEntries;
      hide WalkEntry;
      hide Walk;
      hide Holds;
      hide Below;
      assert t.entries[0..] == t.entries && (whole.Some? ==> [] + whole.value == whole.value);
      for i := 0 to |t.entries|
        invariant roots == old(roots) + Below(directory, done)
        invariant whole == Join(Some(done), WalkEntries(exclusions, at, t.entries[i..]))
      {
        var e := t.entries[i];
        Unfold(exclusions, at, t.entries, i);
        ghost var here := WalkEntry(exclusions, at, e);
        ok := VisitEntry(directory, e);
        if !ok {
          return;
        }
        BelowConcat(directory, done, here.value);
        JoinAssociates(done, here.value, WalkEntries(exclusions, at, t.entries[i + 1..]));
        done := done + here.value;
      }
      EmptyWalk(exclusions, at, t.entries[|t.entries|..]);
      assert done + [] == done;
      ok := true;
    }

    /** One pass of the loop body. */
    method VisitEntry(directory: Path, e: Entry) returns (ok: bool)
      modifies this
      ensures ok <==> WalkEntry(exclusions, root + directory, e).Some?
      ensures ok ==> roots == old(roots) + Below(directory, WalkEntry(exclusions, root + directory, e).value)
      decreases e, 0
    {
      var target := root + directory + [e.name];
      if e.name in GENERATED || target in exclusions {
        return true;
      }
      if !Holds(exclusions, target) {
        roots := roots + [directory + [e.name]];
        return true;
      }
      assert root + (directory + [e.name]) == target;
      ok := Visit(directory + [e.name], e.tree);
      if ok {
        BelowPrefix(directory, e.name, Walk(exclusions, target, e.tree).value);
      }
    }
  }

  lemma JoinAssociates(a: seq<Path>, b: seq<Path>, c: Option<seq<Path>>)
    ensures Join(Some(a), Join(Some(b), c)) == Join(Some(a + b), c)
  {
    if c.Some? {
      assert a + (b + c.value) == (a + b) + c.value;
    }
  }

  lemma EmptyWalk(exclusions: seq<Path>, at: Path, entries: seq<Entry>)
    requires entries == []
    ensures WalkEntries(exclusions, at, entries) == Some([])
  {}

  function Below(directory: Path, paths: seq<Path>): seq<Path> {
    seq(|paths|, i requires 0 <= i < |paths| => directory + paths[i])
  }

  lemma BelowPrefix(directory: Path, name: string, paths: seq<Path>)
    ensures Below(directory + [name], paths) == Below(directory, Prefix(name, paths))
  {
    forall i | 0 <= i < |paths| ensures (directory + [name]) + paths[i] == directory + ([name] + paths[i]) {}
  }

  lemma BelowConcat(directory: Path, a: seq<Path>, b: seq<Path>)
    ensures Below(directory, a + b) == Below(directory, a) + Below(directory, b)
  {}

  lemma BelowNothing(paths: seq<Path>)
    ensures Below([], paths) == paths
  {
    forall i | 0 <= i < |paths| ensures [] + paths[i] == paths[i] {}
  }

  datatype Selected = Roots(roots: seq<Path>) | OutputIsRoot | NotADirectory | NothingFound

  /** Selects the roots of a tree, relative to it. */
  method SourceSelection(root: Path, t: Tree, exclusions: seq<Path>) returns (r: Selected)
    ensures root in exclusions <==> r.OutputIsRoot?
    ensures r.NotADirectory? <==> root !in exclusions && Walk(exclusions, root, t).None?
    ensures r.NothingFound? <==> root !in exclusions && Walk(exclusions, root, t) == Some([])
    ensures r.Roots? ==> Walk(exclusions, root, t) == Some(r.roots) && r.roots != []
  {
    if root in exclusions {
      return OutputIsRoot;
    }
    var selection := new Selection(root, exclusions);
    assert root + [] == root;
    var ok := selection.Visit([], t);
    if !ok {
      return NotADirectory;
    }
    if Walk(exclusions, root, t).Some? {
      BelowNothing(Walk(exclusions, root, t).value);
      assert selection.roots == Walk(exclusions, root, t).value;
    }
    if selection.roots == [] {
      return NothingFound;
    }
    r := Roots(selection.roots);
  }

  // ---- what the roots are -------------------------------------------------------------------

  predicate Clear(exclusions: seq<Path>, target: Path) {
    forall e :: e in exclusions ==> !(target <= e)
  }

  /** A root is a first place on its path with no exclusion at or below it, reached through
      directories that hold one and through no generated name. */
  predicate IsRoot(exclusions: seq<Path>, at: Path, t: Tree, p: Path) {
    && p != [] && InTree(t, p)
    && (forall i :: 0 <= i < |p| ==> p[i] !in GENERATED)
    && Clear(exclusions, at + p)
    && forall k :: 0 < k < |p| ==> at + p[..k] !in exclusions && Holds(exclusions, at + p[..k])
  }

  predicate IsRootOf(exclusions: seq<Path>, at: Path, entries: seq<Entry>, p: Path) {
    IsRoot(exclusions, at, Dir(entries), p)
  }

  lemma ClearCases(exclusions: seq<Path>, target: Path)
    ensures Clear(exclusions, target) <==> target !in exclusions && !Holds(exclusions, target)
  {
    forall e | e in exclusions ensures target <= e <==> target == e || target < e {}
    assert target in exclusions ==> target <= target;
  }

  lemma RootStep(exclusions: seq<Path>, at: Path, e: Entry, rest: seq<Entry>, p: Path)
    requires p != [] && p[0] == e.name && forall x :: x in rest ==> x.name != e.name
    ensures IsRootOf(exclusions, at, [e] + rest, p) <==>
      && e.name !in GENERATED && at + [e.name] !in exclusions
      && (if p == [e.name] then !Holds(exclusions, at + [e.name])
          else Holds(exclusions, at + [e.name]) && IsRoot(exclusions, at + [e.name], e.tree, p[1..]))
  {
    var entries := [e] + rest;
    var q, below := p[1..], at + [e.name];
    assert InTree(Dir(entries), p) <==> InTree(e.tree, q) by {
      assert e in entries;
      assert forall x :: x in entries ==> x == e || x in rest;
    }
    assert at + p == below + q && p == [e.name] + q;
    assert forall k :: 0 < k < |p| ==> at + p[..k] == below + q[..k - 1];
    ClearCases(exclusions, below);
    if p == [e.name] {
      assert at + p == below && InTree(e.tree, q);
      assert forall i :: 0 <= i < |p| ==> p[i] == e.name;
    } else {
      assert below + q[..0] == below;
      if IsRootOf(exclusions, at, entries, p) {
        assert at + p[..1] == below;
        forall k | 0 < k < |q| ensures below + q[..k] !in exclusions && Holds(exclusions, below + q[..k]) {
          assert at + p[..k + 1] == below + q[..k];
        }
      }
    }
  }

  lemma OtherEntry(exclusions: seq<Path>, at: Path, e: Entry, rest: seq<Entry>, p: Path)
    requires p == [] || p[0] != e.name
    ensures IsRootOf(exclusions, at, [e] + rest, p) <==> IsRootOf(exclusions, at, rest, p)
  {}

  /** The walk collects exactly the roots. */
  lemma {:induction false} WalkIsExact(exclusions: seq<Path>, at: Path, t: Tree, p: Path)
    requires Named(t) && Walk(exclusions, at, t).Some?
    ensures p in Walk(exclusions, at, t).value <==> IsRoot(exclusions, at, t, p)
    decreases t, 1
  {
    EntriesAreExact(exclusions, at, t.entries, p);
    assert t == Dir(t.entries);
  }

  lemma {:induction false} EntriesAreExact(exclusions: seq<Path>, at: Path, entries: seq<Entry>, p: Path)
    requires Named(Dir(entries)) && WalkEntries(exclusions, at, entries).Some?
    ensures p in WalkEntries(exclusions, at, entries).value <==> IsRootOf(exclusions, at, entries, p)
    decreases entries, 0
  {
    if entries != [] {
      var e, rest := entries[0], entries[1..];
      assert entries == [e] + rest && e in entries;
      assert forall x :: x in rest ==> x in entries && x.name != e.name;
      EntriesAreExact(exclusions, at, rest, p);
      EntryIsExact(exclusions, at, e, rest, p);
      if p == [] || p[0] != e.name {
        OtherEntry(exclusions, at, e, rest, p);
      }
    }
  }

  lemma {:induction false} EntryIsExact(exclusions: seq<Path>, at: Path, e: Entry, rest: seq<Entry>, p: Path)
    requires Named(e.tree) && WalkEntry(exclusions, at, e).Some?
    requires forall x :: x in rest ==> x.name != e.name
    ensures p in WalkEntry(exclusions, at, e).value <==>
      p != [] && p[0] == e.name && IsRootOf(exclusions, at, [e] + rest, p)
    ensures p != [] && p[0] == e.name ==> !IsRootOf(exclusions, at, rest, p)
    decreases e, 2
  {
    var target := at + [e.name];
    if p != [] && p[0] == e.name {
      RootStep(exclusions, at, e, rest, p);
      assert !InTree(Dir(rest), p);
    }
    hide IsRoot;
    hide Walk;
    if e.name !in GENERATED && target !in exclusions && Holds(exclusions, target) {
      var below := Walk(exclusions, target, e.tree).value;
      if p != [] && p[0] == e.name {
        assert p == [e.name] + p[1..];
        WalkIsExact(exclusions, target, e.tree, p[1..]);
        InPrefix(e.name, below, p[1..]);
        if p == [e.name] {
          RootIsNotEmpty(exclusions, target, e.tree);
        }
      }
      assert forall x :: x in Prefix(e.name, below) ==> x != [] && x[0] == e.name;
    }
  }

  lemma RootIsNotEmpty(exclusions: seq<Path>, at: Path, t: Tree)
    ensures !IsRoot(exclusions, at, t, [])
  {}

  lemma InPrefix(name: string, paths: seq<Path>, p: Path)
    ensures [name] + p in Prefix(name, paths) <==> p in paths
  {
    if p in paths {
      var i :| 0 <= i < |paths| && paths[i] == p;
      assert Prefix(name, paths)[i] == [name] + p;
    }
    if [name] + p in Prefix(name, paths) {
      var i :| 0 <= i < |paths| && Prefix(name, paths)[i] == [name] + p;
      assert paths[i] == ([name] + paths[i])[1..] == ([name] + p)[1..] == p;
    }
  }

  lemma PrefixOfPrefix(at: Path, p: Path, k: nat)
    requires k <= |p|
    ensures at + p[..k] <= at + p
  {}

  lemma Takes(p: Path, q: Path)
    ensures p <= q <==> |p| <= |q| && q[..|p|] == p
  {}

  /** A prefix of a joined path ends in its first part or in its second. */
  lemma PrefixCases(at: Path, p: Path, e: Path)
    requires e <= at + p
    ensures e <= at || (|at| < |e| <= |at| + |p| && e == at + p[..|e| - |at|])
  {}

  lemma InsideRoot(exclusions: seq<Path>, at: Path, t: Tree, p: Path, k: int)
    requires IsRoot(exclusions, at, t, p)
    ensures 0 < k < |p| ==> at + p[..k] !in exclusions && !Clear(exclusions, at + p[..k])
    ensures k == |p| ==> p[..k] == p
  {}

  /** No root lies inside another. */
  lemma RootsAreSeparate(exclusions: seq<Path>, at: Path, t: Tree, p: Path, q: Path)
    requires IsRoot(exclusions, at, t, p) && IsRoot(exclusions, at, t, q) && p <= q
    ensures p == q
  {
    Takes(p, q);
    InsideRoot(exclusions, at, t, q, |p|);
  }

  /** No root equals or contains an exclusion, and none lies under one - unless an exclusion is a
      proper ancestor of the whole tree, which the selection does not look for. */
  lemma RootsAvoidExclusions(exclusions: seq<Path>, at: Path, t: Tree, p: Path)
    requires IsRoot(exclusions, at, t, p) && at !in exclusions
    ensures forall e :: e in exclusions ==> !(at + p <= e)
    ensures (exists e :: e in exclusions && e <= at + p) <==> (exists e :: e in exclusions && e < at)
  {
    forall e | e in exclusions && e <= at + p ensures e < at {
      PrefixCases(at, p, e);
      InsideRoot(exclusions, at, t, p, |e| - |at|);
      assert !(at + p <= e) && e != at;
    }
    forall e | e in exclusions && e < at ensures e <= at + p {
      assert (at + p)[..|e|] == at[..|e|];
    }
  }

  predicate CoveredBy(p: Path, r: Path) {
    r <= p
  }

  /** An exclusion the selection looks for: one that does not lie above the whole tree. */
  predicate Meets(at: Path, e: Path, p: Path) {
    !(e < at) && (e <= at + p || at + p <= e)
  }

  /** A path free of generated names is covered exactly when no exclusion but one above the whole
      tree is comparable with it: neither the path nor an ancestor of it is excluded, and it is
      itself no ancestor of an exclusion. */
  lemma CoverIsExact(exclusions: seq<Path>, at: Path, t: Tree, p: Path)
    requires InTree(t, p) && p != [] && (forall i :: 0 <= i < |p| ==> p[i] !in GENERATED)
    requires at !in exclusions
    ensures (exists r :: IsRoot(exclusions, at, t, r) && CoveredBy(p, r))
      <==> (forall e :: e in exclusions ==> !Meets(at, e, p))
  {
    if r :| IsRoot(exclusions, at, t, r) && CoveredBy(p, r) {
      forall e | e in exclusions ensures !Meets(at, e, p) {
        if !(e < at) {
          Properly(e, at);
          CoveredPathIsClear(exclusions, at, t, p, r, e);
        }
      }
    }
    if forall e :: e in exclusions ==> !Meets(at, e, p) {
      UnmetIsClear(exclusions, at, p);
      var k := FirstClear(exclusions, at, p);
      FirstClearIsRoot(exclusions, at, t, p, k);
      assert CoveredBy(p, p[..k]);
    }
  }

  lemma Properly(e: Path, at: Path)
    requires e != at && !(e < at)
    ensures !(e <= at)
  {}

  lemma UnmetIsClear(exclusions: seq<Path>, at: Path, p: Path)
    requires p != [] && forall e :: e in exclusions ==> !Meets(at, e, p)
    ensures Clear(exclusions, at + p)
  {
    forall e | e in exclusions ensures !(at + p <= e) {
      if e < at { assert |e| < |at + p|; }
    }
  }

  lemma FirstClearIsRoot(exclusions: seq<Path>, at: Path, t: Tree, p: Path, k: nat)
    requires InTree(t, p) && (forall i :: 0 <= i < |p| ==> p[i] !in GENERATED)
    requires forall e :: e in exclusions ==> !Meets(at, e, p)
    requires 0 < k <= |p| && Clear(exclusions, at + p[..k]) && forall j :: 0 < j < k ==> !Clear(exclusions, at + p[..j])
    ensures IsRoot(exclusions, at, t, p[..k])
  {
    var r := p[..k];
    InTreePrefix(t, p, k);
    forall j | 0 < j < k ensures at + r[..j] !in exclusions && Holds(exclusions, at + r[..j]) {
      assert r[..j] == p[..j];
      PrefixOfPrefix(at, p, j);
      var e :| e in exclusions && at + p[..j] <= e;
    }
  }

  lemma CoveredPathIsClear(exclusions: seq<Path>, at: Path, t: Tree, p: Path, r: Path, e: Path)
    requires IsRoot(exclusions, at, t, r) && r <= p && e in exclusions && !(e <= at)
    ensures !(e <= at + p) && !(at + p <= e)
  {
    RelateCover(at, p, r, e);
    if k :| 0 < k < |r| && e == at + r[..k] {
      InsideRoot(exclusions, at, t, r, k);
    }
  }

  lemma RelateCover(at: Path, p: Path, r: Path, e: Path)
    requires r <= p && !(e <= at)
    ensures at + p <= e ==> at + r <= e
    ensures e <= at + p ==> at + r <= e || exists k :: 0 < k < |r| && e == at + r[..k]
  {
    assert at + r <= at + p by { assert p[..|r|] == r; PrefixOfPrefix(at, p, |r|); }
    if e <= at + p {
      PrefixCases(at, p, e);
      var k := |e| - |at|;
      if k < |r| {
        assert p[..k] == r[..k];
      } else {
        assert at + r == (at + p)[..|at| + |r|] == e[..|at| + |r|];
      }
    }
  }

  lemma {:induction false} InTreePrefix(t: Tree, p: Path, k: nat)
    requires InTree(t, p) && k <= |p|
    ensures InTree(t, p[..k])
    decreases p
  {
    if k > 0 {
      var e :| e in t.entries && e.name == p[0] && InTree(e.tree, p[1..]);
      InTreePrefix(e.tree, p[1..], k - 1);
      assert p[..k][1..] == p[1..][..k - 1];
    }
  }

  lemma FirstClear(exclusions: seq<Path>, at: Path, p: Path) returns (k: nat)
    requires p != [] && Clear(exclusions, at + p)
    ensures 0 < k <= |p| && Clear(exclusions, at + p[..k])
    ensures forall j :: 0 < j < k ==> !Clear(exclusions, at + p[..j])
  {
    k := 1;
    assert p[..|p|] == p;
    while !Clear(exclusions, at + p[..k])
      invariant 0 < k <= |p| && forall j :: 0 < j < k ==> !Clear(exclusions, at + p[..j])
      decreases |p| - k
    {
      k := k + 1;
    }
  }

  /** Every covered path lies under one root only. */
  lemma CoverIsUnique(exclusions: seq<Path>, at: Path, t: Tree, p: Path, r: Path, r': Path)
    requires IsRoot(exclusions, at, t, r) && IsRoot(exclusions, at, t, r')
    requires CoveredBy(p, r) && CoveredBy(p, r')
    ensures r == r'
  {
    if |r| <= |r'| {
      assert r == p[..|r|] == r'[..|r|];
      RootsAreSeparate(exclusions, at, t, r, r');
    } else {
      assert r' == p[..|r'|] == r[..|r'|];
      RootsAreSeparate(exclusions, at, t, r', r);
    }
  }

  /** The selected roots are an exact cover: a path free of generated names lies under a root when
      and only when it is incomparable with every exclusion but one above the whole tree, and then
      under one root only. */
  lemma SelectionIsExactCover(root: Path, t: Tree, exclusions: seq<Path>, roots: seq<Path>, p: Path)
    requires Named(t) && Walk(exclusions, root, t) == Some(roots)
    requires root !in exclusions
    requires InTree(t, p) && p != [] && (forall i :: 0 <= i < |p| ==> p[i] !in GENERATED)
    ensures (exists r :: r in roots && CoveredBy(p, r)) <==>
      (forall e :: e in exclusions ==> !Meets(root, e, p))
    ensures forall r, r' :: r in roots && r' in roots && CoveredBy(p, r) && CoveredBy(p, r') ==> r == r'
  {
    forall r ensures r in roots <==> IsRoot(exclusions, root, t, r) {
      WalkIsExact(exclusions, root, t, r);
    }
    CoverIsExact(exclusions, root, t, p);
    forall r, r' | r in roots && r' in roots && CoveredBy(p, r) && CoveredBy(p, r') ensures r == r' {
      CoverIsUnique(exclusions, root, t, p, r, r');
    }
  }

  // ---- what is passed over, listed twice or refused -----------------------------------------

  /** The names the walk passes over, whatever they are. */
  lemma GeneratedNames(name: string)
    ensures name in GENERATED <==>
      || name == ".git" || name == ".dart_tool" || name == ".gradle" || name == ".next"
      || name == "build" || name == "DerivedData" || name == "dist" || name == "node_modules"
  {}

  ghost predicate Distinct(paths: seq<Path>) {
    forall i, j :: 0 <= i < j < |paths| ==> paths[i] != paths[j]
  }

  lemma {:induction false} WalkedNames(exclusions: seq<Path>, at: Path, entries: seq<Entry>)
    requires WalkEntries(exclusions, at, entries).Some?
    ensures forall p :: p in WalkEntries(exclusions, at, entries).value ==> p != [] && exists e :: e in entries && e.name == p[0]
    decreases |entries|
  {
    if entries != [] {
      var e, rest := entries[0], entries[1..];
      WalkedNames(exclusions, at, rest);
      WalkedName(exclusions, at, e);
      hide WalkEntry;
      assert entries == [e] + rest;
    }
  }

  lemma WalkedName(exclusions: seq<Path>, at: Path, e: Entry)
    requires WalkEntry(exclusions, at, e).Some?
    ensures forall p :: p in WalkEntry(exclusions, at, e).value ==> p != [] && p[0] == e.name
  {}

  lemma DistinctConcat(a: seq<Path>, b: seq<Path>, name: string)
    requires Distinct(a) && Distinct(b)
    requires (forall p :: p in a ==> p != [] && p[0] == name) && (forall p :: p in b ==> p != [] && p[0] != name)
    ensures Distinct(a + b)
  {
    var all := a + b;
    forall i, j | 0 <= i < j < |all| ensures all[i] != all[j] {
      if i < |a| <= j {
        assert all[i] in a && all[j] in b;
      }
    }
  }

  /** No root is listed twice. */
  lemma {:induction false} WalkIsDistinct(exclusions: seq<Path>, at: Path, t: Tree)
    requires Named(t) && Walk(exclusions, at, t).Some?
    ensures Distinct(Walk(exclusions, at, t).value)
    decreases t, 1
  {
    EntriesAreDistinct(exclusions, at, t.entries);
  }

  lemma {:induction false} EntriesAreDistinct(exclusions: seq<Path>, at: Path, entries: seq<Entry>)
    requires Named(Dir(entries)) && WalkEntries(exclusions, at, entries).Some?
    ensures Distinct(WalkEntries(exclusions, at, entries).value)
    decreases entries, 0
  {
    if entries != [] {
      var e, rest := entries[0], entries[1..];
      assert entries == [e] + rest && e in entries;
      assert forall x :: x in rest ==> x in entries && x.name != e.name;
      EntriesAreDistinct(exclusions, at, rest);
      EntryIsDistinct(exclusions, at, e);
      WalkedName(exclusions, at, e);
      WalkedNames(exclusions, at, rest);
      DistinctConcat(WalkEntry(exclusions, at, e).value, WalkEntries(exclusions, at, rest).value, e.name);
      hide WalkEntry;
    }
  }

  lemma {:induction false} EntryIsDistinct(exclusions: seq<Path>, at: Path, e: Entry)
    requires Named(e.tree) && WalkEntry(exclusions, at, e).Some?
    ensures Distinct(WalkEntry(exclusions, at, e).value)
    decreases e, 2
  {
    var target := at + [e.name];
    if e.name !in GENERATED && target !in exclusions && Holds(exclusions, target) {
      WalkIsDistinct(exclusions, target, e.tree);
      var below := Walk(exclusions, target, e.tree).value;
      hide Walk;
      forall i, j | 0 <= i < j < |below| ensures Prefix(e.name, below)[i] != Prefix(e.name, below)[j] {
        assert Prefix(e.name, below)[i][1..] == below[i] && Prefix(e.name, below)[j][1..] == below[j];
      }
    }
  }

  /** A file of the tree. */
  predicate FileAt(t: Tree, p: Path)
    decreases p
  {
    if p == [] then t.File? else t.Dir? && exists e :: e in t.entries && e.name == p[0] && FileAt(e.tree, p[1..])
  }

  /** Every place on the path is looked into: it holds an exclusion and is neither one nor generated. */
  predicate LookedInto(exclusions: seq<Path>, at: Path, p: Path) {
    forall k :: 0 < k <= |p| ==> p[k - 1] !in GENERATED && at + p[..k] !in exclusions && Holds(exclusions, at + p[..k])
  }

  ghost predicate FileLookedInto(exclusions: seq<Path>, at: Path, t: Tree, p: Path) {
    FileAt(t, p) && LookedInto(exclusions, at, p)
  }

  lemma LookedStep(exclusions: seq<Path>, at: Path, name: string, q: Path)
    ensures LookedInto(exclusions, at, [name] + q) <==>
      name !in GENERATED && at + [name] !in exclusions && Holds(exclusions, at + [name]) && LookedInto(exclusions, at + [name], q)
  {
    var p := [name] + q;
    assert p[..1] == [name];
    forall k | 0 < k <= |q| ensures at + p[..k + 1] == at + [name] + q[..k] && p[k] == q[k - 1] {
      assert p[..k + 1] == [name] + q[..k];
    }
    if LookedInto(exclusions, at, p) {
      assert p[0] == name;
      forall k | 0 < k <= |q|
        ensures q[k - 1] !in GENERATED && at + [name] + q[..k] !in exclusions && Holds(exclusions, at + [name] + q[..k])
      {
        assert p[k + 1 - 1] !in GENERATED && at + p[..k + 1] !in exclusions && Holds(exclusions, at + p[..k + 1]);
      }
    }
    if name !in GENERATED && at + [name] !in exclusions && Holds(exclusions, at + [name]) && LookedInto(exclusions, at + [name], q) {
      forall k | 0 < k <= |p| ensures p[k - 1] !in GENERATED && at + p[..k] !in exclusions && Holds(exclusions, at + p[..k]) {
        if k > 1 {
          assert at + p[..k - 1 + 1] == at + [name] + q[..k - 1];
        }
      }
    }
  }

  /** The walk is refused if and only if it comes to look into a file: one that an exclusion claims
      to lie in. */
  lemma {:induction false} WalkFailsExactly(exclusions: seq<Path>, at: Path, t: Tree)
    ensures Walk(exclusions, at, t).None? <==> exists p :: FileLookedInto(exclusions, at, t, p)
    decreases t, 1
  {
    if t.File? {
      assert FileLookedInto(exclusions, at, t, []);
    } else {
      EntriesFailExactly(exclusions, at, t.entries);
      assert t == Dir(t.entries);
    }
  }

  lemma {:induction false} EntriesFailExactly(exclusions: seq<Path>, at: Path, entries: seq<Entry>)
    ensures WalkEntries(exclusions, at, entries).None? <==> exists p :: FileLookedInto(exclusions, at, Dir(entries), p)
    decreases entries, 0
  {
    if entries != [] {
      var e, rest := entries[0], entries[1..];
      assert entries == [e] + rest && e in entries;
      EntriesFailExactly(exclusions, at, rest);
      EntryFailsExactly(exclusions, at, e);
      hide WalkEntry;
      hide LookedInto;
      if p :| FileLookedInto(exclusions, at, Dir(entries), p) {
        FileInEntries(e, rest, p);
        assert FileLookedInto(exclusions, at, Dir([e]), p) || FileLookedInto(exclusions, at, Dir(rest), p);
      }
      if p :| FileLookedInto(exclusions, at, Dir([e]), p) {
        FileInEntries(e, rest, p);
        assert FileLookedInto(exclusions, at, Dir(entries), p);
      }
      if p :| FileLookedInto(exclusions, at, Dir(rest), p) {
        FileInEntries(e, rest, p);
        assert FileLookedInto(exclusions, at, Dir(entries), p);
      }
    }
  }

  lemma FileInEntries(e: Entry, rest: seq<Entry>, p: Path)
    ensures FileAt(Dir([e] + rest), p) <==> FileAt(Dir([e]), p) || FileAt(Dir(rest), p)
  {
    assert forall x :: x in [e] + rest <==> x == e || x in rest;
    assert e in [e];
  }

  lemma {:induction false} EntryFailsExactly(exclusions: seq<Path>, at: Path, e: Entry)
    ensures WalkEntry(exclusions, at, e).None? <==> exists p :: FileLookedInto(exclusions, at, Dir([e]), p)
    decreases e, 2
  {
    var target := at + [e.name];
    if e.name !in GENERATED && target !in exclusions && Holds(exclusions, target) {
      WalkFailsExactly(exclusions, target, e.tree);
    }
    hide Walk;
    forall p ensures FileLookedInto(exclusions, at, Dir([e]), p) <==>
      p != [] && p[0] == e.name && e.name !in GENERATED && target !in exclusions && Holds(exclusions, target)
      && FileLookedInto(exclusions, target, e.tree, p[1..])
    {
      assert e in [e];
      if p != [] && p[0] == e.name {
        assert p == [e.name] + p[1..];
        LookedStep(exclusions, at, e.name, p[1..]);
      }
    }
    if q :| FileLookedInto(exclusions, target, e.tree, q) {
      assert ([e.name] + q)[1..] == q && ([e.name] + q)[0] == e.name;
    }
  }
}
