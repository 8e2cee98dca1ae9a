/** The task-skill export: the files its references lead to are gathered over a work list, and
    every link of every gathered document is rewritten for the place the document moves to. */
module ExportPackage {
  import opened Graphs
  import opened Links
  import opened LinkText
  import opened Options
  import opened Sequences

  type Document = seq<Piece>

  /** The declared reference paths, and the texts of the files that may be read. */
  datatype Repository = Repository(known: set<string>, files: map<string, string>)

  datatype Failure = BadRevision | Undeclared(file: string) | TooMany | Unreadable(file: string) | BadLink(file: string)
  datatype Result<T> = Ok(value: T) | Err(failure: Failure)

  const LIMIT := 512

  predicate Admissible(repo: Repository, file: string) {
    "knowledge/" <= file && file in repo.known
  }

  /** The known file one piece of a document links to; nothing if its link is refused. */
  function PieceTargets(decode: Decoder, repo: Repository, file: string, piece: Piece): Option<seq<string>> {
    match piece
    case Skipped(_) => Some([])
    case Link(_, url, _) =>
      match ResolveLink(decode, file, url)
      case Refused => None
      case NotLocal => Some([])
      case Local(f, _) => Some(if f in repo.known then [f] else [])
  }

  function Append(a: Option<seq<string>>, b: Option<seq<string>>): Option<seq<string>> {
    if a.None? || b.None? then None else Some(a.value + b.value)
  }

  /** The known files a document links to, in order; nothing if one of its links is refused. */
  function Targets(decode: Decoder, repo: Repository, file: string, doc: Document): Option<seq<string>> {
    if doc == [] then Some([])
    else Append(PieceTargets(decode, repo, file, doc[0]), Targets(decode, repo, file, doc[1..]))
  }

  function LinkGraph(decode: Decoder, repo: Repository): Graph {
    map f | f in repo.files && Targets(decode, repo, f, Scan(repo.files[f])).Some?
      :: Targets(decode, repo, f, Scan(repo.files[f])).value
  }

  /** A file that may go into the package. */
  predicate Bundled(decode: Decoder, repo: Repository, file: string) {
    Admissible(repo, file) && file in repo.files && Targets(decode, repo, file, Scan(repo.files[file])).Some?
  }

  ghost predicate Needed(decode: Decoder, repo: Repository, roots: seq<string>, file: string) {
    ReachedFrom(LinkGraph(decode, repo), roots, file)
  }

  /** No more than the limit are within reach. */
  ghost predicate WithinLimit(decode: Decoder, repo: Repository, roots: seq<string>) {
    forall ids :: NoDup(ids) && (forall x :: x in ids ==> Needed(decode, repo, roots, x)) ==> |ids| <= 512
  }

  ghost predicate CanExport(decode: Decoder, repo: Repository, roots: seq<string>) {
    WithinLimit(decode, repo, roots) && forall x :: Needed(decode, repo, roots, x) ==> Bundled(decode, repo, x)
  }

  ghost predicate Explains(decode: Decoder, repo: Repository, roots: seq<string>, failure: Failure) {
    match failure
    case BadRevision => false
    case Undeclared(f) => Needed(decode, repo, roots, f) && !Admissible(repo, f)
    case TooMany => !WithinLimit(decode, repo, roots)
    case Unreadable(f) => Needed(decode, repo, roots, f) && f !in repo.files
    case BadLink(f) => Needed(decode, repo, roots, f) && f in repo.files && Targets(decode, repo, f, Scan(repo.files[f])).None?
  }

  lemma AppendAssociates(a: Option<seq<string>>, b: Option<seq<string>>, c: Option<seq<string>>)
    ensures Append(a, Append(b, c)) == Append(Append(a, b), c)
  {
    if a.Some? && b.Some? && c.Some? {
      assert a.value + (b.value + c.value) == a.value + b.value + c.value;
    }
  }

  lemma AppendUnit(a: Option<seq<string>>)
    ensures Append(a, Some([])) == a && Append(Some([]), a) == a
  {
    if a.Some? {
      assert a.value + [] == a.value && [] + a.value == a.value;
    }
  }

  lemma {:induction false} TargetsSnoc(decode: Decoder, repo: Repository, file: string, doc: Document, piece: Piece)
    ensures Targets(decode, repo, file, doc + [piece])
      == Append(Targets(decode, repo, file, doc), PieceTargets(decode, repo, file, piece))
    decreases |doc|
  {
    hide PieceTargets;
    if doc == [] {
      assert doc + [piece] == [piece];
      AppendUnit(PieceTargets(decode, repo, file, piece));
    } else {
      assert (doc + [piece])[0] == doc[0] && (doc + [piece])[1..] == doc[1..] + [piece];
      TargetsSnoc(decode, repo, file, doc[1..], piece);
      AppendAssociates(PieceTargets(decode, repo, file, doc[0]), Targets(decode, repo, file, doc[1..]),
                       PieceTargets(decode, repo, file, piece));
    }
  }

  lemma {:induction false} TargetsPrefix(decode: Decoder, repo: Repository, file: string, doc: Document, k: nat)
    requires k <= |doc| && Targets(decode, repo, file, doc[..k]).None?
    ensures Targets(decode, repo, file, doc).None?
    decreases |doc| - k
  {
    hide PieceTargets;
    if k == |doc| {
      assert doc[..k] == doc;
    } else {
      assert doc[..k + 1] == doc[..k] + [doc[k]];
      TargetsSnoc(decode, repo, file, doc[..k], doc[k]);
      TargetsPrefix(decode, repo, file, doc, k + 1);
    }
  }

  function NotIn(sources: seq<string>): string -> bool {
    f => f !in sources
  }

  /** What a document adds to the queue. */
  function Additions(decode: Decoder, repo: Repository, file: string, doc: Document, sources: seq<string>): seq<string>
    requires Targets(decode, repo, file, doc).Some?
  {
    Filter(NotIn(sources), Targets(decode, repo, file, doc).value)
  }

  function PieceAdds(decode: Decoder, repo: Repository, file: string, piece: Piece, sources: seq<string>): seq<string>
    requires PieceTargets(decode, repo, file, piece).Some?
  {
    Filter(NotIn(sources), PieceTargets(decode, repo, file, piece).value)
  }

  lemma PieceAddsIs(decode: Decoder, repo: Repository, file: string, link: Piece, sources: seq<string>)
    requires link.Link?
    ensures ResolveLink(decode, file, link.url).Refused? <==> PieceTargets(decode, repo, file, link).None?
    ensures ResolveLink(decode, file, link.url).NotLocal? ==> PieceAdds(decode, repo, file, link, sources) == []
    ensures ResolveLink(decode, file, link.url).Local? ==>
      (var f := ResolveLink(decode, file, link.url).file;
       PieceAdds(decode, repo, file, link, sources) == if f in repo.known && f !in sources then [f] else [])
  {
    if ResolveLink(decode, file, link.url).Local? {
      FilterOne(NotIn(sources), ResolveLink(decode, file, link.url).file);
    }
    hide ResolveLink;
  }

  /** What one more piece of a document adds to the queue. */
  lemma QueueStep(decode: Decoder, repo: Repository, file: string, doc: Document, sources: seq<string>, i: nat)
    requires i < |doc| && Targets(decode, repo, file, doc[..i]).Some?
    ensures PieceTargets(decode, repo, file, doc[i]).None? ==> Targets(decode, repo, file, doc).None?
    ensures PieceTargets(decode, repo, file, doc[i]).Some? ==>
      && Targets(decode, repo, file, doc[..i + 1]).Some?
      && Additions(decode, repo, file, doc[..i + 1], sources)
        == Additions(decode, repo, file, doc[..i], sources) + PieceAdds(decode, repo, file, doc[i], sources)
  {
    hide PieceTargets;
    hide Filter;
    assert doc[..i + 1] == doc[..i] + [doc[i]];
    TargetsSnoc(decode, repo, file, doc[..i], doc[i]);
    if PieceTargets(decode, repo, file, doc[i]).None? {
      TargetsPrefix(decode, repo, file, doc, i + 1);
    } else {
      FilterConcat(NotIn(sources), Targets(decode, repo, file, doc[..i]).value, PieceTargets(decode, repo, file, doc[i]).value);
    }
  }

  /** Appends the known files a document links to, except those already gathered. */
  method EnqueueLinks(decode: Decoder, repo: Repository, file: string, doc: Document,
                      sources: seq<string>, queue: seq<string>)
    returns (ok: bool, next: seq<string>)
    ensures ok <==> Targets(decode, repo, file, doc).Some?
    ensures ok ==> next == queue + Additions(decode, repo, file, doc, sources)
  {
    hide ResolveLink;
    next := queue;
    assert doc[..0] == [];
    assert Additions(decode, repo, file, [], sources) == [];
    hide Additions;
    hide PieceAdds;
    for i := 0 to |doc|
      invariant Targets(decode, repo, file, doc[..i]).Some?
      invariant next == queue + Additions(decode, repo, file, doc[..i], sources)
    {
      hide Targets;
      QueueStep(decode, repo, file, doc, sources, i);
      match doc[i]
      case Skipped(_) =>
        assert PieceAdds(decode, repo, file, doc[i], sources) == [] by {
          SkippedAddsNothing(decode, repo, file, doc[i], sources);
        }
      case Link(_, url, _) =>
        PieceAddsIs(decode, repo, file, doc[i], sources);
        hide PieceTargets;
        match ResolveLink(decode, file, url)
        case Refused =>
          return false, [];
        case NotLocal =>
        case Local(f, _) =>
          if f in repo.known && f !in sources {
            next := next + [f];
          }
    }
    assert doc[..|doc|] == doc;
    ok := true;
  }

  lemma SkippedAddsNothing(decode: Decoder, repo: Repository, file: string, piece: Piece, sources: seq<string>)
    requires piece.Skipped?
    ensures PieceAdds(decode, repo, file, piece, sources) == []
  {}

  ghost predicate ListInv(decode: Decoder, repo: Repository, roots: seq<string>, sources: seq<string>, queue: seq<string>) {
    && NoDup(sources) && |sources| <= LIMIT
    && (forall x :: x in sources ==> Bundled(decode, repo, x) && Needed(decode, repo, roots, x))
    && (forall x :: x in queue ==> Needed(decode, repo, roots, x))
    && (forall x :: x in roots ==> x in sources || x in queue)
    && (forall u, v :: u in sources && Edge(LinkGraph(decode, repo), u, v) ==> v in sources || v in queue)
  }

  lemma NeededNext(decode: Decoder, repo: Repository, roots: seq<string>, u: string, v: string)
    requires Needed(decode, repo, roots, u) && Edge(LinkGraph(decode, repo), u, v)
    ensures Needed(decode, repo, roots, v)
  {
    var g := LinkGraph(decode, repo);
    var r :| r in roots && Reaches(g, r, u);
    ReachStep(g, r, u, v);
  }

  lemma BundledEdge(decode: Decoder, repo: Repository, u: string, v: string)
    requires Bundled(decode, repo, u)
    ensures Edge(LinkGraph(decode, repo), u, v) <==> v in Targets(decode, repo, u, Scan(repo.files[u])).value
  {}

  lemma GatherKeeps(decode: Decoder, repo: Repository, roots: seq<string>, sources: seq<string>, queue: seq<string>, file: string)
    requires ListInv(decode, repo, roots, sources, [file] + queue)
    requires file !in sources && Bundled(decode, repo, file) && |sources| < LIMIT
    ensures ListInv(decode, repo, roots, sources + [file],
                    queue + Additions(decode, repo, file, Scan(repo.files[file]), sources + [file]))
  {
    var g, all := LinkGraph(decode, repo), sources + [file];
    var links := Targets(decode, repo, file, Scan(repo.files[file])).value;
    var next := queue + Filter(NotIn(all), links);
    hide Bundled;
    hide Targets;
    hide LinkGraph;
    hide Needed;
    assert file in [file] + queue;
    forall v ensures Edge(g, file, v) <==> v in links {
      BundledEdge(decode, repo, file, v);
    }
    forall x | x in next ensures Needed(decode, repo, roots, x) {
      if x !in queue {
        assert x in Filter(NotIn(all), links) && Edge(g, file, x);
        NeededNext(decode, repo, roots, file, x);
      }
    }
    forall u, v | u in all && Edge(g, u, v) ensures v in all || v in next {
      if u == file {
        assert v in links;
        if v !in all { assert NotIn(all)(v); }
      } else {
        assert u in sources && (v in sources || v in [file] + queue);
      }
    }
    forall x | x in roots ensures x in all || x in next {
      assert x in sources || x in [file] + queue;
    }
  }

  lemma {:induction false} NoDupSize<T(!new)>(s: seq<T>)
    requires NoDup(s)
    ensures |Elements(s)| == |s|
    decreases |s|
  {
    if s != [] {
      var front, last := s[..|s| - 1], s[|s| - 1];
      NoDupSize(front);
      assert s == front + [last];
      assert Elements(s) == Elements(front) + {last};
      assert last !in front;
    }
  }

  lemma SubsetIsShorter<T(!new)>(a: seq<T>, b: seq<T>)
    requires NoDup(a) && NoDup(b) && forall x :: x in a ==> x in b
    ensures |a| <= |b|
  {
    NoDupSize(a);
    NoDupSize(b);
    assert Elements(a) <= Elements(b);
    SetSize(Elements(a), Elements(b));
  }

  lemma SetSize<T>(a: set<T>, b: set<T>)
    requires a <= b
    ensures |a| <= |b|
  {
    assert b == a + (b - a) && a !! (b - a);
  }

  lemma DrainedIsExact(decode: Decoder, repo: Repository, roots: seq<string>, sources: seq<string>)
    requires ListInv(decode, repo, roots, sources, [])
    ensures forall x :: x in sources <==> Needed(decode, repo, roots, x)
    ensures CanExport(decode, repo, roots)
    ensures NoDup(sources) && |sources| <= LIMIT
  {
    var g := LinkGraph(decode, repo);
    hide LinkGraph;
    hide Bundled;
    assert ClosedUnder(g, Elements(sources));
    forall x | Needed(decode, repo, roots, x) ensures x in sources {
      var r :| r in roots && Reaches(g, r, x);
      ReachableStaysIn(g, Elements(sources), r, x);
      assert x in Elements(sources);
    }
    forall ids | NoDup(ids) && (forall x :: x in ids ==> Needed(decode, repo, roots, x)) ensures |ids| <= LIMIT {
      SubsetIsShorter(ids, sources);
    }
  }

  lemma OverfullList(decode: Decoder, repo: Repository, roots: seq<string>, sources: seq<string>, file: string)
    requires NoDup(sources) && |sources| == LIMIT && file !in sources
    requires (forall x :: x in sources ==> Needed(decode, repo, roots, x)) && Needed(decode, repo, roots, file)
    ensures !WithinLimit(decode, repo, roots)
  {
    hide Needed;
    var all := sources + [file];
    assert NoDup(all) && |all| > LIMIT;
    assert forall x :: x in all ==> Needed(decode, repo, roots, x);
  }

  lemma FailureIsReal(decode: Decoder, repo: Repository, roots: seq<string>, failure: Failure)
    requires Explains(decode, repo, roots, failure)
    ensures !CanExport(decode, repo, roots)
  {}

  lemma StartOfList(decode: Decoder, repo: Repository, roots: seq<string>)
    ensures ListInv(decode, repo, roots, [], roots)
  {
    forall x | x in roots ensures Needed(decode, repo, roots, x) {
      ReachSelf(LinkGraph(decode, repo), x);
    }
  }

  lemma SkipKeeps(decode: Decoder, repo: Repository, roots: seq<string>, sources: seq<string>, queue: seq<string>, file: string)
    requires ListInv(decode, repo, roots, sources, [file] + queue)
    ensures Needed(decode, repo, roots, file)
    ensures forall x :: x in sources ==> Needed(decode, repo, roots, x)
    ensures NoDup(sources) && |sources| <= LIMIT
    ensures file in sources ==> ListInv(decode, repo, roots, sources, queue)
  {}

  /** Gathers exactly the files the roots lead to. It succeeds if and only if each of them is a
      readable, declared knowledge file without a refused link and there are at most 512 of them. */
  method Gather(decode: Decoder, repo: Repository, roots: seq<string>) returns (r: Result<seq<string>>)
    ensures r.Ok? <==> CanExport(decode, repo, roots)
    ensures r.Ok? ==> NoDup(r.value) && |r.value| <= LIMIT
    ensures r.Ok? ==> forall x :: x in r.value <==> Needed(decode, repo, roots, x)
    ensures r.Err? ==> Explains(decode, repo, roots, r.failure)
  {
    hide Targets;
    hide LinkGraph;
    hide WithinLimit;
    hide Needed;
    hide ListInv;
    hide Additions;
    hide CanExport;
    var sources, queue := [], roots;
    StartOfList(decode, repo, roots);
    while queue != []
      invariant ListInv(decode, repo, roots, sources, queue)
      decreases repo.known - Elements(sources), |queue|
    {
      var file := queue[0];
      assert queue == [file] + queue[1..];
      queue := queue[1..];
      SkipKeeps(decode, repo, roots, sources, queue, file);
      if file in sources {
        continue;
      }
      if !Admissible(repo, file) {
        FailureIsReal(decode, repo, roots, Undeclared(file));
        return Err(Undeclared(file));
      }
      if |sources| >= LIMIT {
        OverfullList(decode, repo, roots, sources, file);
        FailureIsReal(decode, repo, roots, TooMany);
        return Err(TooMany);
      }
      if file !in repo.files {
        FailureIsReal(decode, repo, roots, Unreadable(file));
        return Err(Unreadable(file));
      }
      var ok, next := EnqueueLinks(decode, repo, file, Scan(repo.files[file]), sources + [file], queue);
      if !ok {
        FailureIsReal(decode, repo, roots, BadLink(file));
        return Err(BadLink(file));
      }
      GatherKeeps(decode, repo, roots, sources, queue, file);
      assert file in repo.known - Elements(sources) && file in Elements(sources + [file]);
      sources, queue := sources + [file], next;
    }
    DrainedIsExact(decode, repo, roots, sources);
    r := Ok(sources);
  }

  // ---- which files a document leads to ------------------------------------------------------

  ghost predicate HasRefused(decode: Decoder, file: string, doc: Document) {
    exists piece :: piece in doc && piece.Link? && ResolveLink(decode, file, piece.url) == Refused
  }

  ghost predicate LinksTo(decode: Decoder, file: string, doc: Document, v: string) {
    exists piece :: piece in doc && PieceLinksTo(decode, file, piece, v)
  }

  ghost predicate PieceLinksTo(decode: Decoder, file: string, piece: Piece, v: string) {
    piece.Link? && ResolveLink(decode, file, piece.url).Local? && ResolveLink(decode, file, piece.url).file == v
  }

  lemma PieceTargetsExactly(decode: Decoder, repo: Repository, file: string, piece: Piece)
    ensures PieceTargets(decode, repo, file, piece).None? <==> HasRefused(decode, file, [piece])
    ensures PieceTargets(decode, repo, file, piece).Some? ==> forall v ::
      v in PieceTargets(decode, repo, file, piece).value <==> v in repo.known && LinksTo(decode, file, [piece], v)
  {
    hide ResolveLink;
    assert piece in [piece];
    if PieceTargets(decode, repo, file, piece).Some? {
      forall v ensures v in PieceTargets(decode, repo, file, piece).value <==> v in repo.known && PieceLinksTo(decode, file, piece, v) {}
    }
  }

  lemma RefusedConcat(decode: Decoder, file: string, a: Document, b: Document)
    ensures HasRefused(decode, file, a + b) <==> HasRefused(decode, file, a) || HasRefused(decode, file, b)
  {
    hide ResolveLink;
    assert forall piece :: piece in a + b <==> piece in a || piece in b;
  }

  lemma LinksConcat(decode: Decoder, file: string, a: Document, b: Document, v: string)
    ensures LinksTo(decode, file, a + b, v) <==> LinksTo(decode, file, a, v) || LinksTo(decode, file, b, v)
  {
    hide PieceLinksTo;
    assert forall piece :: piece in a + b <==> piece in a || piece in b;
  }

  lemma {:induction false} TargetsExactly(decode: Decoder, repo: Repository, file: string, doc: Document)
    ensures Targets(decode, repo, file, doc).None? <==> HasRefused(decode, file, doc)
    ensures Targets(decode, repo, file, doc).Some? ==> forall v ::
      v in Targets(decode, repo, file, doc).value <==> v in repo.known && LinksTo(decode, file, doc, v)
    decreases |doc|
  {
    hide PieceTargets;
    hide ResolveLink;
    if doc != [] {
      var head, rest := [doc[0]], doc[1..];
      assert doc == head + rest;
      TargetsExactly(decode, repo, file, rest);
      PieceTargetsExactly(decode, repo, file, doc[0]);
      RefusedConcat(decode, file, head, rest);
      hide HasRefused;
      forall v ensures LinksTo(decode, file, doc, v) <==> LinksTo(decode, file, head, v) || LinksTo(decode, file, rest, v) {
        LinksConcat(decode, file, head, rest, v);
      }
      hide LinksTo;
    }
  }

  /** One file leads to another in the export if and only if it can be read, none of its links is
      refused, and one of its links resolves to the other, which is a declared reference. */
  lemma LinkEdgeExactly(decode: Decoder, repo: Repository, u: string, v: string)
    ensures Edge(LinkGraph(decode, repo), u, v) <==>
      && u in repo.files && !HasRefused(decode, u, Scan(repo.files[u]))
      && v in repo.known && LinksTo(decode, u, Scan(repo.files[u]), v)
  {
    hide Targets;
    hide HasRefused;
    hide LinksTo;
    hide Scan;
    if u in repo.files {
      TargetsExactly(decode, repo, u, Scan(repo.files[u]));
    }
  }

  /** What may go into a package: declared knowledge that can be read and has no refused link. */
  lemma BundledExactly(decode: Decoder, repo: Repository, file: string)
    ensures Bundled(decode, repo, file) <==>
      |file| >= 10 && file[..10] == "knowledge/" && file in repo.known
      && file in repo.files && !HasRefused(decode, file, Scan(repo.files[file]))
  {
    hide Targets;
    hide HasRefused;
    hide Scan;
    if file in repo.files {
      TargetsExactly(decode, repo, file, Scan(repo.files[file]));
    }
  }
}
