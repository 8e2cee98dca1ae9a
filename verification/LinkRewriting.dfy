/** Laying out the exported package: every document moves to its destination, and each of its
    links becomes a relative link into the package or a pinned remote one. */
module LinkRewriting {
  import opened ExportPackage
  import opened Links
  import opened LinkText
  import opened Options
  import opened Sequences
  import opened Text

  type Encoder = string -> string

  datatype Entry = Entry(path: string, text: string)

  /** The rendered skill files, the gathered sources and the revision remote links are pinned to. */
  datatype Layout = Layout(prefix: string, rendered: seq<Entry>, sources: seq<Entry>, revision: string)

  datatype Package = Package(files: map<string, string>, supplemental: set<string>)

  const SCHEME: string := "https:"
  const HOST: string := "//github.com/"
  const OWNER: string := "Clueless-Creations/"
  const NAME: string := "b2c-app-builder"
  const REPOSITORY: string := SCHEME + (HOST + (OWNER + NAME))

  predicate Has(entries: seq<Entry>, file: string) {
    exists e :: e in entries && e.path == file
  }

  function Generated(p: Layout): (r: seq<Entry>)
    ensures forall e :: e in r <==> e in p.rendered && p.prefix <= e.path
  {
    Filter((e: Entry) => p.prefix <= e.path, p.rendered)
  }

  /** Every document of the package, rendered files first. */
  function Entries(p: Layout): seq<Entry> {
    Generated(p) + p.sources
  }

  function Destination(p: Layout, file: string): Option<string> {
    if Has(p.sources, file) then Some("references/source/" + file)
    else if Has(Generated(p), file) then
      assert p.prefix <= file;
      Some(file[|p.prefix|..])
    else None
  }

  function Remote(encode: Encoder, p: Layout, file: string, suffix: string): string {
    REPOSITORY + "/blob/" + p.revision + "/" + Join(MapSeq(encode, Split(file, SLASH)), SLASH) + suffix
  }

  /** The link that replaces one of `source`, and the remote link it adds, if it adds one. */
  function Rewrite(decode: Decoder, encode: Encoder, p: Layout, source: string, url: string): Result<(string, set<string>)>
    requires Destination(p, source).Some?
  {
    match ResolveLink(decode, source, url)
    case Refused => Err(BadLink(source))
    case NotLocal => Ok((url, {}))
    case Local(file, suffix) =>
      var local := Destination(p, file);
      if local.Some? && local.value != "" then
        Ok((RelativeLink(Destination(p, source).value, local.value) + suffix, {}))
      else
        var remote := Remote(encode, p, file, suffix);
        Ok((remote, {remote}))
  }

  /** What becomes of one piece, and the remote links it adds. */
  function RewritePiece(decode: Decoder, encode: Encoder, p: Layout, source: string, piece: Piece): Result<(Piece, set<string>)>
    requires Destination(p, source).Some?
  {
    match piece
    case Skipped(_) => Ok((piece, {}))
    case Link(open, url, close) =>
      match Rewrite(decode, encode, p, source, url)
      case Err(e) => Err(e)
      case Ok((target, remotes)) => Ok((Link(open, target, close), remotes))
  }

  /** Piece by piece, the rewritten form of a document of `source`. */
  ghost predicate IsRewrite(decode: Decoder, encode: Encoder, p: Layout, source: string, doc: Document, out: Document)
    requires Destination(p, source).Some?
  {
    && |out| == |doc|
    && forall i :: 0 <= i < |out| ==>
      RewritePiece(decode, encode, p, source, doc[i]).Ok? && out[i] == RewritePiece(decode, encode, p, source, doc[i]).value.0
  }

  /** The text printed from the rewritten form of what the entry's text scans to. */
  ghost predicate IsTransform(decode: Decoder, encode: Encoder, p: Layout, e: Entry, out: string)
    requires Destination(p, e.path).Some?
  {
    exists pieces :: IsRewrite(decode, encode, p, e.path, Scan(e.text), pieces) && out == Print(pieces)
  }

  predicate AddsRemote(decode: Decoder, encode: Encoder, p: Layout, source: string, piece: Piece, x: string)
    requires Destination(p, source).Some?
  {
    RewritePiece(decode, encode, p, source, piece).Ok? && x in RewritePiece(decode, encode, p, source, piece).value.1
  }

  ghost predicate AddsIn(decode: Decoder, encode: Encoder, p: Layout, source: string, doc: Document, x: string)
    requires Destination(p, source).Some?
  {
    exists piece :: piece in doc && AddsRemote(decode, encode, p, source, piece, x)
  }

  ghost predicate Adds(decode: Decoder, encode: Encoder, p: Layout, e: Entry, x: string)
    requires Destination(p, e.path).Some?
  {
    AddsIn(decode, encode, p, e.path, Scan(e.text), x)
  }

  /** Some link of the document is refused. */
  ghost predicate Refuses(decode: Decoder, encode: Encoder, p: Layout, e: Entry)
    requires Destination(p, e.path).Some?
  {
    exists piece :: piece in Scan(e.text) && RewritePiece(decode, encode, p, e.path, piece).Err?
  }

  lemma AddsSnoc(decode: Decoder, encode: Encoder, p: Layout, path: string, doc: Document, piece: Piece, x: string)
    requires Destination(p, path).Some?
    ensures AddsIn(decode, encode, p, path, doc + [piece], x)
      <==> AddsIn(decode, encode, p, path, doc, x) || AddsRemote(decode, encode, p, path, piece, x)
  {
    hide AddsRemote;
    hide Destination;
    var all := doc + [piece];
    assert piece in all;
    if AddsIn(decode, encode, p, path, doc, x) {
      var q :| q in doc && AddsRemote(decode, encode, p, path, q, x);
      assert q in all;
    }
  }

  lemma RewriteSnoc(decode: Decoder, encode: Encoder, p: Layout, path: string, doc: Document, out: Document, piece: Piece)
    requires Destination(p, path).Some? && IsRewrite(decode, encode, p, path, doc, out)
    requires RewritePiece(decode, encode, p, path, piece).Ok?
    ensures IsRewrite(decode, encode, p, path, doc + [piece], out + [RewritePiece(decode, encode, p, path, piece).value.0])
  {
    hide RewritePiece;
    hide Destination;
  }

  /** Rewrites one document and adds its remote links to those already found. */
  method Transform(decode: Decoder, encode: Encoder, p: Layout, e: Entry, found: set<string>)
    returns (r: Result<string>, remotes: set<string>)
    requires Destination(p, e.path).Some?
    ensures r.Err? <==> Refuses(decode, encode, p, e)
    ensures r.Ok? ==> IsTransform(decode, encode, p, e, r.value)
    ensures r.Ok? ==> forall x :: x in remotes <==> x in found || Adds(decode, encode, p, e, x)
  {
    hide RewritePiece;
    hide Destination;
    hide Scan;
    hide Print;
    remotes := found;
    var doc := Scan(e.text);
    var out: Document := [];
    for i := 0 to |doc|
      invariant forall k :: 0 <= k < i ==> RewritePiece(decode, encode, p, e.path, doc[k]).Ok?
      invariant IsRewrite(decode, encode, p, e.path, doc[..i], out)
      invariant forall x :: x in remotes <==> x in found || AddsIn(decode, encode, p, e.path, doc[..i], x)
    {
      hide IsRewrite;
      hide AddsIn;
      assert doc[i] in doc;
      match RewritePiece(decode, encode, p, e.path, doc[i])
      case Err(failure) =>
        return Err(failure), remotes;
      case Ok((piece, added)) =>
        assert doc[..i + 1] == doc[..i] + [doc[i]];
        RewriteSnoc(decode, encode, p, e.path, doc[..i], out, doc[i]);
        forall x ensures x in remotes + added <==> x in found || AddsIn(decode, encode, p, e.path, doc[..i + 1], x) {
          AddsSnoc(decode, encode, p, e.path, doc[..i], doc[i], x);
        }
        out := out + [piece];
        remotes := remotes + added;
    }
    assert doc[..|doc|] == doc;
    r := Ok(Print(out));
  }

  lemma EntryHasPlace(decode: Decoder, encode: Encoder, p: Layout, e: Entry)
    requires e in Entries(p)
    ensures Destination(p, e.path).Some?
    ensures RefusesAt(decode, encode, p, e) <==> Refuses(decode, encode, p, e)
  {
    hide Refuses;
  }

  /** No entry behind this one has the place. */
  ghost predicate IsLast(p: Layout, entries: seq<Entry>, e: Entry, d: string) {
    exists i :: 0 <= i < |entries| && entries[i] == e && NoneBehind(p, entries, i, d)
  }

  ghost predicate NoneBehind(p: Layout, entries: seq<Entry>, i: int, d: string) {
    forall j :: 0 <= j < |entries| && i < j ==> Destination(p, entries[j].path) != Some(d)
  }

  /** The file a package holds at `d` is the transform of the last entry whose place that is. */
  ghost predicate HoldsAt(decode: Decoder, encode: Encoder, p: Layout, entries: seq<Entry>, d: string, out: string) {
    exists e :: e in entries && Destination(p, e.path) == Some(d) && IsTransform(decode, encode, p, e, out) && IsLast(p, entries, e, d)
  }

  lemma LastSnoc(p: Layout, entries: seq<Entry>, last: Entry, e: Entry, d: string)
    ensures e == last ==> IsLast(p, entries + [last], e, d)
    ensures IsLast(p, entries, e, d) && Destination(p, last.path) != Some(d) ==> IsLast(p, entries + [last], e, d)
  {
    hide Destination;
    var all := entries + [last];
    assert all[|entries|] == last && NoneBehind(p, all, |entries|, d);
    if IsLast(p, entries, e, d) && Destination(p, last.path) != Some(d) {
      var i :| 0 <= i < |entries| && entries[i] == e && NoneBehind(p, entries, i, d);
      assert all[i] == e && NoneBehind(p, all, i, d);
    }
  }

  ghost predicate Assembled(decode: Decoder, encode: Encoder, p: Layout, entries: seq<Entry>, package: Package) {
    && (forall e :: e in entries ==> Destination(p, e.path).Some? && Destination(p, e.path).value in package.files)
    && (forall d :: d in package.files ==> HoldsAt(decode, encode, p, entries, d, package.files[d]))
    && (forall x :: x in package.supplemental <==> exists e :: e in entries && AddsAt(decode, encode, p, e, x))
  }

  ghost predicate AddsAt(decode: Decoder, encode: Encoder, p: Layout, e: Entry, x: string) {
    Destination(p, e.path).Some? && Adds(decode, encode, p, e, x)
  }

  lemma AssembledSnoc(decode: Decoder, encode: Encoder, p: Layout, entries: seq<Entry>, package: Package,
                      e: Entry, out: string, remotes: set<string>)
    requires Assembled(decode, encode, p, entries, package)
    requires Destination(p, e.path).Some? && IsTransform(decode, encode, p, e, out)
    requires forall x :: x in remotes <==> x in package.supplemental || Adds(decode, encode, p, e, x)
    ensures Assembled(decode, encode, p, entries + [e], Package(package.files[Destination(p, e.path).value := out], remotes))
  {
    hide IsTransform;
    hide Adds;
    hide Destination;
    hide IsLast;
    var next := Package(package.files[Destination(p, e.path).value := out], remotes);
    var all := entries + [e];
    assert e in all;
    forall d | d in next.files ensures HoldsAt(decode, encode, p, all, d, next.files[d]) {
      if d == Destination(p, e.path).value {
        LastSnoc(p, entries, e, e, d);
      } else {
        assert HoldsAt(decode, encode, p, entries, d, package.files[d]);
        var source :| source in entries && Destination(p, source.path) == Some(d)
          && IsTransform(decode, encode, p, source, package.files[d]) && IsLast(p, entries, source, d);
        assert source in all;
        LastSnoc(p, entries, e, source, d);
      }
    }
    forall x ensures x in remotes <==> exists s :: s in all && AddsAt(decode, encode, p, s, x) {
      if x in package.supplemental {
        var s :| s in entries && AddsAt(decode, encode, p, s, x);
        assert s in all;
      } else if x in remotes {
        assert AddsAt(decode, encode, p, e, x);
      }
      if s :| s in all && AddsAt(decode, encode, p, s, x) {
        assert s in entries || s == e;
      }
    }
  }

  ghost predicate AnyRefuses(decode: Decoder, encode: Encoder, p: Layout, entries: seq<Entry>) {
    exists e :: e in entries && RefusesAt(decode, encode, p, e)
  }

  ghost predicate RefusesAt(decode: Decoder, encode: Encoder, p: Layout, e: Entry) {
    Destination(p, e.path).Some? && Refuses(decode, encode, p, e)
  }

  lemma AnyRefusesSnoc(decode: Decoder, encode: Encoder, p: Layout, entries: seq<Entry>, e: Entry)
    ensures AnyRefuses(decode, encode, p, entries + [e])
      <==> AnyRefuses(decode, encode, p, entries) || RefusesAt(decode, encode, p, e)
  {}

  /** Lays out every entry. It fails if and only if some entry holds a refused link. */
  method Assemble(decode: Decoder, encode: Encoder, p: Layout) returns (r: Result<Package>)
    ensures r.Err? <==> AnyRefuses(decode, encode, p, Entries(p))
    ensures r.Ok? ==> Assembled(decode, encode, p, Entries(p), r.value)
  {
    hide *;
    var entries := Entries(p);
    EmptyPackage(decode, encode, p);
    var package := Package(map[], {});
    assert entries[..0] == [];
    for i := 0 to |entries|
      invariant !AnyRefuses(decode, encode, p, entries[..i])
      invariant Assembled(decode, encode, p, entries[..i], package)
    {
      var e := entries[i];
      EntryHasPlace(decode, encode, p, e);
      assert entries[..i + 1] == entries[..i] + [e];
      AnyRefusesSnoc(decode, encode, p, entries[..i], e);
      var out, remotes := Transform(decode, encode, p, e, package.supplemental);
      if out.Err? {
        RefusalSpreads(decode, encode, p, entries, i + 1);
        return Err(out.failure);
      }
      AssembledSnoc(decode, encode, p, entries[..i], package, e, out.value, remotes);
      package := Package(package.files[Destination(p, e.path).value := out.value], remotes);
    }
    assert entries[..|entries|] == entries;
    r := Ok(package);
  }

  lemma RefusalSpreads(decode: Decoder, encode: Encoder, p: Layout, entries: seq<Entry>, k: nat)
    requires k <= |entries| && AnyRefuses(decode, encode, p, entries[..k])
    ensures AnyRefuses(decode, encode, p, entries)
  {}

  lemma EmptyPackage(decode: Decoder, encode: Encoder, p: Layout)
    ensures Assembled(decode, encode, p, [], Package(map[], {})) && !AnyRefuses(decode, encode, p, [])
  {}

  // ---- the whole export ---------------------------------------------------------------------

  /** Gathering already refused every document with a refused link. */
  lemma {:induction false} GatheredNeverRefuses(decode: Decoder, encode: Encoder, p: Layout, repo: Repository, path: string, doc: Document)
    requires Destination(p, path).Some? && Targets(decode, repo, path, doc).Some?
    ensures forall piece :: piece in doc ==> RewritePiece(decode, encode, p, path, piece).Ok?
    decreases |doc|
  {
    hide RewritePiece;
    hide Destination;
    if doc != [] {
      GatheredNeverRefuses(decode, encode, p, repo, path, doc[1..]);
      PieceIsRewritten(decode, encode, p, repo, path, doc[0]);
      assert doc == [doc[0]] + doc[1..];
    }
  }

  lemma PieceIsRewritten(decode: Decoder, encode: Encoder, p: Layout, repo: Repository, path: string, piece: Piece)
    requires Destination(p, path).Some? && PieceTargets(decode, repo, path, piece).Some?
    ensures RewritePiece(decode, encode, p, path, piece).Ok?
  {}

  ghost predicate AreGathered(decode: Decoder, repo: Repository, entries: seq<Entry>) {
    forall e :: e in entries ==> e.path in repo.files && e.text == repo.files[e.path] && Bundled(decode, repo, e.path)
  }

  lemma OnlyRenderedRefuse(decode: Decoder, encode: Encoder, p: Layout, repo: Repository)
    requires AreGathered(decode, repo, p.sources)
    ensures AnyRefuses(decode, encode, p, Entries(p)) <==> AnyRefuses(decode, encode, p, Generated(p))
  {
    hide Destination;
    hide RewritePiece;
    if AnyRefuses(decode, encode, p, Generated(p)) {
      var e :| e in Generated(p) && RefusesAt(decode, encode, p, e);
      assert e in Entries(p);
    }
    if AnyRefuses(decode, encode, p, Entries(p)) {
      var e :| e in Entries(p) && RefusesAt(decode, encode, p, e);
      if e in p.sources {
        GatheredNeverRefuses(decode, encode, p, repo, e.path, Scan(e.text));
      } else {
        assert e in Generated(p);
      }
    }
  }

  function Read(repo: Repository, files: seq<string>): (r: seq<Entry>)
    requires forall f :: f in files ==> f in repo.files
    ensures |r| == |files| && forall i :: 0 <= i < |r| ==> r[i] == Entry(files[i], repo.files[files[i]])
  {
    seq(|files|, i requires 0 <= i < |files| => assert files[i] in files; Entry(files[i], repo.files[files[i]]))
  }

  lemma ReadHas(repo: Repository, files: seq<string>, f: string)
    requires forall f :: f in files ==> f in repo.files
    ensures Has(Read(repo, files), f) <==> f in files
  {}

  lemma ReadIsGathered(decode: Decoder, repo: Repository, files: seq<string>)
    requires forall f :: f in files ==> f in repo.files && Bundled(decode, repo, f)
    ensures AreGathered(decode, repo, Read(repo, files))
  {}

  /** A full commit SHA. */
  predicate IsRevision(s: string) {
    |s| == 40 && forall c :: c in s ==> 'a' <= c <= 'f' || '0' <= c <= '9'
  }

  /** The layout of an export that gathered what the roots lead to. */
  ghost predicate LaidOut(decode: Decoder, repo: Repository, prefix: string, rendered: seq<Entry>,
                          roots: seq<string>, revision: string, p: Layout)
  {
    && p == Layout(prefix, rendered, p.sources, revision)
    && |p.sources| <= LIMIT && AreGathered(decode, repo, p.sources)
    && forall x :: Has(p.sources, x) <==> Needed(decode, repo, roots, x)
  }

  /** The export as a whole: it succeeds if and only if the revision is a full commit SHA, the
      references lead only to readable, declared knowledge within the limit and no rendered skill
      file holds a refused link; it then bundles exactly the files the references lead to. */
  method Export(decode: Decoder, encode: Encoder, repo: Repository, prefix: string, rendered: seq<Entry>,
                roots: seq<string>, revision: string)
    returns (r: Result<Package>, p: Layout)
    ensures r.Ok? <==>
      IsRevision(revision) && CanExport(decode, repo, roots) && !AnyRefuses(decode, encode, p, Generated(p))
    ensures IsRevision(revision) && CanExport(decode, repo, roots) ==>
      LaidOut(decode, repo, prefix, rendered, roots, revision, p)
    ensures r.Ok? ==> Assembled(decode, encode, p, Entries(p), r.value)
  {
    hide Needed;
    hide Targets;
    hide Assembled;
    hide AnyRefuses;
    if !IsRevision(revision) {
      return Err(BadRevision), Layout(prefix, rendered, [], revision);
    }
    var gathered := Gather(decode, repo, roots);
    if gathered.Err? {
      return Err(gathered.failure), Layout(prefix, rendered, [], revision);
    }
    var files := gathered.value;
    p := Layout(prefix, rendered, Read(repo, files), revision);
    forall x ensures Has(p.sources, x) <==> Needed(decode, repo, roots, x) {
      ReadHas(repo, files, x);
    }
    ReadIsGathered(decode, repo, files);
    hide Has;
    hide Entries;
    OnlyRenderedRefuse(decode, encode, p, repo);
    r := Assemble(decode, encode, p);
  }
}
