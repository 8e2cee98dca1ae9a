/** Two exports whose links go wrong. Both start from two declared references, the first linking to
    the second, and hold for every package the export can make of them. */
module PackageExamples {
  import opened Graphs
  import opened ExportPackage
  import opened LinkRewriting
  import opened Links
  import opened LinkText
  import opened Options
  import opened PackageLinks
  import opened Sequences
  import opened Text

  const HOME := "knowledge/x"
  const FOLDER: string := "references/source/knowledge/"
  const PLACE := "references/source/knowledge/x"
  const BELOW: seq<string> := ["references", "source", "knowledge"]

  function Named(name: string): string {
    "knowledge/" + name
  }

  function Linker(url: string): Piece {
    Link("[x](", url, ")")
  }

  /** Two references; the first holds one link. */
  function Pair(url: string, name: string): Repository {
    Repository({HOME, Named(name)}, map[HOME := Written(Linker(url)), Named(name) := ""])
  }

  /** The link leads to the second reference. */
  predicate Leads(decode: Decoder, url: string, name: string) {
    name != "x" && CleanName(name) && IsTarget(url) && ResolveLink(decode, HOME, url) == Local(Named(name), "")
  }

  /** What the renderer puts into a skill: its own page and pages directly below `references`. */
  predicate SkillPlace(place: string) {
    place == "SKILL.md" || ("references/" <= place && CleanName(place[|"references/"|..]))
  }

  predicate SkillFiles(prefix: string, rendered: seq<Entry>) {
    forall e :: e in rendered && prefix <= e.path ==> SkillPlace(e.path[|prefix|..])
  }

  /** A package the export may return for the pair, whatever else it renders. */
  ghost predicate Exported(decode: Decoder, encode: Encoder, url: string, name: string, p: Layout, package: Package) {
    && LaidOut(decode, Pair(url, name), p.prefix, p.rendered, [HOME], p.revision, p)
    && SkillFiles(p.prefix, p.rendered) && Assembled(decode, encode, p, Entries(p), package)
  }

  // ---- the pair can be exported -------------------------------------------------------------

  lemma OneLink(link: Piece)
    requires IsLink(link)
    ensures Scan(Written(link)) == [link]
  {
    LinkMatches(link, "");
    LinkParts(link);
    hide Match;
    var s := Written(link);
    assert s + "" == s && s[|s|..] == "";
  }

  lemma PartsAreParts()
    ensures IsOpen("[x](") && IsClose(")")
  {}

  lemma LinkerScans(url: string)
    requires IsTarget(url)
    ensures Scan(Written(Linker(url))) == [Linker(url)]
  {
    PartsAreParts();
    hide IsOpen;
    hide IsClose;
    hide IsTarget;
    hide Scan;
    hide Written;
    PartsMakeLink(Linker(url));
    OneLink(Linker(url));
  }

  lemma NamesDiffer(name: string)
    requires name != "x"
    ensures Named(name) != HOME && FOLDER + name != PLACE
  {
    assert Named(name)[10..] == name && HOME[10..] == "x";
    assert (FOLDER + name)[28..] == name && PLACE[28..] == "x";
  }

  lemma PairTargets(decode: Decoder, url: string, name: string)
    requires Leads(decode, url, name)
    ensures var repo := Pair(url, name);
      && repo.files.Keys == {HOME, Named(name)}
      && Targets(decode, repo, HOME, Scan(repo.files[HOME])) == Some([Named(name)])
      && repo.files[Named(name)] == "" && Scan("") == []
      && Targets(decode, repo, Named(name), []) == Some([])
  {
    var repo := Pair(url, name);
    NamesDiffer(name);
    LinkerScans(url);
    hide ResolveLink;
    hide Scan;
    hide Written;
    assert Scan("") == [] by { ScanNothing(); }
    var doc := [Linker(url)];
    assert doc[1..] == [];
    assert PieceTargets(decode, repo, HOME, Linker(url)) == Some([Named(name)]);
    AppendUnit(Some([Named(name)]));
  }

  lemma ScanNothing()
    ensures Scan("") == []
  {}

  /** The first file leads to the second and the second to nothing. */
  predicate IsPairGraph(g: Graph, a: Id, b: Id) {
    g.Keys == {a, b} && g[a] == [b] && g[b] == []
  }

  lemma TwoFileGraph(decode: Decoder, repo: Repository, a: string, b: string)
    requires repo.files.Keys == {a, b}
    requires Targets(decode, repo, a, Scan(repo.files[a])) == Some([b])
    requires Targets(decode, repo, b, Scan(repo.files[b])) == Some([])
    ensures IsPairGraph(LinkGraph(decode, repo), a, b)
  {
    hide Targets;
    hide Scan;
  }

  lemma PairReach(g: Graph, a: Id, b: Id)
    requires IsPairGraph(g, a, b) && a != b
    ensures forall f :: ReachedFrom(g, [a], f) <==> f == a || f == b
  {
    ReachSelf(g, a);
    assert Edge(g, a, b);
    ReachStep(g, a, a, b);
    assert a in [a];
    var both := {a, b};
    assert ClosedUnder(g, both);
    hide Reaches;
    forall f | ReachedFrom(g, [a], f) ensures f in both {
      ReachableStaysIn(g, both, a, f);
    }
  }

  lemma PairNeeded(decode: Decoder, url: string, name: string)
    requires Leads(decode, url, name)
    ensures forall f :: Needed(decode, Pair(url, name), [HOME], f) <==> f == HOME || f == Named(name)
  {
    PairTargets(decode, url, name);
    NamesDiffer(name);
    hide Leads;
    hide Pair;
    hide Scan;
    hide Targets;
    hide LinkGraph;
    hide Named;
    TwoFileGraph(decode, Pair(url, name), HOME, Named(name));
    PairReach(LinkGraph(decode, Pair(url, name)), HOME, Named(name));
    hide IsPairGraph;
    hide ReachedFrom;
  }

  lemma PairBundled(decode: Decoder, url: string, name: string)
    requires Leads(decode, url, name)
    ensures Bundled(decode, Pair(url, name), HOME) && Bundled(decode, Pair(url, name), Named(name))
  {
    PairTargets(decode, url, name);
    hide Targets;
    hide Scan;
    hide Written;
    assert "knowledge/" <= HOME && "knowledge/" <= Named(name);
  }

  /** The export of the pair does not fail in the gathering. */
  lemma PairExports(decode: Decoder, url: string, name: string)
    requires Leads(decode, url, name)
    ensures CanExport(decode, Pair(url, name), [HOME])
  {
    var repo := Pair(url, name);
    PairNeeded(decode, url, name);
    PairBundled(decode, url, name);
    NamesDiffer(name);
    hide Needed;
    hide Bundled;
    hide Leads;
    hide Pair;
    forall ids | NoDup(ids) && (forall x :: x in ids ==> Needed(decode, repo, [HOME], x)) ensures |ids| <= LIMIT {
      SubsetIsShorter(ids, [HOME, Named(name)]);
    }
  }

  // ---- where the files go -------------------------------------------------------------------

  lemma SourcePlace(p: Layout, name: string)
    requires Has(p.sources, Named(name))
    ensures Destination(p, Named(name)) == Some(FOLDER + name)
  {
    assert "references/source/" + ("knowledge/" + name) == FOLDER + name;
  }

  lemma BelowIsNoPage(place: string)
    requires FOLDER <= place
    ensures !SkillPlace(place)
  {
    var page := place[11..];
    assert place[0] == FOLDER[0] == 'r' && place[17] == FOLDER[17] == '/';
    assert page[6] == '/' && page[6] in page;
  }

  lemma PairSources(decode: Decoder, encode: Encoder, url: string, name: string, p: Layout, package: Package)
    requires Leads(decode, url, name) && Exported(decode, encode, url, name, p, package)
    ensures forall f :: Has(p.sources, f) <==> f == HOME || f == Named(name)
    ensures SkillFiles(p.prefix, p.rendered)
  {
    PairNeeded(decode, url, name);
    hide Needed;
    hide Pair;
    hide Leads;
    hide AreGathered;
    hide Assembled;
    hide SkillFiles;
    hide Has;
  }

  lemma PagePlace(p: Layout, f: string)
    requires SkillFiles(p.prefix, p.rendered) && Destination(p, f).Some? && !Has(p.sources, f)
    ensures SkillPlace(Destination(p, f).value)
  {
    hide SkillPlace;
  }

  /** A file of the layout is one of the pair, in the folder, or a rendered page. */
  lemma Places(decode: Decoder, encode: Encoder, url: string, name: string, p: Layout, package: Package, f: string)
    requires Leads(decode, url, name) && Exported(decode, encode, url, name, p, package)
    requires Destination(p, f).Some?
    ensures f == HOME ==> Destination(p, f).value == PLACE
    ensures f == Named(name) ==> Destination(p, f).value == FOLDER + name
    ensures f != HOME && f != Named(name) ==> SkillPlace(Destination(p, f).value) && !Has(p.sources, f)
  {
    hide *;
    PairSources(decode, encode, url, name, p, package);
    FolderText("x");
    if f == HOME {
      SourcePlace(p, "x");
    }
    if f == Named(name) {
      SourcePlace(p, name);
    }
    if f != HOME && f != Named(name) {
      PagePlace(p, f);
    }
  }

  lemma SourceIsEntry(p: Layout, f: string)
    requires Has(p.sources, f)
    ensures exists e :: e in Entries(p) && e.path == f
  {
    var e :| e in p.sources && e.path == f;
    assert e in Entries(p);
  }

  lemma IsAssembled(decode: Decoder, encode: Encoder, url: string, name: string, p: Layout, package: Package)
    requires Exported(decode, encode, url, name, p, package)
    ensures Assembled(decode, encode, p, Entries(p), package)
  {}

  lemma PairIsPlaced(decode: Decoder, encode: Encoder, url: string, name: string, p: Layout, package: Package)
    requires Leads(decode, url, name) && Exported(decode, encode, url, name, p, package)
    ensures Destination(p, HOME) == Some(PLACE) && Destination(p, Named(name)) == Some(FOLDER + name)
    ensures PLACE in package.files && FOLDER + name in package.files
  {
    hide *;
    PairSources(decode, encode, url, name, p, package);
    IsAssembled(decode, encode, url, name, p, package);
    FolderText("x");
    SourcePlace(p, "x");
    SourcePlace(p, name);
    SourceIsEntry(p, HOME);
    SourceIsEntry(p, Named(name));
    PlacesAreFiles(decode, encode, p, package, HOME);
    PlacesAreFiles(decode, encode, p, package, Named(name));
  }

  /** The folder of the package holds the pair and nothing else. */
  lemma FolderIsPair(decode: Decoder, encode: Encoder, url: string, name: string, p: Layout, package: Package, d: string)
    requires Leads(decode, url, name) && Exported(decode, encode, url, name, p, package)
    requires d in package.files && FOLDER <= d
    ensures d == PLACE || d == FOLDER + name
  {
    assert HoldsAt(decode, encode, p, Entries(p), d, package.files[d]);
    var e :| e in Entries(p) && Destination(p, e.path) == Some(d);
    Places(decode, encode, url, name, p, package, e.path);
    hide *;
    BelowIsNoPage(d);
  }

  lemma TwoSegments(a: string, b: string)
    requires SLASH !in a && SLASH !in b
    ensures Segments(a + [SLASH] + b) == [a, b] && Directory(a + [SLASH] + b) == [a]
  {
    SplitWord(b, SLASH);
    SplitAfterWord(a, SLASH, b);
    assert [a] + [b] == [a, b];
  }

  lemma FourSegments(a: string, b: string, c: string, d: string)
    requires SLASH !in a && SLASH !in b && SLASH !in c && SLASH !in d
    ensures Segments(a + [SLASH] + (b + [SLASH] + (c + [SLASH] + d))) == [a, b, c, d]
  {
    TwoSegments(c, d);
    SplitAfterWord(b, SLASH, c + [SLASH] + d);
    SplitAfterWord(a, SLASH, b + [SLASH] + (c + [SLASH] + d));
    hide Split;
    assert [a] + ([b] + [c, d]) == [a, b, c, d];
  }

  lemma FolderText(name: string)
    ensures FOLDER + name == "references" + [SLASH] + ("source" + [SLASH] + ("knowledge" + [SLASH] + name))
    ensures Named(name) == "knowledge" + [SLASH] + name && HOME == Named("x") && PLACE == FOLDER + "x"
    ensures SLASH !in "references" && SLASH !in "source" && SLASH !in "knowledge" && SLASH !in "x"
  {}

  lemma SegmentsBelow(name: string)
    requires SLASH !in name
    ensures Segments(FOLDER + name) == BELOW + [name] && |BELOW| == 3
  {
    FolderText(name);
    hide Segments;
    hide FOLDER;
    FourSegments("references", "source", "knowledge", name);
    assert BELOW + [name] == ["references", "source", "knowledge", name];
  }

  lemma FoldersAreClean()
    ensures CleanName("references") && CleanName("source") && CleanName("knowledge") && CleanName("SKILL.md")
  {}

  lemma SkillSegments(place: string)
    requires SkillPlace(place)
    ensures CleanPath(place) && Shaped(Segments(place))
  {
    FoldersAreClean();
    if place == "SKILL.md" {
      SplitWord(place, SLASH);
      hide CleanName;
    } else {
      var page := place[11..];
      assert SLASH !in page && CleanName(page);
      hide CleanName;
      assert place == "references" + [SLASH] + page by { assert place == place[..11] + place[11..]; }
      TwoSegments("references", page);
      hide Segments;
    }
  }

  lemma BelowIsClean(name: string)
    requires CleanName(name)
    ensures forall s :: s in BELOW + [name] ==> CleanName(s)
  {
    FoldersAreClean();
    hide CleanName;
  }

  lemma FolderIsClean(name: string)
    requires CleanName(name)
    ensures CleanPath(FOLDER + name) && Segments(FOLDER + name) == BELOW + [name] && Directory(FOLDER + name) == BELOW
    ensures |BELOW| == 3
  {
    assert SLASH !in name;
    BelowIsClean(name);
    hide CleanName;
    SegmentsBelow(name);
    hide Segments;
    hide FOLDER;
    hide BELOW;
    assert (BELOW + [name])[..3] == BELOW;
  }

  /** Neither example breaks a rule about paths. */
  lemma PairIsTidy(decode: Decoder, encode: Encoder, url: string, name: string, p: Layout, package: Package)
    requires Leads(decode, url, name) && Exported(decode, encode, url, name, p, package)
    ensures Tidy(p)
  {
    assert CleanName("x") && CleanName(name) && PLACE == FOLDER + "x";
    FolderIsClean("x");
    FolderIsClean(name);
    forall f | Destination(p, f).Some?
      ensures var d := Destination(p, f).value;
        CleanPath(d) && Shaped(Segments(d))
    {
      Places(decode, encode, url, name, p, package, f);
      if SkillPlace(Destination(p, f).value) {
        SkillSegments(Destination(p, f).value);
      }
    }
    hide Destination;
    hide CleanPath;
    hide Segments;
    hide Leads;
    hide Exported;
    hide SkillPlace;
    forall f, g | Destination(p, f).Some? && Destination(p, g).Some?
      ensures Directory(Destination(p, f).value) != Segments(Destination(p, g).value)
    {
      PlacesApart(Destination(p, f).value, Destination(p, g).value);
    }
  }

  predicate Shaped(parts: seq<string>) {
    parts == ["SKILL.md"] || (|parts| == 2 && parts[0] == "references") || |parts| == 4
  }

  lemma PlacesApart(a: string, b: string)
    requires Shaped(Segments(a)) && Shaped(Segments(b))
    ensures Directory(a) != Segments(b)
  {
    assert "references"[0] != "SKILL.md"[0];
    hide Segments;
  }

  // ---- what is written ----------------------------------------------------------------------

  lemma TailIsNoPage(k: nat)
    requires k <= |HOME|
    ensures !SkillPlace(HOME[k..])
  {
    var place := HOME[k..];
    assert |HOME| == 11 && HOME[3] == 'w';
    assert |place| == 8 ==> place[0] == HOME[3];
  }

  lemma HomeIsNoPage(p: Layout)
    requires SkillFiles(p.prefix, p.rendered)
    ensures !Has(Generated(p), HOME)
  {
    TailIsNoPage(if |p.prefix| <= |HOME| then |p.prefix| else 0);
    hide SkillPlace;
  }

  /** The rewrite of a link to a file of the package. */
  lemma LocalRewrite(decode: Decoder, encode: Encoder, p: Layout, source: string, link: Piece, file: string, suffix: string)
    requires Destination(p, source).Some? && Destination(p, file).Some? && Destination(p, file).value != ""
    requires link.Link? && ResolveLink(decode, source, link.url) == Local(file, suffix)
    ensures RewritePiece(decode, encode, p, source, link) == Result.Ok(
      (Link(link.open, RelativeLink(Destination(p, source).value, Destination(p, file).value) + suffix, link.close), {}))
  {
    hide Destination;
    hide ResolveLink;
    hide RelativeLink;
  }

  lemma PrintOne(piece: Piece)
    ensures Print([piece]) == Written(piece)
  {
    hide Written;
    assert [piece][1..] == [] && Written(piece) + "" == Written(piece);
  }

  lemma OnlyHomeIsThere(decode: Decoder, encode: Encoder, url: string, name: string, p: Layout, package: Package, e: Entry)
    requires Leads(decode, url, name) && Exported(decode, encode, url, name, p, package)
    requires e in Entries(p) && Destination(p, e.path) == Some(PLACE)
    ensures e == Entry(HOME, Written(Linker(url)))
  {
    var repo := Pair(url, name);
    Places(decode, encode, url, name, p, package, e.path);
    NamesDiffer(name);
    HomeIsNoPage(p);
    hide Assembled;
    hide Needed;
    hide Leads;
    hide Written;
    assert FOLDER <= PLACE;
    BelowIsNoPage(PLACE);
    hide SkillPlace;
    assert e.path == HOME;
    hide Destination;
    assert e in Generated(p) ==> Has(Generated(p), e.path);
    assert e in p.sources;
  }

  /** The text of the first file: its link, relative to the new place of the second. */
  lemma PairIsWritten(decode: Decoder, encode: Encoder, url: string, name: string, p: Layout, package: Package)
    requires Leads(decode, url, name) && Exported(decode, encode, url, name, p, package)
    ensures PLACE in package.files
    ensures package.files[PLACE] == Written(Linker(RelativeLink(PLACE, FOLDER + name)))
  {
    PairIsPlaced(decode, encode, url, name, p, package);
    assert HoldsAt(decode, encode, p, Entries(p), PLACE, package.files[PLACE]);
    var e :| e in Entries(p) && Destination(p, e.path) == Some(PLACE) && IsTransform(decode, encode, p, e, package.files[PLACE]);
    OnlyHomeIsThere(decode, encode, url, name, p, package, e);
    LinkerScans(url);
    var pieces :| IsRewrite(decode, encode, p, e.path, Scan(e.text), pieces) && package.files[PLACE] == Print(pieces);
    hide IsTransform;
    OnlyPiece(decode, encode, p, url, Named(name), pieces);
    PrintOne(Linker(RelativeLink(PLACE, FOLDER + name)));
    hide *;
  }

  lemma OnlyPiece(decode: Decoder, encode: Encoder, p: Layout, url: string, file: string, pieces: Document)
    requires Destination(p, HOME).Some? && Destination(p, file).Some? && Destination(p, file).value != ""
    requires ResolveLink(decode, HOME, url) == Local(file, "")
    requires IsRewrite(decode, encode, p, HOME, [Linker(url)], pieces)
    ensures pieces == [Linker(RelativeLink(Destination(p, HOME).value, Destination(p, file).value))]
  {
    hide ResolveLink;
    hide RelativeLink;
    hide Destination;
    hide HOME;
    LocalRewrite(decode, encode, p, HOME, Linker(url), file, "");
    hide RewritePiece;
    var target := RelativeLink(Destination(p, HOME).value, Destination(p, file).value);
    assert target + "" == target;
    assert pieces == [Linker(target)];
  }

  lemma {:induction false} CommonFull(dir: seq<string>, name: string)
    ensures Common(dir, dir + [name]) == |dir|
  {
    CommonPrefix(dir, dir + [name]);
    assert (dir + [name])[..|dir|] == dir;
  }

  lemma SiblingSegments(dir: seq<string>, name: string)
    ensures RelativeSegments(dir, dir + [name]) == [name]
  {
    CommonFull(dir, name);
    hide Common;
    assert Ups(0) == [] && (dir + [name])[|dir|..] == [name];
  }

  lemma SiblingLink(name: string)
    requires CleanName(name)
    ensures RelativeLink(PLACE, FOLDER + name) == name
  {
    assert CleanName("x") && PLACE == FOLDER + "x";
    hide CleanName;
    FolderIsClean("x");
    FolderIsClean(name);
    CleanIsNormal(PLACE);
    CleanIsNormal(FOLDER + name);
    hide Normalize;
    hide Segments;
    hide Directory;
    hide RelativeSegments;
    hide BELOW;
    hide FOLDER;
    SiblingSegments(BELOW, name);
    hide CleanPath;
    assert Join([name], SLASH) == name;
  }

  lemma NothingToCut(url: string, k: nat)
    requires k <= |url| && forall c :: c in url ==> !StartsSuffix(c)
    ensures Cut(url, k) == |url|
  {
    CutAtSuffix(url, "", k);
    assert url + "" == url;
  }

  /** A name, with or without a dot segment before it, stands for itself in a clean directory. */
  lemma NameIsNormal(dir: seq<string>, parts: seq<string>, name: string)
    requires (forall s :: s in dir ==> CleanName(s)) && CleanName(name) && (parts == [name] || parts == [".", name])
    ensures Normalize([], dir + parts) == dir + [name]
  {
    NormalizeClean([], dir, parts);
    assert [] + dir == dir && parts[1..] == if parts == [name] then [] else [name];
    assert Normalize(dir, [name]) == Normalize(dir + [name], []) by { assert [name][1..] == []; }
    hide CleanName;
  }

  lemma PathResolves(decode: Decoder, source: string, url: string, path: string, file: string)
    requires !External(url) && url != "" && Cut(url, 1) == |url| && decode(url) == Some(path)
    requires path != "" && path[|path| - 1] != SLASH
    requires PathText(Normalize([], Directory(source) + Segments(path)), false) == file
    requires !("../" <= file) && !("/" <= file) && '\\' !in file
    ensures ResolveLink(decode, source, url) == Local(file, "")
  {
    hide External;
    hide Cut;
    hide PathText;
    hide Normalize;
    hide Segments;
    hide Directory;
    assert url[..|url|] == url && url[|url|..] == "";
  }

  lemma NameResolves(decode: Decoder, source: string, url: string, parts: seq<string>, name: string, file: string)
    requires !External(url) && url != "" && (forall c :: c in url ==> !StartsSuffix(c))
    requires decode(url).Some? && Segments(decode(url).value) == parts && (parts == [name] || parts == [".", name])
    requires decode(url).value != "" && decode(url).value[|decode(url).value| - 1] != SLASH
    requires CleanPath(file) && Segments(file) == Directory(source) + [name]
    ensures ResolveLink(decode, source, url) == Local(file, "")
  {
    hide External;
    hide CleanName;
    hide Normalize;
    hide PathText;
    hide Cut;
    NothingToCut(url, 1);
    CleanText(file);
    var dir := Directory(source);
    assert forall s :: s in dir + [name] ==> CleanName(s);
    assert name in dir + [name] && forall s :: s in dir ==> s in dir + [name];
    hide Segments;
    hide Directory;
    NameIsNormal(dir, parts, name);
    PathResolves(decode, source, url, decode(url).value, file);
  }

  lemma KnowledgeSegments(name: string)
    requires CleanName(name)
    ensures Segments(Named(name)) == ["knowledge", name] && CleanPath(Named(name)) && Directory(HOME) == ["knowledge"]
  {
    assert SLASH !in name;
    FolderText(name);
    FoldersAreClean();
    hide CleanName;
    hide Named;
    hide Segments;
    TwoSegments("knowledge", name);
    TwoSegments("knowledge", "x");
    hide Directory;
    FolderText("x");
  }

  lemma LiesBesideHome(name: string)
    requires CleanName(name)
    ensures CleanPath(Named(name)) && Segments(Named(name)) == Directory(HOME) + [name]
  {
    hide *;
    KnowledgeSegments(name);
    assert ["knowledge"] + [name] == ["knowledge", name];
  }

  lemma LinkResolves(decode: Decoder, url: string, path: string, parts: seq<string>, name: string)
    requires !External(url) && (forall c :: c in url ==> !StartsSuffix(c)) && decode(url) == Some(path) && url != ""
    requires path != "" && path[|path| - 1] != SLASH && Segments(path) == parts
    requires (parts == [name] || parts == [".", name]) && CleanName(name)
    ensures ResolveLink(decode, HOME, url) == Local(Named(name), "")
  {
    hide *;
    LiesBesideHome(name);
    NameResolves(decode, HOME, url, parts, name, Named(name));
  }

  /** A name read in the folder of the package leads to the file of that name there. */
  lemma NameIsRead(decode: Decoder, name: string)
    requires !External(name) && (forall c :: c in name ==> !StartsSuffix(c)) && decode(name) == Some(name)
    requires CleanName(name) && Segments(name) == [name]
    ensures ResolveLink(decode, PLACE, name) == Local(FOLDER + name, "")
  {
    EndOfName(name);
    hide *;
    LiesBesidePlace(name);
    NameResolves(decode, PLACE, name, [name], name, FOLDER + name);
  }

  lemma EndOfName(name: string)
    requires CleanName(name)
    ensures name != "" && name[|name| - 1] != SLASH
  {
    assert name[|name| - 1] in name;
  }

  lemma LiesBesidePlace(name: string)
    requires CleanName(name)
    ensures CleanPath(FOLDER + name) && Segments(FOLDER + name) == Directory(PLACE) + [name]
  {
    assert CleanName("x");
    FolderText("x");
    hide *;
    FolderIsClean("x");
    FolderIsClean(name);
  }

  // ---- a link that is cut -------------------------------------------------------------------

  const READ := Link("[x](", "a", " b)")

  lemma SpacedIsRead()
    ensures Scan(Written(Linker("a b"))) == [READ]
  {
    assert Written(Linker("a b")) == Written(READ) by {
      assert "a b" + ")" == "a" + " b)";
      assert "[x](" + "a b" + ")" == "[x](" + ("a b" + ")");
      assert "[x](" + "a" + " b)" == "[x](" + ("a" + " b)");
    }
    PartsAreParts();
    assert IsClose(" b)");
    PlainIsClear("a");
    hide IsOpen;
    hide IsClose;
    hide IsTarget;
    hide Scan;
    hide Written;
    assert IsTarget("a") by { TargetsAreTargets(); }
    PartsMakeLink(READ);
    OneLink(READ);
  }

  lemma TargetsAreTargets()
    ensures IsTarget("a%20b") && IsTarget("a") && IsTarget("./x:y") && IsTarget("x:y")
  {
    PlainIsClear("a%20b");
    PlainIsClear("a");
    PlainIsClear("./x:y");
    PlainIsClear("x:y");
  }

  lemma ShortNames()
    ensures CleanName("a b") && CleanName("a") && CleanName("x") && CleanName("x:y")
    ensures Segments("a b") == ["a b"] && Segments("a") == ["a"] && Segments("x:y") == ["x:y"] && Segments("./x:y") == [".", "x:y"]
  {
    assert SLASH !in "a b" && SLASH !in "a" && SLASH !in "." && SLASH !in "x:y";
    SplitWord("a b", SLASH);
    SplitWord("a", SLASH);
    SplitWord("x:y", SLASH);
    TwoSegments(".", "x:y");
    assert "./x:y" == "." + [SLASH] + "x:y";
  }

  lemma ShortTargets()
    ensures !External("a%20b") && !External("a") && !External("./x:y") && External("x:y")
    ensures forall c :: c in "a%20b" || c in "a" || c in "./x:y" ==> !StartsSuffix(c)
  {
    assert !HasScheme("a%20b") && !HasScheme("a") && !HasScheme("./x:y");
    assert HasScheme("x:y") by { assert "x:y"[1] == ':'; }
    NotPrefix("a%20b", "//");
    NotPrefix("a", "//");
    NotPrefix("./x:y", "//");
  }

  lemma SpacedLeads(decode: Decoder)
    requires decode("a%20b") == Some("a b")
    ensures Leads(decode, "a%20b", "a b")
  {
    TargetsAreTargets();
    ShortNames();
    ShortTargets();
    assert "a b"[2] == 'b' && |"x"| == 1;
    hide External;
    hide CleanName;
    hide IsTarget;
    hide ResolveLink;
    hide Segments;
    hide Named;
    LinkResolves(decode, "a%20b", "a b", ["a b"], "a b");
  }

  lemma CutLinkLeads(decode: Decoder)
    requires IsDecoder(decode)
    ensures ResolveLink(decode, PLACE, "a") == Local(FOLDER + "a", "")
  {
    assert decode("a") == Some("a");
    ShortNames();
    ShortTargets();
    hide *;
    NameIsRead(decode, "a");
  }

  /** A declared reference with a space in its name, linked by its encoded name: the export gathers
      it and breaks no rule about paths, and yet, whatever else it renders, the link read from the
      written text leads to a file the package does not have. */
  lemma DecodedSpaceDangles(decode: Decoder, encode: Encoder, p: Layout, package: Package)
    requires IsDecoder(decode) && decode("a%20b") == Some("a b")
    ensures CanExport(decode, Pair("a%20b", "a b"), [HOME])
    ensures Exported(decode, encode, "a%20b", "a b", p, package) ==>
      && Tidy(p) && PLACE in package.files && READ in Scan(package.files[PLACE])
      && ResolveLink(decode, PLACE, READ.url) == Local(FOLDER + "a", "") && FOLDER + "a" !in package.files
  {
    SpacedLeads(decode);
    CutLinkLeads(decode);
    PairExports(decode, "a%20b", "a b");
    ShortNames();
    CutNameDiffers();
    SpacedIsRead();
    hide *;
    if Exported(decode, encode, "a%20b", "a b", p, package) {
      PairIsTidy(decode, encode, "a%20b", "a b", p, package);
      PairIsWritten(decode, encode, "a%20b", "a b", p, package);
      SiblingLink("a b");
      if FOLDER + "a" in package.files {
        FolderIsPair(decode, encode, "a%20b", "a b", p, package, FOLDER + "a");
      }
    }
  }

  lemma CutNameDiffers()
    ensures FOLDER <= FOLDER + "a" && FOLDER + "a" != FOLDER + "a b" && FOLDER + "a" != PLACE
  {
    assert |FOLDER + "a b"| == |FOLDER + "a"| + 2 && (FOLDER + "a")[28] == 'a' && PLACE[28] == 'x';
  }

  // ---- a link that is taken for a URL -------------------------------------------------------

  lemma ColonLeads(decode: Decoder)
    requires IsDecoder(decode)
    ensures Leads(decode, "./x:y", "x:y")
    ensures ResolveLink(decode, PLACE, "x:y") == NotLocal
  {
    TargetsAreTargets();
    ShortNames();
    ShortTargets();
    assert decode("./x:y") == Some("./x:y") && "./x:y"[4] == 'y' && |"x:y"| == 3;
    hide External;
    assert ResolveLink(decode, PLACE, "x:y") == NotLocal;
    hide External;
    hide CleanName;
    hide IsTarget;
    hide ResolveLink;
    hide Segments;
    hide Named;
    LinkResolves(decode, "./x:y", "./x:y", [".", "x:y"], "x:y");
  }

  /** A declared reference whose name reads as a URL scheme, linked behind a dot: the link read from
      the written text leads to nothing local, although the package has the file. */
  lemma ColonNameIsLost(decode: Decoder, encode: Encoder, p: Layout, package: Package)
    requires IsDecoder(decode)
    ensures CanExport(decode, Pair("./x:y", "x:y"), [HOME])
    ensures ResolveLink(decode, HOME, "./x:y") == Local(Named("x:y"), "")
    ensures Exported(decode, encode, "./x:y", "x:y", p, package) ==>
      && Tidy(p) && PLACE in package.files && Scan(package.files[PLACE]) == [Linker("x:y")]
      && FOLDER + "x:y" in package.files && ResolveLink(decode, PLACE, "x:y") == NotLocal
  {
    ColonLeads(decode);
    PairExports(decode, "./x:y", "x:y");
    if Exported(decode, encode, "./x:y", "x:y", p, package) {
      PairIsTidy(decode, encode, "./x:y", "x:y", p, package);
      PairIsPlaced(decode, encode, "./x:y", "x:y", p, package);
      PairIsWritten(decode, encode, "./x:y", "x:y", p, package);
      assert CleanName("x:y");
      SiblingLink("x:y");
      TargetsAreTargets();
      LinkerScans("x:y");
    }
  }
}
