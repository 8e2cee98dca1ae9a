/** What the links of an exported package lead to, read from the texts that were written. */
module PackageLinks {
  import opened ExportPackage
  import opened LinkRewriting
  import opened Links
  import opened LinkText
  import opened Options
  import opened Sequences
  import opened Text

  /** Every place has a clean path, and none is the directory of another. */
  ghost predicate Tidy(p: Layout) {
    && (forall f :: Destination(p, f).Some? ==> CleanPath(Destination(p, f).value))
    && (forall f, g :: Destination(p, f).Some? && Destination(p, g).Some? ==>
      Directory(Destination(p, f).value) != Segments(Destination(p, g).value))
  }

  lemma RemoteIsExternal(encode: Encoder, p: Layout, file: string, suffix: string)
    ensures External(Remote(encode, p, file, suffix))
  {
    var url := Remote(encode, p, file, suffix);
    assert SCHEME <= REPOSITORY <= url;
    forall i | 0 <= i < 6 ensures url[i] == SCHEME[i] {}
    assert url[0] == 'h' && url[5] == ':';
  }

  lemma ResolvedSuffix(decode: Decoder, source: string, url: string)
    ensures ResolveLink(decode, source, url).Local? ==> IsSuffix(ResolveLink(decode, source, url).suffix)
  {}

  lemma CleanIsNonempty(path: string)
    requires CleanPath(path)
    ensures path != ""
  {
    EmptySegment();
  }

  lemma EmptySegment()
    ensures "" in Segments("")
  {}

  /** What a rewritten link leads to from its new place: the new place of the very file it led to,
      with the same query and fragment, if the package holds that file; otherwise nothing local.
      A file below the link's own directory under a name like a URL scheme is the one exception. */
  lemma RewrittenLinkLeads(decode: Decoder, encode: Encoder, p: Layout, source: string, url: string)
    requires IsDecoder(decode) && Tidy(p) && Destination(p, source).Some?
    requires Rewrite(decode, encode, p, source, url).Ok?
    ensures var home, out := Destination(p, source).value, Rewrite(decode, encode, p, source, url).value.0;
      match ResolveLink(decode, source, url)
      case Local(f, suffix) =>
        if Destination(p, f).Some? then
          var place := Destination(p, f).value;
          ResolveLink(decode, home, out) == if SchemeBelow(Directory(home), Segments(place)) then NotLocal else Local(place, suffix)
        else ResolveLink(decode, home, out) == NotLocal
      case _ => out == url && ResolveLink(decode, home, out) == NotLocal
  {
    var home := Destination(p, source).value;
    match ResolveLink(decode, source, url)
    case Local(f, suffix) =>
      ResolvedSuffix(decode, source, url);
      if Destination(p, f).Some? {
        hide ResolveLink;
        hide Destination;
        CleanIsNonempty(Destination(p, f).value);
        RelativeLinkRoundTrip(decode, home, Destination(p, f).value, suffix);
      } else {
        RemoteIsExternal(encode, p, f, suffix);
      }
    case _ =>
  }

  // ---- reading what was written -------------------------------------------------------------

  /** Percent encoding of a segment: no white space is left, a closing parenthesis stays. */
  ghost predicate IsEncoder(encode: Encoder) {
    forall s, c :: (c in encode(s) ==> !IsSpace(c)) && (c == ')' ==> (c in encode(s) <==> c in s))
  }

  predicate Clear(s: string) {
    forall c :: c in s ==> !EndsTarget(c)
  }

  predicate AllClear(parts: seq<string>) {
    forall s :: s in parts ==> Clear(s)
  }

  /** The part of a place's path that a relative link from `home` spells out. */
  function Spelled(home: string, place: string): seq<string> {
    Segments(place)[Common(Directory(home), Segments(place))..]
  }

  /** A link that is written so that it can be read whole: what is spelled out of a place in the
      package has no white space and no closing parenthesis, a remote path no closing parenthesis. */
  predicate WritesWhole(decode: Decoder, p: Layout, source: string, url: string)
    requires Destination(p, source).Some?
  {
    match ResolveLink(decode, source, url)
    case Local(f, _) =>
      if Destination(p, f).Some? then AllClear(Spelled(Destination(p, source).value, Destination(p, f).value))
      else ')' !in f
    case _ => true
  }

  lemma {:induction false} JoinIsClear(parts: seq<string>)
    ensures Clear(Join(parts, SLASH)) <==> AllClear(parts)
    decreases |parts|
  {
    if |parts| > 1 {
      JoinIsClear(parts[1..]);
      var head, tail := parts[0] + [SLASH], Join(parts[1..], SLASH);
      ConcatIsClear(head, tail);
      ConcatIsClear(parts[0], [SLASH]);
      assert Clear([SLASH]);
      assert parts == [parts[0]] + parts[1..];
      AllClearConcat([parts[0]], parts[1..]);
    } else if parts != [] {
      assert parts == [parts[0]];
    }
  }

  lemma ConcatIsClear(a: string, b: string)
    ensures Clear(a + b) <==> Clear(a) && Clear(b)
  {
    assert forall c :: c in a + b <==> c in a || c in b;
  }

  lemma AllClearConcat(a: seq<string>, b: seq<string>)
    ensures AllClear(a + b) <==> AllClear(a) && AllClear(b)
  {
    hide Clear;
    assert forall s :: s in a + b <==> s in a || s in b;
  }

  lemma RelativeIsClear(home: string, place: string)
    requires CleanPath(home) && CleanPath(place)
    ensures Clear(RelativeLink(home, place)) <==> AllClear(Spelled(home, place))
  {
    hide Clear;
    hide AllClear;
    CleanIsNormal(home);
    CleanIsNormal(place);
    var dir, to := Directory(home), Segments(place);
    var ups := Ups(|dir| - Common(dir, to));
    JoinIsClear(RelativeSegments(dir, to));
    AllClearConcat(ups, Spelled(home, place));
    UpsAreClear(|dir| - Common(dir, to));
  }

  lemma UpsAreClear(n: nat)
    ensures AllClear(Ups(n))
  {
    assert Clear("..");
  }

  lemma SuffixIsClear(decode: Decoder, source: string, url: string)
    requires Clear(url) && ResolveLink(decode, source, url).Local?
    ensures Clear(ResolveLink(decode, source, url).suffix)
  {
    var suffix := ResolveLink(decode, source, url).suffix;
    assert suffix == url[Cut(url, 1)..];
  }

  lemma RemoteIsClear(encode: Encoder, p: Layout, file: string, suffix: string)
    requires IsEncoder(encode) && IsRevision(p.revision) && Clear(suffix)
    ensures Clear(Remote(encode, p, file, suffix)) <==> ')' !in file
  {
    var parts := MapSeq(encode, Split(file, SLASH));
    var front := REPOSITORY + "/blob/" + p.revision + "/";
    RepositoryIsClear();
    RevisionIsClear(p.revision);
    hide Clear;
    hide IsRevision;
    ConcatIsClear(REPOSITORY, "/blob/");
    ConcatIsClear(REPOSITORY + "/blob/", p.revision);
    ConcatIsClear(REPOSITORY + "/blob/" + p.revision, "/");
    JoinIsClear(parts);
    ConcatIsClear(front, Join(parts, SLASH));
    ConcatIsClear(front + Join(parts, SLASH), suffix);
    EncodedAreClear(encode, Split(file, SLASH));
    ParenthesisInSegment(file);
  }

  predicate Plain(s: string) {
    forall c :: c in s ==> '!' <= c <= '~' && c != ')'
  }

  lemma PlainIsClear(s: string)
    requires Plain(s)
    ensures Clear(s)
  {}

  lemma RepositoryIsClear()
    ensures Clear(REPOSITORY) && Clear("/blob/") && Clear("/")
  {
    PlainIsClear(SCHEME);
    PlainIsClear(HOST);
    PlainIsClear(OWNER);
    PlainIsClear(NAME);
    PlainIsClear("/blob/");
    PlainIsClear("/");
    hide Clear;
    ConcatIsClear(OWNER, NAME);
    ConcatIsClear(HOST, OWNER + NAME);
    ConcatIsClear(SCHEME, HOST + (OWNER + NAME));
  }

  lemma RevisionIsClear(revision: string)
    requires IsRevision(revision)
    ensures Clear(revision)
  {
    PlainIsClear(revision);
  }

  lemma EncodedIsClear(encode: Encoder, s: string)
    requires IsEncoder(encode)
    ensures Clear(encode(s)) <==> ')' !in s
  {
    assert ')' in encode(s) <==> ')' in s;
  }

  lemma EncodedAreClear(encode: Encoder, parts: seq<string>)
    requires IsEncoder(encode)
    ensures AllClear(MapSeq(encode, parts)) <==> forall s :: s in parts ==> ')' !in s
  {
    var encoded := MapSeq(encode, parts);
    forall s | s in parts ensures encode(s) in encoded && (Clear(encode(s)) <==> ')' !in s) {
      var i :| 0 <= i < |parts| && parts[i] == s;
      assert encoded[i] == encode(s);
      EncodedIsClear(encode, s);
    }
    forall t | t in encoded ensures exists s :: s in parts && t == encode(s) {
      var i :| 0 <= i < |encoded| && encoded[i] == t;
      assert parts[i] in parts && t == encode(parts[i]);
    }
  }

  lemma ParenthesisInSegment(file: string)
    ensures ')' in file <==> exists s :: s in Split(file, SLASH) && ')' in s
  {
    JoinSplit(file, SLASH);
    var parts := Split(file, SLASH);
    if ')' in file {
      JoinChars(parts, ')');
    }
    if s :| s in parts && ')' in s {
      PartChars(parts, s, ')');
    }
  }

  lemma {:induction false} PartChars(parts: seq<string>, s: string, c: char)
    requires s in parts && c in s
    ensures c in Join(parts, SLASH)
    decreases |parts|
  {
    if |parts| > 1 && s != parts[0] {
      PartChars(parts[1..], s, c);
    }
  }

  /** A rewritten target can be read whole exactly when the link is one that writes whole. */
  lemma TargetReadsWhole(decode: Decoder, encode: Encoder, p: Layout, source: string, url: string)
    requires IsEncoder(encode) && IsRevision(p.revision) && Tidy(p) && Destination(p, source).Some?
    requires IsTarget(url) && Rewrite(decode, encode, p, source, url).Ok?
    ensures IsTarget(Rewrite(decode, encode, p, source, url).value.0) <==> WritesWhole(decode, p, source, url)
  {
    match ResolveLink(decode, source, url)
    case Local(f, suffix) =>
      SuffixIsClear(decode, source, url);
      if Destination(p, f).Some? {
        var home, place := Destination(p, source).value, Destination(p, f).value;
        CleanIsNonempty(place);
        LinkIsNotEmpty(home, place);
        RelativeIsClear(home, place);
        ConcatIsClear(RelativeLink(home, place), suffix);
      } else {
        RemoteIsClear(encode, p, f, suffix);
        RemoteIsNotEmpty(encode, p, f, suffix);
      }
    case _ =>
  }

  lemma LinkIsNotEmpty(home: string, place: string)
    requires CleanPath(home) && CleanPath(place) && Directory(home) != Segments(place)
    ensures RelativeLink(home, place) != ""
  {
    RelativeText(home, place);
  }

  lemma RemoteIsNotEmpty(encode: Encoder, p: Layout, file: string, suffix: string)
    ensures Remote(encode, p, file, suffix) != ""
  {
    RemoteIsExternal(encode, p, file, suffix);
  }

  /** Every link of an entry writes whole. */
  predicate EntryWritesWhole(decode: Decoder, p: Layout, e: Entry)
    requires Destination(p, e.path).Some?
  {
    forall piece :: piece in Scan(e.text) && piece.Link? ==> WritesWhole(decode, p, e.path, piece.url)
  }

  /** A written document reads as the rewritten pieces it was printed from if and only if every link
      of it writes whole. */
  lemma WrittenReadsBack(decode: Decoder, encode: Encoder, p: Layout, e: Entry, pieces: Document)
    requires IsEncoder(encode) && IsRevision(p.revision) && Tidy(p) && Destination(p, e.path).Some?
    requires IsRewrite(decode, encode, p, e.path, Scan(e.text), pieces)
    ensures Scan(Print(pieces)) == pieces <==> EntryWritesWhole(decode, p, e)
  {
    var doc := Scan(e.text);
    PrintScan(e.text);
    ScanFindsLinks(e.text);
    hide Scan;
    hide Print;
    hide Destination;
    hide Tidy;
    hide WritesWhole;
    forall i | 0 <= i < |doc|
      ensures SameShape(doc[i], pieces[i])
      ensures doc[i].Link? ==> pieces[i].Link? && (IsTarget(pieces[i].url) <==> WritesWhole(decode, p, e.path, doc[i].url))
    {
      assert doc[i] in doc;
      PieceReadsWhole(decode, encode, p, e.path, doc[i]);
    }
    WholeEverywhere(decode, p, e, pieces);
    RewriteReadsExactly(doc, pieces);
  }

  lemma PieceReadsWhole(decode: Decoder, encode: Encoder, p: Layout, path: string, piece: Piece)
    requires IsEncoder(encode) && IsRevision(p.revision) && Tidy(p) && Destination(p, path).Some?
    requires RewritePiece(decode, encode, p, path, piece).Ok? && (piece.Link? ==> IsLink(piece))
    ensures var out := RewritePiece(decode, encode, p, path, piece).value.0;
      && SameShape(piece, out)
      && (piece.Link? ==> (IsTarget(out.url) <==> WritesWhole(decode, p, path, piece.url)))
  {
    hide IsEncoder;
    hide Tidy;
    hide Destination;
    hide Rewrite;
    hide IsTarget;
    hide WritesWhole;
    if piece.Link? {
      TargetReadsWhole(decode, encode, p, path, piece.url);
    }
  }

  lemma WholeEverywhere(decode: Decoder, p: Layout, e: Entry, pieces: Document)
    requires Destination(p, e.path).Some? && |pieces| == |Scan(e.text)|
    requires forall i :: 0 <= i < |pieces| ==> SameShape(Scan(e.text)[i], pieces[i])
    requires forall i :: 0 <= i < |pieces| && Scan(e.text)[i].Link? ==>
      pieces[i].Link? && (IsTarget(pieces[i].url) <==> WritesWhole(decode, p, e.path, Scan(e.text)[i].url))
    ensures Readable(pieces) <==> EntryWritesWhole(decode, p, e)
  {
    var doc := Scan(e.text);
    hide Scan;
    hide WritesWhole;
    hide IsTarget;
    hide Destination;
    if Readable(pieces) {
      forall piece | piece in doc && piece.Link? ensures WritesWhole(decode, p, e.path, piece.url) {
        var i :| 0 <= i < |doc| && doc[i] == piece;
        assert SameShape(doc[i], pieces[i]) && pieces[i] in pieces;
      }
    }
    if EntryWritesWhole(decode, p, e) {
      forall piece | piece in pieces && piece.Link? ensures IsTarget(piece.url) {
        var i :| 0 <= i < |pieces| && pieces[i] == piece;
        assert SameShape(doc[i], pieces[i]) && doc[i] in doc;
      }
    }
  }

  /** Every link of every entry writes whole. */
  ghost predicate Legible(decode: Decoder, p: Layout) {
    forall e :: e in Entries(p) && Destination(p, e.path).Some? ==> EntryWritesWhole(decode, p, e)
  }

  /** No link that is read from a text of the package dangles: one that leads to a local file leads
      to a file of the package. */
  lemma PackageIsClosed(decode: Decoder, encode: Encoder, p: Layout, package: Package, d: string, link: Piece)
    requires IsDecoder(decode) && IsEncoder(encode) && IsRevision(p.revision) && Tidy(p) && Legible(decode, p)
    requires Assembled(decode, encode, p, Entries(p), package)
    requires d in package.files && link in Scan(package.files[d]) && link.Link?
    ensures match ResolveLink(decode, d, link.url)
      case Local(f, _) => f in package.files
      case NotLocal => true
      case Refused => false
  {
    assert HoldsAt(decode, encode, p, Entries(p), d, package.files[d]);
    var e :| e in Entries(p) && Destination(p, e.path) == Some(d) && IsTransform(decode, encode, p, e, package.files[d]);
    var pieces :| IsRewrite(decode, encode, p, e.path, Scan(e.text), pieces) && package.files[d] == Print(pieces);
    WrittenReadsBack(decode, encode, p, e, pieces);
    assert link in pieces;
    var i :| 0 <= i < |pieces| && pieces[i] == link;
    var authored := Scan(e.text)[i];
    PieceLeads(decode, encode, p, e.path, authored);
    hide *;
    match ResolveLink(decode, d, link.url)
    case Local(f, _) =>
      var g := ResolveLink(decode, e.path, authored.url).file;
      PlaceIsHeld(p, g);
      PlacesAreFiles(decode, encode, p, package, g);
    case _ =>
  }

  /** A rewritten link, resolved from its new place, leads to a place of the package or nowhere. */
  lemma PieceLeads(decode: Decoder, encode: Encoder, p: Layout, path: string, piece: Piece)
    requires IsDecoder(decode) && Tidy(p) && Destination(p, path).Some?
    requires RewritePiece(decode, encode, p, path, piece).Ok? && RewritePiece(decode, encode, p, path, piece).value.0.Link?
    ensures piece.Link?
    ensures var out := RewritePiece(decode, encode, p, path, piece).value.0;
      match ResolveLink(decode, Destination(p, path).value, out.url)
      case Local(f, _) =>
        && ResolveLink(decode, path, piece.url).Local?
        && Destination(p, ResolveLink(decode, path, piece.url).file) == Some(f)
      case NotLocal => true
      case Refused => false
  {
    hide IsDecoder;
    hide Tidy;
    hide Destination;
    hide ResolveLink;
    RewrittenLinkLeads(decode, encode, p, path, piece.url);
  }

  lemma PlacesAreFiles(decode: Decoder, encode: Encoder, p: Layout, package: Package, g: string)
    requires Assembled(decode, encode, p, Entries(p), package)
    requires Destination(p, g).Some? && exists e :: e in Entries(p) && e.path == g
    ensures Destination(p, g).value in package.files
  {
    hide Destination;
    hide Entries;
  }

  lemma PlaceIsHeld(p: Layout, f: string)
    ensures Destination(p, f).Some? ==> exists e :: e in Entries(p) && e.path == f
  {}
}
