/** Where an export puts its documents, and the remote links it writes for files it leaves out. */
module RemoteLinks {
  import opened ExportPackage
  import opened LinkRewriting
  import opened Links
  import opened LinkTargets
  import opened LinkText
  import opened Options
  import opened Sequences
  import opened Text

  // ---- places -------------------------------------------------------------------------------

  /** A source goes below `references/source/`; a rendered file of the skill loses the skill's own
      directory; nothing else is in the package. */
  lemma PlacesExactly(p: Layout, file: string, d: string)
    ensures Destination(p, file) == Some(d) <==>
      if exists e :: e in p.sources && e.path == file then d == "references/source/" + file
      else (exists e :: e in p.rendered && e.path == file) && file == p.prefix + d
  {
    if Has(p.sources, file) {
      var e :| e in p.sources && e.path == file;
    } else {
      assert !exists e :: e in p.sources && e.path == file;
      if Has(Generated(p), file) {
        assert file == p.prefix + file[|p.prefix|..];
        assert p.prefix <= file;
        if file == p.prefix + d { assert file[|p.prefix|..] == d; }
      }
      GeneratedHas(p, file);
    }
  }

  lemma GeneratedHas(p: Layout, file: string)
    ensures Has(Generated(p), file) <==> p.prefix <= file && exists e :: e in p.rendered && e.path == file
  {
    if e :| e in p.rendered && e.path == file && p.prefix <= file {
      assert e in Generated(p);
    }
  }

  lemma LastIsSource(p: Layout, s: Entry, e: Entry, d: string)
    requires s in p.sources && Destination(p, s.path) == Some(d) && IsLast(p, Entries(p), e, d)
    ensures e in p.sources && IsLast(p, p.sources, e, d)
  {
    hide Destination;
    var entries, n := Entries(p), |Generated(p)|;
    var i :| 0 <= i < |entries| && entries[i] == e && NoneBehind(p, entries, i, d);
    var k :| 0 <= k < |p.sources| && p.sources[k] == s;
    assert entries[n + k] == s;
    assert p.sources[i - n] == e;
    forall j | 0 <= j < |p.sources| && i - n < j ensures Destination(p, p.sources[j].path) != Some(d) {
      assert entries[n + j] == p.sources[j];
    }
    assert NoneBehind(p, p.sources, i - n, d);
  }

  /** A gathered source is never displaced by a rendered file with the same place. */
  lemma SourcesWin(decode: Decoder, encode: Encoder, p: Layout, package: Package, s: Entry)
    requires Assembled(decode, encode, p, Entries(p), package) && s in p.sources
    ensures Destination(p, s.path).Some? && Destination(p, s.path).value in package.files
    ensures var d := Destination(p, s.path).value; HoldsAt(decode, encode, p, p.sources, d, package.files[d])
  {
    hide Destination;
    hide IsTransform;
    hide IsLast;
    hide AddsAt;
    assert s in Entries(p);
    hide Entries;
    var d := Destination(p, s.path).value;
    assert HoldsAt(decode, encode, p, Entries(p), d, package.files[d]);
    var e :| e in Entries(p) && Destination(p, e.path) == Some(d) && IsTransform(decode, encode, p, e, package.files[d])
      && IsLast(p, Entries(p), e, d);
    LastIsSource(p, s, e, d);
  }

  // ---- remote links -------------------------------------------------------------------------

  const BASE: string := "https://github.com/" + "Clueless-Creations/b2c-app-builder/blob/"

  lemma NameIs()
    ensures NAME + "/blob/" == "b2c-app-builder/blob/"
  {}

  lemma OwnerIs()
    ensures OWNER + "b2c-app-builder/blob/" == "Clueless-Creations/b2c-app-builder/blob/"
  {}

  lemma HostIs()
    ensures SCHEME + HOST == "https://github.com/"
  {}

  lemma Associates(a: string, b: string, c: string, d: string, e: string)
    ensures a + (b + (c + d)) + e == (a + b) + (c + (d + e))
  {}

  lemma BaseIs()
    ensures REPOSITORY + "/blob/" == BASE
  {
    Associates(SCHEME, HOST, OWNER, NAME, "/blob/");
    NameIs();
    OwnerIs();
    HostIs();
    hide SCHEME;
    hide HOST;
    hide OWNER;
    hide NAME;
  }

  /** Encoded segments keep their borders and name one segment each. */
  ghost predicate KeepsSegments(encode: Encoder) {
    && (forall s, c :: c in encode(s) ==> c !in {'/', '?', '#'})
    && forall s, t :: encode(s) == encode(t) ==> s == t
  }

  function RemotePath(encode: Encoder, file: string): string {
    Join(MapSeq(encode, Segments(file)), SLASH)
  }

  /** A remote link: the repository, the revision, the encoded segments of the file and the suffix. */
  lemma RemoteReads(encode: Encoder, p: Layout, file: string, suffix: string)
    requires KeepsSegments(encode)
    ensures Remote(encode, p, file, suffix) == BASE + p.revision + "/" + RemotePath(encode, file) + suffix
    ensures Segments(RemotePath(encode, file)) == MapSeq(encode, Segments(file))
    ensures forall c :: c in RemotePath(encode, file) ==> !StartsSuffix(c)
  {
    hide BASE;
    hide REPOSITORY;
    BaseIs();
    var parts := MapSeq(encode, Segments(file));
    assert REPOSITORY + "/blob/" + p.revision == BASE + p.revision;
    SplitJoin(parts, SLASH);
    forall c | c in RemotePath(encode, file) ensures !StartsSuffix(c) {
      JoinChars(parts, c);
    }
  }

  lemma SameRest(a: string, b: string, suffix: string, other: string)
    requires a + suffix == b + other && IsSuffix(suffix) && IsSuffix(other)
    requires (forall c :: c in a ==> !StartsSuffix(c)) && forall c :: c in b ==> !StartsSuffix(c)
    ensures a == b && suffix == other
  {
    CutAtSuffix(a, suffix, 0);
    CutAtSuffix(b, other, 0);
    assert (a + suffix)[..|a|] == a && (b + other)[..|b|] == b;
    assert (a + suffix)[|a|..] == suffix && (b + other)[|b|..] == other;
  }

  lemma SameSegments(encode: Encoder, f: string, g: string)
    requires KeepsSegments(encode) && MapSeq(encode, Segments(f)) == MapSeq(encode, Segments(g))
    ensures f == g
  {
    var a, b := Segments(f), Segments(g);
    forall i | 0 <= i < |a| ensures |a| == |b| && a[i] == b[i] {
      assert MapSeq(encode, a)[i] == encode(a[i]) && MapSeq(encode, b)[i] == encode(b[i]);
    }
    assert |a| == |MapSeq(encode, a)| == |MapSeq(encode, b)| == |b|;
    assert a == b;
    JoinSplit(f, SLASH);
    JoinSplit(g, SLASH);
  }

  lemma DropHead(head: string, a: string, b: string)
    requires head + a == head + b
    ensures a == b
  {
    assert (head + a)[|head|..] == a && (head + b)[|head|..] == b;
  }

  lemma SplitHead(a: string, b: string, x: string, y: string)
    requires a + x == b + y && |a| == |b|
    ensures a == b && x == y
  {
    assert (a + x)[..|a|] == a && (b + y)[..|b|] == b && (a + x)[|a|..] == x && (b + y)[|b|..] == y;
  }

  /** Two remote links of full revisions are the same text only for the same revision, the same file
      and the same query and fragment. */
  lemma RemoteIsInjective(encode: Encoder, p: Layout, q: Layout, f: string, g: string, s: string, t: string)
    requires KeepsSegments(encode) && IsRevision(p.revision) && IsRevision(q.revision) && IsSuffix(s) && IsSuffix(t)
    requires Remote(encode, p, f, s) == Remote(encode, q, g, t)
    ensures p.revision == q.revision && f == g && s == t
  {
    hide *;
    RevisionExactly(p.revision);
    RevisionExactly(q.revision);
    RemoteReads(encode, p, f, s);
    RemoteReads(encode, q, g, t);
    var a, b := RemotePath(encode, f) + s, RemotePath(encode, g) + t;
    assert BASE + p.revision + "/" + RemotePath(encode, f) + s == BASE + (p.revision + ("/" + a));
    assert BASE + q.revision + "/" + RemotePath(encode, g) + t == BASE + (q.revision + ("/" + b));
    DropHead(BASE, p.revision + ("/" + a), q.revision + ("/" + b));
    SplitHead(p.revision, q.revision, "/" + a, "/" + b);
    DropHead("/", a, b);
    SameRest(RemotePath(encode, f), RemotePath(encode, g), s, t);
    SameSegments(encode, f, g);
  }

  const HEX: string := "0123456789abcdef"

  lemma HexDigit(c: char)
    ensures 'a' <= c <= 'f' || '0' <= c <= '9' <==> c in HEX
  {
    if '0' <= c <= '9' {
      assert HEX[c as int - '0' as int] == c;
    } else if 'a' <= c <= 'f' {
      assert HEX[10 + c as int - 'a' as int] == c;
    }
  }

  /** A full revision is forty lower-case hexadecimal digits. */
  lemma RevisionExactly(r: string)
    ensures IsRevision(r) <==> |r| == 40 && forall c :: c in r ==> c in HEX
  {
    hide HEX;
    forall c ensures 'a' <= c <= 'f' || '0' <= c <= '9' <==> c in HEX { HexDigit(c); }
  }

  // ---- which remote links a package adds ----------------------------------------------------

  /** The link leads to a repository file that has no place in the package. */
  predicate LeavesPackage(decode: Decoder, p: Layout, source: string, url: string, file: string, suffix: string) {
    ResolveLink(decode, source, url) == Local(file, suffix) && (Destination(p, file) == None || Destination(p, file) == Some(""))
  }

  ghost predicate IsRemoteOf(decode: Decoder, encode: Encoder, p: Layout, source: string, url: string, x: string) {
    exists file, suffix :: LeavesPackage(decode, p, source, url, file, suffix) && x == Remote(encode, p, file, suffix)
  }

  /** What a link becomes and what it adds: a link out of the package becomes its remote link and
      adds that; every other link adds nothing. */
  lemma RewriteAdds(decode: Decoder, encode: Encoder, p: Layout, source: string, url: string)
    requires Destination(p, source).Some? && Rewrite(decode, encode, p, source, url).Ok?
    ensures forall x :: x in Rewrite(decode, encode, p, source, url).value.1 <==> IsRemoteOf(decode, encode, p, source, url, x)
    ensures forall x :: x in Rewrite(decode, encode, p, source, url).value.1 ==> Rewrite(decode, encode, p, source, url).value.0 == x
  {
    hide Remote;
    hide Destination;
    hide ResolveLink;
    hide RelativeLink;
    var added := Rewrite(decode, encode, p, source, url).value.1;
    match ResolveLink(decode, source, url)
    case Local(file, suffix) =>
      if Destination(p, file) == None || Destination(p, file) == Some("") {
        assert LeavesPackage(decode, p, source, url, file, suffix);
      }
    case _ =>
  }

  ghost predicate WritesRemote(decode: Decoder, encode: Encoder, p: Layout, e: Entry, piece: Piece, x: string) {
    piece in Scan(e.text) && piece.Link? && IsRemoteOf(decode, encode, p, e.path, piece.url, x)
  }

  ghost predicate SomeLinkWrites(decode: Decoder, encode: Encoder, p: Layout, e: Entry, x: string) {
    exists piece :: WritesRemote(decode, encode, p, e, piece, x)
  }

  lemma AddsExactly(decode: Decoder, encode: Encoder, p: Layout, e: Entry, x: string)
    requires Destination(p, e.path).Some? && !LinkRewriting.Refuses(decode, encode, p, e)
    ensures Adds(decode, encode, p, e, x) <==> SomeLinkWrites(decode, encode, p, e, x)
  {
    hide Rewrite;
    hide Destination;
    hide Scan;
    hide IsRemoteOf;
    forall piece | piece in Scan(e.text)
      ensures AddsRemote(decode, encode, p, e.path, piece, x) <==> WritesRemote(decode, encode, p, e, piece, x)
    {
      assert RewritePiece(decode, encode, p, e.path, piece).Ok?;
      if piece.Link? { RewriteAdds(decode, encode, p, e.path, piece.url); }
    }
    hide RewritePiece;
    if Adds(decode, encode, p, e, x) {
      var piece :| piece in Scan(e.text) && AddsRemote(decode, encode, p, e.path, piece, x);
      assert WritesRemote(decode, encode, p, e, piece, x);
    }
    if piece :| WritesRemote(decode, encode, p, e, piece, x) {
      assert piece in Scan(e.text) && AddsRemote(decode, encode, p, e.path, piece, x);
    }
  }

  /** The supplemental links of a package are exactly the remote links of those of its documents'
      links that lead to a repository file outside the package. */
  lemma SupplementalExactly(decode: Decoder, encode: Encoder, p: Layout, package: Package, x: string)
    requires Assembled(decode, encode, p, Entries(p), package) && !AnyRefuses(decode, encode, p, Entries(p))
    ensures x in package.supplemental <==> exists e :: e in Entries(p) && SomeLinkWrites(decode, encode, p, e, x)
  {
    hide Destination;
    hide Adds;
    hide LinkRewriting.Refuses;
    hide SomeLinkWrites;
    hide HoldsAt;
    hide Entries;
    forall e | e in Entries(p) ensures AddsAt(decode, encode, p, e, x) <==> SomeLinkWrites(decode, encode, p, e, x) {
      assert Destination(p, e.path).Some? && !RefusesAt(decode, encode, p, e);
      AddsExactly(decode, encode, p, e, x);
    }
  }
}
