/** Quoting a section of a reference in a rendered skill file: its relative links are rebased from
    the reference's place to the place of the file that quotes them. */
module Rebasing {
  import opened Links
  import opened Options
  import opened Text

  /** Absolute targets stay as they are. */
  predicate Kept(target: string) {
    "http:" <= target || "https:" <= target || "mailto:" <= target || "/" <= target
  }

  function FilePart(target: string): string {
    Split(target, '#')[0]
  }

  /** The text between the first and the second `#`, as a fragment; an empty one is dropped. */
  function Fragment(target: string): string {
    var parts := Split(target, '#');
    if |parts| > 1 && parts[1] != "" then "#" + parts[1] else ""
  }

  /** The text `path.posix.join` gives for a file named from a document. */
  function Joined(source: string, file: string): string {
    PathText(Normalize([], Directory(source) + Segments(file)), file != "" && file[|file| - 1] == SLASH)
  }

  function Rebase(reference: string, from: string, target: string): string {
    if Kept(target) then target
    else RelativeLink(from, Joined(reference, FilePart(target))) + Fragment(target)
  }

  /** A target is its file part followed by what the first `#` opens. */
  lemma TargetParts(target: string)
    ensures FilePart(target) <= target && '#' !in FilePart(target)
    ensures var rest := target[|FilePart(target)|..];
      && IsSuffix(rest)
      && (rest != "" ==> rest[0] == '#')
      && Fragment(target) == Fragment(rest)
      && (Fragment(rest) == rest <==> (rest == "" || (|rest| > 1 && '#' !in rest[1..])))
  {
    JoinSplit(target, '#');
    var parts, file := Split(target, '#'), FilePart(target);
    assert file in parts;
    if |parts| > 1 {
      var tail := Join(parts[1..], '#');
      var rest := target[|file|..];
      assert target == file + ['#'] + tail && rest == ['#'] + tail;
      SplitAfterWord("", '#', tail);
      assert rest == "" + ['#'] + tail;
      SplitAfterWord(file, '#', tail);
      assert parts == [file] + Split(tail, '#');
      TailFragment(tail);
      assert rest[1..] == tail;
    } else {
      assert target == file;
      SplitWord("", '#');
    }
  }

  /** A fragment is kept whole when it is not empty and holds no further `#`. */
  lemma TailFragment(tail: string)
    ensures Split(tail, '#')[0] == tail <==> '#' !in tail
    ensures |Split(tail, '#')[0]| <= |tail|
  {}

  // ---- where a target leads -----------------------------------------------------------------

  predicate IsName(s: string) {
    !Dotted(s) && SLASH !in s
  }

  predicate OneName(decode: Decoder, s: string) {
    decode(s).Some? && IsName(decode(s).value)
  }

  function Both(a: Option<string>, b: Option<string>): Option<string> {
    if a.Some? && b.Some? then Some(a.value + [SLASH] + b.value) else None
  }

  ghost predicate ReadsAt(decode: Decoder, a: string, b: string) {
    decode(a + [SLASH] + b) == Both(decode(a), decode(b))
  }

  /** A decoder reads a path segment by segment: no escape reaches over a slash. */
  ghost predicate ReadsBySegment(decode: Decoder) {
    forall a, b :: ReadsAt(decode, a, b)
  }

  /** The path of a target, before its query and fragment. */
  function PathPart(target: string): string
    requires target != ""
  {
    target[..Cut(target, 1)]
  }

  /** The query of a target, with its mark. */
  function Query(target: string): string
    requires target != ""
  {
    FilePart(target[Cut(target, 1)..])
  }

  function Last(s: seq<string>): string
    requires s != []
  {
    s[|s| - 1]
  }

  /** A target whose path can be normalized before it is decoded: each segment is a step or decodes
      to one name, and a query follows a name and holds no step behind a slash. */
  predicate Straight(decode: Decoder, target: string)
    requires target != ""
  {
    var path, query := Segments(PathPart(target)), Query(target);
    && (forall s :: s in path ==> Dotted(s) || OneName(decode, s))
    && (query != "" ==> OneName(decode, Last(path)) && forall s :: s in Segments(query)[1..] ==> !Dotted(s))
  }

  /** A target of clean names and steps, without query and fragment, is straight. */
  lemma CleanIsStraight(decode: Decoder, target: string)
    requires IsDecoder(decode) && target != "" && (forall c :: c in target ==> !StartsSuffix(c))
    requires forall s :: s in Segments(target) ==> s == "" || s == "." || s == ".." || CleanName(s)
    ensures Straight(decode, target)
  {
    CutAtSuffix(target, "", 1);
    assert target + "" == target && target[..|target|] == target && target[|target|..] == "";
    forall s | s in Segments(target) ensures Dotted(s) || OneName(decode, s) {
      if !Dotted(s) {
        assert decode(s) == Some(s);
      }
    }
  }

  /** What stays as it is: a target that begins with a web or mail scheme or with a slash. */
  lemma KeptExactly(target: string)
    ensures Kept(target) <==> exists rest :: BeginsKept(target, rest)
  {
    if Kept(target) {
      if "http:" <= target { assert BeginsKept(target, target[5..]); }
      if "https:" <= target { assert BeginsKept(target, target[6..]); }
      if "mailto:" <= target { assert BeginsKept(target, target[7..]); }
      if "/" <= target { assert BeginsKept(target, target[1..]); }
    }
  }

  predicate BeginsKept(target: string, rest: string) {
    target == "http:" + rest || target == "https:" + rest || target == "mailto:" + rest || target == "/" + rest
  }

  /** The segments of a path as authored, seen from the document's directory. */
  function Authored(reference: string, path: string): seq<string> {
    Normalize([], Directory(reference) + Segments(path))
  }

  // ---- splitting and joining ----------------------------------------------------------------

  /** The segments of two texts put together: the last of one and the first of the other meet. */
  function Glue(x: seq<string>, y: seq<string>): seq<string>
    requires x != [] && y != []
  {
    x[..|x| - 1] + [Last(x) + y[0]] + y[1..]
  }

  lemma GlueCons(head: string, rest: seq<string>, y: seq<string>)
    requires rest != [] && y != []
    ensures Glue([head] + rest, y) == [head] + Glue(rest, y)
  {
    var all := [head] + rest;
    assert all[..|all| - 1] == [head] + rest[..|rest| - 1] && Last(all) == Last(rest);
  }

  lemma ConsGlue(x: char, s: seq<string>, y: seq<string>, c: char)
    requires s != [] && y != []
    ensures Cons(x, Glue(s, y), c) == Glue(Cons(x, s, c), y)
  {
    if x == c {
      GlueCons("", s, y);
    } else if |s| == 1 {
      assert Glue(s, y) == [s[0] + y[0]] + y[1..] && Glue([[x] + s[0]], y) == [[x] + s[0] + y[0]] + y[1..];
      assert [x] + (s[0] + y[0]) == [x] + s[0] + y[0] && s[1..] == [];
    } else {
      assert s == [s[0]] + s[1..];
      GlueCons(s[0], s[1..], y);
      GlueCons([x] + s[0], s[1..], y);
      hide Glue;
    }
  }

  lemma {:induction false} SplitConcat(a: string, b: string, c: char)
    ensures Split(a + b, c) == Glue(Split(a, c), Split(b, c))
    decreases |a|
  {
    if a == "" {
      assert a + b == b && Split(a, c) == [""] && [""][..0] == [] && "" + Split(b, c)[0] == Split(b, c)[0];
    } else {
      SplitConcat(a[1..], b, c);
      assert (a + b)[0] == a[0] && (a + b)[1..] == a[1..] + b;
      SplitCons(a, c);
      SplitCons(a + b, c);
      hide Split;
      ConsGlue(a[0], Split(a[1..], c), Split(b, c), c);
    }
  }

  lemma GlueNothing(x: seq<string>)
    requires x != []
    ensures Glue(x, [""]) == x
  {
    assert Last(x) + "" == Last(x);
  }

  lemma {:induction false} JoinGlue(x: seq<string>, y: seq<string>)
    requires x != [] && y != []
    ensures Join(Glue(x, y), SLASH) == Join(x, SLASH) + Join(y, SLASH)
    decreases |x|
  {
    if |x| == 1 {
      assert Glue(x, y) == [x[0] + y[0]] + y[1..];
      assert Glue(x, y)[1..] == y[1..];
      assert x[0] + (y[0] + [SLASH] + Join(y[1..], SLASH)) == x[0] + y[0] + [SLASH] + Join(y[1..], SLASH);
    } else {
      JoinGlue(x[1..], y);
      assert Glue(x, y)[0] == x[0] && Glue(x, y)[1..] == Glue(x[1..], y);
      assert x[0] + [SLASH] + (Join(x[1..], SLASH) + Join(y, SLASH)) == x[0] + [SLASH] + Join(x[1..], SLASH) + Join(y, SLASH);
    }
  }

  lemma {:induction false} SegmentChars(path: string, s: string, c: char)
    requires s in Segments(path) && c in s
    ensures c in path
    decreases |path|
  {
    if path != "" {
      SplitCons(path, SLASH);
      var rest := Segments(path[1..]);
      if s !in rest {
        assert path[0] != SLASH && s == [path[0]] + rest[0];
      }
      if c != path[0] {
        var t := if s in rest then s else rest[0];
        SegmentChars(path[1..], t, c);
      }
    }
  }

  /** A target is its path, its query and the rest. */
  lemma TargetShape(target: string)
    requires target != "" && !StartsSuffix(target[0])
    ensures FilePart(target) == PathPart(target) + Query(target)
    ensures Fragment(target) == Fragment(target[Cut(target, 1)..])
    ensures PathPart(target) != "" && forall c :: c in PathPart(target) ==> !StartsSuffix(c)
    ensures Query(target) == "" || Query(target)[0] == '?'
    ensures '#' !in Query(target)
  {
    var k := Cut(target, 1);
    var path, tail := target[..k], target[k..];
    assert target == path + tail;
    forall c | c in path ensures !StartsSuffix(c) {
      var i :| 0 <= i < k && target[i] == c;
    }
    SplitConcat(path, tail, '#');
    SplitWord(path, '#');
    assert [path][..0] == [];
    QueryMark(tail);
  }

  lemma QueryMark(tail: string)
    requires tail == "" || StartsSuffix(tail[0])
    ensures FilePart(tail) == "" || FilePart(tail)[0] == '?'
    ensures '#' !in FilePart(tail)
  {}

  // ---- normalizing as authored and as decoded -----------------------------------------------

  predicate Unmarked(s: string) {
    SLASH !in s && forall c :: c in s ==> !StartsSuffix(c)
  }

  /** An authored segment and the decoded one it stands for: a step or a directory of the document
      stands for itself. */
  predicate Stands(decode: Decoder, dirs: seq<string>, r: string, d: string) {
    (r == d && (Dotted(r) || r in dirs)) || (decode(r) == Some(d) && IsName(d) && Unmarked(r))
  }

  predicate AllStand(decode: Decoder, dirs: seq<string>, raw: seq<string>, dec: seq<string>) {
    |raw| == |dec| && forall i :: 0 <= i < |raw| ==> Stands(decode, dirs, raw[i], dec[i])
  }

  lemma StandsAlike(decode: Decoder, dirs: seq<string>, r: string, d: string)
    requires IsDecoder(decode) && Stands(decode, dirs, r, d)
    ensures Dotted(r) <==> Dotted(d)
    ensures r == ".." <==> d == ".."
  {
    assert decode("") == Some("") && decode(".") == Some(".") && decode("..") == Some("..");
  }

  lemma {:induction false} NormalizeStands(decode: Decoder, dirs: seq<string>, doneR: seq<string>, doneD: seq<string>,
                                           raw: seq<string>, dec: seq<string>)
    requires IsDecoder(decode) && AllStand(decode, dirs, doneR, doneD) && AllStand(decode, dirs, raw, dec)
    ensures AllStand(decode, dirs, Normalize(doneR, raw), Normalize(doneD, dec))
    decreases |raw|
  {
    if raw != [] {
      StandsAlike(decode, dirs, raw[0], dec[0]);
      if doneR != [] {
        StandsAlike(decode, dirs, Last(doneR), Last(doneD));
      }
      hide IsDecoder;
      hide Stands;
      var r, d := raw[0], dec[0];
      if r == "" || r == "." {
        assert d == "" || d == ".";
        NormalizeStands(decode, dirs, doneR, doneD, raw[1..], dec[1..]);
      } else if r == ".." && doneR != [] && Last(doneR) != ".." {
        NormalizeStands(decode, dirs, doneR[..|doneR| - 1], doneD[..|doneD| - 1], raw[1..], dec[1..]);
      } else {
        NormalizeStands(decode, dirs, doneR + [r], doneD + [d], raw[1..], dec[1..]);
      }
    }
  }

  /** The segments read one by one. */
  predicate AllRead(decode: Decoder, raw: seq<string>, dec: seq<string>) {
    |raw| == |dec| && forall i :: 0 <= i < |raw| ==> decode(raw[i]) == Some(dec[i])
  }

  lemma {:induction false} DecodeJoin(decode: Decoder, raw: seq<string>, dec: seq<string>)
    requires ReadsBySegment(decode) && raw != [] && AllRead(decode, raw, dec)
    ensures decode(Join(raw, SLASH)) == Some(Join(dec, SLASH))
    decreases |raw|
  {
    if |raw| > 1 {
      DecodeJoin(decode, raw[1..], dec[1..]);
      assert ReadsAt(decode, raw[0], Join(raw[1..], SLASH));
    }
  }

  // ---- the two readings of a target ---------------------------------------------------------

  /** The file's segments as authored and as decoded: names, and free of marks as authored. */
  predicate Named(decode: Decoder, raw: seq<string>, dec: seq<string>) {
    && AllRead(decode, raw, dec)
    && forall i :: 0 <= i < |raw| ==> !Dotted(raw[i]) && Unmarked(raw[i]) && IsName(dec[i])
  }

  predicate IsFile(f: string) {
    forall s :: s in Segments(f) ==> IsName(s)
  }

  /** The directories of the document that the target keeps have clean names. */
  predicate KeepsClean(reference: string, f: string) {
    forall s :: s in Directory(reference) && s in Segments(f) ==> CleanName(s)
  }

  lemma PlainDecodes(decode: Decoder, s: string)
    requires IsDecoder(decode) && (Dotted(s) || CleanName(s))
    ensures decode(s) == Some(s)
  {
    assert '%' !in s;
  }

  lemma PathIsRead(decode: Decoder, target: string) returns (dec: seq<string>)
    requires IsDecoder(decode) && target != "" && !StartsSuffix(target[0]) && Straight(decode, target)
    ensures AllRead(decode, Segments(PathPart(target)), dec)
    ensures AllStand(decode, [], Segments(PathPart(target)), dec)
    ensures forall s :: s in dec ==> SLASH !in s
  {
    var raw := Segments(PathPart(target));
    TargetShape(target);
    forall s | s in raw ensures decode(s).Some? && Stands(decode, [], s, decode(s).value) && SLASH !in decode(s).value {
      if Dotted(s) {
        PlainDecodes(decode, s);
      } else {
        forall c | c in s ensures !StartsSuffix(c) {
          SegmentChars(PathPart(target), s, c);
        }
      }
    }
    hide Stands;
    hide Segments;
    hide PathPart;
    forall i | 0 <= i < |raw| ensures raw[i] in raw {}
    dec := seq(|raw|, i requires 0 <= i < |raw| => decode(raw[i]).value);
  }

  lemma DirsStand(decode: Decoder, dirs: seq<string>, raw: seq<string>, dec: seq<string>)
    requires AllStand(decode, [], raw, dec)
    ensures AllStand(decode, dirs, dirs + raw, dirs + dec)
  {
    forall i | 0 <= i < |dirs + raw| ensures Stands(decode, dirs, (dirs + raw)[i], (dirs + dec)[i]) {
      if i < |dirs| {
        assert (dirs + raw)[i] == dirs[i] && dirs[i] in dirs;
      } else {
        assert Stands(decode, [], raw[i - |dirs|], dec[i - |dirs|]);
      }
    }
  }

  lemma SlashAlone()
    ensures Split("/", SLASH) == ["", ""]
  {
    SplitAfterWord("", SLASH, "");
    assert "" + [SLASH] + "" == "/";
  }

  /** The segments of a path text: a final slash adds an empty one. */
  lemma TextSegments(parts: seq<string>, slash: bool)
    requires parts != [] && forall s :: s in parts ==> SLASH !in s
    ensures Segments(PathText(parts, slash)) == if slash then parts + [""] else parts
  {
    hide Split;
    hide Join;
    SplitJoin(parts, SLASH);
    if slash {
      SplitConcat(Join(parts, SLASH), "/", SLASH);
      SlashAlone();
      assert Glue(parts, ["", ""]) == parts + [""] by { assert Last(parts) + "" == Last(parts); }
    } else {
      assert Join(parts, SLASH) + "" == Join(parts, SLASH);
    }
  }

  lemma EmptyText(slash: bool)
    ensures PathText([], slash) == PathText(["."], slash)
  {}

  /** The segments a path text splits into, when it is the text of a file. */
  lemma TextOfFile(parts: seq<string>, slash: bool)
    requires forall s :: s in parts ==> SLASH !in s
    ensures IsFile(PathText(parts, slash)) ==>
      parts != [] && !slash && Segments(PathText(parts, slash)) == parts && PathText(parts, slash) == Join(parts, SLASH)
  {
    var first, text := if parts == [] then ["."] else parts, PathText(parts, slash);
    EmptyText(slash);
    TextSegments(first, slash);
    assert first[0] in first;
    if slash {
      assert (first + [""])[|first|] == "" && "" in Segments(text);
    } else {
      assert Join(parts, SLASH) + "" == Join(parts, SLASH);
      assert first[0] in Segments(text);
    }
    hide Segments;
    hide PathText;
  }

  lemma StandingNames(decode: Decoder, reference: string, f: string, raw: seq<string>, dec: seq<string>)
    requires IsDecoder(decode) && AllStand(decode, Directory(reference), raw, dec)
    requires IsFile(f) && KeepsClean(reference, f) && Segments(f) == dec
    ensures Named(decode, raw, dec)
  {
    hide Segments;
    forall i | 0 <= i < |raw|
      ensures decode(raw[i]) == Some(dec[i]) && !Dotted(raw[i]) && Unmarked(raw[i]) && IsName(dec[i])
    {
      assert dec[i] in dec;
      assert Stands(decode, Directory(reference), raw[i], dec[i]);
      StandsAlike(decode, Directory(reference), raw[i], dec[i]);
      if raw[i] == dec[i] && raw[i] in Directory(reference) {
        PlainDecodes(decode, raw[i]);
      }
    }
  }

  /** The file a straight target leads to, segment by segment as authored and as decoded. */
  lemma TargetIsNamed(decode: Decoder, reference: string, target: string, f: string, suffix: string)
    requires IsDecoder(decode) && ReadsBySegment(decode)
    requires target != "" && !StartsSuffix(target[0]) && Straight(decode, target)
    requires ResolveLink(decode, reference, target) == Local(f, suffix) && IsFile(f) && KeepsClean(reference, f)
    ensures Named(decode, Authored(reference, PathPart(target)), Segments(f))
    ensures Segments(f) != [] && f == Join(Segments(f), SLASH) && suffix == target[Cut(target, 1)..]
    ensures !("../" <= f) && !("/" <= f) && '\\' !in f
  {
    var dirs, raw := Directory(reference), Segments(PathPart(target));
    assert forall s :: s in dirs ==> SLASH !in s;
    hide *;
    var dec := PathIsRead(decode, target);
    DecodeJoin(decode, raw, dec);
    JoinSplit(PathPart(target), SLASH);
    SameLength(decode, raw, dec);
    SplitJoin(dec, SLASH);
    DirsStand(decode, dirs, raw, dec);
    EmptyStands(decode, dirs);
    NormalizeStands(decode, dirs, [], [], dirs + raw, dirs + dec);
    var authored, parts := Normalize([], dirs + raw), Normalize([], dirs + dec);
    StandingHaveNoSlash(decode, dirs, authored, parts);
    var slash := LocalText(decode, reference, target, f, suffix, Join(dec, SLASH));
    SegmentsAre(Join(dec, SLASH), dec);
    TextOfFile(parts, slash);
    StandingNames(decode, reference, f, authored, parts);
    AuthoredIs(reference, PathPart(target), dirs, raw);
  }

  lemma SameLength(decode: Decoder, raw: seq<string>, dec: seq<string>)
    requires AllRead(decode, raw, dec)
    ensures |raw| == |dec|
  {}

  lemma SegmentsAre(path: string, parts: seq<string>)
    requires Split(path, SLASH) == parts
    ensures Segments(path) == parts
  {}

  lemma AuthoredIs(reference: string, path: string, dirs: seq<string>, raw: seq<string>)
    requires dirs == Directory(reference) && raw == Segments(path)
    ensures Authored(reference, path) == Normalize([], dirs + raw)
  {}

  /** What a target that leads to a file says of the file's text. */
  lemma LocalText(decode: Decoder, reference: string, target: string, f: string, suffix: string, path: string)
    returns (slash: bool)
    requires target != "" && ResolveLink(decode, reference, target) == Local(f, suffix)
    requires decode(PathPart(target)) == Some(path)
    ensures f == PathText(Normalize([], Directory(reference) + Segments(path)), slash)
    ensures suffix == target[Cut(target, 1)..] && !("../" <= f) && !("/" <= f) && '\\' !in f
  {
    slash := path != "" && path[|path| - 1] == SLASH;
    hide External;
    hide PathText;
    hide Normalize;
    hide Segments;
    hide Directory;
  }

  lemma EmptyStands(decode: Decoder, dirs: seq<string>)
    ensures AllStand(decode, dirs, [], [])
  {}

  lemma StandingHaveNoSlash(decode: Decoder, dirs: seq<string>, raw: seq<string>, dec: seq<string>)
    requires AllStand(decode, dirs, raw, dec) && forall s :: s in dirs ==> SLASH !in s
    ensures forall s :: s in dec ==> SLASH !in s
  {
    forall s | s in dec ensures SLASH !in s {
      var i :| 0 <= i < |dec| && dec[i] == s;
      assert Stands(decode, dirs, raw[i], dec[i]);
    }
  }

  // ---- the rebased link ---------------------------------------------------------------------

  lemma OneNameIsNoStep(decode: Decoder, s: string)
    requires IsDecoder(decode) && OneName(decode, s)
    ensures !Dotted(s)
  {
    if Dotted(s) {
      PlainDecodes(decode, s);
      assert false;
    }
  }

  lemma QueryHead(query: string)
    requires query != "" && query[0] == '?'
    ensures Segments(query)[0] != "" && Segments(query)[0][0] == '?'
  {}

  lemma QueriedName(l: string, q: string)
    requires q != "" && q[0] == '?'
    ensures !Dotted(l + q) && '?' in l + q
  {
    assert (l + q)[|l|] == '?';
  }

  lemma RegroupSegments(dirs: seq<string>, raw: seq<string>, y: seq<string>)
    requires raw != [] && y != []
    ensures dirs + Glue(raw, y) == (dirs + raw[..|raw| - 1]) + ([Last(raw) + y[0]] + y[1..])
    ensures dirs + raw == (dirs + raw[..|raw| - 1]) + [Last(raw)]
  {}

  lemma GlueAfter(m: seq<string>, l: string, y: seq<string>)
    requires y != []
    ensures Glue(m + [l], y) == m + ([l + y[0]] + y[1..])
  {
    assert (m + [l])[..|m|] == m;
  }

  lemma NormalizeGlue(dirs: seq<string>, raw: seq<string>, y: seq<string>)
    requires raw != [] && y != [] && !Dotted(Last(raw)) && !Dotted(Last(raw) + y[0]) && forall s :: s in y[1..] ==> !Dotted(s)
    ensures Normalize([], dirs + raw) != []
    ensures Normalize([], dirs + Glue(raw, y)) == Glue(Normalize([], dirs + raw), y)
  {
    RegroupSegments(dirs, raw, y);
    var before, l := dirs + raw[..|raw| - 1], Last(raw);
    var m, rest := Normalize([], before), [l + y[0]] + y[1..];
    NormalizeConcat([], before, rest);
    NormalizeConcat([], before, [l]);
    NormalizeNames(m, rest);
    NormalizeNames(m, [l]);
    GlueAfter(m, l, y);
    hide Normalize;
  }

  /** The query stays with the last segment when the path is normalized before it is cut off. */
  lemma QueryIsKept(decode: Decoder, reference: string, target: string)
    requires IsDecoder(decode) && target != "" && !StartsSuffix(target[0]) && Straight(decode, target)
    requires Authored(reference, PathPart(target)) != []
    ensures Authored(reference, FilePart(target)) == Glue(Authored(reference, PathPart(target)), Segments(Query(target)))
  {
    var dirs, raw, y := Directory(reference), Segments(PathPart(target)), Segments(Query(target));
    TargetShape(target);
    SplitConcat(PathPart(target), Query(target), SLASH);
    if Query(target) == "" {
      assert y == [""];
      hide *;
      GlueNothing(raw);
      GlueNothing(Authored(reference, PathPart(target)));
    } else {
      OneNameIsNoStep(decode, Last(raw));
      QueryHead(Query(target));
      QueriedName(Last(raw), y[0]);
      hide Normalize;
      hide Segments;
      NormalizeGlue(dirs, raw, y);
    }
  }

  /** The names of a path text, normalized again. */
  lemma TextIsNormal(parts: seq<string>, slash: bool)
    requires parts != [] && forall s :: s in parts ==> !Dotted(s) && SLASH !in s
    ensures Normalize([], Segments(PathText(parts, slash))) == parts
  {
    TextSegments(parts, slash);
    NormalizeNames([], parts);
    NormalizeConcat([], parts, [""]);
    assert [] + parts == parts;
    assert Normalize(parts, [""]) == parts by { assert [""][1..] == []; }
    hide Segments;
    hide PathText;
  }

  lemma JoinedLink(reference: string, from: string, file: string, parts: seq<string>)
    requires CleanPath(from) && parts == Authored(reference, file)
    requires parts != [] && forall s :: s in parts ==> !Dotted(s) && SLASH !in s
    ensures RelativeLink(from, Joined(reference, file)) == Join(RelativeSegments(Directory(from), parts), SLASH)
  {
    CleanIsNormal(from);
    TextIsNormal(parts, file != "" && file[|file| - 1] == SLASH);
    hide Normalize;
    hide PathText;
    hide RelativeSegments;
    hide CleanName;
  }

  lemma CommonStops(a: seq<string>, b: seq<string>, i: nat)
    requires i < |b|
    ensures b[i] !in a ==> Common(a, b) <= i
  {
    var k := Common(a, b);
    if k > i {
      assert a[..k][i] == b[i] && a[i] in a;
    }
  }

  /** The relative path to a file without a query. */
  lemma RelativePlain(from: seq<string>, to: seq<string>) returns (k: nat)
    requires from != to
    ensures k <= |from| && k <= |to| && from[..k] == to[..k]
    ensures Ups(|from| - k) + to[k..] != []
    ensures RelativeSegments(from, to) == Ups(|from| - k) + to[k..]
    ensures k == |from| <==> |from| <= |to| && to[..|from|] == from
  {
    k := Common(from, to);
    CommonPrefix(from, to);
    RelativeEmpty(from, to);
  }

  lemma GluePrefix(to: seq<string>, y: seq<string>, k: nat)
    requires to != [] && y != [] && k <= |to| - 1
    ensures k <= |Glue(to, y)| && Glue(to, y)[..k] == to[..k]
    ensures Glue(to, y)[|to| - 1] == Last(to) + y[0]
  {}

  lemma GlueRest(ups: seq<string>, to: seq<string>, y: seq<string>, k: nat)
    requires to != [] && y != [] && k <= |to| - 1
    ensures ups + Glue(to, y)[k..] == Glue(ups + to[k..], y)
  {
    var rest := ups + to[k..];
    assert rest[..|rest| - 1] == ups + to[k..|to| - 1] && Last(rest) == Last(to);
    assert Glue(to, y)[k..] == to[k..|to| - 1] + [Last(to) + y[0]] + y[1..];
  }

  /** The relative path to a file with a query: the relative path to the file, and the query. */
  lemma RelativeGlue(from: seq<string>, to: seq<string>, y: seq<string>) returns (k: nat)
    requires to != [] && y != [] && y[0] != "" && y[0][0] == '?' && forall s :: s in from ==> '?' !in s
    ensures k <= |from| && k < |to| && from[..k] == to[..k]
    ensures RelativeSegments(from, Glue(to, y)) == Glue(Ups(|from| - k) + to[k..], y)
    ensures k == |from| <==> |from| < |to| && to[..|from|] == from
  {
    var all := Glue(to, y);
    k := Common(from, all);
    GluePrefix(to, y, 0);
    QueriedName(Last(to), y[0]);
    CommonStops(from, all, |to| - 1);
    GluePrefix(to, y, k);
    GlueRest(Ups(|from| - k), to, y, k);
    CommonPrefix(from, all);
    if |from| < |to| {
      GluePrefix(to, y, |from|);
    }
    hide Glue;
    hide Common;
    hide Ups;
  }

  lemma StepsAreRead(decode: Decoder, raw: seq<string>, dec: seq<string>, k: nat, n: nat)
    requires IsDecoder(decode) && Named(decode, raw, dec) && k <= |raw|
    ensures AllRead(decode, Ups(n) + raw[k..], Ups(n) + dec[k..])
  {
    PlainDecodes(decode, "..");
  }

  lemma SameStart(decode: Decoder, dir: seq<string>, raw: seq<string>, dec: seq<string>, k: nat)
    requires IsDecoder(decode) && Named(decode, raw, dec) && k <= |raw| && k <= |dir|
    requires dir[..k] == raw[..k] && forall s :: s in dir ==> CleanName(s)
    ensures dir[..k] == dec[..k]
  {
    forall i | 0 <= i < k ensures dir[..k][i] == dec[..k][i] {
      assert dir[..k][i] == raw[..k][i] && dir[i] in dir;
      PlainDecodes(decode, raw[i]);
    }
  }

  lemma UpsThenNames(dir: seq<string>, n: nat, names: seq<string>)
    requires n <= |dir| && (forall s :: s in dir ==> CleanName(s)) && (forall s :: s in names ==> !Dotted(s))
    ensures Normalize([], dir + (Ups(n) + names)) == dir[..|dir| - n] + names
  {
    hide *;
    NothingBefore(dir);
    NormalizeClean([], dir, Ups(n) + names);
    NormalizeUps(dir, n, names);
    NormalizeNames(dir[..|dir| - n], names);
  }

  lemma TakeDrop(s: seq<string>, k: nat)
    requires k <= |s|
    ensures s[..k] + s[k..] == s && forall x :: x in s[k..] ==> x in s
  {}

  /** Walking the decoded steps from the directory arrives at the file. */
  lemma StepsArrive(dir: seq<string>, dec: seq<string>, k: nat)
    requires k <= |dir| && k <= |dec| && dir[..k] == dec[..k]
    requires (forall s :: s in dir ==> CleanName(s)) && (forall s :: s in dec ==> !Dotted(s))
    ensures Normalize([], dir + (Ups(|dir| - k) + dec[k..])) == dec
  {
    hide *;
    TakeDrop(dec, k);
    UpsThenNames(dir, |dir| - k, dec[k..]);
  }

  lemma NothingBefore(s: seq<string>)
    ensures [] + s == s
  {}

  lemma StepsAreText(parts: seq<string>, suffix: string)
    requires parts != [] && (forall s :: s in parts ==> s != "" && Unmarked(s)) && IsSuffix(suffix)
    ensures var path := Join(parts, SLASH);
      && path != "" && path[|path| - 1] != SLASH && Segments(path) == parts
      && Cut(path + suffix, 1) == |path|
      && (External(path + suffix) <==> HasScheme(parts[0]))
  {
    hide HasScheme;
    var path := Join(parts, SLASH);
    forall i | 0 <= i < |parts| ensures parts[i] != "" {
      assert parts[i] in parts;
    }
    assert parts[0] in parts && Last(parts) in parts;
    JoinFirst(parts);
    SplitJoin(parts, SLASH);
    forall c | c in path ensures !StartsSuffix(c) {
      JoinChars(parts, c);
    }
    CutAtSuffix(path, suffix, 1);
    SchemeOfFirst(parts, suffix);
    assert (path + suffix)[0] == path[0] == parts[0][0];
    assert parts[0][0] in parts[0];
    assert Last(parts)[|Last(parts)| - 1] in Last(parts);
    NotPrefix(path + suffix, "//");
    NotPrefix(path + suffix, "#");
    hide Join;
    hide Segments;
    hide Cut;
  }

  lemma UnmarkedSteps(decode: Decoder, raw: seq<string>, dec: seq<string>, k: nat, n: nat)
    requires Named(decode, raw, dec) && k <= |raw|
    ensures forall s :: s in Ups(n) + raw[k..] ==> s != "" && Unmarked(s)
    ensures forall s :: s in Ups(n) + dec[k..] ==> s != "" && SLASH !in s
    ensures forall s :: s in dec ==> !Dotted(s)
  {
    forall s | s in raw ensures s != "" && Unmarked(s) {
      var i :| 0 <= i < |raw| && raw[i] == s;
    }
    forall s | s in dec ensures !Dotted(s) && SLASH !in s {
      var i :| 0 <= i < |dec| && dec[i] == s;
      assert IsName(dec[i]);
    }
    assert Unmarked("..");
    hide Unmarked;
    hide Named;
  }

  lemma EndOfSteps(parts: seq<string>)
    requires parts != [] && forall s :: s in parts ==> s != "" && SLASH !in s
    ensures var path := Join(parts, SLASH);
      path != "" && path[|path| - 1] != SLASH && Segments(path) == parts
  {
    forall i | 0 <= i < |parts| ensures parts[i] != "" {
      assert parts[i] in parts;
    }
    JoinFirst(parts);
    SplitJoin(parts, SLASH);
    assert Last(parts) in parts;
    assert Last(parts)[|Last(parts)| - 1] in Last(parts);
  }

  /** The relative path to a file, as authored, leads to the file it decodes to. */
  lemma StepsLead(decode: Decoder, from: string, raw: seq<string>, dec: seq<string>, f: string, k: nat, suffix: string)
    requires IsDecoder(decode) && ReadsBySegment(decode) && CleanPath(from) && Named(decode, raw, dec) && IsSuffix(suffix)
    requires dec != [] && f == Join(dec, SLASH) && !("../" <= f) && !("/" <= f) && '\\' !in f
    requires k <= |Directory(from)| && k <= |raw| && Directory(from)[..k] == raw[..k]
    requires Ups(|Directory(from)| - k) + raw[k..] != []
    ensures var steps := Ups(|Directory(from)| - k) + raw[k..];
      ResolveLink(decode, from, Join(steps, SLASH) + suffix) == if HasScheme(steps[0]) then NotLocal else Local(f, suffix)
  {
    hide *;
    var dir := Directory(from);
    var n := |dir| - k;
    NamedLength(decode, raw, dec);
    var steps, read := Ups(n) + raw[k..], Ups(n) + dec[k..];
    CleanDirectory(from);
    StepsAreRead(decode, raw, dec, k, n);
    UnmarkedSteps(decode, raw, dec, k, n);
    SameStart(decode, dir, raw, dec, k);
    StepsArrive(dir, dec, k);
    ReadStepsLead(decode, from, steps, read, dec, f, suffix);
  }

  lemma CleanDirectory(path: string)
    requires CleanPath(path)
    ensures forall s :: s in Directory(path) ==> CleanName(s)
  {}

  lemma NamedLength(decode: Decoder, raw: seq<string>, dec: seq<string>)
    requires Named(decode, raw, dec)
    ensures |raw| == |dec|
  {}

  lemma ReadStepsLead(decode: Decoder, from: string, steps: seq<string>, read: seq<string>, dec: seq<string>,
                      f: string, suffix: string)
    requires ReadsBySegment(decode) && AllRead(decode, steps, read) && steps != [] && IsSuffix(suffix)
    requires (forall s :: s in steps ==> s != "" && Unmarked(s)) && (forall s :: s in read ==> s != "" && SLASH !in s)
    requires Normalize([], Directory(from) + read) == dec && dec != [] && f == Join(dec, SLASH)
    requires !("../" <= f) && !("/" <= f) && '\\' !in f
    ensures ResolveLink(decode, from, Join(steps, SLASH) + suffix) == if HasScheme(steps[0]) then NotLocal else Local(f, suffix)
  {
    assert |read| == |steps|;
    hide *;
    DecodeJoin(decode, steps, read);
    StepsAreText(steps, suffix);
    EndOfSteps(read);
    TextOfSteps(decode, from, Join(steps, SLASH), suffix, Join(read, SLASH), dec);
  }

  lemma TextOfSteps(decode: Decoder, from: string, path: string, suffix: string, read: string, dec: seq<string>)
    requires path != "" && Cut(path + suffix, 1) == |path| && decode(path) == Some(read)
    requires read != "" && read[|read| - 1] != SLASH && dec != []
    requires Normalize([], Directory(from) + Segments(read)) == dec
    requires !("../" <= Join(dec, SLASH)) && !("/" <= Join(dec, SLASH)) && '\\' !in Join(dec, SLASH)
    ensures ResolveLink(decode, from, path + suffix)
      == if External(path + suffix) then NotLocal else Local(Join(dec, SLASH), suffix)
  {
    var url := path + suffix;
    assert url[..|path|] == path && url[|path|..] == suffix;
    assert Join(dec, SLASH) + "" == Join(dec, SLASH);
    hide External;
    hide Cut;
    hide Normalize;
    hide Segments;
    hide Directory;
    hide Join;
  }

  /** A suffix with its fragment cut off at a second mark, and without an empty one. */
  function Shortened(suffix: string): string {
    FilePart(suffix) + Fragment(suffix)
  }

  /** Nothing is lost when there is no fragment, or one that is not empty and holds no further mark. */
  lemma ShortenedExactly(suffix: string)
    ensures FilePart(suffix) <= suffix
    ensures var rest := suffix[|FilePart(suffix)|..];
      Shortened(suffix) == suffix <==> rest == "" || (|rest| > 1 && '#' !in rest[1..])
  {
    TargetParts(suffix);
    var rest := suffix[|FilePart(suffix)|..];
    assert suffix == FilePart(suffix) + rest;
    SamePrefix(FilePart(suffix), Fragment(suffix), rest);
    hide FilePart;
    hide Fragment;
  }

  lemma SamePrefix(p: string, x: string, y: string)
    ensures p + x == p + y <==> x == y
  {
    if p + x == p + y {
      assert (p + x)[|p|..] == x && (p + y)[|p|..] == y;
    }
  }

  lemma FragmentIsSuffix(target: string)
    ensures IsSuffix(Fragment(target))
  {}

  lemma ShortenedIsSuffix(target: string)
    requires target != "" && !StartsSuffix(target[0])
    ensures Shortened(target[Cut(target, 1)..]) == Query(target) + Fragment(target)
    ensures IsSuffix(Query(target) + Fragment(target))
  {
    TargetShape(target);
    FragmentIsSuffix(target);
  }

  lemma CleanHasNoMark(path: string)
    requires CleanPath(path)
    ensures forall s :: s in Directory(path) ==> '?' !in s
  {
    forall s | s in Directory(path) ensures '?' !in s {
      assert s in Segments(path) && CleanName(s);
    }
  }

  lemma GluedAreNames(decode: Decoder, raw: seq<string>, dec: seq<string>, query: string)
    requires Named(decode, raw, dec) && raw != []
    requires query == "" || (query[0] == '?' && forall s :: s in Segments(query)[1..] ==> !Dotted(s))
    ensures forall s :: s in Glue(raw, Segments(query)) ==> !Dotted(s) && SLASH !in s
  {
    var y := Segments(query);
    forall s | s in raw ensures !Dotted(s) && SLASH !in s {
      var i :| 0 <= i < |raw| && raw[i] == s;
      assert Unmarked(raw[i]);
    }
    if query == "" {
      assert y == [""];
      GlueNothing(raw);
    } else {
      QueryHead(query);
      QueriedName(Last(raw), y[0]);
      assert SLASH !in y[0] && SLASH !in Last(raw);
      hide Segments;
    }
  }

  /** The text of the rebased link, when the new directory and the file have `k` segments in common. */
  ghost predicate IsSteps(dir: seq<string>, raw: seq<string>, k: nat) {
    && k <= |dir| && k <= |raw| && dir[..k] == raw[..k] && Ups(|dir| - k) + raw[k..] != []
    && (k == |dir| <==> |dir| < |raw| && raw[..|dir|] == dir)
  }

  function StepText(dir: seq<string>, raw: seq<string>, k: nat): string
    requires k <= |dir| && k <= |raw|
  {
    Join(Ups(|dir| - k) + raw[k..], SLASH)
  }

  /** The relative path to a file and its query. */
  lemma StepsAndQuery(dir: seq<string>, raw: seq<string>, query: string) returns (k: nat)
    requires raw != [] && dir != raw && (query == "" || query[0] == '?') && forall s :: s in dir ==> '?' !in s
    ensures IsSteps(dir, raw, k)
    ensures Join(RelativeSegments(dir, Glue(raw, Segments(query))), SLASH) == StepText(dir, raw, k) + query
  {
    var y := Segments(query);
    JoinSplit(query, SLASH);
    if query == "" {
      assert y == [""];
      hide Join;
      hide RelativeSegments;
      GlueNothing(raw);
      k := RelativePlain(dir, raw);
      assert StepText(dir, raw, k) + query == StepText(dir, raw, k);
    } else {
      QueryHead(query);
      hide Segments;
      hide Join;
      hide RelativeSegments;
      hide Glue;
      k := RelativeGlue(dir, raw, y);
      JoinGlue(Ups(|dir| - k) + raw[k..], y);
    }
  }

  lemma Regrouped(a: string, b: string, c: string)
    ensures a + b + c == a + (b + c)
  {}

  /** The text of the rebased link: the steps to the file as authored, and the query. */
  lemma RebasedText(decode: Decoder, reference: string, from: string, target: string, dec: seq<string>) returns (k: nat)
    requires IsDecoder(decode) && !Kept(target) && target != "" && !StartsSuffix(target[0]) && Straight(decode, target)
    requires Named(decode, Authored(reference, PathPart(target)), dec) && CleanPath(from)
    requires Authored(reference, PathPart(target)) != [] && Directory(from) != Authored(reference, PathPart(target))
    ensures IsSteps(Directory(from), Authored(reference, PathPart(target)), k)
    ensures Rebase(reference, from, target)
      == StepText(Directory(from), Authored(reference, PathPart(target)), k) + (Query(target) + Fragment(target))
  {
    var link := RelativeLink(from, Joined(reference, FilePart(target)));
    assert Rebase(reference, from, target) == link + Fragment(target);
    assert Query(target) != "" ==> forall s :: s in Segments(Query(target))[1..] ==> !Dotted(s);
    hide *;
    var dir, raw := Directory(from), Authored(reference, PathPart(target));
    TargetShape(target);
    QueryIsKept(decode, reference, target);
    GluedAreNames(decode, raw, dec, Query(target));
    GlueIsFull(raw, Segments(Query(target)));
    JoinedLink(reference, from, FilePart(target), Glue(raw, Segments(Query(target))));
    CleanHasNoMark(from);
    k := StepsAndQuery(dir, raw, Query(target));
    Regrouped(StepText(dir, raw, k), Query(target), Fragment(target));
  }

  lemma GlueIsFull(x: seq<string>, y: seq<string>)
    requires x != [] && y != []
    ensures Glue(x, y) != []
  {}

  lemma FirstStep(dir: seq<string>, raw: seq<string>, k: nat)
    requires IsSteps(dir, raw, k)
    ensures HasScheme((Ups(|dir| - k) + raw[k..])[0]) <==> SchemeBelow(dir, raw)
  {
    StepHasNoScheme();
    hide HasScheme;
    if k < |dir| {
      assert (Ups(|dir| - k) + raw[k..])[0] == "..";
    } else {
      assert (Ups(|dir| - k) + raw[k..])[0] == raw[|dir|];
    }
  }

  lemma SameWhenClean(decode: Decoder, dir: seq<string>, raw: seq<string>, dec: seq<string>)
    requires IsDecoder(decode) && Named(decode, raw, dec) && forall s :: s in dir ==> CleanName(s)
    ensures dir == raw ==> dir == dec
  {
    if dir == raw {
      SameStart(decode, dir, raw, dec, |raw|);
      assert dir[..|raw|] == dir && dec[..|raw|] == dec;
    }
  }

  /** A rebased link leads from its new place to the file it led to from the old one, and keeps its
      suffix but for a fragment behind a second mark - for every straight target of a file, unless
      the file lies below the new directory under a name that, as authored, reads as a URL scheme. */
  lemma RebaseKeepsTheFile(decode: Decoder, reference: string, from: string, target: string, f: string, suffix: string)
    requires IsDecoder(decode) && ReadsBySegment(decode) && !Kept(target)
    requires target != "" && !StartsSuffix(target[0]) && Straight(decode, target)
    requires ResolveLink(decode, reference, target) == Local(f, suffix) && IsFile(f) && KeepsClean(reference, f)
    requires CleanPath(from) && Directory(from) != Segments(f)
    ensures (ResolveLink(decode, from, Rebase(reference, from, target))
      == if SchemeBelow(Directory(from), Authored(reference, PathPart(target))) then NotLocal else Local(f, Shortened(suffix)))
  {
    var dir, raw, dec := Directory(from), Authored(reference, PathPart(target)), Segments(f);
    assert forall s :: s in dir ==> CleanName(s);
    TargetIsNamed(decode, reference, target, f, suffix);
    SameWhenClean(decode, dir, raw, dec);
    assert |raw| == |dec|;
    hide *;
    ShortenedIsSuffix(target);
    var k := RebasedText(decode, reference, from, target, dec);
    RebasedLeads(decode, from, raw, dec, f, k, Query(target) + Fragment(target));
  }

  lemma RebasedLeads(decode: Decoder, from: string, raw: seq<string>, dec: seq<string>, f: string, k: nat, suffix: string)
    requires IsDecoder(decode) && ReadsBySegment(decode) && CleanPath(from) && Named(decode, raw, dec) && IsSuffix(suffix)
    requires dec != [] && f == Join(dec, SLASH) && !("../" <= f) && !("/" <= f) && '\\' !in f
    requires IsSteps(Directory(from), raw, k)
    ensures ResolveLink(decode, from, StepText(Directory(from), raw, k) + suffix)
      == if SchemeBelow(Directory(from), raw) then NotLocal else Local(f, suffix)
  {
    hide Named;
    hide Join;
    hide ResolveLink;
    hide HasScheme;
    hide SchemeBelow;
    hide Directory;
    hide CleanPath;
    StepsLead(decode, from, raw, dec, f, k, suffix);
    FirstStep(Directory(from), raw, k);
  }

  // ---- targets that are not straight --------------------------------------------------------

  lemma BesideIsClean(reference: string, x: string)
    requires CleanPath(reference) && CleanName(x)
    ensures var g := Join(Directory(reference) + [x], SLASH);
      CleanPath(g) && Segments(g) == Directory(reference) + [x]
  {
    var parts := Directory(reference) + [x];
    forall s | s in parts ensures CleanName(s) && SLASH !in s {
      if s != x {
        assert s in Directory(reference) && s in Segments(reference);
      }
    }
    SplitJoin(parts, SLASH);
    hide Segments;
    hide Directory;
    hide CleanName;
  }

  lemma StepCancels(dir: seq<string>, w: string, x: string)
    requires (forall s :: s in dir ==> CleanName(s)) && !Dotted(w) && CleanName(x)
    ensures Normalize([], dir + [w, "..", x]) == dir + [x]
  {
    NormalizeClean([], dir, [w, "..", x]);
    assert [] + dir == dir;
    assert [w, "..", x][1..] == ["..", x] && ["..", x][1..] == [x] && [x][1..] == [];
    assert (dir + [w])[..|dir|] == dir;
    assert Normalize(dir, [w, "..", x]) == Normalize(dir + [w], ["..", x]) == Normalize(dir, [x]);
    NormalizeClean(dir, [x], []);
    assert [x] + [] == [x];
    hide CleanName;
  }

  /** A segment that a step cancels before anything is decoded: the rebased link leads beside the
      document. */
  lemma StepBack(decode: Decoder, reference: string, from: string, target: string, w: string, x: string)
    requires IsDecoder(decode) && CleanPath(reference) && CleanPath(from) && CleanName(x) && !Kept(target)
    requires '#' !in target && Segments(target) == [w, "..", x] && !Dotted(w)
    requires Directory(from) != Directory(reference) + [x]
    ensures (ResolveLink(decode, from, Rebase(reference, from, target))
      == if SchemeBelow(Directory(from), Directory(reference) + [x]) then NotLocal else Local(Join(Directory(reference) + [x], SLASH), ""))
  {
    var dir := Directory(reference);
    assert forall s :: s in dir ==> CleanName(s);
    BesideIsClean(reference, x);
    StepCancels(dir, w, x);
    NoFragment(target);
    EndOfTarget(target, w, x);
    hide ResolveLink;
    hide Segments;
    hide Directory;
    hide Normalize;
    hide SchemeBelow;
    hide CleanName;
    hide CleanPath;
    var g := Join(dir + [x], SLASH);
    assert Joined(reference, target) == g + "" == g;
    hide Joined;
    assert Rebase(reference, from, target) == RelativeLink(from, g) + "";
    RelativeLinkRoundTrip(decode, from, g, "");
  }

  lemma NoFragment(target: string)
    requires '#' !in target
    ensures FilePart(target) == target && Fragment(target) == ""
  {
    SplitWord(target, '#');
  }

  lemma EndOfTarget(target: string, w: string, x: string)
    requires Segments(target) == [w, "..", x] && CleanName(x)
    ensures target != "" && target[|target| - 1] != SLASH
  {
    JoinSplit(target, SLASH);
    assert [w, "..", x][1..] == ["..", x] && ["..", x][1..] == [x];
    assert Join(["..", x], SLASH) == ".." + [SLASH] + x;
    assert target == w + [SLASH] + (".." + [SLASH] + x);
    assert x != "" && x[|x| - 1] in x && target[|target| - 1] == x[|x| - 1];
  }

  lemma ThreeSegments(w: string, x: string)
    requires SLASH !in w && SLASH !in x
    ensures Segments(w + "/../" + x) == [w, "..", x]
  {
    SplitWord(x, SLASH);
    SplitAfterWord("..", SLASH, x);
    SplitAfterWord(w, SLASH, ".." + [SLASH] + x);
    assert w + "/../" + x == w + [SLASH] + (".." + [SLASH] + x) by { assert "/../" == [SLASH] + (".." + [SLASH]); }
    hide Split;
    assert [w] + ([".."] + [x]) == [w, "..", x];
  }

  /** A step in the query: the target leads to `b` with that query, and the rebased link to `x`. */
  lemma QueryStepMisleads(decode: Decoder, reference: string, from: string, b: string, q: string, x: string)
    requires IsDecoder(decode) && CleanPath(reference) && CleanPath(from) && CleanName(b) && CleanName(x)
    requires SLASH !in q && '#' !in q && Directory(from) != Directory(reference) + [x]
    requires var target := b + "?" + q + "/../" + x; !Kept(target) && !External(target)
    ensures var target := b + "?" + q + "/../" + x;
      && ResolveLink(decode, reference, target) == Local(Join(Directory(reference) + [b], SLASH), "?" + q + "/../" + x)
      && ResolveLink(decode, from, Rebase(reference, from, target))
        == if SchemeBelow(Directory(from), Directory(reference) + [x]) then NotLocal else Local(Join(Directory(reference) + [x], SLASH), "")
  {
    var rest, w := "?" + q + "/../" + x, b + "?" + q;
    var target := b + "?" + q + "/../" + x;
    assert target == w + "/../" + x && target == b + rest;
    assert SLASH !in w && '#' !in target && SLASH !in x && !Dotted(w) by {
      assert w[|b|] == '?';
    }
    ThreeSegments(w, x);
    StepBack(decode, reference, from, target, w, x);
    hide Rebase;
    hide External;
    hide SchemeBelow;
    NameLeads(decode, reference, b, rest);
  }

  /** A clean name, with a query or fragment, leads to the file of that name beside the document. */
  lemma NameLeads(decode: Decoder, reference: string, b: string, rest: string)
    requires IsDecoder(decode) && CleanPath(reference) && CleanName(b) && IsSuffix(rest) && !External(b + rest)
    ensures ResolveLink(decode, reference, b + rest) == Local(Join(Directory(reference) + [b], SLASH), rest)
  {
    var dir := Directory(reference);
    assert forall s :: s in dir + [b] ==> CleanName(s);
    assert b != "" && SLASH !in b && b[|b| - 1] in b && !Dotted(b);
    CutAtSuffix(b, rest, 1);
    PlainDecodes(decode, b);
    BesideIsClean(reference, b);
    CleanText(Join(dir + [b], SLASH));
    SplitWord(b, SLASH);
    NormalizeClean([], dir + [b], []);
    assert [] + (dir + [b]) == dir + [b] == dir + [b] + [];
    hide *;
    assert dir + Segments(b) == dir + [b];
    TextOfSteps(decode, reference, b, rest, b, dir + [b]);
  }

  /** An encoded step before a written one: the target leads two directories up, and the rebased link
      beside the document. */
  lemma EncodedStepMisleads(decode: Decoder, reference: string, from: string, e: string, x: string)
    requires IsDecoder(decode) && ReadsBySegment(decode) && decode(e) == Some("..") && e != ".."
    requires SLASH !in e && (forall c :: c in e ==> !StartsSuffix(c)) && CleanName(x)
    requires CleanPath(reference) && CleanPath(from) && |Directory(reference)| >= 2 && Directory(from) != Directory(reference) + [x]
    requires !Kept(e + "/../" + x) && !External(e + "/../" + x)
    ensures var target, dir := e + "/../" + x, Directory(reference);
      && ResolveLink(decode, reference, target) == Local(Join(dir[..|dir| - 2] + [x], SLASH), "")
      && ResolveLink(decode, from, Rebase(reference, from, target))
        == if SchemeBelow(Directory(from), dir + [x]) then NotLocal else Local(Join(dir + [x], SLASH), "")
  {
    var target, dir := e + "/../" + x, Directory(reference);
    assert SLASH !in x && '#' !in target;
    EncodedIsNoStep(decode, e);
    ThreeSegments(e, x);
    StepBack(decode, reference, from, target, e, x);
    hide Rebase;
    hide External;
    hide SchemeBelow;
    TwoUp(decode, reference, e, x);
  }

  lemma EncodedIsNoStep(decode: Decoder, e: string)
    requires IsDecoder(decode) && decode(e) == Some("..") && e != ".."
    ensures !Dotted(e)
  {
    assert decode("") == Some("") && decode(".") == Some(".");
  }

  lemma TwoUp(decode: Decoder, reference: string, e: string, x: string)
    requires IsDecoder(decode) && ReadsBySegment(decode) && decode(e) == Some("..") && e != ""
    requires SLASH !in e && (forall c :: c in e ==> !StartsSuffix(c)) && CleanName(x)
    requires CleanPath(reference) && |Directory(reference)| >= 2 && !External(e + "/../" + x)
    ensures var dir := Directory(reference);
      ResolveLink(decode, reference, e + "/../" + x) == Local(Join(dir[..|dir| - 2] + [x], SLASH), "")
  {
    var dir := Directory(reference);
    var raw, dec, target := [e, "..", x], ["..", "..", x], e + "/../" + x;
    assert SLASH !in x;
    assert (forall s :: s in dir ==> CleanName(s)) && forall c :: c in target ==> !StartsSuffix(c);
    EncodedIsRead(decode, e, x);
    hide *;
    assert target != "" && target + "" == target;
    ThreeSegments(e, x);
    DecodeJoin(decode, raw, dec);
    JoinSplit(target, SLASH);
    NoSuffix();
    CutAtSuffix(target, "", 1);
    TwoUpArrives(dir, x);
    TwoUpText(reference, x);
    EndOfSteps(dec);
    TextOfSteps(decode, reference, target, "", Join(dec, SLASH), dir[..|dir| - 2] + [x]);
  }

  lemma NoSuffix()
    ensures IsSuffix("")
  {}

  lemma EncodedIsRead(decode: Decoder, e: string, x: string)
    requires IsDecoder(decode) && decode(e) == Some("..") && CleanName(x)
    ensures AllRead(decode, [e, "..", x], ["..", "..", x])
    ensures forall s :: s in ["..", "..", x] ==> s != "" && SLASH !in s
  {
    PlainDecodes(decode, "..");
    PlainDecodes(decode, x);
  }

  lemma TwoUpArrives(dir: seq<string>, x: string)
    requires |dir| >= 2 && (forall s :: s in dir ==> CleanName(s)) && CleanName(x)
    ensures Normalize([], dir + ["..", "..", x]) == dir[..|dir| - 2] + [x]
  {
    assert Ups(2) + [x] == ["..", "..", x] && !Dotted(x);
    hide *;
    UpsThenNames(dir, 2, [x]);
  }

  lemma TwoUpText(reference: string, x: string)
    requires CleanPath(reference) && CleanName(x) && |Directory(reference)| >= 2
    ensures var g := Join(Directory(reference)[..|Directory(reference)| - 2] + [x], SLASH);
      !("../" <= g) && !("/" <= g) && '\\' !in g
  {
    var dir := Directory(reference);
    var parts := dir[..|dir| - 2] + [x];
    forall s | s in parts ensures CleanName(s) && SLASH !in s {
      if s != x {
        assert s in dir && s in Segments(reference);
      }
    }
    SplitJoin(parts, SLASH);
    hide CleanName;
    CleanText(Join(parts, SLASH));
  }
}
