/** Source links of Markdown documents: resolving one against the file it stands in, and writing
    one relative to a new location. Percent decoding and encoding are supplied by the platform. */
module Links {
  import opened Options
  import opened Text

  const SLASH := '/'

  /** What a link leads to: nothing in the repository, a file of it, or a refusal. */
  datatype Target = NotLocal | Local(file: string, suffix: string) | Refused

  type Decoder = string -> Option<string>

  /** Text without a percent sign decodes to itself. */
  ghost predicate IsDecoder(decode: Decoder) {
    forall s :: '%' !in s ==> decode(s) == Some(s)
  }

  /** A letter to a case-insensitive Unicode match: the long s and the Kelvin sign fold to s and k. */
  predicate Letter(c: char) {
    'a' <= c <= 'z' || 'A' <= c <= 'Z' || c == '\U{017F}' || c == '\U{212A}'
  }

  predicate SchemeChar(c: char) {
    Letter(c) || '0' <= c <= '9' || c == '+' || c == '.' || c == '-'
  }

  /** A letter, scheme characters, and a colon. */
  predicate HasScheme(url: string) {
    url != "" && Letter(url[0])
    && exists k :: 0 < k < |url| && url[k] == ':' && forall i :: 0 < i < k ==> SchemeChar(url[i])
  }

  predicate External(url: string) {
    HasScheme(url) || "//" <= url || "#" <= url
  }

  predicate StartsSuffix(c: char) {
    c == '?' || c == '#'
  }

  /** Where the query or fragment begins; the first character always belongs to the file. */
  function Cut(url: string, from: nat): (k: nat)
    requires from <= |url|
    ensures from <= k <= |url| && (k < |url| ==> StartsSuffix(url[k]))
    ensures forall i :: from <= i < k ==> !StartsSuffix(url[i])
    decreases |url| - from
  {
    if from == |url| || StartsSuffix(url[from]) then from else Cut(url, from + 1)
  }

  function Segments(path: string): seq<string> {
    Split(path, SLASH)
  }

  /** The directory of a file, as segments. */
  function Directory(file: string): seq<string> {
    Segments(file)[..|Segments(file)| - 1]
  }

  /** Drops empty and `.` segments and lets `..` cancel the segment before it. */
  function Normalize(done: seq<string>, segments: seq<string>): seq<string>
    decreases |segments|
  {
    if segments == [] then done
    else
      var s, rest := segments[0], segments[1..];
      if s == "" || s == "." then Normalize(done, rest)
      else if s == ".." && done != [] && done[|done| - 1] != ".." then Normalize(done[..|done| - 1], rest)
      else Normalize(done + [s], rest)
  }

  /** A segment that is no name: empty, or a step. */
  predicate Dotted(s: string) {
    s == "" || s == "." || s == ".."
  }

  lemma {:induction false} NormalizeConcat(done: seq<string>, a: seq<string>, b: seq<string>)
    ensures Normalize(done, a + b) == Normalize(Normalize(done, a), b)
    decreases |a|
  {
    if a == [] {
      assert a + b == b;
    } else {
      assert (a + b)[0] == a[0] && (a + b)[1..] == a[1..] + b;
      var s := a[0];
      if s == "" || s == "." {
        NormalizeConcat(done, a[1..], b);
      } else if s == ".." && done != [] && done[|done| - 1] != ".." {
        NormalizeConcat(done[..|done| - 1], a[1..], b);
      } else {
        NormalizeConcat(done + [s], a[1..], b);
      }
    }
  }

  lemma {:induction false} NormalizeNames(done: seq<string>, names: seq<string>)
    requires forall s :: s in names ==> !Dotted(s)
    ensures Normalize(done, names) == done + names
    decreases |names|
  {
    if names == [] {
      assert done + names == done;
    } else {
      assert names[0] in names;
      NormalizeNames(done + [names[0]], names[1..]);
      assert done + [names[0]] + names[1..] == done + names;
    }
  }

  /** The text of a normalized path; a final slash is kept. */
  function PathText(segments: seq<string>, slash: bool): string {
    (if segments == [] then "." else Join(segments, SLASH)) + (if slash then "/" else "")
  }

  function ResolveLink(decode: Decoder, source: string, url: string): Target {
    if External(url) || url == "" then NotLocal
    else
      var k := Cut(url, 1);
      match decode(url[..k])
      case None => Refused
      case Some(path) =>
        var slash := path != "" && path[|path| - 1] == SLASH;
        var file := PathText(Normalize([], Directory(source) + Segments(path)), slash);
        if "../" <= file || "/" <= file || '\\' in file then Refused else Local(file, url[k..])
  }

  // ---- relative links -----------------------------------------------------------------------

  function Common(a: seq<string>, b: seq<string>): (k: nat)
    ensures k <= |a| && k <= |b| && a[..k] == b[..k]
    ensures k < |a| && k < |b| ==> a[k] != b[k]
  {
    if a == [] || b == [] || a[0] != b[0] then 0
    else
      var k := Common(a[1..], b[1..]);
      assert a[..k + 1] == [a[0]] + a[1..][..k] && b[..k + 1] == [b[0]] + b[1..][..k];
      k + 1
  }

  function Ups(n: nat): (r: seq<string>)
    ensures |r| == n && forall i :: 0 <= i < n ==> r[i] == ".."
  {
    seq(n, _ => "..")
  }

  function RelativeSegments(from: seq<string>, to: seq<string>): seq<string> {
    var k := Common(from, to);
    Ups(|from| - k) + to[k..]
  }

  /** The link from one file to another. */
  function RelativeLink(from: string, to: string): string {
    Join(RelativeSegments(Normalize([], Directory(from)), Normalize([], Segments(to))), SLASH)
  }

  /** A name a path may hold without being read as anything else. */
  predicate CleanName(s: string) {
    s != "" && s != "." && s != ".." && forall c :: c in s ==> c !in {'/', '?', '#', '%', '\\'}
  }

  predicate CleanPath(path: string) {
    forall s :: s in Segments(path) ==> CleanName(s)
  }

  lemma {:induction false} NormalizeClean(done: seq<string>, names: seq<string>, rest: seq<string>)
    requires forall s :: s in names ==> CleanName(s)
    ensures Normalize(done, names + rest) == Normalize(done + names, rest)
    decreases |names|
  {
    if names == [] {
      assert names + rest == rest && done + names == done;
    } else {
      assert (names + rest)[1..] == names[1..] + rest && names[0] in names;
      NormalizeClean(done + [names[0]], names[1..], rest);
      assert done + [names[0]] + names[1..] == done + names;
    }
  }

  lemma CleanIsNormal(path: string)
    requires CleanPath(path)
    ensures Normalize([], Segments(path)) == Segments(path)
    ensures Normalize([], Directory(path)) == Directory(path)
  {
    var s, d := Segments(path), Directory(path);
    NormalizeClean([], s, []);
    NormalizeClean([], d, []);
    assert s + [] == s && [] + s == s && d + [] == d && [] + d == d;
  }

  lemma {:induction false} NormalizeUps(done: seq<string>, n: nat, rest: seq<string>)
    requires n <= |done| && forall s :: s in done ==> CleanName(s)
    ensures Normalize(done, Ups(n) + rest) == Normalize(done[..|done| - n], rest)
    decreases n
  {
    if n == 0 {
      assert Ups(0) + rest == rest && done[..|done|] == done;
    } else {
      assert (Ups(n) + rest)[1..] == Ups(n - 1) + rest && (Ups(n) + rest)[0] == "..";
      assert done[|done| - 1] in done;
      NormalizeUps(done[..|done| - 1], n - 1, rest);
      assert done[..|done| - 1][..|done| - n] == done[..|done| - n];
    }
  }

  /** Walking a relative path from its start arrives at its end. */
  lemma RelativeArrives(from: seq<string>, to: seq<string>)
    requires (forall s :: s in from ==> CleanName(s)) && (forall s :: s in to ==> CleanName(s))
    ensures Normalize([], from + RelativeSegments(from, to)) == to
  {
    hide Normalize;
    hide CleanName;
    hide Common;
    var k := Common(from, to);
    NormalizeClean([], from, RelativeSegments(from, to));
    assert [] + from == from;
    NormalizeUps(from, |from| - k, to[k..]);
    NormalizeClean(from[..k], to[k..], []);
    assert to[k..] + [] == to[k..] && from[..k] + to[k..] == to;
    NormalizeNothing(to);
  }

  lemma NormalizeNothing(done: seq<string>)
    ensures Normalize(done, []) == done
  {}

  lemma RelativeEmpty(from: seq<string>, to: seq<string>)
    ensures RelativeSegments(from, to) == [] ==> from == to
  {}

  lemma {:induction false} JoinChars(parts: seq<string>, c: char)
    requires c in Join(parts, SLASH)
    ensures c == SLASH || exists p :: p in parts && c in p
    decreases |parts|
  {
    if |parts| > 1 {
      if c !in parts[0] && c != SLASH {
        JoinChars(parts[1..], c);
        var p :| p in parts[1..] && c in p;
        assert p in parts;
      } else {
        assert parts[0] in parts;
      }
    } else {
      assert parts[0] in parts;
    }
  }

  lemma {:induction false} JoinFirst(parts: seq<string>)
    requires parts != [] && forall i :: 0 <= i < |parts| ==> parts[i] != ""
    ensures Join(parts, SLASH) != "" && Join(parts, SLASH)[0] == parts[0][0]
    ensures Join(parts, SLASH)[|Join(parts, SLASH)| - 1] == parts[|parts| - 1][|parts[|parts| - 1]| - 1]
    decreases |parts|
  {
    if |parts| > 1 {
      JoinFirst(parts[1..]);
    }
  }

  /** A segment of a relative link: a clean name or a step up. */
  predicate StepName(s: string) {
    s == ".." || CleanName(s)
  }

  lemma StepsAreNames(from: seq<string>, to: seq<string>, p: string)
    requires p in RelativeSegments(from, to) && forall s :: s in to ==> CleanName(s)
    ensures StepName(p)
  {}

  lemma StepChars(s: string)
    requires StepName(s)
    ensures s != "" && SLASH !in s && forall c :: c in s ==> c !in {'?', '#', '%', '\\'}
  {}

  lemma StepsText(parts: seq<string>)
    requires parts != [] && forall p :: p in parts ==> StepName(p)
    ensures Join(parts, SLASH) != "" && Segments(Join(parts, SLASH)) == parts
    ensures forall c :: c in Join(parts, SLASH) ==> c !in {'?', '#', '%', '\\'}
    ensures Join(parts, SLASH)[0] != SLASH && Join(parts, SLASH)[|Join(parts, SLASH)| - 1] != SLASH
  {
    hide StepName;
    hide Join;
    forall p | p in parts ensures p != "" && SLASH !in p && forall c :: c in p ==> c !in {'?', '#', '%', '\\'} {
      StepChars(p);
    }
    SplitJoin(parts, SLASH);
    forall i | 0 <= i < |parts| ensures parts[i] != "" {
      assert parts[i] in parts;
    }
    JoinFirst(parts);
    assert parts[0] in parts && parts[|parts| - 1] in parts;
    forall c | c in Join(parts, SLASH) ensures c !in {'?', '#', '%', '\\'} {
      JoinChars(parts, c);
    }
  }

  /** The text of a relative link splits back into its segments and has no special character. */
  lemma RelativeText(from: string, to: string)
    requires CleanPath(from) && CleanPath(to) && Directory(from) != Segments(to)
    ensures RelativeLink(from, to) != "" && Segments(RelativeLink(from, to)) == RelativeSegments(Directory(from), Segments(to))
    ensures forall c :: c in RelativeLink(from, to) ==> c !in {'?', '#', '%', '\\'}
    ensures RelativeLink(from, to)[0] != SLASH && RelativeLink(from, to)[|RelativeLink(from, to)| - 1] != SLASH
  {
    hide CleanName;
    hide StepName;
    hide Join;
    hide RelativeSegments;
    var dir, target := Directory(from), Segments(to);
    var parts := RelativeSegments(dir, target);
    CleanIsNormal(from);
    CleanIsNormal(to);
    RelativeEmpty(dir, target);
    forall p | p in parts ensures StepName(p) {
      StepsAreNames(dir, target, p);
    }
    StepsText(parts);
  }

  /** A query or fragment: empty, or opened by its mark. */
  predicate IsSuffix(suffix: string) {
    suffix == "" || StartsSuffix(suffix[0])
  }

  lemma {:induction false} CutAtSuffix(path: string, suffix: string, from: nat)
    requires from <= |path| && IsSuffix(suffix) && forall c :: c in path ==> !StartsSuffix(c)
    ensures Cut(path + suffix, from) == |path|
    decreases |path| - from
  {
    if from < |path| {
      assert (path + suffix)[from] == path[from] && path[from] in path;
      CutAtSuffix(path, suffix, from + 1);
    }
  }

  lemma CleanText(path: string)
    requires CleanPath(path)
    ensures !("../" <= path) && !("/" <= path) && '\\' !in path && path != ""
    ensures PathText(Segments(path), false) == path
  {
    JoinSplit(path, SLASH);
    var s := Segments(path);
    forall i | 0 <= i < |s| ensures s[i] != "" {
      assert s[i] in s;
    }
    JoinFirst(s);
    assert s[0] in s;
    if "../" <= path {
      assert path == ".." + ['/'] + path[3..];
      SplitAfterWord("..", SLASH, path[3..]);
    }
    if '\\' in path {
      JoinChars(s, '\\');
    }
  }

  lemma NotPrefix(url: string, p: string)
    requires url != "" && p != "" && url[0] != p[0]
    ensures !(p <= url)
  {}

  lemma SchemeOfHead(head: string, rest: string)
    requires head != "" && rest != "" && rest[0] != ':' && !SchemeChar(rest[0])
    ensures HasScheme(head + rest) <==> HasScheme(head)
  {
    hide SchemeChar;
    hide Letter;
    var url := head + rest;
    assert url[0] == head[0] && url[|head|] == rest[0];
    if HasScheme(head) {
      var k :| 0 < k < |head| && head[k] == ':' && forall i :: 0 < i < k ==> SchemeChar(head[i]);
      assert url[k] == ':';
      forall i | 0 < i < k ensures SchemeChar(url[i]) { assert url[i] == head[i]; }
    }
    if HasScheme(url) {
      var k :| 0 < k < |url| && url[k] == ':' && forall i :: 0 < i < k ==> SchemeChar(url[i]);
      assert k <= |head|;
      assert head[k] == ':';
      forall i | 0 < i < k ensures SchemeChar(head[i]) { assert url[i] == head[i]; }
    }
  }

  /** Only the first segment of a link decides whether it reads as a URL. */
  lemma SchemeOfFirst(parts: seq<string>, suffix: string)
    requires parts != [] && parts[0] != "" && IsSuffix(suffix)
    ensures HasScheme(Join(parts, SLASH) + suffix) <==> HasScheme(parts[0])
  {
    hide HasScheme;
    var url := Join(parts, SLASH) + suffix;
    var rest := url[|parts[0]|..];
    assert url == parts[0] + rest;
    if rest != "" {
      assert rest[0] == SLASH || StartsSuffix(rest[0]);
      SchemeOfHead(parts[0], rest);
    } else {
      assert url == parts[0];
    }
  }

  /** Whether the name a relative link begins with belongs to the target and reads as a scheme:
      the target then lies in the link's own directory, in a place whose name looks like `x:...`. */
  predicate SchemeBelow(from: seq<string>, to: seq<string>) {
    |from| < |to| && to[..|from|] == from && HasScheme(to[|from|])
  }

  lemma {:induction false} CommonPrefix(a: seq<string>, b: seq<string>)
    ensures Common(a, b) == |a| <==> |a| <= |b| && b[..|a|] == a
    decreases |a|
  {}

  lemma StepHasNoScheme()
    ensures !HasScheme("..")
  {}

  lemma SchemeExactly(from: string, to: string, suffix: string)
    requires CleanPath(from) && CleanPath(to) && Directory(from) != Segments(to) && IsSuffix(suffix)
    ensures HasScheme(RelativeLink(from, to) + suffix) <==> SchemeBelow(Directory(from), Segments(to))
  {
    hide HasScheme;
    hide Join;
    hide CleanName;
    var dir, target := Directory(from), Segments(to);
    var parts := RelativeSegments(dir, target);
    CleanIsNormal(from);
    CleanIsNormal(to);
    RelativeEmpty(dir, target);
    StepsAreNames(dir, target, parts[0]);
    StepChars(parts[0]);
    SchemeOfFirst(parts, suffix);
    CommonPrefix(dir, target);
    StepHasNoScheme();
  }

  /** A relative link, resolved from its own place, leads to the file it was made for and keeps its
      suffix - except when the target lies below the link's directory under a name that reads as a
      URL scheme. */
  lemma RelativeLinkRoundTrip(decode: Decoder, from: string, to: string, suffix: string)
    requires IsDecoder(decode) && CleanPath(from) && CleanPath(to) && Directory(from) != Segments(to) && IsSuffix(suffix)
    ensures (ResolveLink(decode, from, RelativeLink(from, to) + suffix)
      == if SchemeBelow(Directory(from), Segments(to)) then NotLocal else Local(to, suffix))
  {
    hide HasScheme;
    hide SchemeBelow;
    var link := RelativeLink(from, to);
    var url := link + suffix;
    RelativeText(from, to);
    forall c | c in link ensures !StartsSuffix(c) {}
    CutAtSuffix(link, suffix, 1);
    assert url[..|link|] == link && url[|link|..] == suffix;
    assert url[0] == link[0] && link[0] in link;
    RelativeArrives(Directory(from), Segments(to));
    CleanText(to);
    NotPrefix(url, "#");
    NotPrefix(url, "//");
    SchemeExactly(from, to, suffix);
  }
}
