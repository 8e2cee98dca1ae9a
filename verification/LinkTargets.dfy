/** What a link of a repository file leads to, in terms of the characters it is written with. */
module LinkTargets {
  import opened Links
  import opened Options
  import opened Text

  // ---- normal paths -------------------------------------------------------------------------

  /** Steps up first, then names. */
  ghost predicate IsNormal(path: seq<string>) {
    exists n: nat :: StepsThenNames(path, n)
  }

  ghost predicate StepsThenNames(path: seq<string>, n: nat) {
    && n <= |path| && (forall i :: 0 <= i < n ==> path[i] == "..")
    && forall i :: n <= i < |path| ==> !Dotted(path[i])
  }

  lemma {:induction false} NormalizeIsNormal(done: seq<string>, segments: seq<string>)
    requires IsNormal(done)
    ensures IsNormal(Normalize(done, segments))
    decreases |segments|
  {
    if segments != [] {
      var s, rest := segments[0], segments[1..];
      var n: nat :| StepsThenNames(done, n);
      if s == "" || s == "." {
        NormalizeIsNormal(done, rest);
      } else if s == ".." && done != [] && done[|done| - 1] != ".." {
        assert StepsThenNames(done[..|done| - 1], n);
        NormalizeIsNormal(done[..|done| - 1], rest);
      } else {
        assert s == ".." ==> n == |done|;
        assert StepsThenNames(done + [s], if s == ".." then n + 1 else n);
        NormalizeIsNormal(done + [s], rest);
      }
    }
  }

  lemma {:induction false} NormalizeSteps(done: seq<string>, n: nat)
    requires done == Ups(|done|)
    ensures Normalize(done, Ups(n)) == Ups(|done| + n)
    decreases n
  {
    if n > 0 {
      assert Ups(n)[0] == ".." && Ups(n)[1..] == Ups(n - 1);
      assert done + [".."] == Ups(|done| + 1);
      NormalizeSteps(done + [".."], n - 1);
    }
  }

  lemma NormalIsFixed(path: seq<string>)
    requires IsNormal(path)
    ensures Normalize([], path) == path
  {
    var n: nat :| StepsThenNames(path, n);
    assert path == Ups(n) + path[n..];
    assert [] == Ups(0);
    NormalizeSteps([], n);
    NormalizeConcat([], Ups(n), path[n..]);
    NormalizeNames(Ups(n), path[n..]);
  }

  lemma EmptyVanishes(a: seq<string>, s: string, b: seq<string>)
    requires s == "" || s == "."
    ensures Normalize([], a + [s] + b) == Normalize([], a + b)
  {
    assert a + [s] + b == a + ([s] + b) && ([s] + b)[1..] == b;
    NormalizeConcat([], a, [s] + b);
    NormalizeConcat([], a, b);
  }

  lemma StepBehindName(m: seq<string>, s: string)
    requires !Dotted(s)
    ensures Normalize(m, [s, ".."]) == m
  {
    assert [s, ".."][1..] == [".."] && [".."][1..] == [];
    assert (m + [s])[..|m|] == m && (m + [s])[|m|] == s;
    assert Normalize(m + [s], [".."]) == Normalize(m, []);
  }

  lemma StepCancels(a: seq<string>, s: string, b: seq<string>)
    requires !Dotted(s)
    ensures Normalize([], a + [s, ".."] + b) == Normalize([], a + b)
  {
    hide *;
    NormalizeConcat([], a + [s, ".."], b);
    NormalizeConcat([], a, [s, ".."]);
    NormalizeConcat([], a, b);
    StepBehindName(Normalize([], a), s);
  }

  /** The laws of a normalized path, which leave one result: it has its steps up in front and names
      behind them, such a path is its own result, empty and `.` segments count for nothing, and a
      name and the step up behind it cancel. */
  lemma NormalizeLaws(a: seq<string>, s: string, b: seq<string>)
    ensures IsNormal(Normalize([], a))
    ensures IsNormal(a) ==> Normalize([], a) == a
    ensures s == "" || s == "." ==> Normalize([], a + [s] + b) == Normalize([], a + b)
    ensures !Dotted(s) ==> Normalize([], a + [s, ".."] + b) == Normalize([], a + b)
  {
    assert StepsThenNames([], 0);
    NormalizeIsNormal([], a);
    if IsNormal(a) { NormalIsFixed(a); }
    if s == "" || s == "." { EmptyVanishes(a, s, b); }
    if !Dotted(s) { StepCancels(a, s, b); }
  }

  lemma {:induction false} NormalizeMembers(done: seq<string>, segments: seq<string>)
    ensures forall s :: s in Normalize(done, segments) ==> s in done || s in segments
    decreases |segments|
  {
    if segments != [] {
      var s, rest := segments[0], segments[1..];
      assert s in segments && forall x :: x in rest ==> x in segments;
      if s == "" || s == "." {
        NormalizeMembers(done, rest);
      } else if s == ".." && done != [] && done[|done| - 1] != ".." {
        NormalizeMembers(done[..|done| - 1], rest);
      } else {
        NormalizeMembers(done + [s], rest);
      }
    }
  }

  // ---- the text of a path -------------------------------------------------------------------

  predicate EndsInSlash(s: string) {
    s != "" && s[|s| - 1] == '/'
  }

  /** The segments a path's text splits into: a lone dot for no segment at all, and an empty one
      behind a final slash. */
  function TextSegments(parts: seq<string>, slash: bool): seq<string> {
    (if parts == [] then ["."] else parts) + (if slash then [""] else [])
  }

  lemma PathTextSplits(parts: seq<string>, slash: bool)
    requires forall s :: s in parts ==> SLASH !in s
    ensures Segments(PathText(parts, slash)) == TextSegments(parts, slash)
  {
    var base := if parts == [] then ["."] else parts;
    var text := Join(base, SLASH);
    SplitJoin(base, SLASH);
    assert PathText(parts, slash) == text + (if slash then "/" else "");
    if slash {
      SplitBoth(text, "", SLASH);
      assert text + [SLASH] + "" == text + "/";
    } else {
      assert text + "" == text;
    }
  }

  lemma StartsWithStep(f: string)
    ensures "../" <= f <==> |Segments(f)| > 1 && Segments(f)[0] == ".."
  {
    if "../" <= f {
      assert f == ".." + [SLASH] + f[3..];
      SplitAfterWord("..", SLASH, f[3..]);
    }
    if |Segments(f)| > 1 && Segments(f)[0] == ".." {
      JoinSplit(f, SLASH);
    }
  }

  lemma StartsWithSlash(f: string)
    ensures "/" <= f ==> Segments(f)[0] == ""
  {
    if "/" <= f {
      assert f == "" + [SLASH] + f[1..];
      SplitAfterWord("", SLASH, f[1..]);
    }
  }

  lemma {:induction false} CharInJoin(parts: seq<string>, p: string, c: char)
    requires p in parts && c in p
    ensures c in Join(parts, SLASH)
    decreases |parts|
  {
    if |parts| > 1 && p != parts[0] {
      assert p in parts[1..];
      CharInJoin(parts[1..], p, c);
    }
  }

  lemma CharInSegments(f: string, c: char)
    requires c != SLASH
    ensures c in f <==> exists p :: p in Segments(f) && c in p
  {
    JoinSplit(f, SLASH);
    if c in f { JoinChars(Segments(f), c); }
    if p :| p in Segments(f) && c in p { CharInJoin(Segments(f), p, c); }
  }

  // ---- what a link leads to -----------------------------------------------------------------

  /** The path a link names: everything before the first mark that is not its first character. */
  predicate Names(url: string, path: string, suffix: string) {
    && url == path + suffix && path != "" && (suffix == "" || suffix[0] == '?' || suffix[0] == '#')
    && forall i :: 1 <= i < |path| ==> path[i] != '?' && path[i] != '#'
  }

  /** A link that is no path: a fragment, a network path, or a scheme and its colon. */
  ghost predicate IsUrl(url: string) {
    || (url != "" && url[0] == '#')
    || (|url| > 1 && url[0] == '/' && url[1] == '/')
    || exists k :: IsSchemeEnd(url, k)
  }

  predicate IsSchemeEnd(url: string, k: nat) {
    && 0 < k < |url| && url[k] == ':' && IsLetter(url[0])
    && forall i :: 0 < i < k ==>
         IsLetter(url[i]) || '0' <= url[i] <= '9' || url[i] == '+' || url[i] == '.' || url[i] == '-'
  }

  /** A letter of the alphabet, or one of the two characters a match without case folds to one; by
      code point. */
  predicate IsLetter(c: char) {
    var n := c as int;
    65 <= n <= 90 || 97 <= n <= 122 || n == 0x17F || n == 0x212A
  }

  /** The path leaves the repository or has a backslash. */
  predicate Leaves(parts: seq<string>, slash: bool) {
    || (parts != [] && parts[0] == ".." && (|parts| > 1 || slash))
    || exists s :: s in parts && '\\' in s
  }

  lemma UrlExactly(url: string)
    ensures External(url) <==> IsUrl(url)
  {
    forall c ensures Letter(c) <==> IsLetter(c) {
    }
    hide IsLetter;
    hide Letter;
    if HasScheme(url) {
      var k :| 0 < k < |url| && url[k] == ':' && forall i :: 0 < i < k ==> SchemeChar(url[i]);
      assert IsSchemeEnd(url, k);
    }
    if k :| IsSchemeEnd(url, k) {
      assert forall i :: 0 < i < k ==> SchemeChar(url[i]);
    }
  }

  lemma {:induction false} CutAtNames(url: string, path: string, suffix: string, from: nat)
    requires Names(url, path, suffix) && 1 <= from <= |path|
    ensures Cut(url, from) == |path|
    decreases |path| - from
  {
    if from < |path| { CutAtNames(url, path, suffix, from + 1); }
  }

  lemma LeavesExactly(parts: seq<string>, slash: bool)
    requires IsNormal(parts) && forall s :: s in parts ==> SLASH !in s
    ensures var f := PathText(parts, slash);
      ("../" <= f || "/" <= f || '\\' in f) <==> Leaves(parts, slash)
  {
    var f := PathText(parts, slash);
    PathTextSplits(parts, slash);
    hide PathText;
    hide Join;
    hide Split;
    StartsWithStep(f);
    StartsWithSlash(f);
    CharInSegments(f, '\\');
    var n: nat :| StepsThenNames(parts, n);
    assert parts != [] ==> parts[0] != "";
    forall s | s in TextSegments(parts, slash) && '\\' in s ensures s in parts {}
    forall s | s in parts && '\\' in s ensures s in TextSegments(parts, slash) {}
  }

  /** Where a link leads, for every link. Nowhere in the repository if and only if it is empty or a
      URL. Refused if and only if its path does not decode, or the decoded path, taken from the
      directory of the document, leaves the repository or has a backslash. Otherwise to the file with
      the normalized segments, with everything behind the path kept. */
  lemma ResolvesExactly(decode: Decoder, source: string, url: string, path: string, suffix: string)
    requires url != "" ==> Names(url, path, suffix)
    ensures var r := ResolveLink(decode, source, url);
      && (r.NotLocal? <==> url == "" || IsUrl(url))
      && (!r.NotLocal? ==> match decode(path)
            case None => r.Refused?
            case Some(text) =>
              var parts, slash := Normalize([], Directory(source) + Segments(text)), EndsInSlash(text);
              if Leaves(parts, slash) then r.Refused?
              else r.Local? && r.suffix == suffix && Segments(r.file) == TextSegments(parts, slash))
  {
    UrlExactly(url);
    if url != "" && !External(url) {
      hide External;
      CutAtNames(url, path, suffix, 1);
      assert url[..|path|] == path && url[|path|..] == suffix;
      if decode(path).Some? {
        var text := decode(path).value;
        var all := Directory(source) + Segments(text);
        var parts := Normalize([], all);
        NormalizeLaws(all, "", []);
        NormalizeMembers([], all);
        forall s | s in parts ensures SLASH !in s { assert s in Directory(source) || s in Segments(text); }
        LeavesExactly(parts, EndsInSlash(text));
        PathTextSplits(parts, EndsInSlash(text));
        hide Normalize;
        hide PathText;
        hide Segments;
      }
    }
  }
}
