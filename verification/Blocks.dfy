/** Replacing the body of a marked block in a text. */
module Blocks {
  import opened Options

  predicate OccursAt(text: string, m: string, i: int) {
    0 <= i && i + |m| <= |text| && text[i..i + |m|] == m
  }

  /** The first occurrence at or after an index, or -1. */
  function IndexOf(text: string, m: string, from: nat): (i: int)
    requires from <= |text|
    ensures i >= 0 ==> from <= i && OccursAt(text, m, i)
    ensures forall j :: from <= j && OccursAt(text, m, j) ==> 0 <= i <= j
    decreases |text| - from
  {
    if OccursAt(text, m, from) then from
    else if from == |text| then -1
    else IndexOf(text, m, from + 1)
  }

  const HEAD: string := "!-- catalog-generated:"
  const TAIL: string := " -->"

  function Mark(kind: string, name: string): string { "<" + (HEAD + (kind + (name + TAIL))) }
  function Start(name: string): string { Mark("start ", name) }
  function End(name: string): string { Mark("end ", name) }

  lemma OpeningOfStart()
    ensures "<" + HEAD + "start " == "<!-- catalog-generated:start "
  {}

  lemma OpeningOfEnd()
    ensures "<" + HEAD + "end " == "<!-- catalog-generated:end "
  {}

  lemma MarkAssociates(a: string, b: string, c: string, d: string, e: string)
    ensures a + (b + (c + (d + e))) == (a + b + c) + d + e
  {}

  /** The text of the markers. */
  lemma MarkersExactly(name: string)
    ensures Start(name) == "<!-- catalog-generated:start " + name + " -->"
    ensures End(name) == "<!-- catalog-generated:end " + name + " -->"
  {
    OpeningOfStart();
    OpeningOfEnd();
    MarkAssociates("<", HEAD, "start ", name, TAIL);
    MarkAssociates("<", HEAD, "end ", name, TAIL);
    hide HEAD;
  }

  /** Replaces what stands between a block's markers; a missing, repeated or reversed marker is
      refused. */
  function Replace(text: string, name: string, content: string): Option<string> {
    var start, end := Start(name), End(name);
    var left, right := IndexOf(text, start, 0), IndexOf(text, end, 0);
    if left < 0 || right < left || IndexOf(text, start, left + |start|) >= 0 || IndexOf(text, end, right + |end|) >= 0
    then None
    else Some(text[..left] + start + "\n" + content + "\n" + end + text[right + |end|..])
  }

  /** A name without a line break and without an opening angle bracket. */
  predicate CleanName(name: string) {
    forall c :: c in name ==> c != '\n' && c != '<'
  }

  ghost predicate Free(text: string, m: string) {
    forall i :: !OccursAt(text, m, i)
  }

  ghost predicate OnlyAt(text: string, m: string, i: int) {
    OccursAt(text, m, i) && forall j :: OccursAt(text, m, j) ==> j == i
  }

  /** A marker: opens with the only `<` it has and holds no line break. */
  predicate Marker(m: string) {
    m != "" && m[0] == '<' && (forall i :: 0 < i < |m| ==> m[i] != '<') && '\n' !in m
  }

  /** Text that may stand inside a marker. */
  predicate Inner(s: string) {
    '<' !in s && '\n' !in s
  }

  lemma InnerConcat(a: string, b: string)
    requires Inner(a) && Inner(b)
    ensures Inner(a + b)
  {}

  lemma HeadIsInner()
    ensures Inner(HEAD)
  {}

  lemma KindsAreInner()
    ensures Inner("start ") && Inner("end ") && Inner(TAIL)
  {}

  lemma InnerMarker(inner: string)
    requires Inner(inner)
    ensures Marker("<" + inner)
  {
    var m := "<" + inner;
    forall i | 0 < i < |m| ensures m[i] != '<' {
      assert m[i] == inner[i - 1] && inner[i - 1] in inner;
    }
  }

  lemma MarkIsMarker(kind: string, name: string)
    requires Inner(kind) && Inner(name)
    ensures Marker(Mark(kind, name))
  {
    HeadIsInner();
    KindsAreInner();
    hide Inner;
    hide HEAD;
    hide TAIL;
    InnerConcat(name, TAIL);
    InnerConcat(kind, name + TAIL);
    InnerConcat(HEAD, kind + (name + TAIL));
    InnerMarker(HEAD + (kind + (name + TAIL)));
  }

  lemma MarkersAreMarkers(name: string)
    requires CleanName(name)
    ensures Marker(Start(name)) && Marker(End(name))
  {
    KindsAreInner();
    assert Inner(name);
    hide Inner;
    hide Mark;
    MarkIsMarker("start ", name);
    MarkIsMarker("end ", name);
  }

  lemma KindChar(kind: string, name: string)
    requires kind != ""
    ensures |Mark(kind, name)| > 1 + |HEAD| && Mark(kind, name)[1 + |HEAD|] == kind[0]
  {
    hide HEAD;
  }

  lemma MarkInjective(kind: string, a: string, b: string)
    ensures Mark(kind, a) == Mark(kind, b) ==> a == b
  {
    hide HEAD;
    var m, n := Mark(kind, a), Mark(kind, b);
    var from := 1 + |HEAD| + |kind|;
    assert m[from..|m| - 4] == a && n[from..|n| - 4] == b;
  }

  /** Two occurrences that meet agree on the shared character. */
  lemma SharedChar(text: string, m: string, n: string, i: int, j: int, k: int)
    requires OccursAt(text, m, i) && OccursAt(text, n, j) && 0 <= k < |n| && 0 <= j + k - i < |m|
    ensures m[j + k - i] == n[k]
  {}

  /** Two markers in a text overlap only by beginning together. */
  lemma NoOverlap(text: string, m: string, n: string, i: int, j: int)
    requires Marker(m) && Marker(n) && OccursAt(text, m, i) && OccursAt(text, n, j)
    ensures i < j ==> i + |m| <= j
  {
    if i < j < i + |m| {
      SharedChar(text, m, n, i, j, 0);
    }
  }

  /** A start and an end marker never begin together. */
  lemma StartIsNoEnd(text: string, name: string, other: string, i: int, j: int)
    requires OccursAt(text, Start(name), i) && OccursAt(text, End(other), j)
    ensures i != j
  {
    KindChar("start ", name);
    KindChar("end ", other);
    hide Mark;
    if i == j {
      SharedChar(text, Start(name), End(other), i, j, 1 + |HEAD|);
    }
  }

  lemma CommonHead(before: string, x: string, y: string)
    ensures before + x <= before + y <==> x <= y
  {
    var p, q := before + x, before + y;
    if p <= q {
      assert x == p[|before|..] && y[..|x|] == q[|before|..|p|] && q[..|p|] == p;
    }
    if x <= y {
      assert q[..|p|] == before + y[..|x|];
    }
  }

  /** The last character of a text that begins another and reaches into its tail. */
  lemma Overhang(x: string, y: string, tail: string)
    requires x <= y + tail && |x| > |y|
    ensures x[|x| - 1] == tail[|x| - |y| - 1]
  {}

  /** One start marker begins another exactly when the names agree or the longer name goes on after
      the closing of the shorter. */
  lemma StartBeginsStart(name: string, other: string)
    ensures Start(name) <= Start(other) <==> name == other || name + TAIL <= other
  {
    var x, all := name + TAIL, other + TAIL;
    CommonHead("start ", x, all);
    CommonHead(HEAD, "start " + x, "start " + all);
    CommonHead("<", HEAD + ("start " + x), HEAD + ("start " + all));
    hide HEAD;
    assert x[|x| - 1] == '>';
    if x <= all {
      if |x| > |other| {
        Overhang(x, other, TAIL);
        assert |name| == |other|;
        assert name == x[..|name|] == all[..|name|] == other;
      } else {
        assert x == all[..|x|] == other[..|x|];
      }
    }
    if x <= other {
      assert all[..|x|] == other[..|x|] == x;
    }
  }

  lemma DistinctMarkers(name: string, other: string)
    ensures Start(name) != End(other)
    ensures name != other ==> Start(name) != Start(other) && End(name) != End(other)
  {
    KindChar("start ", name);
    KindChar("end ", other);
    MarkInjective("start ", name, other);
    MarkInjective("end ", name, other);
    hide Mark;
    assert "start "[0] != "end "[0];
  }

  // ---- one replacement ----------------------------------------------------------------------

  function Marked(left: string, name: string, body: string, right: string): string {
    left + Start(name) + body + End(name) + right
  }

  /** The text is one marked block between two sides, and has each of the block's markers once. */
  ghost predicate IsBlock(text: string, name: string, left: string, body: string, right: string) {
    && text == Marked(left, name, body, right)
    && OnlyAt(text, Start(name), |left|)
    && OnlyAt(text, End(name), |left| + |Start(name)| + |body|)
  }

  lemma OccursInside(left: string, m: string, right: string)
    ensures OccursAt(left + m + right, m, |left|)
  {}

  /** A block with unique markers is replaced between them, and nothing else changes. */
  lemma BlockIsReplaced(text: string, name: string, left: string, body: string, right: string, content: string)
    requires IsBlock(text, name, left, body, right)
    ensures Replace(text, name, content) == Some(Marked(left, name, "\n" + content + "\n", right))
  {
    var start, end := Start(name), End(name);
    hide Start;
    hide End;
    var at := |left| + |start| + |body|;
    assert text[..|left|] == left && text[at + |end|..] == right;
    assert start != "" && end != "" by { MarkersNonEmpty(name); }
    assert IndexOf(text, start, 0) == |left| && IndexOf(text, end, 0) == at;
    assert IndexOf(text, start, |left| + |start|) == -1 || !OccursAt(text, start, IndexOf(text, start, |left| + |start|));
    assert left + start + "\n" + content + "\n" + end + right == left + start + ("\n" + content + "\n") + end + right;
  }

  lemma MarkersNonEmpty(name: string)
    ensures Start(name) != "" && End(name) != ""
  {}

  /** Only such a text is accepted: each marker exactly once, in order. */
  lemma ReplacedIsBlock(text: string, name: string, content: string) returns (left: string, body: string, right: string)
    requires CleanName(name) && Replace(text, name, content).Some?
    ensures IsBlock(text, name, left, body, right)
  {
    var start, end := Start(name), End(name);
    MarkersAreMarkers(name);
    hide Start;
    hide End;
    hide Marker;
    hide CleanName;
    hide OccursAt;
    var i, j := IndexOf(text, start, 0), IndexOf(text, end, 0);
    OnlyFound(text, start);
    OnlyFound(text, end);
    NoOverlap(text, start, end, i, j);
    StartIsNoEnd(text, name, name, i, j);
    hide IndexOf;
    left, body, right := Cut(text, name, i, j);
  }

  lemma Cut(text: string, name: string, i: int, j: int) returns (left: string, body: string, right: string)
    requires OnlyAt(text, Start(name), i) && OnlyAt(text, End(name), j) && i + |Start(name)| <= j
    ensures IsBlock(text, name, left, body, right)
  {
    var start, end := Start(name), End(name);
    hide Start;
    hide End;
    left, body, right := text[..i], text[i + |start|..j], text[j + |end|..];
    assert text == left + start + body + end + right;
    hide OccursAt;
  }

  /** A marker not found again past its first occurrence has no other. */
  lemma OnlyFound(text: string, m: string)
    requires Marker(m) && IndexOf(text, m, 0) >= 0 && IndexOf(text, m, IndexOf(text, m, 0) + |m|) < 0
    ensures OnlyAt(text, m, IndexOf(text, m, 0))
  {
    var i := IndexOf(text, m, 0);
    forall k | OccursAt(text, m, k) ensures k == i {
      NoOverlap(text, m, m, i, k);
    }
  }

  /** Replacement is possible exactly when each marker stands once in the text, in order. */
  lemma ReplaceIsDefined(text: string, name: string, content: string)
    requires CleanName(name)
    ensures Replace(text, name, content).Some? <==> exists left, body, right :: IsBlock(text, name, left, body, right)
  {
    if Replace(text, name, content).Some? {
      var left, body, right := ReplacedIsBlock(text, name, content);
    }
    if left, body, right :| IsBlock(text, name, left, body, right) {
      BlockIsReplaced(text, name, left, body, right, content);
    }
  }

  // ---- where a marker occurs after a replacement --------------------------------------------

  /** Across a line break: an occurrence of a marker lies wholly on one side. */
  lemma OccursBesideBreak(a: string, b: string, m: string, i: int)
    requires '\n' !in m && m != ""
    ensures OccursAt(a + "\n" + b, m, i) <==> OccursAt(a, m, i) || OccursAt(b, m, i - |a| - 1)
  {
    var t := a + "\n" + b;
    if OccursAt(t, m, i) {
      if i + |m| <= |a| {
        assert t[i..i + |m|] == a[i..i + |m|];
      } else if i <= |a| {
        OccursInside(a, "\n", b);
        SharedChar(t, m, "\n", i, |a|, 0);
      } else {
        assert t[i..i + |m|] == b[i - |a| - 1..i - |a| - 1 + |m|];
      }
    }
    if OccursAt(a, m, i) {
      assert t[i..i + |m|] == a[i..i + |m|];
    }
    if OccursAt(b, m, i - |a| - 1) {
      assert t[i..i + |m|] == b[i - |a| - 1..i - |a| - 1 + |m|];
    }
  }

  function Splice(a: string, body: string, b: string): string {
    a + body + b
  }

  lemma OccursInSplice(a: string, body: string, b: string, m: string, i: int)
    ensures OccursAt(a, m, i) <==> OccursAt(Splice(a, body, b), m, i) && i + |m| <= |a|
    ensures OccursAt(b, m, i) <==> OccursAt(Splice(a, body, b), m, i + |a| + |body|) && 0 <= i
  {
    var t := Splice(a, body, b);
    var shift := |a| + |body|;
    if 0 <= i && i + |m| <= |a| {
      assert t[i..i + |m|] == a[i..i + |m|];
    }
    if 0 <= i && i + |m| <= |b| {
      assert t[shift..] == b;
      assert t[i + shift..i + shift + |m|] == t[shift..][i..i + |m|];
    }
  }

  /** What a replacement does to the only occurrence of a marker: one before the replaced body
      stays, one after it moves along, one that reaches into it is gone. */
  lemma MarkerMoves(a: string, body: string, b: string, content: string, m: string, p: int)
    requires '\n' !in m && m != "" && Free(content, m) && OnlyAt(Splice(a, body, b), m, p)
    ensures p + |m| <= |a| ==> OnlyAt(Splice(a, "\n" + content + "\n", b), m, p)
    ensures p >= |a| + |body| ==> OnlyAt(Splice(a, "\n" + content + "\n", b), m, p - |body| + |content| + 2)
    ensures |a| < p + |m| && p < |a| + |body| ==> Free(Splice(a, "\n" + content + "\n", b), m)
  {
    var t := Splice(a, "\n" + content + "\n", b);
    forall i ensures OccursAt(t, m, i) <==>
      (i == p && p + |m| <= |a|) || (i == p - |body| + |content| + 2 && p >= |a| + |body|)
    {
      MarkerAfter(a, body, b, content, m, p, i);
    }
    hide OccursAt;
    hide Splice;
  }

  lemma AroundBreaks(a: string, b: string, content: string, m: string, i: int)
    requires '\n' !in m && m != "" && Free(content, m)
    ensures OccursAt(Splice(a, "\n" + content + "\n", b), m, i) <==> OccursAt(a, m, i) || OccursAt(b, m, i - |a| - |content| - 2)
  {
    var t := Splice(a, "\n" + content + "\n", b);
    assert t == a + "\n" + (content + "\n" + b);
    hide OccursAt;
    OccursBesideBreak(a, content + "\n" + b, m, i);
    OccursBesideBreak(content, b, m, i - |a| - 1);
    assert i - |a| - 1 - |content| - 1 == i - |a| - |content| - 2;
    assert !OccursAt(content, m, i - |a| - 1);
  }

  lemma MarkerAfter(a: string, body: string, b: string, content: string, m: string, p: int, i: int)
    requires '\n' !in m && m != "" && Free(content, m) && OnlyAt(Splice(a, body, b), m, p)
    ensures OccursAt(Splice(a, "\n" + content + "\n", b), m, i) <==>
      (i == p && p + |m| <= |a|) || (i == p - |body| + |content| + 2 && p >= |a| + |body|)
  {
    var shift := |a| + |content| + 2;
    AroundBreaks(a, b, content, m, i);
    OccursInSplice(a, body, b, m, i);
    OccursInSplice(a, body, b, m, i - shift);
    hide OccursAt;
    hide Splice;
    hide Free;
    assert OccursAt(a, m, i) <==> i == p && p + |m| <= |a|;
    assert OccursAt(b, m, i - shift) <==> i - shift + |a| + |body| == p && 0 <= i - shift;
  }

  // ---- the algebra --------------------------------------------------------------------------

  /** The content holds neither marker of the block. */
  ghost predicate FreeOf(content: string, name: string) {
    Free(content, Start(name)) && Free(content, End(name))
  }

  function NewBody(content: string): string {
    "\n" + content + "\n"
  }

  /** After a replacement the block is there again, with the new body and the old sides. */
  lemma ReplacementIsBlock(text: string, name: string, left: string, body: string, right: string, content: string)
    requires CleanName(name) && IsBlock(text, name, left, body, right) && FreeOf(content, name)
    ensures IsBlock(Marked(left, name, NewBody(content), right), name, left, NewBody(content), right)
  {
    var start, end := Start(name), End(name);
    MarkersAreMarkers(name);
    hide Start;
    hide End;
    var a, b := left + start, end + right;
    assert text == Splice(a, body, b);
    assert Marked(left, name, NewBody(content), right) == Splice(a, "\n" + content + "\n", b);
    MarkerMoves(a, body, b, content, start, |left|);
    MarkerMoves(a, body, b, content, end, |a| + |body|);
  }

  /** The last write wins; writing the same content twice is writing it once. */
  lemma LastWriteWins(text: string, name: string, first: string, second: string)
    requires CleanName(name) && FreeOf(first, name) && Replace(text, name, first).Some?
    ensures Replace(Replace(text, name, first).value, name, second) == Replace(text, name, second)
    ensures Replace(text, name, second).Some?
  {
    var left, body, right := ReplacedIsBlock(text, name, first);
    BlockIsReplaced(text, name, left, body, right, first);
    BlockIsReplaced(text, name, left, body, right, second);
    ReplacementIsBlock(text, name, left, body, right, first);
    BlockIsReplaced(Marked(left, name, NewBody(first), right), name, left, NewBody(first), right, second);
  }

  /** Nothing outside the markers changes, and each marker is still there once. */
  lemma OutsideIsKept(text: string, name: string, content: string)
    requires CleanName(name) && FreeOf(content, name) && Replace(text, name, content).Some?
    ensures exists left, body, right ::
      IsBlock(text, name, left, body, right)
      && IsBlock(Replace(text, name, content).value, name, left, NewBody(content), right)
  {
    var left, body, right := ReplacedIsBlock(text, name, content);
    BlockIsReplaced(text, name, left, body, right, content);
    ReplacementIsBlock(text, name, left, body, right, content);
  }

  /** Two blocks of a text side by side, the first before the second. */
  ghost predicate SideBySide(text: string, a: string, b: string, left: string, x: string, mid: string, y: string, right: string) {
    && IsBlock(text, a, left, x, mid + Start(b) + y + End(b) + right)
    && IsBlock(text, b, left + Start(a) + x + End(a) + mid, y, right)
  }

  /** Two blocks and what surrounds them, grouped by either block. */
  lemma Regroup(before: string, mid: string, sb: string, y: string, eb: string, right: string)
    ensures before + (mid + sb + y + eb + right) == (before + mid) + sb + y + eb + right
  {}

  /** A marker after a replaced body moves by the difference in length. */
  lemma LaterMarkerMoves(left: string, sa: string, x: string, ea: string, rest: string, content: string, m: string, p: int)
    requires '\n' !in m && m != "" && Free(content, m)
    requires OnlyAt(left + sa + x + ea + rest, m, p) && p >= |left| + |sa| + |x|
    ensures OnlyAt(left + sa + NewBody(content) + ea + rest, m, p - |x| + |content| + 2)
  {
    hide OnlyAt;
    hide Free;
    assert left + sa + x + ea + rest == Splice(left + sa, x, ea + rest);
    assert left + sa + NewBody(content) + ea + rest == Splice(left + sa, "\n" + content + "\n", ea + rest);
    MarkerMoves(left + sa, x, ea + rest, content, m, p);
  }

  lemma EarlierMarkerStays(left: string, sb: string, y: string, eb: string, right: string, content: string, m: string, p: int)
    requires '\n' !in m && m != "" && Free(content, m)
    requires OnlyAt(left + sb + y + eb + right, m, p) && p + |m| <= |left| + |sb|
    ensures OnlyAt(left + sb + NewBody(content) + eb + right, m, p)
  {
    hide OnlyAt;
    hide Free;
    assert left + sb + y + eb + right == Splice(left + sb, y, eb + right);
    assert left + sb + NewBody(content) + eb + right == Splice(left + sb, "\n" + content + "\n", eb + right);
    MarkerMoves(left + sb, y, eb + right, content, m, p);
  }

  lemma MarkersAreLines(name: string)
    requires CleanName(name)
    ensures '\n' !in Start(name) && '\n' !in End(name) && Start(name) != "" && End(name) != ""
  {}

  /** Replacing the first of two blocks leaves the second where it was in the rest of the text. */
  lemma SecondBlockStays(text: string, a: string, b: string, left: string, x: string, mid: string, y: string, right: string, content: string)
    requires CleanName(b) && FreeOf(content, b)
    requires SideBySide(text, a, b, left, x, mid, y, right)
    ensures IsBlock(Marked(left, a, NewBody(content), mid + Start(b) + y + End(b) + right), b,
                    left + Start(a) + NewBody(content) + End(a) + mid, y, right)
  {
    MarkersAreLines(b);
    var sa, ea, sb, eb := Start(a), End(a), Start(b), End(b);
    hide Start;
    hide End;
    hide CleanName;
    hide OnlyAt;
    hide OccursAt;
    hide Free;
    var rest, body := mid + sb + y + eb + right, NewBody(content);
    assert |body| == |content| + 2;
    hide NewBody;
    var old1, new1 := left + sa + x + ea, left + sa + body + ea;
    var at := |old1 + mid|;
    assert text == old1 + rest && |old1| - |x| + |body| == |new1|;
    LaterMarkerMoves(left, sa, x, ea, rest, content, sb, at);
    LaterMarkerMoves(left, sa, x, ea, rest, content, eb, at + |sb| + |y|);
    Regroup(new1, mid, sb, y, eb, right);
    var left2 := new1 + mid;
    assert |left2| == at - |x| + |content| + 2;
    assert Marked(left, a, body, rest) == left2 + sb + y + eb + right;
  }

  lemma FirstBlockStays(text: string, a: string, b: string, left: string, x: string, mid: string, y: string, right: string, content: string)
    requires CleanName(a) && FreeOf(content, a)
    requires SideBySide(text, a, b, left, x, mid, y, right)
    ensures IsBlock(Marked(left + Start(a) + x + End(a) + mid, b, NewBody(content), right), a,
                    left, x, mid + Start(b) + NewBody(content) + End(b) + right)
  {
    MarkersAreLines(a);
    var sa, ea, sb, eb := Start(a), End(a), Start(b), End(b);
    hide Start;
    hide End;
    hide CleanName;
    hide OnlyAt;
    hide OccursAt;
    hide Free;
    hide NewBody;
    var before := left + sa + x + ea + mid;
    assert text == before + sb + y + eb + right;
    EarlierMarkerStays(before, sb, y, eb, right, content, sa, |left|);
    EarlierMarkerStays(before, sb, y, eb, right, content, ea, |left| + |sa| + |x|);
    Regroup(left + sa + x + ea, mid, sb, NewBody(content), eb, right);
  }

  /** Replacements of two blocks that stand side by side commute. */
  lemma SideBySideCommutes(text: string, a: string, b: string, left: string, x: string, mid: string, y: string, right: string,
                           forA: string, forB: string)
    requires CleanName(a) && CleanName(b) && FreeOf(forA, b) && FreeOf(forB, a)
    requires SideBySide(text, a, b, left, x, mid, y, right)
    ensures Replace(text, a, forA).Some? && Replace(text, b, forB).Some?
    ensures Replace(Replace(text, a, forA).value, b, forB).Some?
    ensures Replace(Replace(text, a, forA).value, b, forB) == Replace(Replace(text, b, forB).value, a, forA)
  {
    var sa, ea, sb, eb := Start(a), End(a), Start(b), End(b);
    var before, after := left + sa + x + ea + mid, mid + sb + y + eb + right;
    var newBefore, newAfter := left + sa + NewBody(forA) + ea + mid, mid + sb + NewBody(forB) + eb + right;
    SecondBlockStays(text, a, b, left, x, mid, y, right, forA);
    FirstBlockStays(text, a, b, left, x, mid, y, right, forB);
    hide Start;
    hide End;
    hide IsBlock;
    hide Replace;
    hide CleanName;
    hide FreeOf;
    BlockIsReplaced(text, a, left, x, after, forA);
    BlockIsReplaced(text, b, before, y, right, forB);
    BlockIsReplaced(Marked(left, a, NewBody(forA), after), b, newBefore, y, right, forB);
    BlockIsReplaced(Marked(before, b, NewBody(forB), right), a, left, x, newAfter, forA);
    Regroup(left + sa + NewBody(forA) + ea, mid, sb, NewBody(forB), eb, right);
  }

  ghost predicate Separate(text: string, a: string, b: string) {
    exists left, x, mid, y, right :: SideBySide(text, a, b, left, x, mid, y, right)
  }

  /** If a marker of one block reaches into the other's body, replacing the other removes it. */
  lemma InnerMarkerIsLost(text: string, a: string, left: string, x: string, right: string, content: string, m: string, p: int)
    requires CleanName(a) && IsBlock(text, a, left, x, right) && Marker(m)
    requires OnlyAt(text, m, p) && Free(content, m)
    requires |left| <= p < |left| + |Start(a)| + |x| && |left| + |Start(a)| < p + |m|
    ensures Free(Marked(left, a, NewBody(content), right), m)
  {
    var sa, ea := Start(a), End(a);
    assert text == Splice(left + sa, x, ea + right);
    assert Marked(left, a, NewBody(content), right) == Splice(left + sa, "\n" + content + "\n", ea + right);
    MarkerMoves(left + sa, x, ea + right, content, m, p);
  }

  lemma InnerBlockIsRefused(text: string, a: string, b: string, left: string, x: string, right: string,
                            forA: string, forB: string, p: int)
    requires CleanName(a) && CleanName(b) && FreeOf(forA, b) && IsBlock(text, a, left, x, right)
    requires OnlyAt(text, Start(b), p)
    requires |left| <= p < |left| + |Start(a)| + |x| && |left| + |Start(a)| < p + |Start(b)|
    ensures Replace(text, a, forA).Some? && Replace(Replace(text, a, forA).value, b, forB).None?
  {
    MarkersAreMarkers(b);
    InnerMarkerIsLost(text, a, left, x, right, forA, Start(b), p);
    BlockIsReplaced(text, a, left, x, right, forA);
    hide Start;
    hide End;
    var t := Marked(left, a, NewBody(forA), right);
    assert IndexOf(t, Start(b), 0) < 0;
  }

  /** A block of `b` that begins in one of `a`: behind its start marker, or with it but longer. */
  predicate BeginsIn(a: string, la: string, xa: string, b: string, lb: string) {
    && |la| <= |lb| < |la| + |Start(a)| + |xa| && |la| + |Start(a)| < |lb| + |Start(b)|
  }

  /** How two blocks of a text can lie: one after the other, or one beginning in the other. */
  lemma BlockOrder(text: string, a: string, b: string, la: string, xa: string, ra: string, lb: string, xb: string, rb: string)
    requires CleanName(a) && CleanName(b) && a != b && IsBlock(text, a, la, xa, ra) && IsBlock(text, b, lb, xb, rb)
    ensures BeginsIn(a, la, xa, b, lb) || BeginsIn(b, lb, xb, a, la)
         || |la| + |Start(a)| + |xa| + |End(a)| <= |lb|
         || |lb| + |Start(b)| + |xb| + |End(b)| <= |la|
  {
    MarkersAreMarkers(a);
    MarkersAreMarkers(b);
    DistinctMarkers(a, b);
    BlockMarks(text, a, la, xa, ra);
    BlockMarks(text, b, lb, xb, rb);
    hide IsBlock;
    hide Start;
    hide End;
    hide Marker;
    hide CleanName;
    hide OccursAt;
    StartIsNoEnd(text, b, a, |lb|, |la| + |Start(a)| + |xa|);
    StartIsNoEnd(text, a, b, |la|, |lb| + |Start(b)| + |xb|);
    NoOverlap(text, Start(a), Start(b), |la|, |lb|);
    NoOverlap(text, Start(b), Start(a), |lb|, |la|);
    NoOverlap(text, End(a), Start(b), |la| + |Start(a)| + |xa|, |lb|);
    NoOverlap(text, End(b), Start(a), |lb| + |Start(b)| + |xb|, |la|);
    if |la| == |lb| {
      SamePlace(text, Start(a), Start(b), |la|);
    }
  }

  lemma BlockMarks(text: string, a: string, left: string, x: string, right: string)
    requires IsBlock(text, a, left, x, right)
    ensures OccursAt(text, Start(a), |left|) && OccursAt(text, End(a), |left| + |Start(a)| + |x|)
  {}

  lemma SamePlace(text: string, m: string, n: string, i: int)
    requires OccursAt(text, m, i) && OccursAt(text, n, i) && m != n
    ensures |m| != |n|
  {}

  /** Blocks that are not side by side: in one order the second replacement is refused. */
  lemma Entangled(text: string, a: string, b: string, forA: string, forB: string)
    requires CleanName(a) && CleanName(b) && a != b && FreeOf(forA, b) && FreeOf(forB, a)
    requires Replace(text, a, forA).Some? && Replace(text, b, forB).Some?
    ensures Separate(text, a, b) || Separate(text, b, a)
         || Replace(Replace(text, a, forA).value, b, forB).None? || Replace(Replace(text, b, forB).value, a, forA).None?
  {
    var la, xa, ra := ReplacedIsBlock(text, a, forA);
    var lb, xb, rb := ReplacedIsBlock(text, b, forB);
    BlockOrder(text, a, b, la, xa, ra, lb, xb, rb);
    hide Replace;
    hide Start;
    hide End;
    hide OnlyAt;
    hide Separate;
    if BeginsIn(a, la, xa, b, lb) {
      InnerBlockIsRefused(text, a, b, la, xa, ra, forA, forB, |lb|);
    } else if BeginsIn(b, lb, xb, a, la) {
      InnerBlockIsRefused(text, b, a, lb, xb, rb, forB, forA, |la|);
    } else if |la| + |Start(a)| + |xa| + |End(a)| <= |lb| {
      Align(text, a, b, la, xa, ra, lb, xb, rb);
    } else {
      Align(text, b, a, lb, xb, rb, la, xa, ra);
    }
  }

  lemma Align(text: string, a: string, b: string, la: string, xa: string, ra: string, lb: string, xb: string, rb: string)
    requires IsBlock(text, a, la, xa, ra) && IsBlock(text, b, lb, xb, rb)
    requires |la| + |Start(a)| + |xa| + |End(a)| <= |lb|
    ensures Separate(text, a, b)
  {
    var sa, ea, sb, eb := Start(a), End(a), Start(b), End(b);
    hide Start;
    hide End;
    hide OnlyAt;
    var n := |la| + |sa| + |xa| + |ea|;
    var mid := text[n..|lb|];
    assert text[..n] == la + sa + xa + ea && text[..|lb|] == lb;
    assert lb == la + sa + xa + ea + mid;
    assert ra == text[n..] == mid + (sb + xb + eb + rb) == mid + sb + xb + eb + rb;
    assert SideBySide(text, a, b, la, xa, mid, xb, rb);
  }

  /** Two replacements can be made in either order exactly when the blocks stand side by side, and
      then the order does not matter. */
  lemma CommuteExactly(text: string, a: string, b: string, forA: string, forB: string)
    requires CleanName(a) && CleanName(b) && a != b && FreeOf(forA, b) && FreeOf(forB, a)
    requires Replace(text, a, forA).Some? && Replace(text, b, forB).Some?
    ensures (Replace(Replace(text, a, forA).value, b, forB).Some? && Replace(Replace(text, b, forB).value, a, forA).Some?)
      <==> (Separate(text, a, b) || Separate(text, b, a))
    ensures Separate(text, a, b) || Separate(text, b, a) ==>
      Replace(Replace(text, a, forA).value, b, forB) == Replace(Replace(text, b, forB).value, a, forA)
  {
    Entangled(text, a, b, forA, forB);
    hide SideBySide;
    if left, x, mid, y, right :| SideBySide(text, a, b, left, x, mid, y, right) {
      SideBySideCommutes(text, a, b, left, x, mid, y, right, forA, forB);
    }
    if left, x, mid, y, right :| SideBySide(text, b, a, left, x, mid, y, right) {
      SideBySideCommutes(text, b, a, left, x, mid, y, right, forB, forA);
    }
    hide Replace;
  }

  // ---- nested blocks ------------------------------------------------------------------------

  /** One empty block inside another. */
  function Nested(a: string, b: string): string {
    Start(a) + Start(b) + End(b) + End(a)
  }

  lemma FourOccur(m0: string, m1: string, m2: string, m3: string)
    ensures var text := m0 + m1 + m2 + m3;
      && OccursAt(text, m0, 0) && OccursAt(text, m1, |m0|)
      && OccursAt(text, m2, |m0| + |m1|) && OccursAt(text, m3, |m0| + |m1| + |m2|)
  {
    var text := m0 + m1 + m2 + m3;
    assert text[..|m0|] == m0 && text[|m0|..|m0| + |m1|] == m1;
    assert text[|m0| + |m1|..|m0| + |m1| + |m2|] == m2 && text[|m0| + |m1| + |m2|..] == m3;
  }

  lemma OccursWithin(text: string, m: string, j: int)
    requires OccursAt(text, m, j) && Marker(m)
    ensures 0 <= j < |text|
  {}

  /** In a run of four markers a marker occurs only where one of them begins. */
  lemma InFourMarkers(text: string, m: string, m0: string, m1: string, m2: string, m3: string, j: int)
    requires Marker(m) && Marker(m0) && Marker(m1) && Marker(m2) && Marker(m3)
    requires text == m0 + m1 + m2 + m3 && OccursAt(text, m, j)
    ensures j == 0 || j == |m0| || j == |m0| + |m1| || j == |m0| + |m1| + |m2|
  {
    assert |text| == |m0| + |m1| + |m2| + |m3|;
    hide *;
    FourOccur(m0, m1, m2, m3);
    OccursWithin(text, m, j);
    NoOverlap(text, m0, m, 0, j);
    NoOverlap(text, m1, m, |m0|, j);
    NoOverlap(text, m2, m, |m0| + |m1|, j);
    NoOverlap(text, m3, m, |m0| + |m1| + |m2|, j);
  }

  lemma SameLength(a: string, b: string)
    requires |a| == |b|
    ensures |Start(a)| == |Start(b)| && |End(a)| == |End(b)|
  {}

  lemma NestedMarks(a: string, b: string)
    ensures OccursAt(Nested(a, b), Start(a), 0) && OccursAt(Nested(a, b), Start(b), |Start(a)|)
    ensures OccursAt(Nested(a, b), End(b), |Start(a)| + |Start(b)|)
    ensures OccursAt(Nested(a, b), End(a), |Start(a)| + |Start(b)| + |End(b)|)
  {
    FourOccur(Start(a), Start(b), End(b), End(a));
    hide Start;
    hide End;
    hide OccursAt;
  }

  lemma NestedPlace(a: string, b: string, m: string, j: int)
    requires CleanName(a) && CleanName(b) && OccursAt(Nested(a, b), m, j)
    requires m == Start(a) || m == Start(b) || m == End(b) || m == End(a)
    ensures j == 0 || j == |Start(a)| || j == |Start(a)| + |Start(b)| || j == |Start(a)| + |Start(b)| + |End(b)|
  {
    MarkersAreMarkers(a);
    MarkersAreMarkers(b);
    hide Start;
    hide End;
    hide Marker;
    hide OccursAt;
    InFourMarkers(Nested(a, b), m, Start(a), Start(b), End(b), End(a), j);
  }

  lemma OnlyThere(text: string, m: string, i: int)
    requires OccursAt(text, m, i) && forall j :: OccursAt(text, m, j) ==> j == i
    ensures OnlyAt(text, m, i)
  {}

  lemma NestedStartAt(a: string, b: string, j: int)
    requires CleanName(a) && CleanName(b) && |a| == |b| && a != b && OccursAt(Nested(a, b), Start(a), j)
    ensures j == 0
  {
    var text, sa, sb, eb := Nested(a, b), Start(a), Start(b), End(b);
    hide *;
    NestedMarks(a, b);
    DistinctMarkers(a, b);
    SameLength(a, b);
    NestedPlace(a, b, Start(a), j);
    StartIsNoEnd(text, a, b, j, |sa| + |sb|);
    StartIsNoEnd(text, a, a, j, |sa| + |sb| + |eb|);
    if j == |sa| { SamePlace(text, sa, sb, j); }
  }

  lemma NestedStart(a: string, b: string)
    requires CleanName(a) && CleanName(b) && |a| == |b| && a != b
    ensures OnlyAt(Nested(a, b), Start(a), 0)
  {
    hide *;
    NestedMarks(a, b);
    forall j | OccursAt(Nested(a, b), Start(a), j) ensures j == 0 {
      NestedStartAt(a, b, j);
    }
    OnlyThere(Nested(a, b), Start(a), 0);
  }

  lemma NestedInnerStartAt(a: string, b: string, j: int)
    requires CleanName(a) && CleanName(b) && |a| == |b| && a != b && OccursAt(Nested(a, b), Start(b), j)
    ensures j == |Start(a)|
  {
    var text, sa, sb, eb := Nested(a, b), Start(a), Start(b), End(b);
    hide *;
    NestedMarks(a, b);
    DistinctMarkers(a, b);
    SameLength(a, b);
    NestedPlace(a, b, Start(b), j);
    StartIsNoEnd(text, b, b, j, |sa| + |sb|);
    StartIsNoEnd(text, b, a, j, |sa| + |sb| + |eb|);
    if j == 0 { SamePlace(text, sb, sa, j); }
  }

  lemma NestedInnerStart(a: string, b: string)
    requires CleanName(a) && CleanName(b) && |a| == |b| && a != b
    ensures OnlyAt(Nested(a, b), Start(b), |Start(a)|)
  {
    hide *;
    NestedMarks(a, b);
    forall j | OccursAt(Nested(a, b), Start(b), j) ensures j == |Start(a)| {
      NestedInnerStartAt(a, b, j);
    }
    OnlyThere(Nested(a, b), Start(b), |Start(a)|);
  }

  lemma NestedInnerEndAt(a: string, b: string, j: int)
    requires CleanName(a) && CleanName(b) && |a| == |b| && a != b && OccursAt(Nested(a, b), End(b), j)
    ensures j == |Start(a)| + |Start(b)|
  {
    var text, sa, sb, eb := Nested(a, b), Start(a), Start(b), End(b);
    hide *;
    NestedMarks(a, b);
    DistinctMarkers(a, b);
    SameLength(a, b);
    NestedPlace(a, b, End(b), j);
    StartIsNoEnd(text, a, b, 0, j);
    StartIsNoEnd(text, b, b, |sa|, j);
    if j == |sa| + |sb| + |eb| { SamePlace(text, eb, End(a), j); }
  }

  lemma NestedInnerEnd(a: string, b: string)
    requires CleanName(a) && CleanName(b) && |a| == |b| && a != b
    ensures OnlyAt(Nested(a, b), End(b), |Start(a)| + |Start(b)|)
  {
    hide *;
    NestedMarks(a, b);
    forall j | OccursAt(Nested(a, b), End(b), j) ensures j == |Start(a)| + |Start(b)| {
      NestedInnerEndAt(a, b, j);
    }
    OnlyThere(Nested(a, b), End(b), |Start(a)| + |Start(b)|);
  }

  lemma NestedEndAt(a: string, b: string, j: int)
    requires CleanName(a) && CleanName(b) && |a| == |b| && a != b && OccursAt(Nested(a, b), End(a), j)
    ensures j == |Start(a)| + |Start(b)| + |End(b)|
  {
    var text, sa, sb, eb := Nested(a, b), Start(a), Start(b), End(b);
    hide *;
    NestedMarks(a, b);
    DistinctMarkers(a, b);
    SameLength(a, b);
    NestedPlace(a, b, End(a), j);
    StartIsNoEnd(text, a, a, 0, j);
    StartIsNoEnd(text, b, a, |sa|, j);
    if j == |sa| + |sb| { SamePlace(text, End(a), eb, j); }
  }

  lemma NestedEnd(a: string, b: string)
    requires CleanName(a) && CleanName(b) && |a| == |b| && a != b
    ensures OnlyAt(Nested(a, b), End(a), |Start(a)| + |Start(b)| + |End(b)|)
  {
    hide *;
    NestedMarks(a, b);
    forall j | OccursAt(Nested(a, b), End(a), j) ensures j == |Start(a)| + |Start(b)| + |End(b)| {
      NestedEndAt(a, b, j);
    }
    OnlyThere(Nested(a, b), End(a), |Start(a)| + |Start(b)| + |End(b)|);
  }

  lemma MakeBlock(text: string, name: string, left: string, body: string, right: string)
    requires text == left + Start(name) + body + End(name) + right
    requires OnlyAt(text, Start(name), |left|) && OnlyAt(text, End(name), |left| + |Start(name)| + |body|)
    ensures IsBlock(text, name, left, body, right)
  {}

  lemma FourParts(sa: string, sb: string, eb: string, ea: string)
    ensures sa + sb + eb + ea == "" + sa + (sb + eb) + ea + ""
    ensures sa + sb + eb + ea == sa + sb + "" + eb + ea
    ensures |sb + eb| == |sb| + |eb|
  {}

  lemma NestedBlocks(a: string, b: string)
    requires CleanName(a) && CleanName(b) && |a| == |b| && a != b
    ensures IsBlock(Nested(a, b), a, "", Start(b) + End(b), "") && IsBlock(Nested(a, b), b, Start(a), "", End(a))
  {
    assert Nested(a, b) == Start(a) + Start(b) + End(b) + End(a);
    hide *;
    NestedStart(a, b);
    NestedInnerStart(a, b);
    NestedInnerEnd(a, b);
    NestedEnd(a, b);
    FourParts(Start(a), Start(b), End(b), End(a));
    MakeBlock(Nested(a, b), a, "", Start(b) + End(b), "");
    MakeBlock(Nested(a, b), b, Start(a), "", End(a));
  }

  lemma BodyText(content: string)
    ensures NewBody(content) == "\n" + content + "\n" && |NewBody(content)| == |content| + 2
  {}

  lemma FiveParts(sa: string, sb: string, body: string, eb: string, ea: string)
    ensures sa + sb + body + eb + ea == "" + sa + (sb + body + eb) + ea + ""
    ensures |sb + body + eb| == |sb| + |body| + |eb|
  {}

  lemma FreeMarks(content: string, name: string)
    requires FreeOf(content, name)
    ensures Free(content, Start(name)) && Free(content, End(name))
  {}

  /** Replacing the inner block leaves the outer one a block. */
  lemma OuterStays(a: string, b: string, content: string)
    requires CleanName(a) && CleanName(b) && |a| == |b| && a != b && FreeOf(content, a)
    ensures IsBlock(Marked(Start(a), b, NewBody(content), End(a)), a, "", Start(b) + NewBody(content) + End(b), "")
  {
    var sa, sb, eb, ea, body := Start(a), Start(b), End(b), End(a), NewBody(content);
    var text := Marked(sa, b, body, ea);
    assert Nested(a, b) == sa + sb + eb + ea && text == sa + sb + body + eb + ea;
    hide *;
    NestedStart(a, b);
    NestedEnd(a, b);
    MarkersAreLines(a);
    FreeMarks(content, a);
    FourParts(sa, sb, eb, ea);
    EarlierMarkerStays(sa, sb, "", eb, ea, content, sa, 0);
    LaterMarkerMoves(sa, sb, "", eb, ea, content, ea, |sa| + |sb| + |eb|);
    BodyText(content);
    FiveParts(sa, sb, body, eb, ea);
    MakeBlock(text, a, "", sb + body + eb, "");
  }

  /** Nested blocks are where commutation fails: either replacement is accepted on the text as it
      is, but the blocks are not side by side, and after the outer one the inner one is refused. */
  lemma NestedDoNotCommute(a: string, b: string, forA: string, forB: string)
    requires CleanName(a) && CleanName(b) && |a| == |b| && a != b && FreeOf(forA, b) && FreeOf(forB, a)
    ensures var text := Nested(a, b);
      && Replace(text, a, forA).Some? && Replace(text, b, forB).Some?
      && !Separate(text, a, b) && !Separate(text, b, a)
      && Replace(Replace(text, a, forA).value, b, forB).None?
      && Replace(Replace(text, b, forB).value, a, forA).Some?
  {
    var text, sa, sb, eb, ea := Nested(a, b), Start(a), Start(b), End(b), End(a);
    NestedBlocks(a, b);
    NestedInnerStart(a, b);
    MarkersNonEmpty(b);
    OuterStays(a, b, forB);
    hide *;
    BlockIsReplaced(text, a, "", sb + eb, "", forA);
    BlockIsReplaced(text, b, sa, "", ea, forB);
    InnerBlockIsRefused(text, a, b, "", sb + eb, "", forA, forB, |sa|);
    BlockIsReplaced(Marked(sa, b, NewBody(forB), ea), a, "", sb + NewBody(forB) + eb, "", forA);
    BodyText(forB);
    CommuteExactly(text, a, b, forA, forB);
  }
}
