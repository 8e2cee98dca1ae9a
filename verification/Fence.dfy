/** Wrapping a YAML document in a code fence, and reading it back by section 4.5 of
    CommonMark 0.31. */
module Fence {

  const TICK := '`'
  const NL := '\n'
  const CR := '\r'

  /** The lengths of the maximal runs of backticks; `open` is the run the text begins inside. */
  function RunLengths(s: string, open: nat): seq<nat> {
    if s == "" then (if open > 0 then [open] else [])
    else if s[0] == TICK then RunLengths(s[1..], open + 1)
    else (if open > 0 then [open] else []) + RunLengths(s[1..], 0)
  }

  function Longest(runs: seq<nat>): nat {
    if runs == [] then 3
    else
      var rest, last := Longest(runs[..|runs| - 1]), runs[|runs| - 1] + 1;
      if last > rest then last else rest
  }

  function FenceLength(document: string): nat {
    Longest(RunLengths(document, 0))
  }

  function Ticks(n: nat): (r: string)
    ensures |r| == n && forall i :: 0 <= i < n ==> r[i] == TICK
  {
    seq(n, _ => TICK)
  }

  /** What the document becomes as text: a final line break is added when there is none. */
  function Body(document: string): string {
    if document != "" && document[|document| - 1] == NL then document else document + "\n"
  }

  function Wrap(document: string): string {
    Ticks(FenceLength(document)) + "yaml\n" + Body(document) + Ticks(FenceLength(document)) + "\n"
  }

  // ---- the fence is longer than any run -----------------------------------------------------

  predicate RunAt(s: string, i: int, n: nat) {
    0 <= i && i + n <= |s| && forall k :: i <= k < i + n ==> s[k] == TICK
  }

  ghost predicate HasRun(s: string, n: nat) {
    exists i :: RunAt(s, i, n)
  }

  lemma {:induction false} RunIsMeasured(s: string, open: nat, n: nat)
    requires n > 0 && HasRun(Ticks(open) + s, n)
    ensures exists r :: r in RunLengths(s, open) && r >= n
    decreases |s|
  {
    var t := Ticks(open) + s;
    var i :| RunAt(t, i, n);
    if s == "" {
      assert open in RunLengths(s, open);
    } else if s[0] == TICK {
      assert t == Ticks(open + 1) + s[1..];
      RunIsMeasured(s[1..], open + 1, n);
      assert RunLengths(s, open) == RunLengths(s[1..], open + 1);
    } else {
      assert t[open] == s[0];
      var rest := RunLengths(s[1..], 0);
      if i + n <= open {
        assert open in RunLengths(s, open);
      } else {
        RunIsPast(t, i, n, open);
        assert Ticks(0) + s[1..] == s[1..];
        assert RunAt(s[1..], i - open - 1, n) by {
          forall k | i - open - 1 <= k < i - open - 1 + n ensures s[1..][k] == TICK {
            assert s[1..][k] == t[k + open + 1];
          }
        }
        RunIsMeasured(s[1..], 0, n);
        assert forall r :: r in rest ==> r in RunLengths(s, open);
      }
    }
  }

  lemma RunIsPast(t: string, i: int, n: nat, at: nat)
    requires RunAt(t, i, n) && at < |t| && t[at] != TICK && i + n > at
    ensures i > at
  {}

  lemma {:induction false} MeasuredIsRun(s: string, open: nat, r: nat)
    requires r in RunLengths(s, open)
    ensures HasRun(Ticks(open) + s, r)
    decreases |s|
  {
    var t := Ticks(open) + s;
    if s == "" {
      assert RunAt(t, 0, r);
    } else if s[0] == TICK {
      assert t == Ticks(open + 1) + s[1..];
      MeasuredIsRun(s[1..], open + 1, r);
    } else if r == open && open > 0 {
      assert RunAt(t, 0, r);
    } else {
      MeasuredIsRun(s[1..], 0, r);
      assert Ticks(0) + s[1..] == s[1..];
      var i :| RunAt(s[1..], i, r);
      assert RunAt(t, i + open + 1, r) by {
        forall k | i + open + 1 <= k < i + open + 1 + r ensures t[k] == TICK {
          assert t[k] == s[1..][k - open - 1];
        }
      }
    }
  }

  lemma {:induction false} LongestBounds(runs: seq<nat>)
    ensures Longest(runs) >= 3 && forall r :: r in runs ==> Longest(runs) > r
    ensures Longest(runs) > 3 ==> Longest(runs) - 1 in runs
    decreases |runs|
  {
    if runs != [] {
      LongestBounds(runs[..|runs| - 1]);
      assert runs == runs[..|runs| - 1] + [runs[|runs| - 1]];
    }
  }

  /** The fence occurs nowhere in the document, and no shorter fence of three or more would do. */
  lemma FenceIsLeast(document: string)
    ensures FenceLength(document) >= 3 && !HasRun(document, FenceLength(document))
    ensures FenceLength(document) > 3 ==> HasRun(document, FenceLength(document) - 1)
  {
    var n := FenceLength(document);
    LongestBounds(RunLengths(document, 0));
    assert Ticks(0) + document == document;
    if HasRun(document, n) {
      RunIsMeasured(document, 0, n);
    }
    if n > 3 {
      MeasuredIsRun(document, 0, n - 1);
    }
  }

  // ---- reading it back ----------------------------------------------------------------------

  /** The length of the first line with its ending: a newline, a return, or both. */
  function LineLength(s: string): (n: nat)
    requires s != ""
    ensures 0 < n <= |s|
  {
    if s[0] == NL then 1
    else if s[0] == CR then (if |s| > 1 && s[1] == NL then 2 else 1)
    else if |s| == 1 then 1
    else 1 + LineLength(s[1..])
  }

  function Indent(s: string, most: nat): (n: nat)
    ensures n <= |s| && n <= most
  {
    if s != "" && s[0] == ' ' && most > 0 then 1 + Indent(s[1..], most - 1) else 0
  }

  function LeadingTicks(s: string): (n: nat)
    ensures RunAt(s, 0, n)
  {
    if s != "" && s[0] == TICK then
      var n := LeadingTicks(s[1..]);
      assert forall k :: 1 <= k < 1 + n ==> s[k] == s[1..][k - 1];
      1 + n
    else 0
  }

  /** A closing fence: at most three spaces, at least as many backticks, then nothing but blanks. */
  predicate Closes(line: string, n: nat) {
    var rest := line[Indent(line, 3)..];
    var m := LeadingTicks(rest);
    m >= n && forall k :: m <= k < |rest| ==> rest[k] in {' ', '\t', NL, CR}
  }

  /** The lines up to the closing fence, or up to the end. */
  function Content(s: string, n: nat): string
    decreases |s|
  {
    if s == "" then ""
    else
      var k := LineLength(s);
      if Closes(s[..k], n) then "" else s[..k] + Content(s[k..], n)
  }

  /** The literal content of a leading fenced code block whose info string has no backtick. */
  function Unwrap(markdown: string): string {
    if markdown == "" then ""
    else
      var k := LineLength(markdown);
      var n := LeadingTicks(markdown[..k]);
      if n < 3 || TICK in markdown[n..k] then "" else Content(markdown[k..], n)
  }

  // ---- the reader, by the standard's words --------------------------------------------------

  predicate IsEnding(e: string) {
    e == "" || e == "\n" || e == "\r" || e == "\r\n"
  }

  predicate Ends(s: string, body: nat, ending: nat) {
    && body + ending <= |s| && (forall i :: 0 <= i < body ==> s[i] != '\n' && s[i] != '\r')
    && IsEnding(s[body..body + ending])
    && (ending == 0 ==> body == |s|)
    && (s[body..body + ending] == "\r" && body + 1 < |s| ==> s[body + 1] != '\n')
  }

  /** A line is what stands before the first line ending, with it: a newline, a return that no newline
      follows, or a return and the newline; the last line may lack one (section 2.1). */
  lemma {:induction false} LineExactly(s: string) returns (body: nat)
    requires s != ""
    ensures body <= LineLength(s) && Ends(s, body, LineLength(s) - body)
    decreases |s|
  {
    if s[0] == NL || s[0] == CR {
      body := 0;
      assert s[..1] == [s[0]] && (|s| > 1 ==> s[..2] == [s[0], s[1]]);
    } else if |s| == 1 {
      body := 1;
    } else {
      var rest := LineExactly(s[1..]);
      LineShift(s, rest, LineLength(s[1..]) - rest);
      body := rest + 1;
      hide Ends;
    }
  }

  lemma LineShift(s: string, body: nat, ending: nat)
    requires |s| > 1 && s[0] != '\n' && s[0] != '\r' && Ends(s[1..], body, ending)
    ensures Ends(s, body + 1, ending)
  {
    hide IsEnding;
    var t := s[1..];
    assert forall i :: 0 <= i < |t| ==> t[i] == s[i + 1];
    assert s[body + 1..body + 1 + ending] == t[body..body + ending];
  }

  predicate IsBlank(s: string) {
    forall c :: c in s ==> c == ' ' || c == '\t' || c == '\n' || c == '\r'
  }

  predicate IsClosing(line: string, n: nat, spaces: nat, ticks: nat) {
    && spaces <= 3 && ticks >= n && spaces + ticks <= |line|
    && (forall i :: 0 <= i < spaces ==> line[i] == ' ') && RunAt(line, spaces, ticks)
    && IsBlank(line[spaces + ticks..])
  }

  lemma {:induction false} IndentExactly(s: string, most: nat)
    ensures forall i :: 0 <= i < Indent(s, most) ==> s[i] == ' '
    ensures Indent(s, most) < most && Indent(s, most) < |s| ==> s[Indent(s, most)] != ' '
    decreases most
  {
    if s != "" && s[0] == ' ' && most > 0 {
      IndentExactly(s[1..], most - 1);
      forall i | 0 <= i < Indent(s, most) ensures s[i] == ' ' {
        if i > 0 { assert s[i] == s[1..][i - 1]; }
      }
    }
  }

  lemma {:induction false} LeadingExactly(s: string)
    ensures LeadingTicks(s) <= |s| && (LeadingTicks(s) < |s| ==> s[LeadingTicks(s)] != TICK)
    decreases |s|
  {
    if s != "" && s[0] == TICK {
      LeadingExactly(s[1..]);
    }
  }

  /** A line closes the block if and only if it is up to three spaces, at least as many backticks as
      opened it, and blanks (section 4.5). */
  lemma ClosesExactly(line: string, n: nat)
    requires n > 0
    ensures Closes(line, n) <==> exists spaces, ticks :: IsClosing(line, n, spaces, ticks)
  {
    var d := Indent(line, 3);
    var rest := line[d..];
    var m := LeadingTicks(rest);
    IndentExactly(line, 3);
    LeadingExactly(rest);
    assert RunAt(line, d, m) by {
      forall k | d <= k < d + m ensures line[k] == TICK { assert line[k] == rest[k - d]; }
    }
    assert line[d + m..] == rest[m..];
    BlankTail(rest, m);
    hide IsBlank;
    assert Closes(line, n) ==> IsClosing(line, n, d, m);
    if spaces: nat, ticks: nat :| IsClosing(line, n, spaces, ticks) {
      OneClosing(line, n, spaces, ticks, d, m);
    }
  }

  /** The spaces of a closing line end where its backticks begin, and these where its blanks do. */
  lemma OneClosing(line: string, n: nat, spaces: nat, ticks: nat, d: nat, m: nat)
    requires n > 0 && IsClosing(line, n, spaces, ticks)
    requires d <= 3 && d <= |line| && (forall i :: 0 <= i < d ==> line[i] == ' ') && (d < 3 && d < |line| ==> line[d] != ' ')
    requires d + m <= |line| && RunAt(line, d, m) && (d + m < |line| ==> line[d + m] != TICK)
    ensures d == spaces && m == ticks
  {
    assert line[spaces] == TICK;
    assert d == spaces;
    if spaces + ticks < |line| {
      BlankHead(line, spaces + ticks);
    }
    hide IsBlank;
  }

  lemma BlankHead(line: string, k: nat)
    requires k < |line| && IsBlank(line[k..])
    ensures line[k] != TICK
  {
    assert line[k] in line[k..];
  }

  lemma BlankTail(rest: string, m: nat)
    requires m <= |rest|
    ensures IsBlank(rest[m..]) <==> forall k :: m <= k < |rest| ==> rest[k] in {' ', '\t', NL, CR}
  {
    var tail := rest[m..];
    assert forall k :: m <= k < |rest| ==> rest[k] == tail[k - m] && rest[k] in tail;
    assert forall c :: c in tail ==> exists k :: m <= k < |rest| && rest[k] == c;
  }

  lemma ClosingLineHasRun(line: string, n: nat)
    requires Closes(line, n)
    ensures HasRun(line, n)
  {
    var d := Indent(line, 3);
    assert RunAt(line[d..], 0, n);
    assert RunAt(line, d, n) by {
      forall k | d <= k < d + n ensures line[k] == TICK {
        assert line[k] == line[d..][k - d];
      }
    }
  }

  lemma RunInPart(s: string, lo: nat, hi: nat, n: nat)
    requires lo <= hi <= |s| && HasRun(s[lo..hi], n)
    ensures HasRun(s, n)
  {
    var i :| RunAt(s[lo..hi], i, n);
    assert RunAt(s, i + lo, n) by {
      forall k | i + lo <= k < i + lo + n ensures s[k] == TICK {
        assert s[k] == s[lo..hi][k - lo];
      }
    }
  }

  /** The first line of a text that ends in a newline does not reach beyond it. */
  lemma {:induction false} LineStaysInside(s: string, after: string)
    requires s != "" && s[|s| - 1] == NL
    ensures LineLength(s + after) == LineLength(s)
    decreases |s|
  {
    assert (s + after)[1..] == s[1..] + after;
    if |s| > 1 {
      assert (s + after)[1] == s[1];
      LineStaysInside(s[1..], after);
    }
  }

  lemma ContentStep(s: string, n: nat)
    requires s != ""
    ensures Content(s, n) == if Closes(s[..LineLength(s)], n) then "" else s[..LineLength(s)] + Content(s[LineLength(s)..], n)
  {}

  /** A part of a text without a run of backticks has none, and no line of it closes a fence. */
  lemma NoRunInPart(s: string, k: nat, n: nat)
    requires k <= |s| && !HasRun(s, n)
    ensures !HasRun(s[k..], n) && !Closes(s[..k], n)
  {
    if HasRun(s[k..], n) {
      assert s[k..|s|] == s[k..];
      RunInPart(s, k, |s|, n);
    }
    if Closes(s[..k], n) {
      assert s[0..k] == s[..k];
      ClosingLineHasRun(s[..k], n);
      RunInPart(s, 0, k, n);
    }
  }

  lemma {:induction false} ContentIsBody(body: string, n: nat, after: string)
    requires n > 0 && !HasRun(body, n) && (body == "" || body[|body| - 1] == NL)
    requires after != "" && Closes(after[..LineLength(after)], n)
    ensures Content(body + after, n) == body
    decreases |body|
  {
    hide LineLength;
    hide Closes;
    hide HasRun;
    var s := body + after;
    ContentStep(s, n);
    hide Content;
    if body == "" {
      assert s == after;
    } else {
      var k := LineLength(body);
      LineStaysInside(body, after);
      assert s[..k] == body[..k] && s[k..] == body[k..] + after;
      NoRunInPart(body, k, n);
      ContentIsBody(body[k..], n, after);
      assert body == body[..k] + body[k..];
    }
  }

  lemma RunInDocument(document: string, i: int, n: nat)
    requires n > 0 && RunAt(Body(document), i, n)
    ensures RunAt(document, i, n)
  {
    var body := Body(document);
    assert body[|body| - 1] == NL && body[i + n - 1] == TICK;
    forall k | i <= k < i + n ensures document[k] == TICK {
      assert body[k] == document[k];
    }
  }

  lemma BodyHasNoRun(document: string, n: nat)
    requires n > 0 && !HasRun(document, n)
    ensures !HasRun(Body(document), n)
  {
    var body := Body(document);
    forall i ensures !RunAt(body, i, n) {
      assert !RunAt(document, i, n);
      if RunAt(body, i, n) {
        assert body[i + n - 1] == TICK;
        RunInDocument(document, i, n);
      }
    }
  }

  lemma {:induction false} TicksLead(n: nat, rest: string)
    requires rest == "" || rest[0] != TICK
    ensures LeadingTicks(Ticks(n) + rest) == n
    decreases n
  {
    if n == 0 {
      assert Ticks(0) + rest == rest;
    } else {
      assert (Ticks(n) + rest)[1..] == Ticks(n - 1) + rest;
      TicksLead(n - 1, rest);
    }
  }

  lemma {:induction false} LineToBreak(word: string, after: string)
    requires NL !in word && CR !in word
    ensures LineLength(word + "\n" + after) == |word| + 1
    decreases |word|
  {
    var s := word + "\n" + after;
    if word != "" {
      assert s[1..] == word[1..] + "\n" + after;
      LineToBreak(word[1..], after);
    }
  }

  lemma FenceLineCloses(n: nat)
    requires n > 0
    ensures LineLength(Ticks(n) + "\n") == n + 1
    ensures Closes((Ticks(n) + "\n")[..n + 1], n)
  {
    var line := Ticks(n) + "\n";
    assert line == Ticks(n) + "\n" + "";
    LineToBreak(Ticks(n), "");
    assert line[..n + 1] == line && line[0] == TICK;
    assert Indent(line, 3) == 0 && line[0..] == line;
    TicksLead(n, "\n");
  }

  /** Unwrapping returns the document, with at most a final line break added. */
  lemma WrapRoundTrip(document: string)
    ensures Unwrap(Wrap(document)) == Body(document)
    ensures Body(document) == document || Body(document) == document + "\n"
  {
    var n := FenceLength(document);
    FenceIsLeast(document);
    BodyHasNoRun(document, n);
    var close, body := Ticks(n) + "\n", Body(document);
    var md := Wrap(document);
    assert md == Ticks(n) + ("yaml\n" + body + close);
    TicksLead(n, "yaml\n");
    var open := Ticks(n) + "yaml";
    assert md == open + "\n" + (body + close);
    LineToBreak(open, body + close);
    assert md[..n + 5] == Ticks(n) + "yaml\n" && md[n..n + 5] == "yaml\n" && md[n + 5..] == body + close;
    FenceLineCloses(n);
    ContentIsBody(body, n, close);
  }
}
