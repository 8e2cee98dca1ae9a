/** The inline links of a Markdown text, as the export's link pattern finds them: an optional `!`, a
    bracketed label, an opening parenthesis, a target without white space and without a closing
    parenthesis, and the rest up to that parenthesis. */
module LinkText {
  import opened Options
  import opened Text

  datatype Piece = Skipped(c: char) | Link(open: string, url: string, close: string)

  /** The index of the first character that stops a run, or the length. */
  function First(s: string, stop: char -> bool): (k: nat)
    ensures k <= |s| && (k < |s| ==> stop(s[k]))
    ensures forall i :: 0 <= i < k ==> !stop(s[i])
    decreases |s|
  {
    if s == "" || stop(s[0]) then 0 else 1 + First(s[1..], stop)
  }

  predicate EndsLabel(c: char) { c == ']' || c == '\n' }
  predicate EndsTarget(c: char) { IsSpace(c) || c == ')' }
  predicate EndsLink(c: char) { c == ')' || c == '\n' }

  /** Where the label's bracket stands: behind an optional `!`. */
  function Bracket(s: string): nat {
    if s != "" && s[0] == '!' then 1 else 0
  }

  /** Where the label ends: at the first closing bracket or line break. */
  function LabelEnd(s: string): (j: nat)
    requires |s| > Bracket(s)
    ensures Bracket(s) < j <= |s|
  {
    Bracket(s) + 1 + First(s[Bracket(s) + 1..], EndsLabel)
  }

  /** The text begins with a label and an opening parenthesis behind it. */
  predicate Opens(s: string) {
    && |s| > Bracket(s) && s[Bracket(s)] == '['
    && LabelEnd(s) + 1 < |s| && s[LabelEnd(s)] == ']' && s[LabelEnd(s) + 1] == '('
  }

  function TargetEnd(s: string, u: nat): (e: nat)
    requires u <= |s|
    ensures u <= e <= |s|
  {
    u + First(s[u..], EndsTarget)
  }

  function LinkEnd(s: string, u: nat): (p: nat)
    requires u <= |s|
    ensures u <= p <= |s|
    ensures p < |s| && s[p] == ')' ==> TargetEnd(s, u) <= p
  {
    var p := u + First(s[u..], EndsLink);
    assert p < |s| ==> s[u..][p - u] == s[p];
    p
  }

  /** The link that opens with the first `u` characters, if its target is not empty and it ends
      before the line does. */
  function Closed(s: string, u: nat): Option<Piece>
    requires u <= |s|
  {
    var e, p := TargetEnd(s, u), LinkEnd(s, u);
    if e == u || p == |s| || s[p] != ')' then None else Some(Link(s[..u], s[u..e], s[e..p + 1]))
  }

  /** The link a text begins with. Nothing is left to backtracking: the label ends at the first
      bracket or line break, the target at the first white space or parenthesis, the link at the
      first parenthesis or line break. */
  function Match(s: string): Option<Piece> {
    if Opens(s) then Closed(s, LabelEnd(s) + 2) else None
  }

  function Written(piece: Piece): string {
    match piece
    case Skipped(c) => [c]
    case Link(open, url, close) => open + url + close
  }

  function Print(pieces: seq<Piece>): string {
    if pieces == [] then "" else Written(pieces[0]) + Print(pieces[1..])
  }

  lemma ThreeParts(s: string, u: nat, e: nat, p: nat)
    requires u <= e <= p <= |s|
    ensures s[..u] + s[u..e] + s[e..p] == s[..p]
  {}

  lemma ClosedIsPrefix(s: string, u: nat)
    requires u <= |s|
    ensures Closed(s, u).Some? ==> Closed(s, u).value.Link? && Written(Closed(s, u).value) <= s && |Written(Closed(s, u).value)| > 0
  {
    hide First;
    if Closed(s, u).Some? {
      ThreeParts(s, u, TargetEnd(s, u), LinkEnd(s, u) + 1);
    }
  }

  lemma MatchWhenOpen(s: string)
    ensures Opens(s) ==> LabelEnd(s) + 2 <= |s| && Match(s) == Closed(s, LabelEnd(s) + 2)
    ensures !Opens(s) ==> Match(s) == None
  {
    hide Closed;
    hide First;
  }

  lemma MatchIsPrefix(s: string)
    ensures Match(s).Some? ==> Match(s).value.Link? && Written(Match(s).value) <= s && |Written(Match(s).value)| > 0
  {
    hide *;
    MatchWhenOpen(s);
    if Opens(s) {
      ClosedIsPrefix(s, LabelEnd(s) + 2);
    }
  }

  /** The text cut into its links and the characters between them, leftmost link first. */
  function Scan(s: string): seq<Piece>
    decreases |s|
  {
    if s == "" then []
    else
      MatchIsPrefix(s);
      match Match(s)
      case Some(link) => [link] + Scan(s[|Written(link)|..])
      case None => [Skipped(s[0])] + Scan(s[1..])
  }

  lemma ScanStep(s: string)
    requires s != ""
    ensures Match(s).None? ==> Scan(s) == [Skipped(s[0])] + Scan(s[1..])
    ensures Match(s).Some? ==> var link := Match(s).value;
      link.Link? && Written(link) <= s && |Written(link)| > 0 && Scan(s) == [link] + Scan(s[|Written(link)|..])
  {
    hide Match;
    hide Written;
    MatchIsPrefix(s);
  }

  lemma PrintCons(piece: Piece, rest: seq<Piece>)
    ensures Print([piece] + rest) == Written(piece) + Print(rest)
  {
    assert ([piece] + rest)[1..] == rest;
  }

  /** Printing what was scanned returns the text. */
  lemma {:induction false} PrintScan(s: string)
    ensures Print(Scan(s)) == s
    decreases |s|
  {
    hide *;
    if s == "" {
      NothingToScan();
    } else {
      ScanStep(s);
      match Match(s)
      case Some(link) =>
        PrintScan(s[|Written(link)|..]);
        PrintCons(link, Scan(s[|Written(link)|..]));
      case None =>
        PrintScan(s[1..]);
        PrintCons(Skipped(s[0]), Scan(s[1..]));
        SkippedIsWritten(s[0]);
        assert s == [s[0]] + s[1..];
    }
  }

  lemma NothingToScan()
    ensures Print(Scan("")) == ""
  {}

  lemma SkippedIsWritten(c: char)
    ensures Written(Skipped(c)) == [c]
  {}

  // ---- the shape of a link ------------------------------------------------------------------

  predicate IsOpen(open: string) {
    var b := Bracket(open);
    && |open| >= b + 3 && open[b] == '[' && open[|open| - 2] == ']' && open[|open| - 1] == '('
    && forall i :: b < i < |open| - 2 ==> open[i] != ']' && open[i] != '\n'
  }

  /** A target the pattern reads whole: not empty, no white space and no closing parenthesis. */
  predicate IsTarget(url: string) {
    url != "" && forall c :: c in url ==> !IsSpace(c) && c != ')'
  }

  predicate IsClose(close: string) {
    && close != "" && close[|close| - 1] == ')' && (IsSpace(close[0]) || close[0] == ')')
    && forall i :: 0 <= i < |close| - 1 ==> close[i] != ')' && close[i] != '\n'
  }

  predicate IsLink(piece: Piece) {
    piece.Link? && IsOpen(piece.open) && IsTarget(piece.url) && IsClose(piece.close)
  }

  /** The first stop behind a run without one is the first of what follows. */
  lemma {:induction false} FirstBehind(run: string, rest: string, stop: char -> bool)
    requires forall i :: 0 <= i < |run| ==> !stop(run[i])
    ensures First(run + rest, stop) == |run| + First(rest, stop)
    decreases |run|
  {
    if run == "" {
      assert run + rest == rest;
    } else {
      assert (run + rest)[0] == run[0] && (run + rest)[1..] == run[1..] + rest;
      FirstBehind(run[1..], rest, stop);
    }
  }

  /** A stop is the first one when none stands before it. */
  lemma FirstAt(s: string, stop: char -> bool, k: nat)
    requires k < |s| && stop(s[k]) && forall i :: 0 <= i < k ==> !stop(s[i])
    ensures First(s, stop) == k
  {}

  lemma OpensIsOpen(s: string)
    requires Opens(s)
    ensures IsOpen(s[..LabelEnd(s) + 2])
  {
    var b, u := Bracket(s), LabelEnd(s) + 2;
    var open := s[..u];
    assert Bracket(open) == b && open[b] == s[b];
    forall i | b < i < u - 2 ensures !EndsLabel(open[i]) {
      assert open[i] == s[b + 1..][i - b - 1];
    }
  }

  lemma ClosedIsLink(s: string, u: nat)
    requires u <= |s|
    ensures Closed(s, u).Some? ==> IsTarget(Closed(s, u).value.url) && IsClose(Closed(s, u).value.close)
  {
    if Closed(s, u).Some? {
      var e, p := TargetEnd(s, u), LinkEnd(s, u);
      var t, url, close := s[u..], s[u..e], s[e..p + 1];
      forall c | c in url ensures !EndsTarget(c) {
        var i :| 0 <= i < |url| && url[i] == c;
        assert url[i] == t[i];
      }
      assert close[0] == t[e - u] && close[p - e] == s[p];
      forall i | 0 <= i < |close| - 1 ensures !EndsLink(close[i]) {
        assert close[i] == t[e - u + i];
      }
    }
  }

  lemma ClosedOpens(s: string, u: nat)
    requires u <= |s|
    ensures Closed(s, u).Some? ==> Closed(s, u).value.Link? && Closed(s, u).value.open == s[..u]
  {}

  lemma MatchIsLink(s: string)
    ensures Match(s).Some? ==> IsLink(Match(s).value)
  {
    hide *;
    MatchWhenOpen(s);
    if Opens(s) {
      var u := LabelEnd(s) + 2;
      OpensIsOpen(s);
      ClosedIsLink(s, u);
      ClosedOpens(s, u);
      if Match(s).Some? {
        PartsMakeLink(Match(s).value);
      }
    }
  }

  lemma TargetStops(url: string, close: string, rest: string)
    requires IsTarget(url) && IsClose(close)
    ensures First(url + (close + rest), EndsTarget) == |url|
  {
    var t := url + (close + rest);
    forall i | 0 <= i < |url| ensures !EndsTarget(t[i]) {
      assert t[i] == url[i] && url[i] in url;
    }
    assert t[|url|] == close[0];
    FirstAt(t, EndsTarget, |url|);
  }

  lemma LinkStops(url: string, close: string, rest: string)
    requires IsTarget(url) && IsClose(close)
    ensures First(url + (close + rest), EndsLink) == |url| + |close| - 1
    ensures (url + (close + rest))[|url| + |close| - 1] == ')'
  {
    var t := url + (close + rest);
    var last := |url| + |close| - 1;
    forall i | 0 <= i < last ensures !EndsLink(t[i]) {
      if i < |url| {
        assert t[i] == url[i] && url[i] in url && !EndsTarget(url[i]);
      } else {
        assert t[i] == close[i - |url|];
      }
    }
    assert t[last] == close[|close| - 1];
    FirstAt(t, EndsLink, last);
  }

  /** Behind an opening, a target and a close are found where they end. */
  lemma FourParts(open: string, url: string, close: string, rest: string)
    requires close != ""
    ensures var s, e := open + url + close + rest, |open| + |url|;
      && s[|open|..] == url + (close + rest) && s[..|open|] == open && s[|open|..e] == url && s[e..e + |close|] == close
      && s[e + |close| - 1] == (url + (close + rest))[|url| + |close| - 1]
  {}

  lemma TargetIsFound(open: string, url: string, close: string, rest: string)
    requires IsTarget(url) && IsClose(close)
    ensures Closed(open + url + close + rest, |open|) == Some(Link(open, url, close))
  {
    hide First;
    hide IsTarget;
    hide IsClose;
    TargetStops(url, close, rest);
    LinkStops(url, close, rest);
    TargetIsNotEmpty(url, close);
    FourParts(open, url, close, rest);
  }

  lemma TargetIsNotEmpty(url: string, close: string)
    requires IsTarget(url) && IsClose(close)
    ensures url != "" && close != ""
  {}

  lemma LabelIsFound(open: string, tail: string)
    requires IsOpen(open)
    ensures Opens(open + tail) && LabelEnd(open + tail) == |open| - 2
  {
    var s := open + tail;
    assert s[0] == open[0];
    var b := Bracket(s);
    assert b == Bracket(open) && s[b] == open[b];
    var t := s[b + 1..];
    forall i | 0 <= i < |open| - 3 - b ensures !EndsLabel(t[i]) {
      assert t[i] == open[b + 1 + i];
    }
    assert t[|open| - 3 - b] == open[|open| - 2];
    FirstAt(t, EndsLabel, |open| - 3 - b);
    assert s[|open| - 2] == ']' && s[|open| - 1] == '(';
  }

  lemma LinkParts(link: Piece)
    requires IsLink(link)
    ensures link.Link? && IsOpen(link.open) && IsTarget(link.url) && IsClose(link.close)
    ensures Written(link) == link.open + link.url + link.close
    ensures link.open != "" && (link.open[0] == '!' || link.open[0] == '[')
  {}

  /** A text that begins with a link matches that link. */
  lemma LinkMatches(link: Piece, rest: string)
    requires IsLink(link)
    ensures Match(Written(link) + rest) == Some(link)
  {
    hide *;
    LinkParts(link);
    var open, url, close := link.open, link.url, link.close;
    var s := open + (url + close + rest);
    assert s == open + url + close + rest && s == Written(link) + rest;
    LabelIsFound(open, url + close + rest);
    TargetIsFound(open, url, close, rest);
    MatchWhenOpen(s);
  }

  // ---- rewriting the targets ----------------------------------------------------------------

  /** Whether a text matches that starts with `v` and goes on with some link that begins with `c`:
      the link's own target does not matter. */
  predicate Verdict(v: string, c: char) {
    if v == "" then true
    else if |v| == Bracket(v) then c == '['
    else if v[Bracket(v)] != '[' then false
    else if LabelEnd(v) == |v| then true
    else if v[LabelEnd(v)] != ']' || LabelEnd(v) + 1 == |v| || v[LabelEnd(v) + 1] != '(' then false
    else
      var u := LabelEnd(v) + 2;
      u == |v| || (!EndsTarget(v[u]) && (LinkEnd(v, u) == |v| || v[LinkEnd(v, u)] == ')'))
  }

  function FirstChar(s: string): char {
    if s == "" then ' ' else s[0]
  }

  lemma FirstInFront(front: string, rest: string, stop: char -> bool)
    ensures First(front, stop) < |front| ==> First(front + rest, stop) == First(front, stop)
    ensures First(front, stop) == |front| ==> First(front + rest, stop) == |front| + First(rest, stop)
  {
    if First(front, stop) < |front| {
      FirstAt(front + rest, stop, First(front, stop));
    } else {
      FirstBehind(front, rest, stop);
    }
  }

  lemma LinkEndsItself(link: Piece, rest: string)
    requires IsLink(link)
    ensures var t := Written(link) + rest;
      First(t, EndsLink) < |t| && t[First(t, EndsLink)] == ')' && !EndsTarget(t[0])
  {
    var t := Written(link) + rest;
    var last := |Written(link)| - 1;
    assert t[last] == link.close[|link.close| - 1];
    forall i | 0 <= i < last ensures t[i] != '\n' {
      CharOfLink(link, rest, i);
    }
    assert EndsLink(t[last]);
    assert t[0] == link.open[0];
  }

  lemma CharOfLink(link: Piece, rest: string, i: nat)
    requires IsLink(link) && i < |Written(link)| - 1
    ensures (Written(link) + rest)[i] != '\n'
  {
    var Link(open, url, close) := link;
    var t := Written(link) + rest;
    if i < |open| {
      assert t[i] == open[i];
    } else if i < |open| + |url| {
      assert t[i] == url[i - |open|] && url[i - |open|] in url;
    } else {
      assert t[i] == close[i - |open| - |url|];
    }
  }

  lemma VerdictIsMatch(v: string, link: Piece, rest: string)
    requires IsLink(link)
    ensures Match(v + (Written(link) + rest)).Some? <==> Verdict(v, FirstChar(link.open))
  {
    var t := Written(link) + rest;
    var s := v + t;
    if v == "" {
      assert s == t;
      LinkMatches(link, rest);
    } else {
      assert s[0] == v[0];
      assert Bracket(s) == Bracket(v);
      if |v| > Bracket(v) && v[Bracket(v)] == '[' {
        VerdictInLabel(v, link, rest);
      } else {
        VerdictAtBracket(v, link, rest);
      }
    }
  }

  /** Text that together with the link's opening is an opening makes a longer link. */
  lemma LongerLinkMatches(v: string, link: Piece, rest: string)
    requires IsLink(link) && IsOpen(v + link.open)
    ensures Match(v + (Written(link) + rest)).Some?
  {
    hide *;
    LinkParts(link);
    var longer := Link(v + link.open, link.url, link.close);
    PartsMakeLink(longer);
    LinkMatches(longer, rest);
    assert Written(longer) + rest == v + (Written(link) + rest);
  }

  lemma PartsMakeLink(link: Piece)
    requires link.Link? && IsOpen(link.open) && IsTarget(link.url) && IsClose(link.close)
    ensures IsLink(link) && Written(link) == link.open + link.url + link.close
  {}

  /** `v` is empty up to its bracket: it is a lone `!`, or it does not open a label. */
  lemma VerdictAtBracket(v: string, link: Piece, rest: string)
    requires IsLink(link) && v != "" && (|v| == Bracket(v) || v[Bracket(v)] != '[')
    ensures Match(v + (Written(link) + rest)).Some? <==> Verdict(v, FirstChar(link.open))
  {
    hide LabelEnd;
    hide Closed;
    var t := Written(link) + rest;
    var s := v + t;
    LinkParts(link);
    assert s[0] == v[0] && t[0] == link.open[0];
    if |v| == Bracket(v) && t[0] == '[' {
      assert v == "!";
      BangOpens(link.open);
      LongerLinkMatches(v, link, rest);
    } else {
      assert s[Bracket(v)] == if |v| > Bracket(v) then v[Bracket(v)] else t[0];
    }
  }

  lemma BangOpens(open: string)
    requires IsOpen(open) && open[0] == '['
    ensures IsOpen("!" + open)
  {
    var o := "!" + open;
    assert forall i :: 0 < i < |o| ==> o[i] == open[i - 1];
  }

  lemma LabelInFront(v: string, t: string)
    requires |v| > Bracket(v)
    ensures Bracket(v + t) == Bracket(v) && (v + t)[Bracket(v)] == v[Bracket(v)]
    ensures LabelEnd(v) < |v| ==> LabelEnd(v + t) == LabelEnd(v) && (v + t)[LabelEnd(v)] == v[LabelEnd(v)]
    ensures LabelEnd(v) + 1 < |v| ==> (v + t)[LabelEnd(v) + 1] == v[LabelEnd(v) + 1]
    ensures LabelEnd(v) + 1 == |v| && t != "" ==> (v + t)[|v|] == t[0]
  {
    var s, b := v + t, Bracket(v);
    assert s[0] == v[0];
    assert s[b + 1..] == v[b + 1..] + t;
    FirstInFront(v[b + 1..], t, EndsLabel);
    hide First;
  }

  lemma VerdictInLabel(v: string, link: Piece, rest: string)
    requires IsLink(link) && |v| > Bracket(v) && v[Bracket(v)] == '['
    ensures Match(v + (Written(link) + rest)).Some? <==> Verdict(v, FirstChar(link.open))
  {
    hide First;
    hide Closed;
    hide IsLink;
    hide LabelEnd;
    LinkParts(link);
    var t := Written(link) + rest;
    assert t[0] == link.open[0];
    var j := LabelEnd(v);
    if j == |v| {
      LabelRunsIn(v, link, rest);
    } else {
      LabelInFront(v, t);
      if j + 1 < |v| && v[j] == ']' && v[j + 1] == '(' {
        VerdictInTarget(v, link, rest, j + 2);
      }
    }
  }

  /** A label still open at the link takes the link's own closing bracket for its end. */
  lemma LabelRunsIn(v: string, link: Piece, rest: string)
    requires IsLink(link) && |v| > Bracket(v) && v[Bracket(v)] == '[' && LabelEnd(v) == |v|
    ensures Match(v + (Written(link) + rest)).Some?
  {
    OpenLabelGoesOn(v, link.open);
    LongerLinkMatches(v, link, rest);
  }

  lemma OpenLabelGoesOn(v: string, open: string)
    requires IsOpen(open) && |v| > Bracket(v) && v[Bracket(v)] == '[' && LabelEnd(v) == |v|
    ensures IsOpen(v + open)
  {
    var o, b := v + open, Bracket(v);
    assert o[0] == v[0] && o[b] == '[';
    forall i | b < i < |o| - 2 ensures !EndsLabel(o[i]) {
      if i < |v| {
        assert o[i] == v[b + 1..][i - b - 1];
      } else {
        assert o[i] == open[i - |v|];
      }
    }
  }

  lemma VerdictInTarget(v: string, link: Piece, rest: string, u: nat)
    requires IsLink(link) && u <= |v|
    ensures Closed(v + (Written(link) + rest), u).Some? <==>
      u == |v| || (!EndsTarget(v[u]) && (LinkEnd(v, u) == |v| || v[LinkEnd(v, u)] == ')'))
  {
    hide IsLink;
    hide Written;
    hide First;
    var t := Written(link) + rest;
    var s := v + t;
    assert s[u..] == v[u..] + t;
    LinkEndsItself(link, rest);
    FirstInFront(v[u..], t, EndsLink);
    assert s[u] == if u == |v| then t[0] else v[u];
    assert TargetEnd(s, u) == u <==> EndsTarget(s[u]);
    if LinkEnd(v, u) == |v| {
      assert LinkEnd(s, u) == |v| + First(t, EndsLink);
      assert s[LinkEnd(s, u)] == t[First(t, EndsLink)];
    } else {
      assert LinkEnd(s, u) == LinkEnd(v, u) && s[LinkEnd(v, u)] == v[LinkEnd(v, u)];
    }
  }

  // ---- reading a rewritten text -------------------------------------------------------------

  predicate AllLinks(pieces: seq<Piece>) {
    forall piece :: piece in pieces && piece.Link? ==> IsLink(piece)
  }

  lemma {:induction false} ScanFindsLinks(s: string)
    ensures AllLinks(Scan(s))
    decreases |s|
  {
    hide Match;
    hide IsLink;
    if s != "" {
      MatchIsPrefix(s);
      MatchIsLink(s);
      match Match(s)
      case Some(link) =>
        ScanFindsLinks(s[|Written(link)|..]);
      case None =>
        ScanFindsLinks(s[1..]);
    }
  }

  /** The same skipped characters and the same links but for their targets. */
  predicate SameShape(a: Piece, b: Piece) {
    if a.Skipped? then b == a else b.Link? && b.open == a.open && b.close == a.close
  }

  predicate SameShapes(p: seq<Piece>, q: seq<Piece>) {
    |p| == |q| && forall i :: 0 <= i < |p| ==> SameShape(p[i], q[i])
  }

  /** Every target can be read whole. */
  predicate Readable(pieces: seq<Piece>) {
    forall piece :: piece in pieces && piece.Link? ==> IsTarget(piece.url)
  }

  predicate Scanned(pieces: seq<Piece>) {
    Scan(Print(pieces)) == pieces
  }

  lemma RestIsScanned(p: seq<Piece>)
    requires Scanned(p) && p != []
    ensures Scanned(p[1..])
    ensures p[0].Skipped? <==> Match(Print(p)).None?
    ensures p[0].Link? ==> Match(Print(p)) == Some(p[0])
  {
    hide Match;
    var s := Print(p);
    assert s != "" by { assert p != []; }
    MatchIsPrefix(s);
    assert s[|Written(p[0])|..] == Print(p[1..]);
    match Match(s)
    case Some(link) =>
      assert Scan(s)[0] == link && Scan(s)[1..] == Scan(s[|Written(link)|..]);
    case None =>
      assert Scan(s)[0] == Skipped(s[0]) && Scan(s)[1..] == Scan(s[1..]);
  }

  /** The skipped characters before the first link. */
  function Lead(p: seq<Piece>): (r: string)
    ensures |r| <= |p| && (|r| < |p| ==> p[|r|].Link?)
  {
    if p == [] || p[0].Link? then "" else [p[0].c] + Lead(p[1..])
  }

  lemma Shift(c: char, lead: string, rest: string)
    ensures [c] + (lead + rest) == [c] + lead + rest
  {}

  lemma {:induction false} LeadSplits(p: seq<Piece>)
    ensures Print(p) == Lead(p) + Print(p[|Lead(p)|..])
    decreases |p|
  {
    if p == [] || p[0].Link? {
      assert p[0..] == p && "" + Print(p) == Print(p);
    } else {
      var rest, k := p[1..], |Lead(p[1..])|;
      LeadSplits(rest);
      assert Lead(p) == [p[0].c] + Lead(rest);
      assert p[|Lead(p)|..] == rest[k..];
      Shift(p[0].c, Lead(rest), Print(rest[k..]));
    }
  }

  lemma {:induction false} SameLead(p: seq<Piece>, q: seq<Piece>)
    requires SameShapes(p, q)
    ensures |p| == |q| && Lead(p) == Lead(q)
    decreases |p|
  {
    if p != [] && p[0].Skipped? {
      assert SameShape(p[0], q[0]);
      forall i | 0 <= i < |p| - 1 ensures SameShape(p[1..][i], q[1..][i]) {
        assert SameShape(p[i + 1], q[i + 1]);
      }
      SameLead(p[1..], q[1..]);
    } else if p != [] {
      assert SameShape(p[0], q[0]);
    }
  }

  lemma SplitAtLink(p: seq<Piece>)
    requires |Lead(p)| < |p|
    ensures p[|Lead(p)|].Link? && p[|Lead(p)|] in p
    ensures Print(p) == Lead(p) + (Written(p[|Lead(p)|]) + Print(p[|Lead(p)| + 1..]))
  {
    LeadSplits(p);
    var k := |Lead(p)|;
    hide Lead;
    assert p[k..][1..] == p[k + 1..];
  }

  /** Whether a text begins with a link does not depend on the targets of the links in it. */
  lemma SameVerdict(p: seq<Piece>, q: seq<Piece>)
    requires SameShapes(p, q)
    requires AllLinks(p) && AllLinks(q)
    ensures Match(Print(p)).Some? <==> Match(Print(q)).Some?
  {
    hide *;
    SameLead(p, q);
    var v, k := Lead(p), |Lead(p)|;
    if k < |p| {
      SameOpening(p, q, k);
      SplitAtLink(p);
      SplitAtLink(q);
      LinkIsLink(p, k);
      LinkIsLink(q, k);
      VerdictIsMatch(v, p[k], Print(p[k + 1..]));
      VerdictIsMatch(v, q[k], Print(q[k + 1..]));
    } else {
      LeadSplits(p);
      LeadSplits(q);
      assert p[k..] == [] && q[k..] == [];
    }
  }

  lemma LinkIsLink(p: seq<Piece>, k: nat)
    requires AllLinks(p) && k < |p| && p[k].Link?
    ensures IsLink(p[k])
  {
    hide IsLink;
  }

  lemma SameOpening(p: seq<Piece>, q: seq<Piece>, k: nat)
    requires SameShapes(p, q) && k < |p| && p[k].Link?
    ensures k < |q| && q[k].Link? && q[k].open == p[k].open
  {
    assert SameShape(p[k], q[k]);
  }

  lemma LinkThenScanned(link: Piece, q: seq<Piece>)
    requires IsLink(link) && Scanned(q)
    ensures Scanned([link] + q)
  {
    var s := Written(link) + Print(q);
    assert ([link] + q)[1..] == q;
    LinkMatches(link, Print(q));
    LinkParts(link);
    hide Match;
    hide IsLink;
    assert s[|Written(link)|..] == Print(q);
  }

  lemma SkipThenScanned(c: char, q: seq<Piece>)
    requires Scanned(q) && Match(Print([Skipped(c)] + q)).None?
    ensures Scanned([Skipped(c)] + q)
  {
    hide Match;
    var s := [c] + Print(q);
    assert ([Skipped(c)] + q)[1..] == q && Print([Skipped(c)] + q) == s;
    assert s[1..] == Print(q);
  }

  /** New targets that can be read whole are read as they were written, and nothing else in the
      text is read differently. */
  lemma {:induction false} RewriteReads(p: seq<Piece>, q: seq<Piece>)
    requires Scanned(p) && SameShapes(p, q) && Readable(q)
    ensures Scanned(q)
    decreases |p|
  {
    hide *;
    if p == [] {
      NothingIsScanned(p, q);
    } else {
      RestIsScanned(p);
      ShapesOfRest(p, q);
      RewriteReads(p[1..], q[1..]);
      RewriteFirst(p, q);
    }
  }

  lemma NothingIsScanned(p: seq<Piece>, q: seq<Piece>)
    requires SameShapes(p, q) && p == []
    ensures Scanned(q)
  {
    assert q == [];
  }

  lemma RewriteFirst(p: seq<Piece>, q: seq<Piece>)
    requires Scanned(p) && SameShapes(p, q) && Readable(q) && p != [] && q != [] && Scanned(q[1..])
    requires q[0].Skipped? <==> p[0].Skipped?
    ensures Scanned(q)
  {
    hide *;
    LinksOfScanned(p);
    RewrittenAreLinks(p, q);
    RestIsScanned(p);
    SameVerdict(p, q);
    assert q == [q[0]] + q[1..];
    if q[0].Link? {
      LinkIsLink(q, 0);
      LinkThenScanned(q[0], q[1..]);
    } else {
      assert q[0] == Skipped(q[0].c);
      SkipThenScanned(q[0].c, q[1..]);
    }
  }

  lemma LinksOfScanned(p: seq<Piece>)
    requires Scanned(p)
    ensures AllLinks(p)
  {
    ScanFindsLinks(Print(p));
  }

  lemma ShapesOfRest(p: seq<Piece>, q: seq<Piece>)
    requires Scanned(p) && SameShapes(p, q) && Readable(q) && p != []
    ensures |q| == |p| && SameShapes(p[1..], q[1..]) && Readable(q[1..])
    ensures q[0].Skipped? <==> p[0].Skipped?
  {
    assert SameShape(p[0], q[0]);
    forall i | 0 <= i < |p| - 1 ensures SameShape(p[1..][i], q[1..][i]) {
      assert SameShape(p[i + 1], q[i + 1]);
    }
  }

  lemma RewrittenAreLinks(p: seq<Piece>, q: seq<Piece>)
    requires SameShapes(p, q) && Readable(q)
    requires AllLinks(p)
    ensures AllLinks(q)
  {
    hide IsOpen;
    hide IsTarget;
    hide IsClose;
    forall piece | piece in q && piece.Link? ensures IsLink(piece) {
      var i :| 0 <= i < |q| && q[i] == piece;
      assert SameShape(p[i], q[i]) && p[i] in p;
    }
  }

  /** A rewritten text reads as it was meant if and only if each of its targets can be read whole. */
  lemma RewriteReadsExactly(p: seq<Piece>, q: seq<Piece>)
    requires Scanned(p) && SameShapes(p, q)
    ensures Scanned(q) <==> Readable(q)
  {
    ScanFindsLinks(Print(q));
    if Readable(q) {
      RewriteReads(p, q);
    }
  }

  // ---- what a scan is -----------------------------------------------------------------------

  /** A link of the pattern's shape stands at the beginning of the text. */
  ghost predicate BeginsLink(s: string) {
    exists link :: IsLink(link) && Written(link) <= s
  }

  lemma MatchExactly(s: string)
    ensures Match(s).Some? <==> BeginsLink(s)
    ensures forall link :: IsLink(link) && Written(link) <= s ==> Match(s) == Some(link)
  {
    hide Match;
    hide IsLink;
    hide Written;
    MatchIsPrefix(s);
    MatchIsLink(s);
    forall link | IsLink(link) && Written(link) <= s ensures Match(s) == Some(link) {
      LinkMatches(link, s[|Written(link)|..]);
      assert Written(link) + s[|Written(link)|..] == s;
    }
  }

  /** No character is passed over at which a link begins. */
  ghost predicate NoneMissed(pieces: seq<Piece>) {
    forall k :: 0 <= k < |pieces| && pieces[k].Skipped? ==> !BeginsLink(Print(pieces[k..]))
  }

  lemma NoneMissedStep(p: seq<Piece>)
    requires p != []
    ensures NoneMissed(p) <==> NoneMissed(p[1..]) && (p[0].Skipped? ==> !BeginsLink(Print(p)))
  {
    hide BeginsLink;
    hide Print;
    assert p[0..] == p;
    forall k | 1 <= k < |p| ensures p[k..] == p[1..][k - 1..] && p[k] == p[1..][k - 1] {}
    if NoneMissed(p) {
      forall k | 0 <= k < |p[1..]| && p[1..][k].Skipped? ensures !BeginsLink(Print(p[1..][k..])) {
        assert p[k + 1..] == p[1..][k..] && p[k + 1] == p[1..][k];
      }
    }
  }

  lemma ScannedFromParts(p: seq<Piece>)
    requires p != [] && AllLinks(p) && Scanned(p[1..])
    requires p[0].Skipped? ==> Match(Print(p)).None?
    ensures Scanned(p)
  {
    hide *;
    assert p == [p[0]] + p[1..];
    match p[0]
    case Skipped(c) => SkipThenScanned(c, p[1..]);
    case Link(_, _, _) =>
      LinkIsLink(p, 0);
      LinkThenScanned(p[0], p[1..]);
  }

  lemma {:induction false} ScannedExactly(p: seq<Piece>)
    ensures Scanned(p) <==> AllLinks(p) && NoneMissed(p)
    decreases |p|
  {
    hide *;
    if p == [] {
      NothingIsMissed(p);
    } else {
      ScannedExactly(p[1..]);
      NoneMissedStep(p);
      MatchExactly(Print(p));
      if Scanned(p) {
        LinksOfScanned(p);
        RestIsScanned(p);
      }
      if AllLinks(p) && NoneMissed(p) {
        LinksOfRest(p);
        ScannedFromParts(p);
      }
    }
  }

  lemma NothingIsMissed(p: seq<Piece>)
    requires p == []
    ensures Scanned(p) && AllLinks(p) && NoneMissed(p)
  {}

  lemma LinksOfRest(p: seq<Piece>)
    requires p != [] && AllLinks(p)
    ensures AllLinks(p[1..])
  {
    hide IsLink;
  }

  /** A scan cuts the text into pieces that print it again, whose links have the pattern's shape and
      between whose links none begins; only one cut of a text is like that. */
  lemma ScanExactly(s: string, p: seq<Piece>)
    ensures p == Scan(s) <==> Print(p) == s && AllLinks(p) && NoneMissed(p)
  {
    PrintScan(s);
    ScannedExactly(p);
    hide AllLinks;
    hide NoneMissed;
    hide Print;
  }
}
