/** The managed lines of the user crontab: how a line's tag is read, how an install and an
    uninstall rewrite the table, and what any sequence of them leaves behind. */
module Crontab {
  import opened Options
  import opened Sequences
  import opened Text

  datatype Runtime = Claude | Codex | Cursor | Inline

  function RuntimeName(r: Runtime): string {
    match r
    case Claude => "claude"
    case Codex => "codex"
    case Cursor => "cursor"
    case Inline => "inline"
  }

  datatype ScheduleOptions = ScheduleOptions(
    slug: string, runtime: Runtime, schedule: string, wrapperPath: string, logPath: string)

  const NEWLINE := '\n'
  const RETURN := '\r'
  const HASH := '#'
  const COLON := ':'

  predicate Plain(c: char) {
    !IsSpace(c) && c != HASH
  }

  predicate AllSpace(s: string) {
    forall c :: c in s ==> IsSpace(c)
  }

  const MARK := "b2c:"

  /** A tag: the mark and at least one more character, with no space and no hash. */
  predicate TagText(t: string) {
    MARK <= t && |t| > |MARK| && forall c :: c in t ==> Plain(c)
  }

  /** Character by character: `b2c:` and something behind it, without white space and without a hash. */
  lemma TagTextExactly(t: string)
    ensures TagText(t) <==>
      && |t| > 4 && t[0] == 'b' && t[1] == '2' && t[2] == 'c' && t[3] == ':'
      && forall c :: c in t ==> !IsSpace(c) && c != '#'
  {
    if |t| > 4 {
      assert MARK <= t <==> t[..4] == MARK;
    }
  }

  /** The line ends in a hash at its start or after a space, spaces, the tag, and spaces. */
  ghost predicate Tagged(line: string, t: string) {
    exists head, gap, tail :: TaggedBy(line, t, head, gap, tail)
  }

  predicate TaggedBy(line: string, t: string, head: string, gap: string, tail: string) {
    && line == head + [HASH] + gap + t + tail
    && (head == "" || IsSpace(head[|head| - 1]))
    && gap != "" && AllSpace(gap) && AllSpace(tail) && TagText(t)
  }

  function TrimRight(s: string): string {
    if s != "" && IsSpace(s[|s| - 1]) then TrimRight(s[..|s| - 1]) else s
  }

  function TrimLeft(s: string): string {
    if s != "" && IsSpace(s[0]) then TrimLeft(s[1..]) else s
  }

  /** The index of the last hash, or the length when there is none. */
  function LastHash(s: string): (i: nat)
    ensures i <= |s| && (i < |s| ==> s[i] == HASH && HASH !in s[i + 1..])
    ensures i == |s| ==> HASH !in s
  {
    if s == "" then 0
    else if s[|s| - 1] == HASH then |s| - 1
    else
      var i := LastHash(s[..|s| - 1]);
      if i == |s| - 1 then |s| else i
  }

  /** The tag of a line, read from its last hash. */
  function Tag(line: string): Option<string> {
    var i := LastHash(line);
    if i == |line| || (i > 0 && !IsSpace(line[i - 1])) then None
    else
      var after := line[i + 1..];
      var t := TrimRight(TrimLeft(after));
      if after != "" && IsSpace(after[0]) && TagText(t) then Some(t) else None
  }

  lemma {:induction false} TrimRightParts(s: string, tail: string)
    requires AllSpace(tail) && (s == "" || !IsSpace(s[|s| - 1]))
    ensures TrimRight(s + tail) == s
    decreases |tail|
  {
    if tail != "" {
      var front := tail[..|tail| - 1];
      assert (s + tail)[..|s + tail| - 1] == s + front;
      assert (s + tail)[|s + tail| - 1] == tail[|tail| - 1];
      TrimRightParts(s, front);
    } else {
      assert s + tail == s;
    }
  }

  lemma {:induction false} TrimLeftParts(gap: string, s: string)
    requires AllSpace(gap) && (s == "" || !IsSpace(s[0]))
    ensures TrimLeft(gap + s) == s
    decreases |gap|
  {
    if gap != "" {
      assert (gap + s)[1..] == gap[1..] + s;
      TrimLeftParts(gap[1..], s);
    } else {
      assert gap + s == s;
    }
  }

  lemma {:induction false} TrimRightSplits(s: string) returns (tail: string)
    ensures s == TrimRight(s) + tail && AllSpace(tail)
    decreases |s|
  {
    if s != "" && IsSpace(s[|s| - 1]) {
      var rest := TrimRightSplits(s[..|s| - 1]);
      tail := rest + [s[|s| - 1]];
    } else {
      tail := "";
    }
  }

  lemma {:induction false} TrimLeftSplits(s: string) returns (gap: string)
    ensures s == gap + TrimLeft(s) && AllSpace(gap)
    ensures s != "" && IsSpace(s[0]) ==> gap != ""
    decreases |s|
  {
    if s != "" && IsSpace(s[0]) {
      var rest := TrimLeftSplits(s[1..]);
      gap := [s[0]] + rest;
    } else {
      gap := "";
    }
  }

  lemma {:induction false} LastHashAt(head: string, after: string)
    requires HASH !in after
    ensures LastHash(head + [HASH] + after) == |head|
    decreases |after|
  {
    var s := head + [HASH] + after;
    if after != "" {
      var front := after[..|after| - 1];
      assert s[..|s| - 1] == head + [HASH] + front;
      LastHashAt(head, front);
      assert s[|s| - 1] == after[|after| - 1];
    } else {
      assert s[|s| - 1] == HASH;
    }
  }

  /** Reading back from the last hash finds a tag exactly when the pattern matches, and the tag is
      the one the pattern captures. */
  lemma TagIsExact(line: string, t: string)
    ensures Tag(line) == Some(t) <==> Tagged(line, t)
  {
    if Tagged(line, t) {
      var head, gap, tail :| TaggedBy(line, t, head, gap, tail);
      MatchIsRead(line, t, head, gap, tail);
    }
    if Tag(line) == Some(t) {
      ReadIsMatch(line, t);
    }
  }

  lemma MatchIsRead(line: string, t: string, head: string, gap: string, tail: string)
    requires TaggedBy(line, t, head, gap, tail)
    ensures Tag(line) == Some(t)
  {
    var after := gap + (t + tail);
    assert line == head + [HASH] + after;
    assert !IsSpace(HASH);
    hide IsSpace;
    forall c | c in after ensures c != HASH {
      assert c in gap || c in t || c in tail;
    }
    LastHashAt(head, after);
    hide LastHash;
    assert line[|head| + 1..] == after && after[0] == gap[0];
    assert t[0] in t && t[|t| - 1] in t;
    TrimLeftParts(gap, t + tail);
    TrimRightParts(t, tail);
    hide TrimLeft;
    hide TrimRight;
    if head != "" {
      assert line[|head| - 1] == head[|head| - 1];
    }
  }

  lemma ReadIsMatch(line: string, t: string)
    requires Tag(line) == Some(t)
    ensures Tagged(line, t)
  {
    hide IsSpace;
    hide TagText;
    var i := LastHash(line);
    hide LastHash;
    var after := line[i + 1..];
    var gap := TrimLeftSplits(after);
    var tail := TrimRightSplits(TrimLeft(after));
    hide TrimLeft;
    hide TrimRight;
    hide AllSpace;
    assert after == gap + (t + tail);
    FiveParts(line, i, gap, t, tail);
    assert TaggedBy(line, t, line[..i], gap, tail);
  }

  lemma FiveParts(line: string, i: nat, gap: string, t: string, tail: string)
    requires i < |line| && line[i] == HASH && line[i + 1..] == gap + (t + tail)
    ensures line == line[..i] + [HASH] + gap + t + tail
  {}

  // ---- lines and signatures -----------------------------------------------------------------

  function WorkspacePrefix(slug: string): string {
    MARK + slug + ":"
  }

  function Signature(o: ScheduleOptions): string {
    WorkspacePrefix(o.slug) + RuntimeName(o.runtime)
  }

  function RenderLine(o: ScheduleOptions): string {
    o.schedule + " /usr/bin/env tsx " + o.wrapperPath + " >> " + o.logPath + " 2>&1 # " + Signature(o)
  }

  /** The rendered line, word by word: the schedule, the command with its script and its log, and the
      mark of the workspace and the runtime. */
  lemma RenderedWords(o: ScheduleOptions)
    requires SPACE !in o.wrapperPath && SPACE !in o.logPath && SPACE !in o.slug
    ensures Split(RenderLine(o), SPACE) == Split(o.schedule, SPACE)
      + ["/usr/bin/env", "tsx", o.wrapperPath, ">>", o.logPath, "2>&1", "#", "b2c:" + o.slug + ":" + RuntimeWord(o.runtime)]
  {
    var mark := "b2c:" + o.slug + ":" + RuntimeWord(o.runtime);
    var words := ["/usr/bin/env", "tsx", o.wrapperPath, ">>", o.logPath, "2>&1", "#", mark];
    RuntimeIsWord(o.runtime);
    RenderedText(o, mark);
    WordsAreWords(o, mark);
    hide *;
    SplitJoin(words, SPACE);
    SplitBoth(o.schedule, Join(words, SPACE), SPACE);
  }

  const SPACE := ' '

  function RuntimeWord(r: Runtime): string {
    if r == Claude then "claude" else if r == Codex then "codex" else if r == Cursor then "cursor" else "inline"
  }

  lemma RuntimeIsWord(r: Runtime)
    ensures RuntimeName(r) == RuntimeWord(r) && SPACE !in RuntimeWord(r)
  {}

  lemma WordsAreWords(o: ScheduleOptions, mark: string)
    requires SPACE !in o.wrapperPath && SPACE !in o.logPath && SPACE !in o.slug
    requires mark == "b2c:" + o.slug + ":" + RuntimeWord(o.runtime)
    ensures forall w :: w in ["/usr/bin/env", "tsx", o.wrapperPath, ">>", o.logPath, "2>&1", "#", mark] ==> SPACE !in w
  {
    RuntimeIsWord(o.runtime);
    assert SPACE !in "/usr/bin/env" && SPACE !in "tsx" && SPACE !in ">>" && SPACE !in "2>&1" && SPACE !in "#";
    assert SPACE !in mark;
  }

  lemma JoinPair(a: string, rest: seq<string>)
    requires rest != []
    ensures Join([a] + rest, SPACE) == a + [SPACE] + Join(rest, SPACE)
  {
    assert ([a] + rest)[1..] == rest;
  }

  lemma RenderedText(o: ScheduleOptions, mark: string)
    requires mark == "b2c:" + o.slug + ":" + RuntimeWord(o.runtime)
    ensures RenderLine(o) == o.schedule + [SPACE]
      + Join(["/usr/bin/env", "tsx", o.wrapperPath, ">>", o.logPath, "2>&1", "#", mark], SPACE)
  {
    RuntimeIsWord(o.runtime);
    assert Signature(o) == mark;
    var e, f, g := [mark], ["#", mark], ["2>&1", "#", mark];
    var h := [o.logPath] + g;
    var i := [">>"] + h;
    var j := [o.wrapperPath] + i;
    var k := ["tsx"] + j;
    JoinPair("#", e);
    JoinPair("2>&1", f);
    JoinPair(o.logPath, g);
    JoinPair(">>", h);
    JoinPair(o.wrapperPath, i);
    JoinPair("tsx", j);
    JoinPair("/usr/bin/env", k);
    assert f == ["#"] + e && g == ["2>&1"] + f;
    assert ["/usr/bin/env", "tsx", o.wrapperPath, ">>", o.logPath, "2>&1", "#", mark] == ["/usr/bin/env"] + k;
    hide Signature;
    hide Join;
    assert Join(e, SPACE) == mark by { OneWord(mark); }
    LineParts(o.schedule, o.wrapperPath, o.logPath, mark);
  }

  lemma OneWord(w: string)
    ensures Join([w], SPACE) == w
  {}

  lemma LineParts(schedule: string, wrapper: string, log: string, mark: string)
    ensures schedule + " /usr/bin/env tsx " + wrapper + " >> " + log + " 2>&1 # " + mark
      == schedule + [SPACE] + ("/usr/bin/env" + [SPACE] + ("tsx" + [SPACE] + (wrapper + [SPACE] + (">>" + [SPACE]
         + (log + [SPACE] + ("2>&1" + [SPACE] + ("#" + [SPACE] + mark)))))))
  {}

  /** A line is a workspace's when its tag is the workspace's prefix and something after it. */
  predicate Owns(slug: string, line: string) {
    var t := Tag(line);
    t.Some? && WorkspacePrefix(slug) <= t.value && |t.value| > |WorkspacePrefix(slug)|
  }

  function Owned(slug: string): string -> bool {
    line => Owns(slug, line)
  }

  function NotOwned(slug: string): string -> bool {
    line => !Owns(slug, line)
  }

  /** The rendered line carries its signature as its tag exactly when the slug has no space and no
      hash; the schedule and the paths may hold anything. */
  lemma RenderedTag(o: ScheduleOptions)
    ensures Tag(RenderLine(o)) == Some(Signature(o)) <==> forall c :: c in o.slug ==> Plain(c)
  {
    TagIsExact(RenderLine(o), Signature(o));
    hide Tag;
    SignatureIsTag(o);
    if TagText(Signature(o)) {
      RenderedIsTagged(o);
    }
  }

  lemma RenderedIsTagged(o: ScheduleOptions)
    requires TagText(Signature(o))
    ensures Tagged(RenderLine(o), Signature(o))
  {
    hide TagText;
    var t := Signature(o);
    hide Signature;
    var head := o.schedule + " /usr/bin/env tsx " + o.wrapperPath + " >> " + o.logPath + " 2>&1 ";
    assert RenderLine(o) == head + [HASH] + " " + t + "";
    assert TaggedBy(RenderLine(o), t, head, " ", "");
  }

  lemma SignatureIsTag(o: ScheduleOptions)
    ensures TagText(Signature(o)) <==> forall c :: c in o.slug ==> Plain(c)
  {}

  lemma RuntimeNamePlain(r: Runtime)
    ensures forall c :: c in RuntimeName(r) ==> Plain(c) && c != RETURN && c != NEWLINE && c != COLON
    ensures RuntimeName(r) != ""
  {}

  predicate CleanSlug(slug: string) {
    forall c :: c in slug ==> Plain(c) && c != COLON
  }

  predicate Clean(o: ScheduleOptions) {
    && CleanSlug(o.slug)
    && NEWLINE !in o.schedule && NEWLINE !in o.wrapperPath && NEWLINE !in o.logPath
  }

  lemma {:induction false} PrefixDecidesSlug(a: string, b: string, rest: string)
    requires COLON !in a && COLON !in b
    ensures a + ":" <= b + ":" + rest <==> a == b
    decreases |a|
  {
    if a == "" {
      if b != "" { assert (b + ":" + rest)[0] == b[0]; }
    } else if b == "" {
      assert (a + ":")[0] == a[0] && (b + ":" + rest)[0] == ':';
    } else {
      PrefixDecidesSlug(a[1..], b[1..], rest);
      assert a + ":" == [a[0]] + (a[1..] + ":") && b + ":" + rest == [b[0]] + (b[1..] + ":" + rest);
      ConsPrefix(a[0], a[1..] + ":", b[0], b[1..] + ":" + rest);
      assert a == [a[0]] + a[1..] && b == [b[0]] + b[1..];
    }
  }

  lemma ConsPrefix(x: char, p: string, y: char, q: string)
    ensures [x] + p <= [y] + q <==> x == y && p <= q
  {
    if [x] + p <= [y] + q {
      assert ([x] + p)[0] == ([y] + q)[0];
      forall i | 0 <= i < |p| ensures p[i] == q[i] {
        assert ([x] + p)[i + 1] == ([y] + q)[i + 1];
      }
    }
  }

  lemma LastColon(other: string, name: string, k: nat)
    requires COLON !in name && k < |other + ":" + name|
    ensures (other + ":" + name)[k] == COLON ==> k <= |other|
  {}

  lemma ColonInside(slug: string, other: string)
    ensures slug + ":" <= other ==> COLON in other
  {
    if slug + ":" <= other {
      assert other[|slug|] == (slug + ":")[|slug|];
    }
  }

  lemma PrefixOfSignature(slug: string, other: string, name: string)
    requires COLON !in name && name != ""
    ensures slug + ":" <= other + ":" + name <==> slug == other || slug + ":" <= other
    ensures slug + ":" <= other + ":" + name ==> |slug + ":"| < |other + ":" + name|
  {
    var p, s := slug + ":", other + ":" + name;
    if p <= s {
      assert s[|slug|] == p[|slug|] == COLON;
      LastColon(other, name, |slug|);
      if |slug| < |other| {
        assert p == s[..|p|] == other[..|p|];
      } else {
        assert slug == p[..|slug|] == s[..|slug|] == other;
      }
    }
    if p <= other {
      assert s[..|p|] == other[..|p|] == p;
    }
  }

  /** The slug ends in a tag of its own. */
  predicate EndsInTag(slug: string, head: string, gap: string, s: string) {
    && slug == head + [HASH] + gap + MARK + s
    && head != "" && IsSpace(head[|head| - 1]) && gap != "" && AllSpace(gap)
  }

  /** The slug a workspace's rendered line is found under: its own when that has no space and no
      hash, and otherwise the one in the tag its slug ends in, if it does. */
  ghost predicate SignsAs(slug: string, s: string) {
    (forall c :: c in s ==> Plain(c)) && (s == slug || exists head, gap :: EndsInTag(slug, head, gap, s))
  }

  /** The slug itself, or one that continues it after a colon. */
  predicate Covers(slug: string, s: string) {
    slug == s || slug + ":" <= s
  }

  /** Whose lines a workspace takes for its own, for every slug: those found under its slug, and
      those found under a slug that continues it after a colon. */
  lemma OwnsExactly(slug: string, o: ScheduleOptions)
    ensures Owns(slug, RenderLine(o)) <==> exists s :: SignsAs(o.slug, s) && Covers(slug, s)
  {
    hide *;
    if Owns(slug, RenderLine(o)) {
      var s := OwnerSigns(slug, o);
    }
    if s :| SignsAs(o.slug, s) && Covers(slug, s) {
      SignerIsTag(o, s);
      TagDecides(slug, o, s);
    }
  }

  /** The options of the workspace the line is found under. */
  function Under(o: ScheduleOptions, s: string): ScheduleOptions {
    o.(slug := s)
  }

  lemma TagDecides(slug: string, o: ScheduleOptions, s: string)
    requires Tag(RenderLine(o)) == Some(Signature(Under(o, s)))
    ensures Owns(slug, RenderLine(o)) <==> Covers(slug, s)
  {
    SignaturePrefix(slug, Under(o, s));
    hide Tag;
    hide RenderLine;
    hide Signature;
    hide WorkspacePrefix;
  }

  lemma SignerIsTag(o: ScheduleOptions, s: string)
    requires SignsAs(o.slug, s)
    ensures Tag(RenderLine(o)) == Some(Signature(Under(o, s)))
  {
    var t := Signature(Under(o, s));
    SignatureIsTag(Under(o, s));
    assert TagText(t);
    TagIsExact(RenderLine(o), t);
    hide Tag;
    if s == o.slug {
      RenderedIsTagged(o);
    } else {
      hide Plain;
      var head, gap :| EndsInTag(o.slug, head, gap, s);
      EndedIsTagged(o, head, gap, s);
    }
  }

  /** Everything before the hash of the rendered tag. */
  function Command(o: ScheduleOptions): string {
    o.schedule + " /usr/bin/env tsx " + o.wrapperPath + " >> " + o.logPath + " 2>&1 "
  }

  function Ending(o: ScheduleOptions): string {
    ":" + RuntimeName(o.runtime)
  }

  lemma LineText(o: ScheduleOptions)
    ensures RenderLine(o) == Command(o) + [HASH] + (" b2c:" + o.slug + Ending(o))
    ensures Command(o) != "" && IsSpace(Command(o)[|Command(o)| - 1])
    ensures forall s :: Signature(Under(o, s)) == MARK + s + Ending(o)
  {
    var tail := " b2c:" + o.slug + Ending(o);
    assert " 2>&1 # " == " 2>&1 " + [HASH] + " ";
    assert " " + Signature(o) == tail by {
      assert " b2c:" == " " + MARK;
      assert MARK + o.slug + ":" + RuntimeName(o.runtime) == MARK + o.slug + Ending(o);
    }
    hide Signature;
    hide Ending;
    assert RenderLine(o) == Command(o) + [HASH] + (" " + Signature(o));
    forall s ensures Signature(Under(o, s)) == MARK + s + Ending(o) {
      SignatureText(o, s);
    }
  }

  lemma SignatureText(o: ScheduleOptions, s: string)
    ensures Signature(Under(o, s)) == MARK + s + Ending(o)
  {
    hide MARK;
    assert MARK + s + ":" + RuntimeName(o.runtime) == MARK + s + Ending(o);
  }

  lemma EndedIsTagged(o: ScheduleOptions, head: string, gap: string, s: string)
    requires EndsInTag(o.slug, head, gap, s) && TagText(Signature(Under(o, s)))
    ensures Tagged(RenderLine(o), Signature(Under(o, s)))
  {
    hide IsSpace;
    LineText(o);
    hide Command;
    hide Ending;
    hide Signature;
    hide RenderLine;
    hide TagText;
    hide AllSpace;
    var t, before := Signature(Under(o, s)), Command(o) + [HASH] + " b2c:" + head;
    SplitTag(Command(o), head, gap, s, Ending(o));
    assert before[|before| - 1] == head[|head| - 1];
    assert AllSpace("") by { NoSpaces(); }
    assert TaggedBy(RenderLine(o), t, before, gap, "");
  }

  lemma NoSpaces()
    ensures AllSpace("")
  {}

  lemma SplitTag(command: string, head: string, gap: string, s: string, ending: string)
    ensures command + [HASH] + (" b2c:" + (head + [HASH] + gap + MARK + s) + ending)
         == command + [HASH] + " b2c:" + head + [HASH] + gap + (MARK + s + ending) + ""
  {
    hide MARK;
  }

  lemma LastChar(o: ScheduleOptions)
    ensures RenderLine(o) != "" && !IsSpace(RenderLine(o)[|RenderLine(o)| - 1])
  {
    RuntimeNamePlain(o.runtime);
    var name := RuntimeName(o.runtime);
    hide RuntimeName;
    assert name[|name| - 1] in name;
    hide IsSpace;
    assert RenderLine(o)[|RenderLine(o)| - 1] == name[|name| - 1];
  }

  /** A rendered line ends in its tag, without a space behind it. */
  lemma TagParts(o: ScheduleOptions, t: string) returns (head: string, gap: string)
    requires Tagged(RenderLine(o), t)
    ensures TaggedBy(RenderLine(o), t, head, gap, "")
  {
    hide IsSpace;
    hide TagText;
    LastChar(o);
    hide RenderLine;
    var line := RenderLine(o);
    var before, space, tail :| TaggedBy(line, t, before, space, tail);
    if tail != "" {
      assert false;
    }
    head, gap := before, space;
  }

  /** The last hash of a text is the one given, or one behind it. */
  lemma HashPlaces(front: string, body: string, head: string, after: string) returns (at: int)
    requires front + [HASH] + body == head + [HASH] + after && HASH !in after
    ensures at < 0 ==> head == front && after == body
    ensures at >= 0 ==> at < |body| && body[at] == HASH && after == body[at + 1..] && head == front + [HASH] + body[..at]
  {
    var line := front + [HASH] + body;
    assert line[|front|] == HASH && line[|head|] == HASH && line[|head| + 1..] == after;
    if |head| < |front| {
      assert false;
    }
    at := |head| - |front| - 1;
    if at < 0 {
      assert head == line[..|front|] == front;
    } else {
      assert body == line[|front| + 1..];
      assert head == line[..|head|] == front + [HASH] + body[..at];
      assert after == body[at + 1..];
    }
  }

  lemma OneSpace(gap: string, t: string, rest: string)
    requires gap + t == " b2c:" + rest && gap != "" && AllSpace(gap) && TagText(t)
    ensures t == MARK + rest
  {
    var all := " b2c:" + rest;
    assert t[0] == 'b' && !IsSpace('b') && all[1] == 'b';
    if |gap| > 1 {
      assert false;
    }
    assert t == all[1..];
  }

  lemma HashInSlug(slug: string, ending: string, at: nat)
    requires at < |" b2c:" + slug + ending| && (" b2c:" + slug + ending)[at] == HASH && HASH !in ending
    ensures 5 <= at < 5 + |slug| && slug[at - 5] == HASH
    ensures (" b2c:" + slug + ending)[at + 1..] == slug[at - 4..] + ending
    ensures (" b2c:" + slug + ending)[..at] == " b2c:" + slug[..at - 5]
    ensures slug == slug[..at - 5] + [HASH] + slug[at - 4..]
  {
    var body := " b2c:" + slug + ending;
    assert 5 <= at < 5 + |slug|;
  }

  /** Where the slug ends in what the tag holds: before the last colon of the tag. */
  lemma TagSplits(r: string, name: string, gap: string, slug: string, rest: string) returns (s: string)
    requires COLON !in name && r + (":" + name) == gap + (MARK + slug + ":" + rest)
    ensures r == gap + MARK + s && MARK + s + (":" + name) == MARK + slug + ":" + rest
  {
    var t := MARK + slug + ":" + rest;
    var all := gap + t;
    var colon := |gap| + 4 + |slug|;
    assert all[colon] == t[4 + |slug|] == COLON;
    assert all == r + ":" + name;
    LastColon(r, name, colon);
    s := t[4..|r| - |gap|];
    assert t[..4] == MARK && gap == all[..|gap|] && r == all[..|r|];
    assert r == gap + t[..|r| - |gap|];
    assert t[|r| - |gap|..] == all[|r|..] == ":" + name;
  }

  lemma EndingParts(o: ScheduleOptions)
    ensures Ending(o) == ":" + RuntimeName(o.runtime) && COLON !in RuntimeName(o.runtime) && HASH !in Ending(o)
  {
    RuntimeNamePlain(o.runtime);
  }

  lemma SlugEndsInTag(o: ScheduleOptions, slug: string, rest: string, front: string, head: string, gap: string, t: string, at: nat)
    returns (s: string)
    requires at < |" b2c:" + o.slug + Ending(o)| && (" b2c:" + o.slug + Ending(o))[at] == HASH
    requires gap + t == (" b2c:" + o.slug + Ending(o))[at + 1..]
    requires head == front + [HASH] + (" b2c:" + o.slug + Ending(o))[..at] && IsSpace(head[|head| - 1])
    requires gap != "" && AllSpace(gap) && t == MARK + slug + ":" + rest
    ensures exists before :: EndsInTag(o.slug, before, gap, s)
    ensures t == MARK + s + Ending(o)
  {
    EndingParts(o);
    HashInSlug(o.slug, Ending(o), at);
    var before, r := o.slug[..at - 5], o.slug[at - 4..];
    s := TagSplits(r, RuntimeName(o.runtime), gap, slug, rest);
    hide Ending;
    hide MARK;
    hide AllSpace;
    assert !IsSpace(':');
    hide IsSpace;
    assert before != "";
    assert head[|head| - 1] == before[|before| - 1];
    assert o.slug == before + [HASH] + gap + MARK + s;
    assert EndsInTag(o.slug, before, gap, s);
  }

  lemma TaggedParts(line: string, t: string, head: string, gap: string)
    requires TaggedBy(line, t, head, gap, "")
    ensures line == head + [HASH] + (gap + t) && HASH !in gap + t && (head == "" || IsSpace(head[|head| - 1]))
    ensures gap != "" && AllSpace(gap) && TagText(t) && forall c :: c in t ==> Plain(c)
  {
    assert !IsSpace(HASH);
  }

  lemma OwnerTag(slug: string, o: ScheduleOptions) returns (t: string, rest: string)
    requires Owns(slug, RenderLine(o))
    ensures Tag(RenderLine(o)) == Some(t) && t == MARK + slug + ":" + rest
  {
    t := Tag(RenderLine(o)).value;
    rest := t[|WorkspacePrefix(slug)|..];
    hide Tag;
    hide RenderLine;
    assert t == WorkspacePrefix(slug) + rest;
  }

  /** A line that is some workspace's is found under a slug that workspace covers. */
  lemma OwnerSigns(slug: string, o: ScheduleOptions) returns (s: string)
    requires Owns(slug, RenderLine(o))
    ensures SignsAs(o.slug, s) && Covers(slug, s)
  {
    hide *;
    var t, rest := OwnerTag(slug, o);
    TagIsExact(RenderLine(o), t);
    var head, gap := TagParts(o, t);
    TaggedParts(RenderLine(o), t, head, gap);
    LineText(o);
    var body := " b2c:" + o.slug + Ending(o);
    var at := HashPlaces(Command(o), body, head, gap + t);
    if at < 0 {
      s := o.slug;
      assert body == " b2c:" + (o.slug + Ending(o));
      OneSpace(gap, t, o.slug + Ending(o));
      assert t == MARK + s + Ending(o);
    } else {
      s := SlugEndsInTag(o, slug, rest, Command(o), head, gap, t, at);
    }
    SignerIsPlain(s, t, Ending(o));
    SignsByParts(o.slug, s);
    TagDecides(slug, o, s);
  }

  lemma SignerIsPlain(s: string, t: string, ending: string)
    requires t == MARK + s + ending && forall c :: c in t ==> Plain(c)
    ensures forall c :: c in s ==> Plain(c)
  {
    hide Plain;
    forall c | c in s ensures c in t {
      assert c in MARK + s;
    }
  }

  lemma SignsByParts(slug: string, s: string)
    requires (forall c :: c in s ==> Plain(c)) && (s == slug || exists head, gap :: EndsInTag(slug, head, gap, s))
    ensures SignsAs(slug, s)
  {}

  /** Nobody covers a slug with a hash, as no line is found under one. */
  lemma HashIsNotCovered(from: string, slug: string, s: string)
    requires SignsAs(from, s) && HASH in slug
    ensures !Covers(slug, s)
  {
    assert HASH !in s;
    PrefixHas(slug + ":", s, HASH);
    assert HASH in slug + ":";
  }

  lemma PrefixHas(p: string, s: string, c: char)
    ensures p <= s && c in p ==> c in s
  {
    assert p <= s ==> s[..|p|] == p;
  }

  lemma EndsInOther()
    ensures EndsInTag("x # b2c:other", "x ", " ", "other") && "x # b2c:other" != "other"
    ensures forall c :: c in "other" ==> Plain(c)
  {
    assert "x # b2c:other" == "x " + [HASH] + " " + MARK + "other";
    assert |"x # b2c:other"| > |"other"|;
  }

  /** A slug that ends in a tag signs its line away: the workspace of the tag claims it and its own
      workspace does not. */
  lemma TaggedSlugIsLost(o: ScheduleOptions, s: string)
    requires SignsAs(o.slug, s) && s != o.slug
    ensures Owns(s, RenderLine(o)) && !Owns(o.slug, RenderLine(o))
  {
    assert HASH in o.slug && Covers(s, s);
    hide *;
    OwnsExactly(s, o);
    OwnsExactly(o.slug, o);
    forall other | SignsAs(o.slug, other) ensures !Covers(o.slug, other) {
      HashIsNotCovered(o.slug, o.slug, other);
    }
  }

  /** Such a slug: the line of `x # b2c:other` is the workspace `other`'s. */
  lemma OtherClaimsTagged(o: ScheduleOptions)
    requires o.slug == "x # b2c:other"
    ensures Owns("other", RenderLine(o)) && !Owns(o.slug, RenderLine(o))
  {
    EndsInOther();
    assert SignsAs(o.slug, "other");
    hide *;
    TaggedSlugIsLost(o, "other");
  }

  lemma SignaturePrefix(slug: string, o: ScheduleOptions)
    ensures WorkspacePrefix(slug) <= Signature(o) <==> slug == o.slug || slug + ":" <= o.slug
    ensures WorkspacePrefix(slug) <= Signature(o) ==> |WorkspacePrefix(slug)| < |Signature(o)|
  {
    RuntimeNamePlain(o.runtime);
    var name := RuntimeName(o.runtime);
    PrefixOfSignature(slug, o.slug, name);
    var a, b := slug + ":", o.slug + ":" + name;
    assert WorkspacePrefix(slug) == MARK + a && Signature(o) == MARK + b;
    MarkCancels(a, b);
  }

  /** Among slugs without a colon a workspace owns its own rendered lines and nobody else's. */
  lemma OwnsRendered(slug: string, o: ScheduleOptions)
    requires CleanSlug(slug) && Clean(o)
    ensures Owns(slug, RenderLine(o)) <==> slug == o.slug
  {
    assert SignsAs(o.slug, o.slug);
    SignerIsTag(o, o.slug);
    TagDecides(slug, o, o.slug);
    ColonInside(slug, o.slug);
  }

  lemma MarkCancels(a: string, b: string)
    ensures MARK + a <= MARK + b <==> a <= b
  {
    if MARK + a <= MARK + b {
      assert a == (MARK + a)[4..] && b == (MARK + b)[4..];
      assert (MARK + b)[..|MARK + a|] == MARK + a;
      assert b[..|a|] == (MARK + b)[4..|MARK + a|];
    }
    if a <= b {
      assert (MARK + b)[..|MARK + a|] == MARK + b[..|a|];
    }
  }

  /** With a colon in a slug the separation fails: workspace `a` claims the line of `a:b`. */
  lemma ColonSlugsCollide(schedule: string, wrapper: string, log: string)
    ensures Owns("a", RenderLine(ScheduleOptions("a:b", Claude, schedule, wrapper, log)))
  {
    RenderedTag(ScheduleOptions("a:b", Claude, schedule, wrapper, log));
  }

  /** Two clean workspaces never claim the same line. */
  lemma OwnersAreDistinct(a: string, b: string, line: string)
    requires CleanSlug(a) && CleanSlug(b) && Owns(a, line) && Owns(b, line)
    ensures a == b
  {
    var t := Tag(line).value;
    var rest := t[|WorkspacePrefix(b)|..];
    assert t == MARK + (b + ":" + rest) && WorkspacePrefix(a) == MARK + (a + ":");
    MarkCancels(a + ":", b + ":" + rest);
    PrefixDecidesSlug(a, b, rest);
  }

  // ---- the table ----------------------------------------------------------------------------

  function NonEmpty(): string -> bool {
    line => line != ""
  }

  /** The lines of a table; empty ones are dropped. */
  function Lines(content: string): (r: seq<string>)
    ensures forall l :: l in r <==> l != "" && l in Split(content, NEWLINE)
    ensures forall l :: l in r ==> l != "" && NEWLINE !in l
  {
    Filter(NonEmpty(), Split(content, NEWLINE))
  }

  function Render(lines: seq<string>): string {
    if lines == [] then "" else Join(lines, NEWLINE) + "\n"
  }

  function Install(content: string, o: ScheduleOptions): string {
    Join(Filter(NotOwned(o.slug), Lines(content)) + [RenderLine(o)], NEWLINE) + "\n"
  }

  function Uninstall(content: string, slug: string): string {
    Render(Filter(NotOwned(slug), Lines(content)))
  }

  /** The lines of the exact-line readback, which also splits at a return before the newline. */
  function ReadBackLines(content: string): seq<string> {
    var parts := Split(content, NEWLINE);
    seq(|parts|, i requires 0 <= i < |parts| => if i < |parts| - 1 then StripReturn(parts[i]) else parts[i])
  }

  function StripReturn(s: string): string {
    if s != "" && s[|s| - 1] == RETURN then s[..|s| - 1] else s
  }

  predicate HasExactLine(content: string, line: string) {
    line in ReadBackLines(content)
  }

  predicate HasWorkspaceLine(content: string, slug: string) {
    exists l :: l in ReadBackLines(content) && Owns(slug, l)
  }

  /** The readback sees each line without the return before its newline; only the last line, which no
      newline ends, keeps its return. */
  lemma ReadBackExactly(content: string, line: string)
    ensures HasExactLine(content, line) <==>
      var parts := Split(content, NEWLINE);
      || line == parts[|parts| - 1]
      || exists i :: 0 <= i < |parts| - 1 && (parts[i] == line + [RETURN] || (parts[i] == line && !EndsInReturn(line)))
  {
    var parts, back := Split(content, NEWLINE), ReadBackLines(content);
    hide Split;
    forall i | 0 <= i < |parts| - 1
      ensures back[i] == line <==> parts[i] == line + [RETURN] || (parts[i] == line && !EndsInReturn(line))
    {
      StripExactly(parts[i], line);
    }
    assert back[|parts| - 1] == parts[|parts| - 1];
    hide ReadBackLines;
  }

  predicate EndsInReturn(s: string) {
    s != "" && s[|s| - 1] == '\r'
  }

  lemma StripExactly(s: string, line: string)
    ensures StripReturn(s) == line <==> s == line + [RETURN] || (s == line && !EndsInReturn(line))
  {
    if s != "" {
      assert s == s[..|s| - 1] + [s[|s| - 1]];
    }
    assert (line + [RETURN])[..|line|] == line;
  }

  /** A workspace is found in the readback exactly through the tag of one of its lines. */
  lemma WorkspaceLineExactly(content: string, slug: string)
    ensures HasWorkspaceLine(content, slug) <==>
      exists l, rest :: HasExactLine(content, l) && Tag(l) == Some("b2c:" + slug + ":" + rest) && rest != ""
  {
    forall l ensures Owns(slug, l) <==> exists rest :: Tag(l) == Some("b2c:" + slug + ":" + rest) && rest != "" {
      OwnsByTag(slug, l);
    }
    hide Owns;
    hide Tag;
    hide ReadBackLines;
  }

  lemma OwnsByTag(slug: string, line: string)
    ensures Owns(slug, line) <==> exists rest :: Tag(line) == Some("b2c:" + slug + ":" + rest) && rest != ""
  {
    hide Tag;
    var prefix := WorkspacePrefix(slug);
    assert prefix == "b2c:" + slug + ":";
    hide WorkspacePrefix;
    if Owns(slug, line) {
      var t := Tag(line).value;
      assert t == prefix + t[|prefix|..] && t[|prefix|..] != "";
    }
    if rest :| Tag(line) == Some("b2c:" + slug + ":" + rest) && rest != "" {
      assert prefix <= prefix + rest;
    }
  }

  datatype Op = InstallOp(options: ScheduleOptions) | UninstallOp(options: ScheduleOptions)

  /** What a successful locked section leaves in the table. */
  function Apply(content: string, op: Op): string {
    match op
    case InstallOp(o) => if HasExactLine(content, RenderLine(o)) then content else Install(content, o)
    case UninstallOp(o) => Uninstall(content, o.slug)
  }

  lemma LinesRender(lines: seq<string>)
    requires forall l :: l in lines ==> l != "" && NEWLINE !in l
    ensures Lines(Render(lines)) == lines
    ensures lines != [] ==> Split(Render(lines), NEWLINE) == lines + [""]
  {
    if lines == [] {
      assert Split("", NEWLINE) == [""];
    } else {
      assert forall l :: l in lines + [""] ==> NEWLINE !in l;
      JoinWithEmpty(lines);
      SplitJoin(lines + [""], NEWLINE);
      FilterConcat(NonEmpty(), lines, [""]);
      FilterAll(NonEmpty(), lines);
    }
  }

  lemma {:induction false} JoinWithEmpty(lines: seq<string>)
    requires lines != []
    ensures Join(lines + [""], NEWLINE) == Join(lines, NEWLINE) + "\n"
    decreases |lines|
  {
    if |lines| > 1 {
      JoinWithEmpty(lines[1..]);
      assert (lines + [""])[1..] == lines[1..] + [""];
    } else {
      assert (lines + [""])[1..] == [""];
    }
  }

  lemma RenderedLine(o: ScheduleOptions)
    requires Clean(o)
    ensures NEWLINE !in RenderLine(o) && RenderLine(o) != ""
    ensures RenderLine(o)[|RenderLine(o)| - 1] != RETURN
  {}

  lemma AfterInstall(content: string, o: ScheduleOptions)
    requires Clean(o)
    ensures Lines(Install(content, o)) == Filter(NotOwned(o.slug), Lines(content)) + [RenderLine(o)]
    ensures HasExactLine(Install(content, o), RenderLine(o))
  {
    RenderedLine(o);
    var lines := Filter(NotOwned(o.slug), Lines(content)) + [RenderLine(o)];
    assert Install(content, o) == Render(lines);
    LinesRender(lines);
    var back := ReadBackLines(Install(content, o));
    assert back[|lines| - 1] == StripReturn(RenderLine(o)) == RenderLine(o);
  }

  lemma AfterUninstall(content: string, slug: string)
    ensures Lines(Uninstall(content, slug)) == Filter(NotOwned(slug), Lines(content))
    ensures !HasWorkspaceLine(Uninstall(content, slug), slug)
  {
    LinesRender(Filter(NotOwned(slug), Lines(content)));
    ForeignReadBack(Uninstall(content, slug), slug);
  }

  /** A table whose own lines are all foreign to a workspace reads back without a line of it. */
  lemma ForeignReadBack(content: string, slug: string)
    requires forall l :: l in Lines(content) ==> !Owns(slug, l)
    ensures !HasWorkspaceLine(content, slug)
  {
    EmptyIsForeign(slug);
    hide Owns;
    hide Lines;
    hide ReadBackLines;
    forall l | l in ReadBackLines(content) ensures !Owns(slug, l) {
      if l != "" {
        var found := ReadBackFinds(content, l);
        StripKeepsTag(found);
        SameTagSameOwner(slug, found, l);
      }
    }
  }

  lemma EmptyIsForeign(slug: string)
    ensures !Owns(slug, "")
  {}

  /** A return at the end of a line is white space to the tag pattern. */
  lemma StripKeepsTag(line: string)
    ensures Tag(StripReturn(line)) == Tag(line)
  {
    if StripReturn(line) != line {
      var short := line[..|line| - 1];
      assert line == short + [RETURN];
      if Tag(line).Some? {
        TagIsExact(line, Tag(line).value);
        ReturnDropped(short, Tag(line).value);
        TagIsExact(short, Tag(line).value);
      }
      if Tag(short).Some? {
        TagIsExact(short, Tag(short).value);
        ReturnAdded(short, Tag(short).value);
        TagIsExact(line, Tag(short).value);
      }
    }
  }

  lemma TailFollowsTag(line: string, t: string, head: string, gap: string, tail: string)
    requires TaggedBy(line, t, head, gap, tail)
    ensures tail == "" ==> !IsSpace(line[|line| - 1])
  {
    assert t[|t| - 1] in t;
  }

  lemma ReturnAdded(short: string, t: string)
    requires Tagged(short, t)
    ensures Tagged(short + [RETURN], t)
  {
    var head, gap, tail :| TaggedBy(short, t, head, gap, tail);
    assert TaggedBy(short + [RETURN], t, head, gap, tail + [RETURN]);
  }

  lemma ReturnDropped(short: string, t: string)
    requires Tagged(short + [RETURN], t)
    ensures Tagged(short, t)
  {
    var line := short + [RETURN];
    var head, gap, tail :| TaggedBy(line, t, head, gap, tail);
    TailFollowsTag(line, t, head, gap, tail);
    var less := tail[..|tail| - 1];
    assert tail == less + [tail[|tail| - 1]];
    assert line == head + [HASH] + gap + t + less + [tail[|tail| - 1]];
    assert short == line[..|line| - 1] == head + [HASH] + gap + t + less;
    assert TaggedBy(short, t, head, gap, less);
  }

  // ---- the locked section -------------------------------------------------------------------

  datatype Outcome = Installed | AlreadyInstalled | Removed | NotConfirmed | Failed

  /** The user's table, reached only while the schedule lock is held. */
  class Table {
    var content: string
    ghost var failures: nat   // how many commands have failed

    constructor (content: string)
      ensures this.content == content && failures == 0
    {
      this.content := content;
      failures := 0;
    }

    /** Reads the table; the command may fail. */
    method Read() returns (ok: bool)
      modifies `failures
      ensures failures == old(failures) + if ok then 0 else 1
    {
      ok := *;
      failures := failures + if ok then 0 else 1;
    }

    /** Hands a new table to the command, which may fail before or after it has taken it. */
    method Write(next: string) returns (ok: bool)
      modifies this
      ensures content == next || (!ok && content == old(content))
      ensures failures == old(failures) + if ok then 0 else 1
    {
      ok := *;
      var reached := *;
      if ok || reached {
        content := next;
      }
      failures := failures + if ok then 0 else 1;
    }

    /** One locked section: read, decide, write, read back. It fails only when a command does, before
        or after the write has reached the table; otherwise the table is as the edit leaves it, and
        the answer says which. The readback of an install can miss a line that is not clean; that of
        an uninstall never finds one. */
    method RunLocked(op: Op) returns (r: Outcome)
      modifies this
      ensures failures == old(failures) + if r == Failed then 1 else 0
      ensures content == old(content) || content == Apply(old(content), op)
      ensures r != Failed ==> content == Apply(old(content), op)
      ensures r != Failed && op.InstallOp? ==>
        r == if HasExactLine(old(content), RenderLine(op.options)) then AlreadyInstalled
             else if HasExactLine(content, RenderLine(op.options)) then Installed else NotConfirmed
      ensures r == NotConfirmed ==> op.InstallOp? && !Clean(op.options)
      ensures r == AlreadyInstalled ==> content == old(content)
      ensures r != Failed && op.UninstallOp? ==> r == Removed
    {
      var current, o := content, op.options;
      var readable := Read();
      if !readable { return Failed; }
      if op.InstallOp? {
        var line := RenderLine(o);
        if HasExactLine(current, line) {
          var again := Read();
          if !again { return Failed; }
          return if HasExactLine(content, line) then AlreadyInstalled else NotConfirmed;
        }
        var written := Write(Install(current, o));
        if !written { return Failed; }
        var readBack := Read();
        if !readBack { return Failed; }
        if Clean(o) { AfterInstall(current, o); }
        return if HasExactLine(content, line) then Installed else NotConfirmed;
      }
      var written := Write(Uninstall(current, o.slug));
      if !written { return Failed; }
      AfterUninstall(current, o.slug);
      var readBack := Read();
      if !readBack { return Failed; }
      return if HasWorkspaceLine(content, o.slug) then NotConfirmed else Removed;
    }
  }

  // ---- any number of edits ------------------------------------------------------------------

  /** The table after a sequence of edits. */
  function Run(content: string, ops: seq<Op>): string {
    if ops == [] then content else Apply(Run(content, ops[..|ops| - 1]), ops[|ops| - 1])
  }

  /** A workspace's lines after the edits: its last install's line, unless it was removed since. */
  function Expected(ops: seq<Op>, slug: string): seq<string> {
    if ops == [] then []
    else
      var last := ops[|ops| - 1];
      if last.options.slug != slug then Expected(ops[..|ops| - 1], slug)
      else if last.InstallOp? then [RenderLine(last.options)]
      else []
  }

  predicate AllClean(ops: seq<Op>) {
    forall op :: op in ops ==> Clean(op.options)
  }

  /** A line of the readback is a line of the table, but for a return at its end. */
  lemma ReadBackFinds(content: string, line: string) returns (found: string)
    requires line in ReadBackLines(content) && line != ""
    ensures found in Lines(content)
    ensures found == line || (found != "" && found[|found| - 1] == RETURN && StripReturn(found) == line)
  {
    var parts := Split(content, NEWLINE);
    hide Split;
    var i :| 0 <= i < |parts| && ReadBackLines(content)[i] == line;
    found := parts[i];
    assert found in parts && NonEmpty()(found);
    hide Filter;
  }

  /** An exact line found by the readback is one of the table's own lines. */
  lemma ExactLineIsOwned(content: string, o: ScheduleOptions) returns (found: string)
    requires Clean(o) && HasExactLine(content, RenderLine(o))
    ensures found in Lines(content) && Owns(o.slug, found)
    ensures found == RenderLine(o) || found[|found| - 1] == RETURN
  {
    RenderedLine(o);
    OwnsRendered(o.slug, o);
    hide Clean;
    hide RenderLine;
    hide Owns;
    hide Lines;
    hide ReadBackLines;
    hide StripReturn;
    found := ReadBackFinds(content, RenderLine(o));
    StripKeepsTag(found);
    SameTagSameOwner(o.slug, found, RenderLine(o));
  }

  lemma SameTagSameOwner(slug: string, a: string, b: string)
    ensures Tag(a) == Tag(b) ==> (Owns(slug, a) <==> Owns(slug, b))
  {}

  lemma {:induction false} ExpectedLines(ops: seq<Op>, slug: string)
    requires AllClean(ops)
    ensures forall l :: l in Expected(ops, slug) ==> l != "" && l[|l| - 1] != RETURN
    decreases |ops|
  {
    if ops != [] {
      ExpectedLines(ops[..|ops| - 1], slug);
      RenderedLine(ops[|ops| - 1].options);
    }
  }

  lemma UninstallStep(content: string, slug: string, other: string)
    requires CleanSlug(slug) && CleanSlug(other)
    ensures Filter(Owned(other), Lines(Uninstall(content, slug))) ==
      if slug == other then [] else Filter(Owned(other), Lines(content))
  {
    AfterUninstall(content, slug);
    FilterAgain(Owned(other), NotOwned(slug), Lines(content));
    if slug != other {
      forall l | l in Lines(content) && Owns(other, l) ensures !Owns(slug, l) {
        if Owns(slug, l) { OwnersAreDistinct(slug, other, l); }
      }
    }
  }

  lemma InstallStep(content: string, o: ScheduleOptions, other: string)
    requires Clean(o) && CleanSlug(other)
    ensures Filter(Owned(other), Lines(Install(content, o))) ==
      if o.slug == other then [RenderLine(o)] else Filter(Owned(other), Lines(content))
  {
    AfterInstall(content, o);
    AfterUninstall(content, o.slug);
    UninstallStep(content, o.slug, other);
    OwnsRendered(other, o);
    hide Owns;
    hide Lines;
    hide RenderLine;
    hide Install;
    hide Uninstall;
    var kept, line := Filter(NotOwned(o.slug), Lines(content)), RenderLine(o);
    FilterConcat(Owned(other), kept, [line]);
    FilterOne(Owned(other), line);
    hide Filter;
    var before := Filter(Owned(other), kept);
    assert before + [] == before && [] + [line] == [line];
  }

  /** After any sequence of edits each workspace has exactly the line of its last install, and none
      if its last edit removed it - whatever the others did in between. */
  lemma {:induction false} RunsAreExact(content: string, ops: seq<Op>, slug: string)
    requires AllClean(ops) && CleanSlug(slug)
    requires forall l :: l in Lines(content) ==> !Owns(slug, l)
    ensures Filter(Owned(slug), Lines(Run(content, ops))) == Expected(ops, slug)
    decreases |ops|
  {
    if ops == [] {
      FilterNone(Owned(slug), Lines(content));
    } else {
      var front, op := ops[..|ops| - 1], ops[|ops| - 1];
      assert op in ops;
      RunsAreExact(content, front, slug);
      var before := Run(content, front);
      match op {
        case UninstallOp(o) => UninstallStep(before, o.slug, slug);
        case InstallOp(o) =>
          if !HasExactLine(before, RenderLine(o)) {
            InstallStep(before, o, slug);
          } else if o.slug == slug {
            var found := ExactLineIsOwned(before, o);
            assert found in Filter(Owned(slug), Lines(before));
            ExpectedLines(front, slug);
            ExpectedIsOne(front, slug, found, RenderLine(o));
          }
      }
    }
  }

  lemma {:induction false} ExpectedIsOne(ops: seq<Op>, slug: string, found: string, line: string)
    requires found in Expected(ops, slug) && found == line
    ensures Expected(ops, slug) == [line]
    decreases |ops|
  {
    if ops[|ops| - 1].options.slug != slug {
      ExpectedIsOne(ops[..|ops| - 1], slug, found, line);
    }
  }

  predicate IsForeign(ops: seq<Op>, line: string) {
    forall op :: op in ops ==> !Owns(op.options.slug, line)
  }

  function Foreign(ops: seq<Op>): string -> bool {
    line => IsForeign(ops, line)
  }

  lemma ForeignStep(content: string, op: Op, all: seq<Op>)
    requires Clean(op.options) && op in all
    ensures Filter(Foreign(all), Lines(Apply(content, op))) == Filter(Foreign(all), Lines(content))
  {
    match op
    case InstallOp(o) =>
      ForeignInstall(content, o, op, all);
    case UninstallOp(o) =>
      ForeignKept(content, o.slug, op, all);
      AfterUninstall(content, o.slug);
  }

  /** Dropping the lines of an edited workspace drops no foreign line. */
  lemma ForeignKept(content: string, slug: string, op: Op, all: seq<Op>)
    requires op in all && op.options.slug == slug
    ensures Filter(Foreign(all), Filter(NotOwned(slug), Lines(content))) == Filter(Foreign(all), Lines(content))
  {
    hide Owns;
    hide Lines;
    var foreign, others := Foreign(all), NotOwned(slug);
    forall l | foreign(l) ensures others(l) {
      assert IsForeign(all, l);
    }
    FilterAgain(foreign, others, Lines(content));
  }

  lemma ForeignInstall(content: string, o: ScheduleOptions, op: Op, all: seq<Op>)
    requires op == InstallOp(o) && op in all && Clean(o)
    ensures Filter(Foreign(all), Lines(Apply(content, op))) == Filter(Foreign(all), Lines(content))
  {
    var kept, line := Filter(NotOwned(o.slug), Lines(content)), RenderLine(o);
    ForeignKept(content, o.slug, op, all);
    AfterInstall(content, o);
    OwnsRendered(o.slug, o);
    RenderedIsOurs(line, op, all);
    hide Owns;
    hide Lines;
    hide RenderLine;
    hide Foreign;
    hide Install;
    FilterConcat(Foreign(all), kept, [line]);
    hide Filter;
    assert Filter(Foreign(all), kept) + [] == Filter(Foreign(all), kept);
  }

  lemma RenderedIsOurs(line: string, op: Op, all: seq<Op>)
    requires op in all && Owns(op.options.slug, line)
    ensures Filter(Foreign(all), [line]) == []
  {
    hide Owns;
    assert !IsForeign(all, line);
    FilterOne(Foreign(all), line);
  }

  /** Lines that no edited workspace owns survive every edit, in their order. */
  lemma {:induction false} ForeignLinesSurvive(content: string, ops: seq<Op>, all: seq<Op>)
    requires AllClean(ops) && forall op :: op in ops ==> op in all
    ensures Filter(Foreign(all), Lines(Run(content, ops))) == Filter(Foreign(all), Lines(content))
    decreases |ops|
  {
    hide Clean;
    hide Filter;
    if ops != [] {
      var front, op := ops[..|ops| - 1], ops[|ops| - 1];
      assert op in ops;
      ForeignLinesSurvive(content, front, all);
      ForeignStep(Run(content, front), op, all);
    }
  }

  /** A table of foreign lines gets exactly those lines back, in order, around the managed ones. */
  lemma ForeignTableKept(content: string, ops: seq<Op>)
    requires AllClean(ops) && forall l :: l in Lines(content) ==> IsForeign(ops, l)
    ensures Filter(Foreign(ops), Lines(Run(content, ops))) == Lines(content)
  {
    ForeignLinesSurvive(content, ops, ops);
    FilterAll(Foreign(ops), Lines(content));
  }

  /** Repeating an edit changes nothing. */
  lemma EditsAreIdempotent(content: string, op: Op)
    requires Clean(op.options)
    ensures Apply(Apply(content, op), op) == Apply(content, op)
  {
    var o := op.options;
    AfterInstall(content, o);
    AfterUninstall(content, o.slug);
    FilterAll(NotOwned(o.slug), Filter(NotOwned(o.slug), Lines(content)));
  }
}
