/** The session command line: how its arguments are built and quoted, and how a POSIX shell reads
    them back (sections 2.2.1, 2.2.2 and 2.3 of the POSIX.1-2017 Shell Command Language). */
module ShellQuoting {
  import opened Options

  /** Numbers are given by the text they print as. */
  datatype Invocation = Invocation(
    workspaceDir: string, briefPath: string, sessionId: string, wallClockSeconds: string,
    executor: Option<string>, workerRuntime: Option<string>, maxConcurrency: Option<string>)

  /** A flag of the session runner and its value. */
  datatype Setting = Setting(key: string, value: string)

  function Optional(key: string, value: Option<string>): seq<Setting> {
    if value.Some? then [Setting(key, value.value)] else []
  }

  /** An absent text and an empty one both add no flag. */
  function NonEmpty(value: Option<string>): Option<string> {
    if value == Some("") then None else value
  }

  /** What an invocation sets, in the order of the command line. */
  function Settings(i: Invocation): seq<Setting> {
    [Setting("workspace", i.workspaceDir), Setting("brief", i.briefPath),
     Setting("session", i.sessionId), Setting("wall-clock-seconds", i.wallClockSeconds)]
    + Optional("executor", NonEmpty(i.executor))
    + Optional("worker-runtime", NonEmpty(i.workerRuntime))
    + Optional("max-concurrency", i.maxConcurrency)
  }

  const DASHES := "--"
  const SCRIPT := "kernel/session/run.ts"

  function Flags(settings: seq<Setting>): seq<string> {
    if settings == [] then [] else [DASHES + settings[0].key, settings[0].value] + Flags(settings[1..])
  }

  function Arguments(i: Invocation): seq<string> {
    [SCRIPT] + Flags(Settings(i))
  }

  /** The runner's parser of `--flag value` lists: a flag before another flag, or last, means
      "true"; anything else is passed over. */
  function ParseArgs(argv: seq<string>, args: map<string, string>): map<string, string>
    decreases |argv|
  {
    if argv == [] then args
    else if !(DASHES <= argv[0]) then ParseArgs(argv[1..], args)
    else
      var key := argv[0][2..];
      if |argv| > 1 && !(DASHES <= argv[1]) then ParseArgs(argv[2..], args[key := argv[1]])
      else ParseArgs(argv[1..], args[key := "true"])
  }

  function AsMap(settings: seq<Setting>, args: map<string, string>): map<string, string> {
    if settings == [] then args else AsMap(settings[1..], args[settings[0].key := settings[0].value])
  }

  predicate Plainly(settings: seq<Setting>) {
    forall s :: s in settings ==> !(DASHES <= s.value)
  }

  lemma {:induction false} FlagsParse(settings: seq<Setting>, args: map<string, string>)
    requires Plainly(settings)
    ensures ParseArgs(Flags(settings), args) == AsMap(settings, args)
    decreases |settings|
  {
    if settings != [] {
      var s, argv := settings[0], Flags(settings);
      assert s in settings;
      assert argv[2..] == Flags(settings[1..]) && argv[0][2..] == s.key;
      FlagsParse(settings[1..], args[s.key := s.value]);
    }
  }

  /** The parser never hands out a value that looks like a flag. */
  lemma {:induction false} ParsedIsPlain(argv: seq<string>, args: map<string, string>)
    requires forall k :: k in args ==> !(DASHES <= args[k])
    ensures forall k :: k in ParseArgs(argv, args) ==> !(DASHES <= ParseArgs(argv, args)[k])
    decreases |argv|
  {
    if argv != [] {
      if !(DASHES <= argv[0]) {
        ParsedIsPlain(argv[1..], args);
      } else if |argv| > 1 && !(DASHES <= argv[1]) {
        ParsedIsPlain(argv[2..], args[argv[0][2..] := argv[1]]);
      } else {
        assert "true"[0] != DASHES[0];
        ParsedIsPlain(argv[1..], args[argv[0][2..] := "true"]);
      }
    }
  }

  predicate DistinctKeys(settings: seq<Setting>) {
    forall i, j :: 0 <= i < j < |settings| ==> settings[i].key != settings[j].key
  }

  lemma {:induction false} AsMapHolds(settings: seq<Setting>, args: map<string, string>)
    requires DistinctKeys(settings)
    ensures forall k :: k in args && (forall s :: s in settings ==> s.key != k) ==>
      k in AsMap(settings, args) && AsMap(settings, args)[k] == args[k]
    ensures forall s :: s in settings ==> s.key in AsMap(settings, args) && AsMap(settings, args)[s.key] == s.value
    decreases |settings|
  {
    if settings != [] {
      var first, rest := settings[0], settings[1..];
      forall i, j | 0 <= i < j < |rest| ensures rest[i].key != rest[j].key {
        assert rest[i] == settings[i + 1] && rest[j] == settings[j + 1];
      }
      AsMapHolds(rest, args[first.key := first.value]);
      forall s | s in rest ensures s.key != first.key {
        var i :| 0 <= i < |rest| && rest[i] == s;
        assert settings[i + 1] == s;
      }
      assert forall s :: s in settings <==> s == first || s in rest;
    }
  }

  lemma KeysDiffer()
    ensures "workspace" != "worker-runtime" && "workspace" != "wall-clock-seconds" && "wall-clock-seconds" != "worker-runtime"
    ensures "brief" != "session" && "brief" != "executor" && "session" != "executor"
  {
    assert "workspace"[4] == 's' && "worker-runtime"[4] == 'e';
    assert "wall-clock-seconds"[1] == 'a' && "workspace"[1] == 'o' && "worker-runtime"[1] == 'o';
    assert "brief"[0] == 'b' && "session"[0] == 's' && "executor"[0] == 'e';
  }

  lemma KeyInitials()
    ensures "workspace"[0] == 'w' && "brief"[0] == 'b' && "session"[0] == 's' && "wall-clock-seconds"[0] == 'w'
    ensures "executor"[0] == 'e' && "worker-runtime"[0] == 'w' && "max-concurrency"[0] == 'm'
  {}

  lemma SettingsAreDistinct(i: Invocation)
    ensures DistinctKeys(Settings(i))
  {
    KeysDiffer();
    KeyInitials();
  }

  /** The runner reads back exactly what the invocation sets if and only if none of its values looks
      like a flag. */
  lemma ArgumentsReadBack(i: Invocation)
    ensures ParseArgs(Arguments(i)[1..], map[]) == AsMap(Settings(i), map[]) <==> Plainly(Settings(i))
  {
    var settings := Settings(i);
    assert Arguments(i)[1..] == Flags(settings);
    if Plainly(settings) {
      FlagsParse(settings, map[]);
    } else {
      ParsedIsPlain(Flags(settings), map[]);
      SettingsAreDistinct(i);
      AsMapHolds(settings, map[]);
    }
  }

  lemma {:induction false} AsMapKeys(settings: seq<Setting>, args: map<string, string>, k: string)
    requires k in AsMap(settings, args)
    ensures k in args || exists s :: s in settings && s.key == k
    decreases |settings|
  {
    if settings != [] {
      AsMapKeys(settings[1..], args[settings[0].key := settings[0].value], k);
      assert settings[0] in settings;
    }
  }

  predicate LooksLikeFlag(v: string) {
    |v| > 1 && v[0] == '-' && v[1] == '-'
  }

  /** A text that is given and not empty. */
  predicate Given(value: Option<string>) {
    value.Some? && value.value != ""
  }

  predicate NoneLooksLikeFlag(i: Invocation) {
    && !LooksLikeFlag(i.workspaceDir) && !LooksLikeFlag(i.briefPath) && !LooksLikeFlag(i.sessionId)
    && !LooksLikeFlag(i.wallClockSeconds)
    && (i.executor.Some? ==> !LooksLikeFlag(i.executor.value))
    && (i.workerRuntime.Some? ==> !LooksLikeFlag(i.workerRuntime.value))
    && (i.maxConcurrency.Some? ==> !LooksLikeFlag(i.maxConcurrency.value))
  }

  predicate Reads(m: map<string, string>, key: string, value: string) {
    key in m && m[key] == value
  }

  lemma FlagsAreDashes(v: string)
    ensures DASHES <= v <==> LooksLikeFlag(v)
  {}

  lemma EmptyIsNoFlag()
    ensures !LooksLikeFlag("")
  {}

  lemma PlainConcat(a: seq<Setting>, b: seq<Setting>)
    ensures Plainly(a + b) <==> Plainly(a) && Plainly(b)
  {
    hide DASHES;
    assert forall s :: s in a + b <==> s in a || s in b;
  }

  lemma OptionalIsPlain(key: string, value: Option<string>)
    ensures Plainly(Optional(key, value)) <==> (value.Some? ==> !LooksLikeFlag(value.value))
    ensures Plainly(Optional(key, NonEmpty(value))) <==> (value.Some? ==> !LooksLikeFlag(value.value))
  {
    EmptyIsNoFlag();
    if value.Some? {
      FlagsAreDashes(value.value);
      assert Setting(key, value.value) in Optional(key, value);
      assert value.value != "" ==> Setting(key, value.value) in Optional(key, NonEmpty(value));
    }
    hide DASHES;
    hide LooksLikeFlag;
  }

  lemma FourArePlain(a: Setting, b: Setting, c: Setting, d: Setting)
    ensures Plainly([a, b, c, d]) <==>
      !LooksLikeFlag(a.value) && !LooksLikeFlag(b.value) && !LooksLikeFlag(c.value) && !LooksLikeFlag(d.value)
  {
    FlagsAreDashes(a.value);
    FlagsAreDashes(b.value);
    FlagsAreDashes(c.value);
    FlagsAreDashes(d.value);
    hide DASHES;
    hide LooksLikeFlag;
    var s := [a, b, c, d];
    assert a in s && b in s && c in s && d in s;
  }

  lemma FlagsLookLikeFlags(i: Invocation)
    ensures Plainly(Settings(i)) <==> NoneLooksLikeFlag(i)
  {
    hide Plainly;
    hide Optional;
    hide NonEmpty;
    hide LooksLikeFlag;
    var base := [Setting("workspace", i.workspaceDir), Setting("brief", i.briefPath),
                 Setting("session", i.sessionId), Setting("wall-clock-seconds", i.wallClockSeconds)];
    FourArePlain(base[0], base[1], base[2], base[3]);
    var e, w, m := Optional("executor", NonEmpty(i.executor)), Optional("worker-runtime", NonEmpty(i.workerRuntime)),
      Optional("max-concurrency", i.maxConcurrency);
    OptionalIsPlain("executor", i.executor);
    OptionalIsPlain("worker-runtime", i.workerRuntime);
    OptionalIsPlain("max-concurrency", i.maxConcurrency);
    PlainConcat(base + e + w, m);
    PlainConcat(base + e, w);
    PlainConcat(base, e);
  }

  /** Which field each setting carries. */
  lemma SettingsExactly(i: Invocation, key: string, value: string)
    ensures Setting(key, value) in Settings(i) <==>
      || (key == "workspace" && value == i.workspaceDir) || (key == "brief" && value == i.briefPath)
      || (key == "session" && value == i.sessionId) || (key == "wall-clock-seconds" && value == i.wallClockSeconds)
      || (key == "executor" && Given(i.executor) && value == i.executor.value)
      || (key == "worker-runtime" && Given(i.workerRuntime) && value == i.workerRuntime.value)
      || (key == "max-concurrency" && i.maxConcurrency == Some(value))
  {
    var s := Settings(i);
    assert s[0] == Setting("workspace", i.workspaceDir) && s[1] == Setting("brief", i.briefPath);
    assert s[2] == Setting("session", i.sessionId) && s[3] == Setting("wall-clock-seconds", i.wallClockSeconds);
  }

  /** What the session runner reads from the arguments, field by field: every value under its own
      key, an optional one only if it is given, and no key besides. */
  lemma FieldsReadBack(i: Invocation, key: string, value: string)
    requires NoneLooksLikeFlag(i)
    ensures Reads(ParseArgs(Arguments(i)[1..], map[]), key, value) <==>
      || (key == "workspace" && value == i.workspaceDir) || (key == "brief" && value == i.briefPath)
      || (key == "session" && value == i.sessionId) || (key == "wall-clock-seconds" && value == i.wallClockSeconds)
      || (key == "executor" && Given(i.executor) && value == i.executor.value)
      || (key == "worker-runtime" && Given(i.workerRuntime) && value == i.workerRuntime.value)
      || (key == "max-concurrency" && i.maxConcurrency == Some(value))
  {
    hide *;
    FlagsLookLikeFlags(i);
    ArgumentsReadBack(i);
    SettingsAreDistinct(i);
    MapReads(Settings(i), key, value);
    SettingsExactly(i, key, value);
  }

  lemma MapReads(settings: seq<Setting>, key: string, value: string)
    requires DistinctKeys(settings)
    ensures Reads(AsMap(settings, map[]), key, value) <==> Setting(key, value) in settings
  {
    AsMapHolds(settings, map[]);
    if key in AsMap(settings, map[]) {
      AsMapKeys(settings, map[], key);
      var s :| s in settings && s.key == key;
      assert s == Setting(key, s.value);
    }
  }

  /** The script the arguments name. */
  lemma ScriptIsFirst(i: Invocation)
    ensures Arguments(i) != [] && Arguments(i)[0] == "kernel/session/run.ts"
  {}

  lemma {:induction false} FlagsConcat(a: seq<Setting>, b: seq<Setting>)
    ensures Flags(a + b) == Flags(a) + Flags(b)
    decreases |a|
  {
    if a == [] {
      assert a + b == b;
    } else {
      FlagsConcat(a[1..], b);
      assert (a + b)[1..] == a[1..] + b;
    }
  }

  lemma OneFlag(key: string, value: string)
    ensures Flags([Setting(key, value)]) == [DASHES + key, value]
  {}

  lemma FourFlags(a: Setting, b: Setting, c: Setting, d: Setting)
    ensures Flags([a, b, c, d]) ==
      [DASHES + a.key, a.value, DASHES + b.key, b.value, DASHES + c.key, c.value, DASHES + d.key, d.value]
  {
    assert [a, b, c, d] == [a] + ([b] + ([c] + [d]));
    FlagsConcat([a], [b] + ([c] + [d]));
    FlagsConcat([b], [c] + [d]);
    FlagsConcat([c], [d]);
    OneFlag(a.key, a.value);
    OneFlag(b.key, b.value);
    OneFlag(c.key, c.value);
    OneFlag(d.key, d.value);
  }

  lemma FlagNames()
    ensures "--workspace" == DASHES + "workspace" && "--brief" == DASHES + "brief" && "--session" == DASHES + "session"
    ensures "--wall-clock-seconds" == DASHES + "wall-clock-seconds" && "--executor" == DASHES + "executor"
    ensures "--worker-runtime" == DASHES + "worker-runtime" && "--max-concurrency" == DASHES + "max-concurrency"
  {}

  /** Builds the arguments: the script, then flags the runner reads back as what was set, as long as
      no value looks like a flag. */
  method BuildArguments(i: Invocation) returns (args: seq<string>)
    ensures args == Arguments(i) && args[0] == SCRIPT
    ensures ParseArgs(args[1..], map[]) == AsMap(Settings(i), map[]) <==> Plainly(Settings(i))
  {
    hide Flags;
    ghost var settings := [Setting("workspace", i.workspaceDir), Setting("brief", i.briefPath),
                           Setting("session", i.sessionId), Setting("wall-clock-seconds", i.wallClockSeconds)];
    args := [SCRIPT, "--workspace", i.workspaceDir, "--brief", i.briefPath,
             "--session", i.sessionId, "--wall-clock-seconds", i.wallClockSeconds];
    FlagNames();
    BaseFlags(i);
    if i.executor.Some? && i.executor.value != "" {
      AddFlag(args, settings, "executor", i.executor.value);
      args := args + ["--executor", i.executor.value];
      settings := settings + [Setting("executor", i.executor.value)];
    }
    if i.workerRuntime.Some? && i.workerRuntime.value != "" {
      AddFlag(args, settings, "worker-runtime", i.workerRuntime.value);
      args := args + ["--worker-runtime", i.workerRuntime.value];
      settings := settings + [Setting("worker-runtime", i.workerRuntime.value)];
    }
    if i.maxConcurrency.Some? {
      AddFlag(args, settings, "max-concurrency", i.maxConcurrency.value);
      args := args + ["--max-concurrency", i.maxConcurrency.value];
      settings := settings + [Setting("max-concurrency", i.maxConcurrency.value)];
    }
    assert settings == Settings(i);
    ArgumentsReadBack(i);
    hide Plainly;
    hide ParseArgs;
    hide AsMap;
    hide Settings;
  }

  lemma BaseFlags(i: Invocation)
    ensures ["kernel/session/run.ts", "--workspace", i.workspaceDir, "--brief", i.briefPath,
             "--session", i.sessionId, "--wall-clock-seconds", i.wallClockSeconds]
      == [SCRIPT] + Flags([Setting("workspace", i.workspaceDir), Setting("brief", i.briefPath),
                           Setting("session", i.sessionId), Setting("wall-clock-seconds", i.wallClockSeconds)])
  {
    FlagNames();
    FourFlags(Setting("workspace", i.workspaceDir), Setting("brief", i.briefPath),
              Setting("session", i.sessionId), Setting("wall-clock-seconds", i.wallClockSeconds));
    hide Flags;
  }

  lemma AddFlag(args: seq<string>, settings: seq<Setting>, key: string, value: string)
    requires args == [SCRIPT] + Flags(settings)
    ensures args + [DASHES + key, value] == [SCRIPT] + Flags(settings + [Setting(key, value)])
  {
    FlagsConcat(settings, [Setting(key, value)]);
    OneFlag(key, value);
    hide Flags;
  }

  const QUOTE := '\''
  const BACKSLASH := '\\'

  predicate Bare(c: char) {
    'A' <= c <= 'Z' || 'a' <= c <= 'z' || '0' <= c <= '9' || c == '_' || c == '.' || c == '/' || c == '-'
  }

  /** Every quote becomes: close the quotes, an escaped quote, open them again. */
  function Escape(token: string): string {
    if token == "" then ""
    else (if token[0] == QUOTE then [QUOTE, BACKSLASH, QUOTE, QUOTE] else [token[0]]) + Escape(token[1..])
  }

  function ShellQuote(token: string): string {
    if token != "" && forall c :: c in token ==> Bare(c) then token
    else [QUOTE] + Escape(token) + [QUOTE]
  }

  /** Letters, digits, `_`, `.`, `/` and `-`, by code point. */
  predicate IsBare(c: char) {
    var n := c as int;
    45 <= n <= 57 || 65 <= n <= 90 || n == 95 || 97 <= n <= 122
  }

  /** A token is written as it is if and only if it is not empty and made of letters, digits and the
      four characters a shell gives no meaning; any other token is put into quotes. */
  lemma QuotedExactly(token: string)
    ensures ShellQuote(token) == token <==>
      token != "" && forall c :: c in token ==> IsBare(c)
    ensures ShellQuote(token) != token ==>
      |ShellQuote(token)| > 1 && ShellQuote(token)[0] == '\'' && ShellQuote(token)[|ShellQuote(token)| - 1] == '\''
  {
    forall c ensures Bare(c) <==> IsBare(c) {}
    hide Bare;
    hide IsBare;
    EscapeIsLonger(token);
  }

  lemma {:induction false} EscapeIsLonger(token: string)
    ensures |Escape(token)| >= |token|
    decreases |token|
  {
    if token != "" {
      EscapeIsLonger(token[1..]);
    }
  }

  function QuoteAll(tokens: seq<string>): string {
    if tokens == [] then ""
    else if |tokens| == 1 then ShellQuote(tokens[0])
    else ShellQuote(tokens[0]) + " " + QuoteAll(tokens[1..])
  }

  function CommandLine(i: Invocation): string {
    "tsx " + QuoteAll(Arguments(i))
  }

  // ---- the shell ----------------------------------------------------------------------------

  predicate Blank(c: char) {
    c == ' ' || c == '\t'
  }

  /** Unquoted characters that end a command, begin an expansion or may be given a meaning. */
  predicate Special(c: char) {
    c in {'|', '&', ';', '<', '>', '(', ')', '$', '`', '"', '\n', '*', '?', '[', '#', '~', '=', '%', '!', '{', '}'}
  }

  /** The words of a one-command line, or nothing when the line is not made of plain characters,
      escapes and single quotes. `word` is the word being read, if one has begun. */
  function Words(s: string, word: Option<string>): Option<seq<string>>
    decreases |s|
  {
    if s == "" then Some(if word.Some? then [word.value] else [])
    else
      var c, begun := s[0], if word.Some? then word.value else "";
      if c == QUOTE then Quoted(s[1..], begun)
      else if c == BACKSLASH then
        if |s| == 1 then None
        else if s[1] == '\n' then Words(s[2..], word)
        else Words(s[2..], Some(begun + [s[1]]))
      else if Blank(c) then
        match Words(s[1..], None)
        case None => None
        case Some(rest) => Some((if word.Some? then [word.value] else []) + rest)
      else if Special(c) then None
      else Words(s[1..], Some(begun + [c]))
  }

  /** Inside single quotes every character stands for itself. */
  function Quoted(s: string, word: string): Option<seq<string>>
    decreases |s|
  {
    if s == "" then None
    else if s[0] == QUOTE then Words(s[1..], Some(word))
    else Quoted(s[1..], word + [s[0]])
  }

  // ---- the round trip -----------------------------------------------------------------------

  lemma BareIsPlain(c: char)
    requires Bare(c)
    ensures c != QUOTE && c != BACKSLASH && !Blank(c) && !Special(c)
  {}

  lemma {:induction false} BareWord(token: string, rest: string, word: string)
    requires forall c :: c in token ==> Bare(c)
    ensures Words(token + rest, Some(word)) == Words(rest, Some(word + token))
    decreases |token|
  {
    if token == "" {
      assert token + rest == rest && word + token == word;
    } else {
      assert (token + rest)[1..] == token[1..] + rest;
      BareIsPlain(token[0]);
      BareWord(token[1..], rest, word + [token[0]]);
      assert word + [token[0]] + token[1..] == word + token;
    }
  }

  lemma {:induction false} EscapedWord(token: string, rest: string, word: string)
    ensures Quoted(Escape(token) + [QUOTE] + rest, word) == Words(rest, Some(word + token))
    decreases |token|
  {
    var s := Escape(token) + [QUOTE] + rest;
    if token == "" {
      assert s[1..] == rest && word + token == word;
    } else {
      var tail := Escape(token[1..]) + [QUOTE] + rest;
      EscapedWord(token[1..], rest, word + [token[0]]);
      assert word + [token[0]] + token[1..] == word + token;
      if token[0] == QUOTE {
        assert s == [QUOTE, BACKSLASH, QUOTE, QUOTE] + tail;
        assert s[1..] == [BACKSLASH, QUOTE, QUOTE] + tail;
        var escaped := [BACKSLASH, QUOTE, QUOTE] + tail;
        assert escaped[2..] == [QUOTE] + tail && ([QUOTE] + tail)[1..] == tail;
        assert Words(escaped, Some(word)) == Words(escaped[2..], Some(word + [QUOTE]));
        assert Words([QUOTE] + tail, Some(word + [QUOTE])) == Quoted(tail, word + [QUOTE]);
      } else {
        assert s == [token[0]] + tail && s[1..] == tail;
      }
    }
  }

  lemma BareToken(token: string, rest: string)
    requires token != "" && forall c :: c in token ==> Bare(c)
    ensures Words(token + rest, None) == Words(rest, Some(token))
  {
    var s := token + rest;
    assert s[0] == token[0] && s[1..] == token[1..] + rest;
    BareIsPlain(token[0]);
    BareWord(token[1..], rest, [token[0]]);
    assert [token[0]] + token[1..] == token && "" + [token[0]] == [token[0]];
    assert Words(s, None) == Words(s[1..], Some([token[0]]));
  }

  lemma EscapedToken(token: string, rest: string)
    ensures Words([QUOTE] + Escape(token) + [QUOTE] + rest, None) == Words(rest, Some(token))
  {
    var inner := Escape(token) + [QUOTE] + rest;
    var s := [QUOTE] + Escape(token) + [QUOTE] + rest;
    EscapedWord(token, rest, "");
    hide Escape;
    assert s == [QUOTE] + inner && s[0] == QUOTE && s[1..] == inner;
    assert Words(s, None) == Quoted(inner, "");
    assert "" + token == token;
  }

  /** A quoted token reads as the one word it was made from, whatever it holds. */
  lemma QuotedToken(token: string, rest: string)
    ensures Words(ShellQuote(token) + rest, None) == Words(rest, Some(token))
  {
    if token != "" && forall c :: c in token ==> Bare(c) {
      BareToken(token, rest);
    } else {
      EscapedToken(token, rest);
    }
    hide Words;
    hide Escape;
    hide Bare;
  }

  lemma {:induction false} QuotedTokens(tokens: seq<string>)
    requires tokens != []
    ensures Words(QuoteAll(tokens), None) == Some(tokens)
    decreases |tokens|
  {
    if |tokens| == 1 {
      QuotedToken(tokens[0], "");
      assert ShellQuote(tokens[0]) + "" == ShellQuote(tokens[0]);
      assert Words("", Some(tokens[0])) == Some([tokens[0]]) && tokens == [tokens[0]];
    } else {
      var rest := QuoteAll(tokens[1..]);
      QuotedTokens(tokens[1..]);
      QuotedToken(tokens[0], " " + rest);
      assert ShellQuote(tokens[0]) + " " + rest == ShellQuote(tokens[0]) + (" " + rest);
      assert (" " + rest)[1..] == rest;
      assert tokens == [tokens[0]] + tokens[1..];
    }
  }

  /** The shell reads the command line as `tsx` followed by exactly the built arguments. */
  lemma CommandLineRoundTrip(i: Invocation)
    ensures Words(CommandLine(i), None) == Some(["tsx"] + Arguments(i))
  {
    var args := Arguments(i);
    hide Arguments;
    BareTsx();
    QuotedTokens(["tsx"] + args);
    assert (["tsx"] + args)[1..] == args;
    assert CommandLine(i) == QuoteAll(["tsx"] + args) by {
      assert args != [] by { ArgumentsNotEmpty(i); }
    }
  }

  lemma ArgumentsNotEmpty(i: Invocation)
    ensures Arguments(i) != []
  {}

  lemma BareTsx()
    ensures ShellQuote("tsx") == "tsx"
  {}

  /** Different invocations whose arguments differ never share a command line. */
  lemma CommandLineIsInjective(i: Invocation, j: Invocation)
    requires CommandLine(i) == CommandLine(j)
    ensures Arguments(i) == Arguments(j)
  {
    CommandLineRoundTrip(i);
    CommandLineRoundTrip(j);
    assert (["tsx"] + Arguments(i))[1..] == Arguments(i);
    assert (["tsx"] + Arguments(j))[1..] == Arguments(j);
  }
}
