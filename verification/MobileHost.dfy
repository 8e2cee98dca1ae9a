/** The native host transport. Calls of `execute` interleave at their awaits: one before the
    support answer, and for a screenshot one before and one after the capture. Each method below
    is one stretch of code between two awaits. Clock readings and the outcomes of host commands
    are what the environment decides. */
module MobileHost {
  import opened Options
  import opened Graphs
  import opened MobileContract

  const PROVIDER := "b2c/host-native-mobile"

  /** The host is bound to one installed build. */
  datatype Host = Host(target: Target, captureArtifactId: string, canReadForeground: bool)

  function Operations(h: Host): seq<Operation> {
    [Launch, Inspect] + (if h.canReadForeground && h.captureArtifactId != "" then [Screenshot] else [])
  }

  /** The support answer, from whether the target was inspected and the foreground read. */
  function HostSupport(h: Host, inspected: bool, foreground: bool, checkedAt: int): Support {
    var operations := if foreground then Operations(h) else [Launch, Inspect];
    Support(PROVIDER, inspected, checkedAt, if inspected then [Tuple(Ios, Simulator, operations)] else [])
  }

  datatype Command = LaunchApp(key: string) | TakeScreenshot(key: string)

  datatype Phase =
    | AwaitingSupport
    | BeforeCapture
    | AfterCapture(captured: Bytes)
    | Returned(observation: Observation, bytes: Option<Bytes>)
    | Threw

  datatype Call = Call(request: Request, key: string, phase: Phase)
  datatype Entry = Entry(request: Request, observation: Observation, pid: Option<string>)

  datatype State = State(
    clock: int, calls: seq<Call>, dispatched: set<string>, completed: map<string, Entry>, log: seq<Command>)

  const IDLE := State(0, [], {}, map[], [])

  /** Outcomes of the synchronous host commands of one stretch of code. */
  datatype Event =
    | Begin(request: Request, key: string)
    | SupportReady(n: nat, inspected: bool, foreground: bool, checkedAt: int, now: int,
                   reinspected: bool, pid: Option<string>, confirmed: bool, observedAt: int)
    | ForegroundBefore(n: nat, matches: bool, bytes: Option<Bytes>, now: int)
    | ForegroundAfter(n: nat, matches: bool, confirmed: bool, observedAt: int)

  /** The clock never runs backwards. A support answer may be older than the last reading: other
      calls go on while its call waits. */
  predicate Enabled(s: State, e: Event) {
    match e
    case Begin(_, _) => true
    case SupportReady(n, _, _, checkedAt, now, _, _, _, observedAt) =>
      n < |s.calls| && s.calls[n].phase == AwaitingSupport && checkedAt <= now && s.clock <= now <= observedAt
    case ForegroundBefore(n, _, _, now) => n < |s.calls| && s.calls[n].phase == BeforeCapture && s.clock <= now
    case ForegroundAfter(n, _, _, observedAt) =>
      n < |s.calls| && s.calls[n].phase.AfterCapture? && s.clock <= observedAt
  }

  function Observe(h: Host, c: Call, observedAt: int, capture: Option<Capture>): Observation {
    Observation(PROVIDER, c.request.operation, h.target, c.key, observedAt, Completed, 0, capture)
  }

  function CaptureOf(h: Host, r: Request, bytes: Bytes): Capture
    requires |bytes| >= 24
  {
    Capture(h.captureArtifactId, bytes, Png, BigEndian(bytes, 16), BigEndian(bytes, 20), None, r.stateId)
  }

  function SetPhase(s: State, n: nat, phase: Phase): State
    requires n < |s.calls|
  {
    s.(calls := s.calls[n := s.calls[n].(phase := phase)])
  }

  function Complete(h: Host, s: State, n: nat, observedAt: int, bytes: Option<Bytes>, pid: Option<string>): State
    requires n < |s.calls| && (bytes.Some? ==> |bytes.value| >= 24)
  {
    var c := s.calls[n];
    var capture := if bytes.Some? then Some(CaptureOf(h, c.request, bytes.value)) else None;
    var o := Observe(h, c, observedAt, capture);
    SetPhase(s, n, Returned(o, bytes)).(completed := s.completed[c.key := Entry(c.request, o, pid)])
  }

  /** What the host refuses before it marks the key as dispatched. */
  predicate Admitted(h: Host, s: State, e: Event)
    requires e.SupportReady? && e.n < |s.calls|
  {
    var c := s.calls[e.n];
    && RequireSupport(c.request, HostSupport(h, e.inspected, e.foreground, e.checkedAt), e.now).Ok?
    && c.request.target == h.target
    && c.key != "" && c.key !in s.dispatched
    && e.reinspected
  }

  /** The admitted call spends its key and carries on with its own operation. */
  function Dispatch(h: Host, s: State, n: nat, pid: Option<string>, confirmed: bool, observedAt: int): State
    requires n < |s.calls|
  {
    var key := s.calls[n].key;
    var marked := s.(dispatched := s.dispatched + {key});
    match s.calls[n].request.operation
    case Launch =>
      var issued := marked.(log := s.log + [LaunchApp(key)]);
      if pid.None? || !confirmed then SetPhase(issued, n, Threw)
      else Complete(h, issued, n, observedAt, None, pid)
    case Screenshot => SetPhase(marked, n, BeforeCapture)
    case Inspect =>
      if !confirmed then SetPhase(marked, n, Threw) else Complete(h, marked, n, observedAt, None, None)
    case _ => SetPhase(marked, n, Threw)
  }

  function Step(h: Host, s: State, e: Event): State
    requires Enabled(s, e)
  {
    match e
    case Begin(request, key) => s.(calls := s.calls + [Call(request, key, AwaitingSupport)])
    case SupportReady(n, _, _, _, _, _, pid, confirmed, observedAt) =>
      var c, later := s.calls[n], s.(clock := observedAt);
      if Admitted(h, s, e) then Dispatch(h, later, n, pid, confirmed, observedAt) else SetPhase(later, n, Threw)
    case ForegroundBefore(n, matches, bytes, now) =>
      var c, later := s.calls[n], s.(clock := now);
      if !matches then SetPhase(later, n, Threw)
      else
        var issued := later.(log := s.log + [TakeScreenshot(c.key)]);
        if bytes.None? || !PngShape(bytes.value) then SetPhase(issued, n, Threw)
        else SetPhase(issued, n, AfterCapture(bytes.value))
    case ForegroundAfter(n, matches, confirmed, observedAt) =>
      var c, later := s.calls[n], s.(clock := observedAt);
      if !matches || !confirmed || |c.phase.captured| < 24 then SetPhase(later, n, Threw)
      else Complete(h, later, n, observedAt, Some(c.phase.captured), None)
  }

  /** The transport closure: its two collections, and for the proof the calls in flight, the clock
      and the commands issued. */
  class Transport {
    const host: Host
    var dispatched: set<string>
    var completed: map<string, Entry>
    ghost var calls: seq<Call>
    ghost var clock: int
    ghost var log: seq<Command>

    ghost function Now(): State
      reads this
    {
      State(clock, calls, dispatched, completed, log)
    }

    constructor (host: Host)
      ensures this.host == host && Now() == IDLE
    {
      this.host := host;
      dispatched, completed := {}, map[];
      calls, clock, log := [], 0, [];
    }

    ghost method Execute(request: Request, key: string)
      modifies this
      ensures Now() == Step(host, old(Now()), Begin(request, key))
    {
      calls := calls + [Call(request, key, AwaitingSupport)];
    }

    method Record(ghost n: nat, request: Request, key: string, observedAt: int, bytes: Option<Bytes>, pid: Option<string>)
      requires n < |calls| && calls[n].request == request && calls[n].key == key
      requires bytes.Some? ==> |bytes.value| >= 24
      modifies this
      ensures Now() == Complete(host, old(Now()), n, observedAt, bytes, pid)
    {
      var capture := if bytes.Some? then Some(CaptureOf(host, request, bytes.value)) else None;
      var observation := Observation(PROVIDER, request.operation, host.target, key, observedAt, Completed, 0, capture);
      completed := completed[key := Entry(request, observation, pid)];
      calls := calls[n := calls[n].(phase := Returned(observation, bytes))];
    }

    /** From the support answer to the next await, or to the end. */
    method AfterSupport(request: Request, key: string, ghost e: Event, support: Support, now: int,
                        reinspected: bool, pid: Option<string>, confirmed: bool, observedAt: int)
      requires e.SupportReady? && Enabled(Now(), e)
      requires calls[e.n].request == request && calls[e.n].key == key
      requires support == HostSupport(host, e.inspected, e.foreground, e.checkedAt)
      requires now == e.now && reinspected == e.reinspected && pid == e.pid
      requires confirmed == e.confirmed && observedAt == e.observedAt
      modifies this
      ensures Now() == Step(host, old(Now()), e)
    {
      clock := observedAt;
      var negotiated := RequireSupport(request, support, now);
      if negotiated.Err? || request.target != host.target || key == "" || key in dispatched || !reinspected {
        calls := calls[e.n := calls[e.n].(phase := Threw)];
        return;
      }
      dispatched := dispatched + {key};
      match request.operation {
        case Launch =>
          log := log + [LaunchApp(key)];
          if pid.None? || !confirmed {
            calls := calls[e.n := calls[e.n].(phase := Threw)];
          } else {
            Record(e.n, request, key, observedAt, None, pid);
          }
        case Screenshot =>
          calls := calls[e.n := calls[e.n].(phase := BeforeCapture)];
        case Inspect =>
          if !confirmed {
            calls := calls[e.n := calls[e.n].(phase := Threw)];
          } else {
            Record(e.n, request, key, observedAt, None, None);
          }
        case _ =>
          calls := calls[e.n := calls[e.n].(phase := Threw)];
      }
    }

    /** From the first foreground answer to the second await. */
    method TakeCapture(key: string, ghost e: Event, matches: bool, bytes: Option<Bytes>)
      requires e.ForegroundBefore? && Enabled(Now(), e)
      requires calls[e.n].key == key && matches == e.matches && bytes == e.bytes
      modifies this
      ensures Now() == Step(host, old(Now()), e)
    {
      clock := e.now;
      if !matches {
        calls := calls[e.n := calls[e.n].(phase := Threw)];
        return;
      }
      log := log + [TakeScreenshot(key)];
      if bytes.None? || |bytes.value| < 24 || bytes.value[..8] != PNG_SIGNATURE {
        calls := calls[e.n := calls[e.n].(phase := Threw)];
      } else {
        calls := calls[e.n := calls[e.n].(phase := AfterCapture(bytes.value))];
      }
    }

    /** From the second foreground answer to the result. */
    method FinishCapture(request: Request, key: string, ghost e: Event, bytes: Bytes,
                         matches: bool, confirmed: bool, observedAt: int)
      requires e.ForegroundAfter? && Enabled(Now(), e)
      requires calls[e.n].request == request && calls[e.n].key == key && calls[e.n].phase.captured == bytes
      requires matches == e.matches && confirmed == e.confirmed && observedAt == e.observedAt
      modifies this
      ensures Now() == Step(host, old(Now()), e)
    {
      clock := observedAt;
      if !matches || !confirmed || |bytes| < 24 {
        calls := calls[e.n := calls[e.n].(phase := Threw)];
      } else {
        Record(e.n, request, key, observedAt, Some(bytes), None);
      }
    }

    /** The readback of an earlier execution. `now` is the freshness clock; the booleans are the
        host's own readbacks. */
    method ReadBack(request: Request, key: string, now: int, inspected: bool, running: bool, foreground: bool)
      returns (answer: Option<Observation>, threw: bool)
      ensures answer.Some? ==> key in completed && completed[key].request == request && answer.value == completed[key].observation
      ensures threw <==> key in completed && completed[key].request == request && answer.None?
      ensures answer == Answer(completed, request, key, now, inspected, running, foreground)
    {
      if key !in completed || completed[key].request != request {
        return None, false;
      }
      var previous := completed[key];
      if !Fresh(previous.observation.observedAt, now) || !inspected
         || (previous.pid.Some? && !running) || (previous.observation.capture.Some? && !foreground) {
        return None, true;
      }
      answer, threw := Some(previous.observation), false;
    }
  }

  function Answer(completed: map<string, Entry>, request: Request, key: string, now: int,
                  inspected: bool, running: bool, foreground: bool): Option<Observation> {
    if key in completed && completed[key].request == request
       && Fresh(completed[key].observation.observedAt, now) && inspected
       && (completed[key].pid.Some? ==> running) && (completed[key].observation.capture.Some? ==> foreground)
    then Some(completed[key].observation) else None
  }

  // ---- runs ---------------------------------------------------------------------------------

  ghost predicate IsRun(h: Host, events: seq<Event>, states: seq<State>) {
    && |states| == |events| + 1 && states[0] == IDLE
    && forall i :: 0 <= i < |events| ==>
         Enabled(states[i], events[i]) && states[i + 1] == Step(h, states[i], events[i])
  }

  predicate InFlight(c: Call) {
    c.phase == BeforeCapture || c.phase.AfterCapture?
  }

  function Keys(log: seq<Command>): seq<string> {
    seq(|log|, i requires 0 <= i < |log| => log[i].key)
  }

  /** A key is spent by the call that dispatched it: no command and no result carries a key that
      another call still holds. */
  ghost predicate OnceInv(s: State) {
    && (forall i :: 0 <= i < |s.calls| && InFlight(s.calls[i]) ==> s.calls[i].key in s.dispatched)
    && (forall i, j :: 0 <= i < j < |s.calls| && InFlight(s.calls[i]) && InFlight(s.calls[j]) ==> s.calls[i].key != s.calls[j].key)
    && (forall i :: 0 <= i < |s.calls| && s.calls[i].phase == BeforeCapture ==> s.calls[i].key !in Keys(s.log))
    && (forall i :: 0 <= i < |s.calls| && InFlight(s.calls[i]) ==> s.calls[i].key !in s.completed)
    && NoDup(Keys(s.log)) && (forall k :: k in Keys(s.log) ==> k in s.dispatched)
    && s.completed.Keys <= s.dispatched
  }

  lemma KeysSnoc(log: seq<Command>, c: Command)
    ensures Keys(log + [c]) == Keys(log) + [c.key]
  {}

  /** Dropping a call from flight frees nothing. */
  lemma ThrowKeeps(s: State, n: nat)
    requires OnceInv(s) && n < |s.calls|
    ensures OnceInv(SetPhase(s, n, Threw))
  {}

  /** A fresh key may be spent and its launch issued. */
  lemma SpendKeeps(s: State, key: string)
    requires OnceInv(s) && key !in s.dispatched
    ensures OnceInv(s.(dispatched := s.dispatched + {key}))
    ensures OnceInv(s.(dispatched := s.dispatched + {key}, log := s.log + [LaunchApp(key)]))
    ensures forall i :: 0 <= i < |s.calls| && InFlight(s.calls[i]) ==> s.calls[i].key != key
  {
    KeysSnoc(s.log, LaunchApp(key));
  }

  /** A result may be recorded under a spent key that no other call in flight holds. */
  lemma CompleteKeeps(h: Host, s: State, n: nat, observedAt: int, bytes: Option<Bytes>, pid: Option<string>)
    requires OnceInv(s) && n < |s.calls| && (bytes.Some? ==> |bytes.value| >= 24)
    requires s.calls[n].key in s.dispatched
    requires forall i :: 0 <= i < |s.calls| && i != n && InFlight(s.calls[i]) ==> s.calls[i].key != s.calls[n].key
    ensures OnceInv(Complete(h, s, n, observedAt, bytes, pid))
  {}

  /** A screenshot call takes hold of a fresh key. */
  lemma HoldKeeps(s: State, n: nat)
    requires OnceInv(s) && n < |s.calls| && s.calls[n].key !in s.dispatched
    ensures OnceInv(SetPhase(s.(dispatched := s.dispatched + {s.calls[n].key}), n, BeforeCapture))
  {}

  /** The screenshot of a held key is issued as its call leaves the waiting phase. */
  lemma CaptureKeeps(s: State, n: nat, phase: Phase)
    requires OnceInv(s) && n < |s.calls| && s.calls[n].phase == BeforeCapture && phase != BeforeCapture
    ensures OnceInv(SetPhase(s.(log := s.log + [TakeScreenshot(s.calls[n].key)]), n, phase))
  {
    KeysSnoc(s.log, TakeScreenshot(s.calls[n].key));
    var t := SetPhase(s.(log := s.log + [TakeScreenshot(s.calls[n].key)]), n, phase);
    assert forall i :: 0 <= i < |t.calls| && i != n ==> t.calls[i] == s.calls[i];
  }

  lemma ClockKeeps(s: State, clock: int)
    requires OnceInv(s)
    ensures OnceInv(s.(clock := clock))
  {}

  lemma BeginKeeps(s: State, request: Request, key: string)
    requires OnceInv(s)
    ensures OnceInv(s.(calls := s.calls + [Call(request, key, AwaitingSupport)]))
  {}

  lemma DispatchKeeps(h: Host, s: State, n: nat, pid: Option<string>, confirmed: bool, observedAt: int)
    requires OnceInv(s) && n < |s.calls| && s.calls[n].key !in s.dispatched
    ensures OnceInv(Dispatch(h, s, n, pid, confirmed, observedAt))
  {
    var key := s.calls[n].key;
    SpendKeeps(s, key);
    HoldKeeps(s, n);
    hide OnceInv;
    hide Complete;
    var marked := s.(dispatched := s.dispatched + {key});
    var issued := marked.(log := s.log + [LaunchApp(key)]);
    match s.calls[n].request.operation {
      case Launch =>
        ThrowKeeps(issued, n);
        CompleteKeeps(h, issued, n, observedAt, None, pid);
      case Screenshot =>
      case Inspect =>
        ThrowKeeps(marked, n);
        CompleteKeeps(h, marked, n, observedAt, None, None);
      case _ => ThrowKeeps(marked, n);
    }
  }

  lemma StepKeepsOnce(h: Host, s: State, e: Event)
    requires OnceInv(s) && Enabled(s, e)
    ensures OnceInv(Step(h, s, e))
  {
    match e {
      case Begin(request, key) => BeginKeeps(s, request, key);
      case SupportReady(n, _, _, _, _, _, pid, confirmed, observedAt) =>
        ClockKeeps(s, observedAt);
        ThrowKeeps(s.(clock := observedAt), n);
        if Admitted(h, s, e) {
          DispatchKeeps(h, s.(clock := observedAt), n, pid, confirmed, observedAt);
        }
        hide OnceInv;
        hide Admitted;
      case ForegroundBefore(n, _, bytes, now) =>
        ClockKeeps(s, now);
        ThrowKeeps(s.(clock := now), n);
        CaptureKeeps(s.(clock := now), n, Threw);
        if bytes.Some? {
          CaptureKeeps(s.(clock := now), n, AfterCapture(bytes.value));
        }
        hide OnceInv;
      case ForegroundAfter(n, _, _, observedAt) =>
        ClockKeeps(s, observedAt);
        ThrowKeeps(s.(clock := observedAt), n);
        if |s.calls[n].phase.captured| >= 24 {
          CompleteKeeps(h, s.(clock := observedAt), n, observedAt, Some(s.calls[n].phase.captured), None);
        }
        hide OnceInv;
    }
  }

  /** A result once recorded stays as it is. */
  lemma StepKeepsResults(h: Host, s: State, e: Event, key: string)
    requires OnceInv(s) && Enabled(s, e) && key in s.completed
    ensures key in Step(h, s, e).completed && Step(h, s, e).completed[key] == s.completed[key]
  {}

  /** Over every interleaving, with any failures, a key launches or captures at most once, every
      recorded result belongs to a dispatched key, and a recorded result is never replaced. */
  lemma {:induction false} EffectsHappenAtMostOnce(h: Host, events: seq<Event>, states: seq<State>, i: nat, k: nat)
    requires IsRun(h, events, states) && i <= k < |states|
    ensures OnceInv(states[k])
    ensures NoDup(Keys(states[k].log)) && states[k].completed.Keys <= states[k].dispatched
    ensures forall key :: key in states[i].completed ==>
      key in states[k].completed && states[k].completed[key] == states[i].completed[key]
    decreases k
  {
    hide OnceInv;
    if k == 0 {
      IdleOnce();
    } else {
      EffectsHappenAtMostOnce(h, events, states, if i < k then i else 0, k - 1);
      StepKeepsOnce(h, states[k - 1], events[k - 1]);
      forall key | key in states[i].completed
        ensures key in states[k].completed && states[k].completed[key] == states[i].completed[key]
      {
        if i < k {
          StepKeepsResults(h, states[k - 1], events[k - 1], key);
        }
      }
    }
    OnceMeans(states[k]);
  }

  lemma IdleOnce()
    ensures OnceInv(IDLE)
  {}

  lemma OnceMeans(s: State)
    requires OnceInv(s)
    ensures NoDup(Keys(s.log)) && s.completed.Keys <= s.dispatched
  {}

  // ---- the host refines the contract --------------------------------------------------------

  /** A request the host has admitted: its own target, an operation it supports, nothing more. */
  predicate Admissible(h: Host, r: Request, key: string, clock: int) {
    && RequestSchema(r) && r.providerId == PROVIDER && r.target == h.target && key != ""
    && r.operation in Operations(h) && r.actions.None? && r.durationSeconds.None?
    && r.requestedAt <= clock
  }

  /** An observation the host may return for a request. */
  predicate Earned(h: Host, r: Request, key: string, o: Observation) {
    && Admissible(h, r, key, o.observedAt)
    && o == Observation(PROVIDER, r.operation, h.target, key, o.observedAt, Completed, 0, o.capture)
    && (r.operation == Screenshot <==> o.capture.Some?)
    && (o.capture.Some? ==> PngShape(o.capture.value.digest) && o.capture.value == CaptureOf(h, r, o.capture.value.digest))
  }

  function BytesOf(o: Observation): Option<Bytes> {
    if o.capture.Some? then Some(o.capture.value.digest) else None
  }

  predicate CallInv(h: Host, c: Call, clock: int) {
    && (InFlight(c) ==> Admissible(h, c.request, c.key, clock) && c.request.operation == Screenshot)
    && (c.phase.AfterCapture? ==> PngShape(c.phase.captured))
    && (c.phase.Returned? ==> Earned(h, c.request, c.key, c.phase.observation) && c.phase.bytes == BytesOf(c.phase.observation))
  }

  predicate EntryInv(h: Host, key: string, e: Entry) {
    Earned(h, e.request, key, e.observation)
  }

  ghost predicate EarnInv(h: Host, s: State) {
    && (forall c :: c in s.calls ==> CallInv(h, c, s.clock))
    && (forall k :: k in s.completed ==> EntryInv(h, k, s.completed[k]))
  }

  lemma AdmittedIsAdmissible(h: Host, s: State, e: Event)
    requires e.SupportReady? && Enabled(s, e) && Admitted(h, s, e)
    ensures Admissible(h, s.calls[e.n].request, s.calls[e.n].key, e.observedAt)
  {}

  lemma SetPhaseKeepsEarned(h: Host, s: State, n: nat, phase: Phase)
    requires EarnInv(h, s) && n < |s.calls| && CallInv(h, s.calls[n].(phase := phase), s.clock)
    ensures EarnInv(h, SetPhase(s, n, phase))
  {}

  lemma CompleteKeepsEarned(h: Host, s: State, n: nat, observedAt: int, bytes: Option<Bytes>, pid: Option<string>)
    requires EarnInv(h, s) && n < |s.calls| && (bytes.Some? ==> PngShape(bytes.value))
    requires Admissible(h, s.calls[n].request, s.calls[n].key, observedAt)
    requires s.calls[n].request.operation == Screenshot <==> bytes.Some?
    ensures EarnInv(h, Complete(h, s, n, observedAt, bytes, pid))
  {}

  lemma ClockKeepsEarned(h: Host, s: State, clock: int)
    requires EarnInv(h, s) && s.clock <= clock
    ensures EarnInv(h, s.(clock := clock))
  {}

  lemma DispatchKeepsEarned(h: Host, s: State, n: nat, pid: Option<string>, confirmed: bool, observedAt: int)
    requires EarnInv(h, s) && n < |s.calls| && s.clock == observedAt
    requires Admissible(h, s.calls[n].request, s.calls[n].key, observedAt)
    ensures EarnInv(h, Dispatch(h, s, n, pid, confirmed, observedAt))
  {}

  lemma StepKeepsEarned(h: Host, s: State, e: Event)
    requires EarnInv(h, s) && Enabled(s, e)
    ensures EarnInv(h, Step(h, s, e))
  {
    match e {
      case Begin(request, key) =>
        assert CallInv(h, Call(request, key, AwaitingSupport), s.clock);
        hide CallInv;
        hide EntryInv;
      case SupportReady(n, _, _, _, _, _, pid, confirmed, observedAt) =>
        ClockKeepsEarned(h, s, observedAt);
        SetPhaseKeepsEarned(h, s.(clock := observedAt), n, Threw);
        if Admitted(h, s, e) {
          AdmittedIsAdmissible(h, s, e);
          DispatchKeepsEarned(h, s.(clock := observedAt), n, pid, confirmed, observedAt);
        }
        hide EarnInv;
        hide Admitted;
      case ForegroundBefore(n, _, bytes, now) => BeforeKeepsEarned(h, s, e);
      case ForegroundAfter(n, _, _, observedAt) => AfterKeepsEarned(h, s, e);
    }
  }

  lemma BeforeKeepsEarned(h: Host, s: State, e: Event)
    requires EarnInv(h, s) && Enabled(s, e) && e.ForegroundBefore?
    ensures EarnInv(h, Step(h, s, e))
  {
    var c, later := s.calls[e.n], s.(clock := e.now);
    var issued := later.(log := s.log + [TakeScreenshot(c.key)]);
    ClockKeepsEarned(h, s, e.now);
    assert CallInv(h, c, e.now);
    SetPhaseKeepsEarned(h, later, e.n, Threw);
    SetPhaseKeepsEarned(h, issued, e.n, Threw);
    if e.bytes.Some? && PngShape(e.bytes.value) {
      SetPhaseKeepsEarned(h, issued, e.n, AfterCapture(e.bytes.value));
    }
    hide EarnInv;
  }

  lemma AfterKeepsEarned(h: Host, s: State, e: Event)
    requires EarnInv(h, s) && Enabled(s, e) && e.ForegroundAfter?
    ensures EarnInv(h, Step(h, s, e))
  {
    var c, later := s.calls[e.n], s.(clock := e.observedAt);
    ClockKeepsEarned(h, s, e.observedAt);
    assert CallInv(h, c, e.observedAt);
    SetPhaseKeepsEarned(h, later, e.n, Threw);
    CompleteKeepsEarned(h, later, e.n, e.observedAt, Some(c.phase.captured), None);
    hide EarnInv;
  }

  lemma {:induction false} RunKeepsEarned(h: Host, events: seq<Event>, states: seq<State>, k: nat)
    requires IsRun(h, events, states) && k < |states|
    ensures EarnInv(h, states[k])
    decreases k
  {
    if k > 0 {
      RunKeepsEarned(h, events, states, k - 1);
      StepKeepsEarned(h, states[k - 1], events[k - 1]);
    }
  }

  predicate Positive(o: Observation) {
    o.capture.Some? ==> o.capture.value.width > 0 && o.capture.value.height > 0
  }

  /** A route for the operation accepts an earned observation in its window, and only there: what
      it may still hold against it is a capture of no extent or of another artifact. */
  lemma RouteAcceptsEarned(h: Host, r: Request, key: string, o: Observation, route: Route, now: int)
    requires Earned(h, r, key, o) && route.operation == r.operation && RouteDeclared(route)
    ensures RouteExecute(route, r, o, BytesOf(o), now).Ok? <==>
      Fresh(o.observedAt, now) && Positive(o) && (o.capture.Some? ==> route.captureArtifactId == h.captureArtifactId)
    ensures RouteExecute(route, r, o, BytesOf(o), now).Ok? ==>
      RouteExecute(route, r, o, BytesOf(o), now).value == MobileResult(o, o.capture.Some?)
  {}

  /** Whatever a call of the host returns in any run passes the route's checks exactly within the
      freshness window, given a capture with extent under the artifact the route declares. */
  lemma HostRefinesContract(h: Host, events: seq<Event>, states: seq<State>, k: nat, c: Call, route: Route, now: int)
    requires IsRun(h, events, states) && k < |states| && c in states[k].calls && c.phase.Returned?
    requires route.operation == c.request.operation && RouteDeclared(route)
    ensures RouteExecute(route, c.request, c.phase.observation, c.phase.bytes, now).Ok? <==>
      Fresh(c.phase.observation.observedAt, now) && Positive(c.phase.observation)
      && (c.phase.bytes.Some? ==> route.captureArtifactId == h.captureArtifactId)
  {
    RunKeepsEarned(h, events, states, k);
    assert CallInv(h, c, states[k].clock);
    RouteAcceptsEarned(h, c.request, c.key, c.phase.observation, route, now);
  }

  /** What the route recorded it recognises again, by the same request and key, exactly while the
      result is fresh for host and route and the host's own readbacks succeed. */
  lemma LaterObserveRecognises(h: Host, events: seq<Event>, states: seq<State>, k: nat, key: string,
                               route: Route, recordedAt: int, support: Support, supportNow: int,
                               hostNow: int, inspected: bool, running: bool, foreground: bool, now: int)
    requires IsRun(h, events, states) && k < |states| && key in states[k].completed
    requires route.operation == states[k].completed[key].request.operation && RouteDeclared(route)
    requires route.providerId == PROVIDER
    requires RouteExecute(route, states[k].completed[key].request, states[k].completed[key].observation,
                          BytesOf(states[k].completed[key].observation), recordedAt).Ok?
    requires RequireSupport(states[k].completed[key].request, support, supportNow).Ok?
    ensures
      var Entry(r, o, pid) := states[k].completed[key];
      RouteObserve(route, r, MobileResult(o, o.capture.Some?), o, support, supportNow,
                   Answer(states[k].completed, r, key, hostNow, inspected, running, foreground), now) == Ok(true)
      <==> Fresh(o.observedAt, now) && Fresh(o.observedAt, hostNow) && inspected
           && (pid.Some? ==> running) && (o.capture.Some? ==> foreground)
  {
    RunKeepsEarned(h, events, states, k);
    var Entry(r, o, pid) := states[k].completed[key];
    assert EntryInv(h, key, states[k].completed[key]);
    RouteAcceptsEarned(h, r, key, o, route, recordedAt);
    if Fresh(o.observedAt, now) {
      RouteAcceptsEarned(h, r, key, o, route, now);
    }
  }

  // ---- which calls return -------------------------------------------------------------------

  /** The host offers a launch and an inspection always, a screenshot when it can read the foreground,
      has just done so and has an artifact to capture into, and nothing else. */
  predicate Offered(h: Host, operation: Operation, foreground: bool) {
    || operation == Launch || operation == Inspect
    || (operation == Screenshot && foreground && h.canReadForeground && h.captureArtifactId != "")
  }

  /** A call is admitted exactly when its request is well formed, fresh and addressed to this host and
      target, the target was inspected twice and is a booted simulator, the operation is offered, and
      the key is there and unspent. */
  lemma AdmittedExactly(h: Host, s: State, e: Event)
    requires e.SupportReady? && e.n < |s.calls|
    ensures Admitted(h, s, e) <==>
      var Call(r, key, _) := s.calls[e.n];
      && RequestSchema(r) && 0 <= e.now - r.requestedAt <= 60_000 && 0 <= e.now - e.checkedAt <= 60_000
      && r.providerId == "b2c/host-native-mobile" && r.target == h.target
      && e.inspected && e.reinspected && r.target.platform == Ios && r.target.deviceKind == Simulator
      && Offered(h, r.operation, e.foreground) && r.actions.None? && r.durationSeconds.None?
      && key != "" && key !in s.dispatched
  {
    var support := HostSupport(h, e.inspected, e.foreground, e.checkedAt);
    var r := s.calls[e.n].request;
    SupportedExactly(r, support, e.now);
    OffersExactly(h, r, e.inspected, e.foreground, e.checkedAt);
    hide RequireSupport;
    hide Offers;
    hide RequestSchema;
  }

  lemma OffersExactly(h: Host, r: Request, inspected: bool, foreground: bool, checkedAt: int)
    ensures var s := HostSupport(h, inspected, foreground, checkedAt);
      && SupportSchema(s) && s.providerId == "b2c/host-native-mobile" && s.available == inspected && s.checkedAt == checkedAt
      && (Offers(s, r) <==> inspected && r.target.platform == Ios && r.target.deviceKind == Simulator && Offered(h, r.operation, foreground))
  {
    var s := HostSupport(h, inspected, foreground, checkedAt);
    if inspected {
      assert s.tuples[0] in s.tuples;
    }
  }

  /** Only the call itself moves on. */
  predicate OnlyCall(s: State, t: State, n: nat) {
    && n < |s.calls| && |t.calls| == |s.calls| && (forall m :: 0 <= m < |s.calls| && m != n ==> t.calls[m] == s.calls[m])
    && t.calls[n].request == s.calls[n].request && t.calls[n].key == s.calls[n].key
  }

  /** A refused call throws and leaves everything else alone. */
  lemma RefusedExactly(h: Host, s: State, e: Event)
    requires e.SupportReady? && Enabled(s, e) && !Admitted(h, s, e)
    ensures var t := Step(h, s, e);
      OnlyCall(s, t, e.n) && t.calls[e.n].phase == Threw
      && t.dispatched == s.dispatched && t.completed == s.completed && t.log == s.log
  {
    hide Admitted;
  }

  /** The result of a call: completed, of its own request, under its own key, on the host's target. */
  predicate IsResult(h: Host, c: Call, o: Observation, observedAt: int, capture: Option<Capture>) {
    && o.providerId == "b2c/host-native-mobile" && o.operation == c.request.operation && o.target == h.target
    && o.executionId == c.key && o.observedAt == observedAt && o.completion == Completed && o.actionsCompleted == 0
    && o.capture == capture
  }

  /** The call returns the result and it is the one thing recorded. */
  predicate ReturnsResult(h: Host, s: State, t: State, n: nat, observedAt: int, bytes: Option<Bytes>, pid: Option<string>)
    requires n < |s.calls| && n < |t.calls| && (bytes.Some? ==> |bytes.value| >= 24)
  {
    var c := s.calls[n];
    && t.calls[n].phase.Returned? && t.calls[n].phase.bytes == bytes
    && IsResult(h, c, t.calls[n].phase.observation, observedAt, if bytes.Some? then Some(CaptureOf(h, c.request, bytes.value)) else None)
    && t.completed == s.completed[c.key := Entry(c.request, t.calls[n].phase.observation, pid)]
  }

  predicate Throws(s: State, t: State, n: nat)
    requires n < |t.calls|
  {
    t.calls[n].phase == Threw && t.completed == s.completed
  }

  /** An admitted call spends its key. A launch is issued, and returns if and only if it gave a process
      that was read back; an inspection returns if and only if it is confirmed; a screenshot goes on. */
  lemma AdmittedCallExactly(h: Host, s: State, e: Event)
    requires e.SupportReady? && Enabled(s, e) && Admitted(h, s, e)
    ensures var t, op := Step(h, s, e), s.calls[e.n].request.operation;
      && OnlyCall(s, t, e.n) && t.dispatched == s.dispatched + {s.calls[e.n].key}
      && t.log == (if op == Launch then s.log + [LaunchApp(s.calls[e.n].key)] else s.log)
      && (op == Launch ==>
            if e.pid.Some? && e.confirmed then ReturnsResult(h, s, t, e.n, e.observedAt, None, e.pid) else Throws(s, t, e.n))
      && (op == Inspect ==>
            if e.confirmed then ReturnsResult(h, s, t, e.n, e.observedAt, None, None) else Throws(s, t, e.n))
      && (op == Screenshot ==> t.calls[e.n].phase == BeforeCapture && t.completed == s.completed)
  {
    hide Admitted;
  }

  /** Before the capture: the screenshot is taken if and only if the foreground is right, and kept if
      and only if it is a PNG. */
  lemma BeforeExactly(h: Host, s: State, e: Event)
    requires e.ForegroundBefore? && Enabled(s, e)
    ensures var t := Step(h, s, e);
      && OnlyCall(s, t, e.n) && t.dispatched == s.dispatched && t.completed == s.completed
      && t.log == (if e.matches then s.log + [TakeScreenshot(s.calls[e.n].key)] else s.log)
      && t.calls[e.n].phase == if e.matches && e.bytes.Some? && PngShape(e.bytes.value) then AfterCapture(e.bytes.value) else Threw
  {}

  /** After the capture: the call returns if and only if the foreground is still right and the target
      is confirmed. */
  lemma AfterExactly(h: Host, s: State, e: Event)
    requires e.ForegroundAfter? && Enabled(s, e) && PngShape(s.calls[e.n].phase.captured)
    ensures var t := Step(h, s, e);
      && OnlyCall(s, t, e.n) && t.dispatched == s.dispatched && t.log == s.log
      && (if e.matches && e.confirmed then ReturnsResult(h, s, t, e.n, e.observedAt, Some(s.calls[e.n].phase.captured), None)
          else Throws(s, t, e.n))
  {}

  /** The call was admitted at this moment of the run, for an operation. */
  ghost predicate AdmittedAt(h: Host, events: seq<Event>, states: seq<State>, i: nat, n: nat, operation: Operation) {
    && i < |events| && i < |states| && events[i].SupportReady? && events[i].n == n && n < |states[i].calls|
    && Admitted(h, states[i], events[i]) && states[i].calls[n].request.operation == operation
  }

  predicate CapturedAt(events: seq<Event>, j: nat, n: nat, bytes: Bytes) {
    j < |events| && events[j].ForegroundBefore? && events[j].n == n && events[j].matches
    && events[j].bytes == Some(bytes) && PngShape(bytes)
  }

  predicate ConfirmedAt(events: seq<Event>, l: nat, n: nat) {
    l < |events| && events[l].ForegroundAfter? && events[l].n == n && events[l].matches && events[l].confirmed
  }

  ghost predicate LaunchedBy(h: Host, events: seq<Event>, states: seq<State>, k: nat, n: nat) {
    exists i: nat :: i < k && AdmittedAt(h, events, states, i, n, Launch) && events[i].pid.Some? && events[i].confirmed
  }

  ghost predicate InspectedBy(h: Host, events: seq<Event>, states: seq<State>, k: nat, n: nat) {
    exists i: nat :: i < k && AdmittedAt(h, events, states, i, n, Inspect) && events[i].confirmed
  }

  ghost predicate CapturedBy(h: Host, events: seq<Event>, states: seq<State>, k: nat, n: nat, bytes: Bytes) {
    exists i: nat, j: nat :: i < j < k && AdmittedAt(h, events, states, i, n, Screenshot) && CapturedAt(events, j, n, bytes)
  }

  ghost predicate PicturedBy(h: Host, events: seq<Event>, states: seq<State>, k: nat, n: nat) {
    exists l: nat, bytes :: l < k && CapturedBy(h, events, states, l, n, bytes) && ConfirmedAt(events, l, n)
  }

  /** The call has come to a result by this moment: admitted, and confirmed as its operation asks. */
  ghost predicate SucceededBy(h: Host, events: seq<Event>, states: seq<State>, k: nat, n: nat) {
    LaunchedBy(h, events, states, k, n) || InspectedBy(h, events, states, k, n) || PicturedBy(h, events, states, k, n)
  }

  /** Where a call stands is what has happened to it. */
  ghost predicate Told(h: Host, events: seq<Event>, states: seq<State>, k: nat, n: nat)
    requires k < |states| && n < |states[k].calls|
  {
    var phase := states[k].calls[n].phase;
    && (phase == BeforeCapture ==> exists i: nat :: i < k && AdmittedAt(h, events, states, i, n, Screenshot))
    && (phase.AfterCapture? ==> CapturedBy(h, events, states, k, n, phase.captured))
    && (phase.Returned? <==> SucceededBy(h, events, states, k, n))
  }

  lemma SucceededGrows(h: Host, events: seq<Event>, states: seq<State>, i: nat, k: nat, n: nat)
    requires i <= k && SucceededBy(h, events, states, i, n)
    ensures SucceededBy(h, events, states, k, n)
  {
    hide AdmittedAt;
    hide CapturedBy;
  }

  /** A result is new only by the last event. */
  lemma SucceededLast(h: Host, events: seq<Event>, states: seq<State>, k: nat, n: nat)
    requires SucceededBy(h, events, states, k + 1, n) && !SucceededBy(h, events, states, k, n)
    ensures (AdmittedAt(h, events, states, k, n, Launch) && events[k].pid.Some? && events[k].confirmed)
         || (AdmittedAt(h, events, states, k, n, Inspect) && events[k].confirmed)
         || (ConfirmedAt(events, k, n) && exists bytes :: CapturedBy(h, events, states, k, n, bytes))
  {
    hide AdmittedAt;
    hide CapturedBy;
  }

  lemma CapturedGrows(h: Host, events: seq<Event>, states: seq<State>, i: nat, k: nat, n: nat, bytes: Bytes)
    requires i <= k && CapturedBy(h, events, states, i, n, bytes)
    ensures CapturedBy(h, events, states, k, n, bytes)
  {
    hide AdmittedAt;
  }

  lemma NotBegun(h: Host, events: seq<Event>, states: seq<State>, k: nat, n: nat)
    requires IsRun(h, events, states) && k < |states| && n >= |states[k].calls|
    ensures !SucceededBy(h, events, states, k, n)
  {
    forall i: nat | i < k ensures n >= |states[i].calls| {
      CallsGrow(h, events, states, i, k);
    }
    forall i: nat, op | i < k ensures !AdmittedAt(h, events, states, i, n, op) {}
    hide AdmittedAt;
  }

  lemma {:induction false} CallsGrow(h: Host, events: seq<Event>, states: seq<State>, i: nat, k: nat)
    requires IsRun(h, events, states) && i <= k < |states|
    ensures |states[i].calls| <= |states[k].calls|
    decreases k
  {
    if i < k {
      CallsGrow(h, events, states, i, k - 1);
      assert states[k] == Step(h, states[k - 1], events[k - 1]);
    }
  }

  /** Over every run: a call has returned if and only if it was admitted and came out as its operation
      asks - a launch with a process read back, an inspection confirmed, a screenshot with the right
      foreground before and after, a PNG in between and a confirmation at the end. */
  lemma {:induction false} ReturnsExactly(h: Host, events: seq<Event>, states: seq<State>, k: nat, n: nat)
    requires IsRun(h, events, states) && k < |states| && n < |states[k].calls|
    ensures Told(h, events, states, k, n)
    decreases k
  {
    if k > 0 {
      var s, e := states[k - 1], events[k - 1];
      assert Enabled(s, e) && states[k] == Step(h, s, e);
      if n >= |s.calls| {
        NotBegun(h, events, states, k - 1, n);
        NewCall(h, events, states, k, n);
      } else {
        ReturnsExactly(h, events, states, k - 1, n);
        OneMoreEvent(h, events, states, k, n);
      }
    }
  }

  lemma NewCall(h: Host, events: seq<Event>, states: seq<State>, k: nat, n: nat)
    requires IsRun(h, events, states) && 0 < k < |states| && |states[k - 1].calls| <= n < |states[k].calls|
    requires !SucceededBy(h, events, states, k - 1, n)
    ensures Told(h, events, states, k, n)
  {
    var s, e := states[k - 1], events[k - 1];
    assert Enabled(s, e) && states[k] == Step(h, s, e);
    assert e.Begin? && states[k].calls[n].phase == AwaitingSupport;
    if SucceededBy(h, events, states, k, n) {
      SucceededLast(h, events, states, k - 1, n);
    }
    hide SucceededBy;
    hide Step;
  }

  /** The event is one of this call. */
  predicate IsOf(e: Event, n: nat) {
    !e.Begin? && e.n == n
  }

  lemma OneMoreEvent(h: Host, events: seq<Event>, states: seq<State>, k: nat, n: nat)
    requires IsRun(h, events, states) && 0 < k < |states| && n < |states[k - 1].calls| && n < |states[k].calls|
    requires Told(h, events, states, k - 1, n)
    ensures Told(h, events, states, k, n)
  {
    hide Step;
    hide SucceededBy;
    hide Admitted;
    var s, e, t := states[k - 1], events[k - 1], states[k];
    assert Enabled(s, e) && t == Step(h, s, e);
    var before, after := s.calls[n].phase, t.calls[n].phase;
    if SucceededBy(h, events, states, k - 1, n) {
      SucceededGrows(h, events, states, k - 1, k, n);
    } else if SucceededBy(h, events, states, k, n) {
      SucceededLast(h, events, states, k - 1, n);
    }
    if before.AfterCapture? {
      CapturedGrows(h, events, states, k - 1, k, n, before.captured);
      RunKeepsEarned(h, events, states, k - 1);
      assert CallInv(h, s.calls[n], s.clock);
    }
    if !IsOf(e, n) {
      OtherEvent(h, s, e, n);
    } else {
      OwnEvent(h, events, states, k, n);
    }
  }

  lemma OtherEvent(h: Host, s: State, e: Event, n: nat)
    requires Enabled(s, e) && n < |s.calls| && !IsOf(e, n)
    ensures n < |Step(h, s, e).calls| && Step(h, s, e).calls[n] == s.calls[n]
  {
    hide Admitted;
  }

  lemma OwnEvent(h: Host, events: seq<Event>, states: seq<State>, k: nat, n: nat)
    requires IsRun(h, events, states) && 0 < k < |states| && n < |states[k - 1].calls| && n < |states[k].calls|
    requires Told(h, events, states, k - 1, n) && IsOf(events[k - 1], n)
    requires states[k - 1].calls[n].phase.AfterCapture? ==> PngShape(states[k - 1].calls[n].phase.captured)
    ensures Told(h, events, states, k, n)
  {
    var s, e, t := states[k - 1], events[k - 1], states[k];
    assert Enabled(s, e) && t == Step(h, s, e);
    if SucceededBy(h, events, states, k, n) && !SucceededBy(h, events, states, k - 1, n) {
      SucceededLast(h, events, states, k - 1, n);
    }
    match e {
      case SupportReady(_, _, _, _, _, _, _, _, _) =>
        if Admitted(h, s, e) {
          AdmittedCallExactly(h, s, e);
          AdmittedExactly(h, s, e);
          assert AdmittedAt(h, events, states, k - 1, n, s.calls[n].request.operation);
        } else {
          RefusedExactly(h, s, e);
        }
      case ForegroundBefore(_, _, _, _) =>
        BeforeExactly(h, s, e);
        if t.calls[n].phase.AfterCapture? {
          assert CapturedAt(events, k - 1, n, t.calls[n].phase.captured);
        }
      case ForegroundAfter(_, _, _, _) =>
        AfterExactly(h, s, e);
        if t.calls[n].phase.Returned? {
          assert ConfirmedAt(events, k - 1, n);
        }
    }
    hide Step;
    hide Admitted;
  }

  // ---- where recorded results come from -----------------------------------------------------

  /** The process of a launch is the one its event named; no other result has one. */
  ghost predicate NamesProcess(h: Host, events: seq<Event>, states: seq<State>, k: nat, n: nat, e: Entry) {
    if e.request.operation == Launch
    then exists i: nat :: i < k && AdmittedAt(h, events, states, i, n, Launch) && e.pid == events[i].pid && e.pid.Some?
    else e.pid.None?
  }

  ghost predicate IsEntryOf(h: Host, events: seq<Event>, states: seq<State>, k: nat, n: nat, key: string)
    requires k < |states|
  {
    var s := states[k];
    && n < |s.calls| && s.calls[n].key == key && key in s.completed && s.calls[n].phase.Returned?
    && s.completed[key].request == s.calls[n].request && s.completed[key].observation == s.calls[n].phase.observation
    && NamesProcess(h, events, states, k, n, s.completed[key])
  }

  lemma EntryStays(h: Host, events: seq<Event>, states: seq<State>, k: nat, n: nat, key: string)
    requires IsRun(h, events, states) && 0 < k < |states| && IsEntryOf(h, events, states, k - 1, n, key)
    ensures IsEntryOf(h, events, states, k, n, key)
  {
    var s, e := states[k - 1], events[k - 1];
    assert Enabled(s, e) && states[k] == Step(h, s, e);
    EffectsHappenAtMostOnce(h, events, states, k - 1, k - 1);
    StepKeepsResults(h, s, e, key);
    OtherEvent(h, s, e, n);
    hide Step;
    hide AdmittedAt;
    hide OnceInv;
  }

  lemma NewEntry(h: Host, events: seq<Event>, states: seq<State>, k: nat, key: string) returns (n: nat)
    requires IsRun(h, events, states) && 0 < k < |states| && key !in states[k - 1].completed && key in states[k].completed
    ensures IsEntryOf(h, events, states, k, n, key)
  {
    var s, e := states[k - 1], events[k - 1];
    assert Enabled(s, e) && states[k] == Step(h, s, e);
    assert !e.Begin?;
    n := e.n;
    match e {
      case SupportReady(_, _, _, _, _, _, _, _, _) =>
        if Admitted(h, s, e) {
          AdmittedCallExactly(h, s, e);
          AdmittedExactly(h, s, e);
          assert AdmittedAt(h, events, states, k - 1, n, s.calls[n].request.operation);
          hide Step;
        } else {
          RefusedExactly(h, s, e);
        }
      case ForegroundBefore(_, _, _, _) => BeforeExactly(h, s, e);
      case ForegroundAfter(_, _, _, _) =>
        RunKeepsEarned(h, events, states, k - 1);
        assert CallInv(h, s.calls[n], s.clock);
        AfterExactly(h, s, e);
        hide Step;
    }
  }

  /** Every recorded result is what a call under its key returned, and the call came out as its
      operation asks; a launch is recorded with the process its command named. */
  lemma {:induction false} EntriesAreResults(h: Host, events: seq<Event>, states: seq<State>, k: nat, key: string) returns (n: nat)
    requires IsRun(h, events, states) && k < |states| && key in states[k].completed
    ensures IsEntryOf(h, events, states, k, n, key) && SucceededBy(h, events, states, k, n)
    decreases k
  {
    if key in states[k - 1].completed {
      n := EntriesAreResults(h, events, states, k - 1, key);
      EntryStays(h, events, states, k, n, key);
    } else {
      n := NewEntry(h, events, states, k, key);
    }
    ReturnsExactly(h, events, states, k, n);
  }

  /** No call is ever stuck: a call that waits can take whatever answers come, at any moment that is
      not before the last reading of the clock. */
  lemma NoCallIsStuck(s: State, n: nat, now: int)
    requires n < |s.calls| && s.clock <= now
    ensures match s.calls[n].phase
      case AwaitingSupport =>
        forall inspected, foreground, checkedAt: int, reinspected, pid, confirmed, later: int :: checkedAt <= now <= later ==>
          Enabled(s, SupportReady(n, inspected, foreground, checkedAt, now, reinspected, pid, confirmed, later))
      case BeforeCapture => forall matches, bytes :: Enabled(s, ForegroundBefore(n, matches, bytes, now))
      case AfterCapture(_) => forall matches, confirmed :: Enabled(s, ForegroundAfter(n, matches, confirmed, now))
      case _ => true
  {}
}
