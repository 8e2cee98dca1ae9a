/** The replay interceptor of the browser producer. Every response of the replayed page is paused,
    compared with the response retained for its URL, and only then continued or failed; the
    handlers of different responses interleave freely at their awaits. Each method below is one
    stretch of code between two awaits, so a run is any sequence of them. */
module Replay {
  import opened Options

  type Bytes = seq<bv8>

  /** A retained response. The media type is already lower case. */
  datatype Resource = Resource(url: string, status: int, mime: string, body: Bytes)

  /** A paused response as the event reports it; `mime` is the trimmed, lower-cased content type,
      empty when the response names none. */
  datatype Paused = Paused(url: string, status: Option<int>, failed: bool, mime: string)

  datatype ReplayError = Unconfigured(url: string) | StatusChanged(url: string) | CommandFailed
    | BodyOmitted(url: string) | BytesChanged(url: string) | MimeChanged(url: string)

  /** Where one handler stands. `bound` says that the response passed comparison before it failed. */
  datatype Phase = AwaitingBody | Continuing | Released | Failing(bound: bool) | Aborted(bound: bool)

  datatype Work = Work(request: Paused, body: Bytes, phase: Phase)

  /** A compared response in the transcript; the body stands for its digest. */
  datatype Binding = Binding(url: string, status: int, body: Bytes)

  datatype BodyReply = Rejected | Omitted | Body(bytes: Bytes)

  /** The verifying call: draining, past its check and waiting for the navigation history, returned
      with a transcript, or thrown. */
  datatype Verifier = Draining | Checked | Returned(responses: seq<Binding>) | Threw

  datatype Event =
    | OnPaused(request: Paused)
    | OnBody(n: nat, reply: BodyReply)
    | OnContinued(n: nat, ok: bool)
    | OnFailed(n: nat)
    | OnSettled(n: nat)
    | OnCheck
    | OnHistory(sameUrl: bool)
    | OnVerifyAgain

  datatype State = State(
    works: seq<Work>, pending: set<nat>, failure: Option<ReplayError>, bindings: seq<Binding>, verifier: Verifier)

  const START := State([], {}, None, [], Draining)

  type Expected = map<string, Resource>

  /** The retained response each URL is held to: the last one, as a map keeps it. */
  function ExpectedOf(retained: seq<Resource>): (m: Expected)
    ensures forall u :: u in m ==> m[u] in retained && m[u].url == u
    ensures forall r :: r in retained ==> r.url in m
    ensures forall i :: 0 <= i < |retained| && (forall j :: i < j < |retained| ==> retained[j].url != retained[i].url)
              ==> m[retained[i].url] == retained[i]
  {
    if retained == [] then map[]
    else
      var last := retained[|retained| - 1];
      assert retained == retained[..|retained| - 1] + [last];
      ExpectedOf(retained[..|retained| - 1])[last.url := last]
  }

  function FirstError(failure: Option<ReplayError>, error: ReplayError): Option<ReplayError> {
    if failure.Some? then failure else Some(error)
  }

  /** What the comparison before any await finds wrong with a paused response. */
  function StatusProblem(expected: Expected, p: Paused): Option<ReplayError> {
    if p.url !in expected then Some(Unconfigured(p.url))
    else if p.failed || p.status != Some(expected[p.url].status) then Some(StatusChanged(p.url))
    else None
  }

  /** What the comparison of the fetched body finds wrong. */
  function BodyProblem(expected: Expected, p: Paused, reply: BodyReply): Option<ReplayError>
    requires p.url in expected
  {
    match reply
    case Rejected => Some(CommandFailed)
    case Omitted => Some(BodyOmitted(p.url))
    case Body(bytes) =>
      if bytes != expected[p.url].body then Some(BytesChanged(p.url))
      else if p.mime != "" && p.mime != expected[p.url].mime then Some(MimeChanged(p.url))
      else None
  }

  /** Which events the browser and the event loop may produce in a state. */
  predicate Enabled(expected: Expected, s: State, e: Event) {
    match e
    case OnPaused(_) => true
    case OnBody(n, _) => n < |s.works| && s.works[n].phase == AwaitingBody && s.works[n].request.url in expected
    case OnContinued(n, _) => n < |s.works| && s.works[n].phase == Continuing
    case OnFailed(n) => n < |s.works| && s.works[n].phase.Failing?
    case OnSettled(n) => n < |s.works| && n in s.pending && (s.works[n].phase == Released || s.works[n].phase.Aborted?)
    case OnCheck => s.verifier == Draining && s.pending == {}
    case OnHistory(_) => s.verifier == Checked
    case OnVerifyAgain => s.verifier.Returned?
  }

  function Step(expected: Expected, s: State, e: Event): State
    requires Enabled(expected, s, e)
  {
    match e
    case OnPaused(p) =>
      var n := |s.works|;
      (match StatusProblem(expected, p)
       case Some(error) =>
         s.(works := s.works + [Work(p, [], Failing(false))], pending := s.pending + {n}, failure := FirstError(s.failure, error))
       case None => s.(works := s.works + [Work(p, [], AwaitingBody)], pending := s.pending + {n}))
    case OnBody(n, reply) =>
      var w := s.works[n];
      (match BodyProblem(expected, w.request, reply)
       case Some(error) => s.(works := s.works[n := w.(phase := Failing(false))], failure := FirstError(s.failure, error))
       case None => s.(works := s.works[n := w.(body := reply.bytes, phase := Continuing)],
                       bindings := s.bindings + [Binding(w.request.url, expected[w.request.url].status, reply.bytes)]))
    case OnContinued(n, ok) =>
      if ok then s.(works := s.works[n := s.works[n].(phase := Released)])
      else s.(works := s.works[n := s.works[n].(phase := Failing(true))], failure := FirstError(s.failure, CommandFailed))
    case OnFailed(n) => s.(works := s.works[n := s.works[n].(phase := Aborted(s.works[n].phase.bound))])
    case OnSettled(n) => s.(pending := s.pending - {n})
    case OnCheck => s.(verifier := if s.failure.Some? then Threw else Checked)
    case OnHistory(sameUrl) => s.(verifier := if sameUrl then Returned(s.bindings) else Threw)
    case OnVerifyAgain => s.(verifier := Draining)
  }

  /** The browser has received, without a network error, the status retained for the URL. */
  predicate StatusIsRetained(expected: Expected, p: Paused) {
    p.url in expected && !p.failed && p.status == Some(expected[p.url].status)
  }

  predicate TypeIsRetained(p: Paused, known: Resource) {
    p.mime == "" || p.mime == known.mime
  }

  /** The first thing wrong with a paused response: its URL, or how it was answered. */
  predicate FirstPauseError(expected: Expected, p: Paused, error: ReplayError) {
    error == (if p.url in expected then StatusChanged(p.url) else Unconfigured(p.url))
  }

  /** The first thing wrong with a fetched body: the command, that there is none, its bytes, the type. */
  predicate FirstBodyError(known: Resource, p: Paused, reply: BodyReply, error: ReplayError) {
    match error
    case CommandFailed => reply.Rejected?
    case BodyOmitted(u) => reply.Omitted? && u == p.url
    case BytesChanged(u) => reply.Body? && reply.bytes != known.body && u == p.url
    case MimeChanged(u) => reply == Body(known.body) && p.mime != "" && p.mime != known.mime && u == p.url
    case _ => false
  }

  /** All but the handler's own work, the failure and the transcript is as before. */
  predicate OnlyHandler(s: State, t: State, n: nat) {
    && n < |s.works| && |t.works| == |s.works| && (forall m :: 0 <= m < |s.works| && m != n ==> t.works[m] == s.works[m])
    && t.works[n].request == s.works[n].request
    && t.pending == s.pending && t.verifier == s.verifier
  }

  /** What a pause does, by the URL, the network error and the status of the response: the handler
      waits for the body if and only if they are the retained ones, and fails otherwise. */
  lemma PauseExactly(expected: Expected, s: State, p: Paused)
    ensures var t, n := Step(expected, s, OnPaused(p)), |s.works|;
      && |t.works| == n + 1 && t.works[..n] == s.works && t.works[n].request == p
      && t.pending == s.pending + {n} && t.bindings == s.bindings && t.verifier == s.verifier
      && (t.works[n].phase == AwaitingBody <==> StatusIsRetained(expected, p))
      && (StatusIsRetained(expected, p) ==> t.failure == s.failure)
      && (!StatusIsRetained(expected, p) ==> t.works[n].phase == Failing(false))
      && (!StatusIsRetained(expected, p) && s.failure.None? ==> t.failure.Some? && FirstPauseError(expected, p, t.failure.value))
      && (s.failure.Some? ==> t.failure == s.failure)
  {}

  /** What a fetched body does: the response is continued, and put into the transcript, if and only if
      the bytes are the retained ones and the response names no type or the retained one. */
  lemma BodyExactly(expected: Expected, s: State, n: nat, reply: BodyReply)
    requires Enabled(expected, s, OnBody(n, reply))
    ensures var t, p := Step(expected, s, OnBody(n, reply)), s.works[n].request;
      var known := expected[p.url];
      && OnlyHandler(s, t, n)
      && (t.works[n].phase == Continuing <==> reply == Body(known.body) && TypeIsRetained(p, known))
      && (t.works[n].phase == Continuing ==>
            t.failure == s.failure && t.works[n].body == known.body && t.bindings == s.bindings + [Binding(p.url, known.status, known.body)])
      && (t.works[n].phase != Continuing ==> t.works[n].phase == Failing(false) && t.bindings == s.bindings)
      && (t.works[n].phase != Continuing && s.failure.None? ==> t.failure.Some? && FirstBodyError(known, p, reply, t.failure.value))
      && (s.failure.Some? ==> t.failure == s.failure)
  {}

  /** What the browser's answers do: an accepted continue releases, a refused one fails the handler
      with the response already consumed, and the answer to an abort ends it whatever it is. */
  lemma AnswersExactly(expected: Expected, s: State, n: nat)
    ensures Enabled(expected, s, OnContinued(n, true)) ==>
      var t := Step(expected, s, OnContinued(n, true));
      OnlyHandler(s, t, n) && t.works[n].phase == Released && t.failure == s.failure && t.bindings == s.bindings
    ensures Enabled(expected, s, OnContinued(n, false)) ==>
      var t := Step(expected, s, OnContinued(n, false));
      OnlyHandler(s, t, n) && t.works[n].phase == Failing(true) && t.bindings == s.bindings
      && t.failure == (if s.failure.Some? then s.failure else Some(CommandFailed))
    ensures Enabled(expected, s, OnFailed(n)) ==>
      var t := Step(expected, s, OnFailed(n));
      OnlyHandler(s, t, n) && t.works[n].phase == Aborted(s.works[n].phase.bound) && t.failure == s.failure && t.bindings == s.bindings
    ensures Enabled(expected, s, OnSettled(n)) ==>
      Step(expected, s, OnSettled(n)) == s.(pending := s.pending - {n})
  {}

  /** What the verifying call does: past the drain it throws if and only if there is a failure, and
      after the history it returns the transcript if and only if the page is still the one. */
  lemma VerifierExactly(expected: Expected, s: State, sameUrl: bool)
    ensures Enabled(expected, s, OnCheck) ==>
      Step(expected, s, OnCheck) == s.(verifier := if s.failure == None then Checked else Threw)
    ensures Enabled(expected, s, OnHistory(sameUrl)) ==>
      Step(expected, s, OnHistory(sameUrl)) == s.(verifier := if sameUrl then Returned(s.bindings) else Threw)
  {}

  /** The interceptor itself: the variables its event handlers share. */
  class Interceptor {
    const expected: Expected
    var works: seq<Work>
    var pending: set<nat>
    var failure: Option<ReplayError>
    var bindings: seq<Binding>
    var verifier: Verifier

    function Now(): State
      reads this
    {
      State(works, pending, failure, bindings, verifier)
    }

    constructor (retained: seq<Resource>)
      ensures Now() == START && expected == ExpectedOf(retained)
    {
      expected := ExpectedOf(retained);
      works, pending, failure, bindings, verifier := [], {}, None, [], Draining;
    }

    /** The shared catch clause: remember the first error, then ask the browser to abort. */
    method Fail(n: nat, error: ReplayError, bound: bool)
      requires n < |works|
      modifies this
      ensures works == old(works)[n := old(works)[n].(phase := Failing(bound))]
      ensures failure == FirstError(old(failure), error)
      ensures pending == old(pending) && bindings == old(bindings) && verifier == old(verifier)
    {
      if failure.None? {
        failure := Some(error);
      }
      works := works[n := works[n].(phase := Failing(bound))];
    }

    method Pause(p: Paused)
      modifies this
      ensures Now() == Step(expected, old(Now()), OnPaused(p))
      ensures works == old(works) + [works[|old(works)|]] && works[|old(works)|].request == p
      ensures works[|old(works)|].phase == AwaitingBody <==> StatusIsRetained(expected, p)
      ensures !StatusIsRetained(expected, p) ==> works[|old(works)|].phase == Failing(false) && failure.Some?
      ensures !StatusIsRetained(expected, p) && old(failure).None? ==> FirstPauseError(expected, p, failure.value)
    {
      var n := |works|;
      works := works + [Work(p, [], AwaitingBody)];
      if p.url !in expected {
        Fail(n, Unconfigured(p.url), false);
      } else if p.failed || p.status != Some(expected[p.url].status) {
        Fail(n, StatusChanged(p.url), false);
      }
      pending := pending + {n};
      assert works == old(works) + [works[n]];
    }

    method BodyArrived(n: nat, reply: BodyReply)
      requires Enabled(expected, Now(), OnBody(n, reply))
      modifies this
      ensures Now() == Step(expected, old(Now()), OnBody(n, reply))
      ensures var p := old(works)[n].request;
        works[n].phase == Continuing <==> reply == Body(expected[p.url].body) && TypeIsRetained(p, expected[p.url])
      ensures works[n].phase != Continuing ==> works[n].phase == Failing(false) && failure.Some?
      ensures var p := old(works)[n].request;
        works[n].phase != Continuing && old(failure).None? ==> FirstBodyError(expected[p.url], p, reply, failure.value)
    {
      var p := works[n].request;
      var known := expected[p.url];
      match reply {
        case Rejected => Fail(n, CommandFailed, false);
        case Omitted => Fail(n, BodyOmitted(p.url), false);
        case Body(bytes) =>
          if bytes != known.body {
            Fail(n, BytesChanged(p.url), false);
          } else if p.mime != "" && p.mime != known.mime {
            Fail(n, MimeChanged(p.url), false);
          } else {
            bindings := bindings + [Binding(p.url, known.status, bytes)];
            works := works[n := works[n].(body := bytes, phase := Continuing)];
          }
      }
    }

    method Continued(n: nat, ok: bool)
      requires Enabled(expected, Now(), OnContinued(n, ok))
      modifies this
      ensures Now() == Step(expected, old(Now()), OnContinued(n, ok))
    {
      if ok {
        works := works[n := works[n].(phase := Released)];
      } else {
        Fail(n, CommandFailed, true);
      }
    }

    method FailAnswered(n: nat)
      requires Enabled(expected, Now(), OnFailed(n))
      modifies this
      ensures Now() == Step(expected, old(Now()), OnFailed(n))
    {
      works := works[n := works[n].(phase := Aborted(works[n].phase.bound))];
    }

    method Settle(n: nat)
      requires Enabled(expected, Now(), OnSettled(n))
      modifies this
      ensures Now() == Step(expected, old(Now()), OnSettled(n))
    {
      pending := pending - {n};
    }

    /** The drain check: reached with nothing pending, it reads the failure without an await in
        between. On a pass everything intercepted so far has been released as retained, and the
        transcript holds exactly those responses. */
    method DrainCheck() returns (passed: bool)
      requires Reachable(expected, Now()) && Enabled(expected, Now(), OnCheck)
      modifies this
      ensures Now() == Step(expected, old(Now()), OnCheck)
      ensures passed <==> failure.None?
      ensures passed ==> AllReleased(expected, Now())
    {
      passed := failure.None?;
      if passed {
        PassMeansAllReleased(expected, Now());
      }
      verifier := if passed then Checked else Threw;
    }

    /** After the await for the navigation history: the call returns the transcript as it is now. */
    method HistoryArrived(sameUrl: bool)
      requires Enabled(expected, Now(), OnHistory(sameUrl))
      modifies this
      ensures Now() == Step(expected, old(Now()), OnHistory(sameUrl))
    {
      verifier := if sameUrl then Returned(bindings) else Threw;
    }
  }

  // ---- runs ---------------------------------------------------------------------------------

  /** The states a sequence of events leads through from the start. */
  ghost predicate IsRun(expected: Expected, events: seq<Event>, states: seq<State>) {
    && |states| == |events| + 1 && states[0] == START
    && forall i :: 0 <= i < |events| ==>
         Enabled(expected, states[i], events[i]) && states[i + 1] == Step(expected, states[i], events[i])
  }

  ghost predicate Reachable(expected: Expected, s: State) {
    exists events, states :: IsRun(expected, events, states) && states[|states| - 1] == s
  }

  /** The response is the one retained for its URL, by status, by bytes, and by media type if it
      names one. */
  predicate Matches(expected: Expected, w: Work) {
    && StatusIsRetained(expected, w.request)
    && w.body == expected[w.request.url].body
    && TypeIsRetained(w.request, expected[w.request.url])
  }

  /** The browser has been told to consume the response. */
  predicate Continued(w: Work) {
    w.phase == Continuing || w.phase == Released || w.phase == Failing(true) || w.phase == Aborted(true)
  }

  function BindingOf(w: Work): Binding {
    Binding(w.request.url, if w.request.status.Some? then w.request.status.value else 0, w.body)
  }

  /** The transcript entries owed by the handlers that passed comparison, in whatever order. */
  function Owed(works: seq<Work>): multiset<Binding> {
    if works == [] then multiset{}
    else
      var last := works[|works| - 1];
      Owed(works[..|works| - 1]) + (if Continued(last) then multiset{BindingOf(last)} else multiset{})
  }

  predicate WorkInv(expected: Expected, s: State, n: nat)
    requires n < |s.works|
  {
    var w := s.works[n];
    && (w.phase == AwaitingBody ==> StatusProblem(expected, w.request) == None)
    && (Continued(w) ==> Matches(expected, w))
    && (w.phase.Failing? || w.phase.Aborted? ==> s.failure.Some?)
    && (n !in s.pending ==> w.phase == Released || w.phase.Aborted?)
  }

  ghost predicate Inv(expected: Expected, s: State) {
    && (forall n :: 0 <= n < |s.works| ==> WorkInv(expected, s, n))
    && multiset(s.bindings) == Owed(s.works)
  }

  predicate AllReleased(expected: Expected, s: State) {
    && (forall w :: w in s.works ==> w.phase == Released && Matches(expected, w))
    && multiset(s.bindings) == Owed(s.works)
  }

  lemma {:induction false} OwedUpdate(works: seq<Work>, n: nat, w: Work)
    requires n < |works| && !Continued(works[n])
    ensures Owed(works[n := w]) == Owed(works) + (if Continued(w) then multiset{BindingOf(w)} else multiset{})
    decreases |works|
  {
    hide Continued;
    hide BindingOf;
    var front := works[..|works| - 1];
    if n < |works| - 1 {
      OwedUpdate(front, n, w);
      assert works[n := w][..|works| - 1] == front[n := w];
    } else {
      assert works[n := w][..|works| - 1] == front;
    }
  }

  lemma {:induction false} OwedKept(works: seq<Work>, n: nat, w: Work)
    requires n < |works| && Continued(works[n]) && Continued(w) && BindingOf(w) == BindingOf(works[n])
    ensures Owed(works[n := w]) == Owed(works)
    decreases |works|
  {
    hide Continued;
    hide BindingOf;
    var front := works[..|works| - 1];
    if n < |works| - 1 {
      OwedKept(front, n, w);
      assert works[n := w][..|works| - 1] == front[n := w];
    } else {
      assert works[n := w][..|works| - 1] == front;
    }
  }

  lemma StepKeepsWorks(expected: Expected, s: State, e: Event)
    requires Inv(expected, s) && Enabled(expected, s, e)
    ensures forall m :: 0 <= m < |Step(expected, s, e).works| ==> WorkInv(expected, Step(expected, s, e), m)
  {
    var t := Step(expected, s, e);
    forall m | 0 <= m < |t.works| ensures WorkInv(expected, t, m) {
      if m < |s.works| {
        assert WorkInv(expected, s, m);
      }
    }
  }

  lemma OwedSnoc(works: seq<Work>, w: Work)
    ensures Owed(works + [w]) == Owed(works) + (if Continued(w) then multiset{BindingOf(w)} else multiset{})
  {}

  lemma StepKeepsTranscript(expected: Expected, s: State, e: Event)
    requires multiset(s.bindings) == Owed(s.works) && Enabled(expected, s, e)
    requires e.OnBody? ==> WorkInv(expected, s, e.n)
    ensures multiset(Step(expected, s, e).bindings) == Owed(Step(expected, s, e).works)
  {
    match e {
      case OnPaused(p) => OwedSnoc(s.works, Step(expected, s, e).works[|s.works|]);
      case OnBody(n, reply) => BodyKeepsTranscript(expected, s, n, reply);
      case OnContinued(n, ok) => ContinuedKeepsTranscript(expected, s, n, ok);
      case OnFailed(n) => FailedKeepsTranscript(expected, s, n);
      case _ =>
    }
  }

  lemma ContinuedKeepsTranscript(expected: Expected, s: State, n: nat, ok: bool)
    requires multiset(s.bindings) == Owed(s.works) && Enabled(expected, s, OnContinued(n, ok))
    ensures multiset(Step(expected, s, OnContinued(n, ok)).bindings) == Owed(Step(expected, s, OnContinued(n, ok)).works)
  {
    hide Owed;
    OwedKept(s.works, n, Step(expected, s, OnContinued(n, ok)).works[n]);
  }

  lemma FailedKeepsTranscript(expected: Expected, s: State, n: nat)
    requires multiset(s.bindings) == Owed(s.works) && Enabled(expected, s, OnFailed(n))
    ensures multiset(Step(expected, s, OnFailed(n)).bindings) == Owed(Step(expected, s, OnFailed(n)).works)
  {
    hide Owed;
    var w := Step(expected, s, OnFailed(n)).works[n];
    if s.works[n].phase.bound {
      OwedKept(s.works, n, w);
    } else {
      OwedUpdate(s.works, n, w);
    }
  }

  lemma BodyKeepsTranscript(expected: Expected, s: State, n: nat, reply: BodyReply)
    requires multiset(s.bindings) == Owed(s.works) && Enabled(expected, s, OnBody(n, reply)) && WorkInv(expected, s, n)
    ensures multiset(Step(expected, s, OnBody(n, reply)).bindings) == Owed(Step(expected, s, OnBody(n, reply)).works)
  {
    hide Owed;
    var t := Step(expected, s, OnBody(n, reply));
    OwedUpdate(s.works, n, t.works[n]);
    if BodyProblem(expected, s.works[n].request, reply).None? {
      assert t.bindings == s.bindings + [BindingOf(t.works[n])];
    }
  }

  lemma StepKeepsInv(expected: Expected, s: State, e: Event)
    requires Inv(expected, s) && Enabled(expected, s, e)
    ensures Inv(expected, Step(expected, s, e))
  {
    StepKeepsWorks(expected, s, e);
    assert e.OnBody? ==> WorkInv(expected, s, e.n);
    StepKeepsTranscript(expected, s, e);
    hide Step;
    hide WorkInv;
    hide Owed;
  }

  lemma {:induction false} RunKeepsInv(expected: Expected, events: seq<Event>, states: seq<State>, k: nat)
    requires IsRun(expected, events, states) && k < |states|
    ensures Inv(expected, states[k])
    decreases k
  {
    if k > 0 {
      RunKeepsInv(expected, events, states, k - 1);
      StepKeepsInv(expected, states[k - 1], events[k - 1]);
    }
  }

  /** No handler is ever stuck: in every state of every run a pending handler can take the answer it
      waits for, whatever that is, or end; and once none is pending the check can be made. */
  lemma NoHandlerIsStuck(expected: Expected, events: seq<Event>, states: seq<State>, k: nat, n: nat)
    requires IsRun(expected, events, states) && k < |states|
    ensures states[k].verifier == Draining && states[k].pending == {} ==> Enabled(expected, states[k], OnCheck)
    ensures n in states[k].pending ==>
      && n < |states[k].works|
      && match states[k].works[n].phase
         case AwaitingBody => forall reply :: Enabled(expected, states[k], OnBody(n, reply))
         case Continuing => Enabled(expected, states[k], OnContinued(n, true)) && Enabled(expected, states[k], OnContinued(n, false))
         case Failing(_) => Enabled(expected, states[k], OnFailed(n))
         case _ => Enabled(expected, states[k], OnSettled(n))
  {
    RunKeepsInv(expected, events, states, k);
    PendingAreHandlers(expected, events, states, k);
    if n in states[k].pending {
      assert WorkInv(expected, states[k], n);
    }
  }

  lemma {:induction false} PendingAreHandlers(expected: Expected, events: seq<Event>, states: seq<State>, k: nat)
    requires IsRun(expected, events, states) && k < |states|
    ensures forall n :: n in states[k].pending ==> n < |states[k].works|
    decreases k
  {
    if k > 0 {
      PendingAreHandlers(expected, events, states, k - 1);
      assert Enabled(expected, states[k - 1], events[k - 1]) && states[k] == Step(expected, states[k - 1], events[k - 1]);
    }
  }

  /** Whatever the interleaving, a response the browser was told to consume is the retained one,
      and each transcript entry is a retained response. */
  lemma ReleasedResponsesMatch(expected: Expected, s: State)
    requires Reachable(expected, s)
    ensures forall w :: w in s.works && Continued(w) ==> Matches(expected, w)
    ensures forall b :: b in s.bindings ==> b.url in expected && b.status == expected[b.url].status && b.body == expected[b.url].body
  {
    var events, states :| IsRun(expected, events, states) && states[|states| - 1] == s;
    RunKeepsInv(expected, events, states, |events|);
    forall w | w in s.works && Continued(w) ensures Matches(expected, w) {
      var n :| 0 <= n < |s.works| && s.works[n] == w;
      assert WorkInv(expected, s, n);
    }
    forall b | b in s.bindings
      ensures b.url in expected && b.status == expected[b.url].status && b.body == expected[b.url].body
    {
      assert b in multiset(s.bindings);
      var w := OwedBy(s.works, b);
    }
  }

  lemma {:induction false} OwedBy(works: seq<Work>, b: Binding) returns (w: Work)
    requires b in Owed(works)
    ensures w in works && Continued(w) && BindingOf(w) == b
    decreases |works|
  {
    var last := works[|works| - 1];
    if Continued(last) && BindingOf(last) == b {
      w := last;
    } else {
      w := OwedBy(works[..|works| - 1], b);
    }
  }

  /** The first mismatch is never cleared nor replaced. */
  lemma {:induction false} FailureIsSticky(expected: Expected, events: seq<Event>, states: seq<State>, i: nat, k: nat)
    requires IsRun(expected, events, states) && i <= k < |states| && states[i].failure.Some?
    ensures states[k].failure == states[i].failure
    decreases k
  {
    if i < k {
      FailureIsSticky(expected, events, states, i, k - 1);
      assert states[k] == Step(expected, states[k - 1], events[k - 1]);
    }
  }

  /** With nothing pending and no failure, every response intercepted so far was released with the
      retained status and bytes, and the transcript has exactly one entry for each. */
  lemma PassMeansAllReleased(expected: Expected, s: State)
    requires Reachable(expected, s) && s.pending == {} && s.failure.None?
    ensures AllReleased(expected, s)
  {
    var events, states :| IsRun(expected, events, states) && states[|states| - 1] == s;
    RunKeepsInv(expected, events, states, |events|);
    forall w | w in s.works ensures w.phase == Released && Matches(expected, w) {
      var n :| 0 <= n < |s.works| && s.works[n] == w;
      assert WorkInv(expected, s, n);
    }
  }

  /** What the verifying call returns is read after a further await: it extends the transcript of
      the check. */
  lemma {:induction false} TranscriptGrows(expected: Expected, events: seq<Event>, states: seq<State>, i: nat, k: nat)
    requires IsRun(expected, events, states) && i <= k < |states|
    ensures states[i].bindings <= states[k].bindings
    decreases k
  {
    if i < k {
      TranscriptGrows(expected, events, states, i, k - 1);
      assert states[k] == Step(expected, states[k - 1], events[k - 1]);
    }
  }

  // ---- from the check to the return ---------------------------------------------------------

  /** The event makes a handler refuse its response: the status, the body or the browser is wrong. */
  predicate Refuses(expected: Expected, s: State, e: Event) {
    && Enabled(expected, s, e)
    && match e
       case OnPaused(p) => StatusProblem(expected, p).Some?
       case OnBody(n, reply) => BodyProblem(expected, s.works[n].request, reply).Some?
       case OnContinued(_, ok) => !ok
       case _ => false
  }

  lemma StepFails(expected: Expected, s: State, e: Event)
    requires Enabled(expected, s, e)
    ensures Step(expected, s, e).failure.None? <==> s.failure.None? && !Refuses(expected, s, e)
  {}

  /** After a pass the failure stays clear exactly as long as no handler refuses. */
  lemma {:induction false} ClearUntilRefused(expected: Expected, events: seq<Event>, states: seq<State>, i: nat, k: nat)
    requires IsRun(expected, events, states) && i <= k < |states| && states[i].failure.None?
    ensures states[k].failure.None? <==> forall j :: i <= j < k ==> !Refuses(expected, states[j], events[j])
    decreases k
  {
    if i < k {
      ClearUntilRefused(expected, events, states, i, k - 1);
      StepFails(expected, states[k - 1], events[k - 1]);
    }
  }

  /** A response is released exactly when the browser has accepted its continue. */
  lemma {:induction false} ReleasedWhenContinued(expected: Expected, events: seq<Event>, states: seq<State>, k: nat, n: nat)
    requires IsRun(expected, events, states) && k < |states| && n < |states[k].works|
    ensures states[k].works[n].phase == Released <==> exists j :: 0 <= j < k && events[j] == OnContinued(n, true)
    decreases k
  {
    var s, e := states[k - 1], events[k - 1];
    assert Enabled(expected, s, e) && states[k] == Step(expected, s, e);
    if n < |s.works| {
      ReleasedWhenContinued(expected, events, states, k - 1, n);
    } else {
      NeverContinuedYet(expected, events, states, k - 1, n);
    }
  }

  lemma {:induction false} NeverContinuedYet(expected: Expected, events: seq<Event>, states: seq<State>, k: nat, n: nat)
    requires IsRun(expected, events, states) && k < |states| && n >= |states[k].works|
    ensures forall j :: 0 <= j < k ==> events[j] != OnContinued(n, true)
    decreases k
  {
    if k > 0 {
      assert Enabled(expected, states[k - 1], events[k - 1]) && states[k] == Step(expected, states[k - 1], events[k - 1]);
      NeverContinuedYet(expected, events, states, k - 1, n);
    }
  }

  lemma {:induction false} WorksGrow(expected: Expected, events: seq<Event>, states: seq<State>, i: nat, k: nat)
    requires IsRun(expected, events, states) && i <= k < |states|
    ensures |states[i].works| <= |states[k].works|
    decreases k
  {
    if i < k {
      WorksGrow(expected, events, states, i, k - 1);
      assert states[k] == Step(expected, states[k - 1], events[k - 1]);
    }
  }

  predicate Refused(w: Work) {
    w.phase.Failing? || w.phase.Aborted?
  }

  /** A failure has a handler that refused, and it stays refused. */
  lemma {:induction false} FailureHasCulprit(expected: Expected, events: seq<Event>, states: seq<State>, k: nat) returns (n: nat)
    requires IsRun(expected, events, states) && k < |states| && states[k].failure.Some?
    ensures n < |states[k].works| && Refused(states[k].works[n])
    decreases k
  {
    var s, e := states[k - 1], events[k - 1];
    assert Enabled(expected, s, e) && states[k] == Step(expected, s, e);
    if s.failure.Some? {
      n := FailureHasCulprit(expected, events, states, k - 1);
    } else {
      n := if e.OnPaused? then |s.works| else e.n;
    }
  }

  /** The response paused as number `n` has been accepted by the browser since the check. */
  ghost predicate AcceptedSince(events: seq<Event>, i: nat, k: nat, n: nat)
    requires i <= k <= |events|
  {
    exists j :: i <= j < k && events[j] == OnContinued(n, true)
  }

  /** What a pass says about a later moment, the return for one: everything intercepted by then has
      been released as retained if and only if no handler has refused since the check and every
      response paused since has been accepted by the browser. */
  lemma PassAtTheReturn(expected: Expected, events: seq<Event>, states: seq<State>, i: nat, k: nat)
    requires IsRun(expected, events, states) && i < k < |states| && events[i] == OnCheck && states[i].failure.None?
    ensures AllReleased(expected, states[k]) <==>
      && (forall j :: i <= j < k ==> !Refuses(expected, states[j], events[j]))
      && (forall n: nat :: |states[i].works| <= n < |states[k].works| ==> AcceptedSince(events, i, k, n))
  {
    RunKeepsInv(expected, events, states, i);
    RunKeepsInv(expected, events, states, k);
    ClearUntilRefused(expected, events, states, i, k);
    WorksGrow(expected, events, states, i, k);
    assert Enabled(expected, states[i], events[i]);
    forall n: nat | n < |states[k].works|
      ensures states[k].works[n].phase == Released <==> n < |states[i].works| || AcceptedSince(events, i, k, n)
    {
      ReleasedWhenContinued(expected, events, states, k, n);
      if n < |states[i].works| {
        ReleasedWhenContinued(expected, events, states, i, n);
        assert WorkInv(expected, states[i], n);
      } else {
        NeverContinuedYet(expected, events, states, i, n);
      }
    }
    ReleasedIsAll(expected, states[k]);
    if states[k].failure.Some? {
      var n := FailureHasCulprit(expected, events, states, k);
      assert states[k].works[n].phase != Released;
    }
  }

  /** In a state of a run, all is released as retained exactly when every handler has released and
      nothing failed. */
  lemma ReleasedIsAll(expected: Expected, s: State)
    requires Inv(expected, s)
    ensures AllReleased(expected, s) <==> forall n :: 0 <= n < |s.works| ==> s.works[n].phase == Released
  {
    hide Owed;
    forall n | 0 <= n < |s.works| ensures s.works[n] in s.works && WorkInv(expected, s, n) {}
  }

  /** What the verifying call returns holds only retained responses. */
  lemma {:induction false} ReturnedIsRetained(expected: Expected, events: seq<Event>, states: seq<State>, k: nat)
    requires IsRun(expected, events, states) && k < |states| && states[k].verifier.Returned?
    ensures forall b :: b in states[k].verifier.responses ==>
      b.url in expected && b.status == expected[b.url].status && b.body == expected[b.url].body
    decreases k
  {
    var s, e := states[k - 1], events[k - 1];
    assert Enabled(expected, s, e) && states[k] == Step(expected, s, e);
    if e.OnHistory? {
      var before := states[..k];
      assert IsRun(expected, events[..k - 1], before) && before[|before| - 1] == s;
      ReleasedResponsesMatch(expected, s);
    } else {
      ReturnedIsRetained(expected, events, states, k - 1);
    }
  }

  lemma {:induction false} RunSnoc(expected: Expected, events: seq<Event>, states: seq<State>, e: Event)
    requires IsRun(expected, events, states) && Enabled(expected, states[|states| - 1], e)
    ensures IsRun(expected, events + [e], states + [Step(expected, states[|states| - 1], e)])
  {}

  /** Any response as it was retained can be released: a run that intercepts it, continues it and
      lets its handler finish. */
  lemma OneReleased(expected: Expected, p: Paused) returns (events: seq<Event>, states: seq<State>)
    requires StatusIsRetained(expected, p) && TypeIsRetained(p, expected[p.url])
    ensures IsRun(expected, events, states) && |events| == 4
    ensures var s := states[4];
      && |s.works| == 1 && s.works[0].request == p && s.works[0].phase == Released
      && s.pending == {} && s.failure.None? && s.verifier == Draining
  {
    var r := expected[p.url];
    events, states := [], [START];
    var e := OnPaused(p);
    RunSnoc(expected, events, states, e);
    events, states := events + [e], states + [Step(expected, START, e)];
    e := OnBody(0, Body(r.body));
    RunSnoc(expected, events, states, e);
    events, states := events + [e], states + [Step(expected, states[1], e)];
    e := OnContinued(0, true);
    RunSnoc(expected, events, states, e);
    events, states := events + [e], states + [Step(expected, states[2], e)];
    e := OnSettled(0);
    RunSnoc(expected, events, states, e);
    events, states := events + [e], states + [Step(expected, states[3], e)];
  }

  /** A run whose call passes its check over a released response and returns its transcript, while a
      response paused during the await in between has been refused. */
  lemma PassDoesNotReachTheReturn(expected: Expected, known: string, unknown: string) returns (events: seq<Event>, states: seq<State>)
    requires known in expected && unknown !in expected
    ensures IsRun(expected, events, states) && |events| == 7 && events[4] == OnCheck
    ensures states[5].works != [] && states[5].verifier == Checked && AllReleased(expected, states[5])
    ensures states[7].verifier.Returned? && states[7].failure == Some(Unconfigured(unknown))
  {
    events, states := OneReleased(expected, Paused(known, Some(expected[known].status), false, ""));
    var e := OnCheck;
    RunSnoc(expected, events, states, e);
    events, states := events + [e], states + [Step(expected, states[4], e)];
    RunKeepsInv(expected, events, states, 5);
    ReleasedIsAll(expected, states[5]);
    e := OnPaused(Paused(unknown, Some(200), false, ""));
    RunSnoc(expected, events, states, e);
    events, states := events + [e], states + [Step(expected, states[5], e)];
    e := OnHistory(true);
    RunSnoc(expected, events, states, e);
    events, states := events + [e], states + [Step(expected, states[6], e)];
  }
}
