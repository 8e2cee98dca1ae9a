/** The provider-neutral mobile contract and the route that holds a transport to it. Times are
    milliseconds; a digest is collision free, so the bytes stand for it. */
module MobileContract {
  import opened Options

  type Byte = x: int | 0 <= x < 256
  type Bytes = seq<Byte>

  datatype Result<+T> = Ok(value: T) | Err(error: MobileError)
  datatype MobileError =
    | SchemaRefused | StaleOrFuture | ProviderMismatch | ProviderUnavailable | UnsupportedOperation
    | InvalidTargetKind | ActionScope | VideoScope | IdentityMismatch | EffectUncertain | OperationFailed
    | ActionCoverage | CaptureCoverage | CaptureProvenance
    | UnexpectedCaptureBytes | CaptureBytesMismatch | CaptureFormatMismatch

  const TTL: int := 60_000

  datatype Operation = Launch | Inspect | Interact | Screenshot | RecordVideo
  datatype Platform = Ios | Android
  datatype DeviceKind = Simulator | Emulator | Physical

  datatype Target = Target(
    platform: Platform, deviceKind: DeviceKind, deviceId: string, osVersion: string,
    locale: string, appId: string, buildId: string, artifactSha256: string)

  datatype Request = Request(
    providerId: string, operation: Operation, target: Target, requestedAt: int,
    stateId: string, actions: Option<nat>, durationSeconds: Option<int>)

  datatype Tuple = Tuple(platform: Platform, deviceKind: DeviceKind, operations: seq<Operation>)
  datatype Support = Support(providerId: string, available: bool, checkedAt: int, tuples: seq<Tuple>)

  datatype Mime = Png | Jpeg | Mp4
  datatype Capture = Capture(
    artifactId: string, digest: Bytes, mime: Mime, width: int, height: int,
    durationSeconds: Option<int>, stateId: string)
  datatype Completion = Completed | Interrupted | Failed
  datatype Observation = Observation(
    providerId: string, operation: Operation, target: Target, executionId: string,
    observedAt: int, completion: Completion, actionsCompleted: int, capture: Option<Capture>)

  datatype MobileResult = MobileResult(observation: Observation, rawSource: bool)

  predicate TargetSchema(t: Target) {
    t.deviceId != "" && t.osVersion != "" && t.locale != "" && t.appId != "" && t.buildId != "" && t.artifactSha256 != ""
  }

  predicate RequestSchema(r: Request) {
    && r.providerId != "" && r.stateId != "" && TargetSchema(r.target)
    && (r.actions.Some? ==> r.actions.value <= 30)
    && (r.durationSeconds.Some? ==> 0 < r.durationSeconds.value <= 60)
  }

  predicate SupportSchema(s: Support) {
    s.providerId != "" && forall t :: t in s.tuples ==> t.operations != []
  }

  predicate ObservationSchema(o: Observation) {
    && o.providerId != "" && o.executionId != "" && TargetSchema(o.target) && o.actionsCompleted >= 0
    && (o.capture.Some? ==>
          var c := o.capture.value;
          c.artifactId != "" && c.width > 0 && c.height > 0 && c.stateId != ""
          && (c.durationSeconds.Some? ==> c.durationSeconds.value > 0))
  }

  predicate Fresh(at: int, now: int) {
    0 <= now - at <= TTL
  }

  function RequireSupport(r: Request, s: Support, now: int): Result<()> {
    if !RequestSchema(r) || !SupportSchema(s) then Err(SchemaRefused)
    else if !Fresh(r.requestedAt, now) || !Fresh(s.checkedAt, now) then Err(StaleOrFuture)
    else if r.providerId != s.providerId then Err(ProviderMismatch)
    else if !s.available then Err(ProviderUnavailable)
    else if !exists t :: t in s.tuples && t.platform == r.target.platform
                 && t.deviceKind == r.target.deviceKind && r.operation in t.operations then Err(UnsupportedOperation)
    else if (r.target.platform == Ios && r.target.deviceKind == Emulator)
         || (r.target.platform == Android && r.target.deviceKind == Simulator) then Err(InvalidTargetKind)
    else if (if r.operation == Interact then r.actions.None? || r.actions.value == 0 else r.actions.Some?) then Err(ActionScope)
    else if (r.operation == RecordVideo) != r.durationSeconds.Some? then Err(VideoScope)
    else Ok(())
  }

  function Normalize(r: Request, o: Observation, now: int): Result<MobileResult> {
    if !ObservationSchema(o) then Err(SchemaRefused)
    else if !Fresh(o.observedAt, now) then Err(StaleOrFuture)
    else if o.providerId != r.providerId || o.operation != r.operation || o.target != r.target
         || o.observedAt < r.requestedAt then Err(IdentityMismatch)
    else if o.completion == Interrupted then Err(EffectUncertain)
    else if o.completion != Completed then Err(OperationFailed)
    else if o.actionsCompleted != (if r.actions.Some? then r.actions.value else 0) then Err(ActionCoverage)
    else
      var screenshot, video := r.operation == Screenshot, r.operation == RecordVideo;
      if (screenshot || video) != o.capture.Some? then Err(CaptureCoverage)
      else if o.capture.Some? && (o.capture.value.stateId != r.stateId
           || (screenshot && o.capture.value.mime == Mp4)
           || (video && (o.capture.value.mime != Mp4 || o.capture.value.durationSeconds != r.durationSeconds)))
      then Err(CaptureProvenance)
      else Ok(MobileResult(o, o.capture.Some?))
  }

  const PNG_SIGNATURE: Bytes := [137, 80, 78, 71, 13, 10, 26, 10]
  const FTYP: Bytes := [102, 116, 121, 112]

  function BigEndian(b: Bytes, at: nat): int
    requires at + 4 <= |b|
  {
    (b[at] as int * 0x100_0000) + (b[at + 1] as int * 0x1_0000) + (b[at + 2] as int * 0x100) + b[at + 3] as int
  }

  predicate PngShape(b: Bytes) {
    |b| >= 24 && b[..8] == PNG_SIGNATURE
  }

  /** Decoding as ASCII drops the high bit of a byte. */
  predicate Ftyp(b: Bytes)
    requires |b| >= 8
  {
    forall i :: 0 <= i < 4 ==> b[4 + i] as int % 128 == FTYP[i] as int
  }

  /** Retained bytes must be the observed capture; an empty artifact id means none is declared. */
  function ValidateCapture(o: Observation, bytes: Option<Bytes>, artifactId: string): Result<()> {
    if o.capture.None? then
      if bytes.Some? || artifactId != "" then Err(UnexpectedCaptureBytes) else Ok(())
    else
      var c := o.capture.value;
      if artifactId == "" || c.artifactId != artifactId || bytes.None? || bytes.value == [] || bytes.value != c.digest
      then Err(CaptureBytesMismatch)
      else
        var b := bytes.value;
        if c.mime == Png && (!PngShape(b) || BigEndian(b, 16) != c.width || BigEndian(b, 20) != c.height)
        then Err(CaptureFormatMismatch)
        else if c.mime == Jpeg && (|b| < 4 || b[0] != 255 || b[1] != 216 || b[|b| - 2] != 255 || b[|b| - 1] != 217)
        then Err(CaptureFormatMismatch)
        else if c.mime == Mp4 && (|b| < 12 || !Ftyp(b)) then Err(CaptureFormatMismatch)
        else Ok(())
  }

  /** A route declares a capture artifact exactly when its operation captures. */
  datatype Route = Route(operation: Operation, providerId: string, captureArtifactId: string)

  predicate RouteDeclared(route: Route) {
    (route.operation == Screenshot || route.operation == RecordVideo) <==> route.captureArtifactId != ""
  }

  /** The route's judgement of a transport's response. */
  function RouteExecute(route: Route, r: Request, o: Observation, bytes: Option<Bytes>, now: int): Result<MobileResult> {
    match Normalize(r, o, now)
    case Err(e) => Err(e)
    case Ok(output) =>
      match ValidateCapture(output.observation, bytes, route.captureArtifactId)
      case Err(e) => Err(e)
      case Ok(_) => Ok(output)
  }

  /** The route's later comparison of a readback with what it recorded. The clock is read once for the
      support and again, after the readback, for the observation. */
  function RouteObserve(route: Route, r: Request, recorded: MobileResult, evidence: Observation,
                        support: Support, supportNow: int, actual: Option<Observation>, now: int): Result<bool> {
    if r.operation != route.operation || r.providerId != route.providerId then Ok(false)
    else match RequireSupport(r, support, supportNow)
      case Err(e) => Err(e)
      case Ok(_) =>
        if actual.None? then Ok(false)
        else match Normalize(r, actual.value, now)
          case Err(e) => Err(e)
          case Ok(normalized) => Ok(normalized == recorded && normalized.observation == evidence)
  }

  // ---- what is accepted, and why not --------------------------------------------------------

  /** Some entry of the support answer names the platform, the kind of device and the operation. */
  predicate Offers(s: Support, r: Request) {
    exists t :: t in s.tuples && t.platform == r.target.platform && t.deviceKind == r.target.deviceKind && r.operation in t.operations
  }

  predicate RealDevice(t: Target) {
    !(t.platform == Ios && t.deviceKind == Emulator) && !(t.platform == Android && t.deviceKind == Simulator)
  }

  /** Actions come with an interaction and only with one, a duration with a video and only with one. */
  predicate WellScoped(r: Request) {
    && (r.operation == Interact <==> r.actions.Some? && r.actions.value > 0)
    && (r.operation != Interact ==> r.actions.None?)
    && (r.operation == RecordVideo <==> r.durationSeconds.Some?)
  }

  /** A request is supported exactly when both sides are well formed and fresh, the provider is the
      one asked for and there, and it offers the operation on such a device. */
  lemma SupportedExactly(r: Request, s: Support, now: int)
    ensures RequireSupport(r, s, now).Ok? <==>
      && RequestSchema(r) && SupportSchema(s)
      && 0 <= now - r.requestedAt <= 60_000 && 0 <= now - s.checkedAt <= 60_000
      && r.providerId == s.providerId && s.available && Offers(s, r) && RealDevice(r.target) && WellScoped(r)
    ensures RequireSupport(r, s, now).Err? ==> SupportRefused(r, s, now, RequireSupport(r, s, now).error)
  {}

  /** The reason given is one there is. */
  predicate SupportRefused(r: Request, s: Support, now: int, error: MobileError) {
    match error
    case SchemaRefused => !RequestSchema(r) || !SupportSchema(s)
    case StaleOrFuture => !(0 <= now - r.requestedAt <= 60_000 && 0 <= now - s.checkedAt <= 60_000)
    case ProviderMismatch => r.providerId != s.providerId
    case ProviderUnavailable => !s.available
    case UnsupportedOperation => !Offers(s, r)
    case InvalidTargetKind => !RealDevice(r.target)
    case ActionScope => (r.operation == Interact) != (r.actions.Some? && r.actions.value > 0) || (r.operation != Interact && r.actions.Some?)
    case VideoScope => (r.operation == RecordVideo) != r.durationSeconds.Some?
    case _ => false
  }

  /** The observation is of this request: the same provider, operation and target, not before it. */
  predicate SameIdentity(r: Request, o: Observation) {
    o.providerId == r.providerId && o.operation == r.operation && o.target == r.target && r.requestedAt <= o.observedAt
  }

  predicate Capturing(op: Operation) {
    op == Screenshot || op == RecordVideo
  }

  /** The capture is of the state asked for and of the right kind, and a video of the right length. */
  predicate RightCapture(r: Request, c: Capture) {
    && c.stateId == r.stateId
    && (r.operation == Screenshot ==> c.mime == Png || c.mime == Jpeg)
    && (r.operation == RecordVideo ==> c.mime == Mp4 && c.durationSeconds == r.durationSeconds)
  }

  /** An observation is accepted exactly when it is well formed and fresh, of this request, completed
      with all its actions, and with the right capture when the operation captures and only then. */
  lemma NormalizedExactly(r: Request, o: Observation, now: int)
    ensures Normalize(r, o, now).Ok? <==>
      && ObservationSchema(o) && 0 <= now - o.observedAt <= 60_000 && SameIdentity(r, o) && o.completion == Completed
      && o.actionsCompleted == (if r.actions.Some? then r.actions.value else 0)
      && (Capturing(r.operation) <==> o.capture.Some?) && (o.capture.Some? ==> RightCapture(r, o.capture.value))
    ensures Normalize(r, o, now).Ok? ==> Normalize(r, o, now).value == MobileResult(o, o.capture.Some?)
    ensures Normalize(r, o, now).Err? ==> ObservationRefused(r, o, now, Normalize(r, o, now).error)
  {}

  predicate ObservationRefused(r: Request, o: Observation, now: int, error: MobileError) {
    match error
    case SchemaRefused => !ObservationSchema(o)
    case StaleOrFuture => !(0 <= now - o.observedAt <= 60_000)
    case IdentityMismatch => !SameIdentity(r, o)
    case EffectUncertain => o.completion == Interrupted
    case OperationFailed => o.completion == Failed
    case ActionCoverage => o.actionsCompleted != (if r.actions.Some? then r.actions.value else 0)
    case CaptureCoverage => Capturing(r.operation) != o.capture.Some?
    case CaptureProvenance => o.capture.Some? && !RightCapture(r, o.capture.value)
    case _ => false
  }

  /** The bytes begin and end as their format asks, and a PNG is of the size observed. */
  predicate RightBytes(c: Capture, b: Bytes) {
    match c.mime
    case Png => |b| >= 24 && b[..8] == [137, 80, 78, 71, 13, 10, 26, 10] && BigEndian(b, 16) == c.width && BigEndian(b, 20) == c.height
    case Jpeg => |b| >= 4 && b[0] == 255 && b[1] == 216 && b[|b| - 2] == 255 && b[|b| - 1] == 217
    case Mp4 => |b| >= 12 && b[4] as int % 128 == 102 && b[5] as int % 128 == 116 && b[6] as int % 128 == 121 && b[7] as int % 128 == 112
  }

  /** Retained bytes are accepted exactly when they are the observed capture's under the declared id
      and of its format, or when there is neither a capture nor anything retained. */
  lemma CaptureExactly(o: Observation, bytes: Option<Bytes>, artifactId: string)
    ensures ValidateCapture(o, bytes, artifactId).Ok? <==>
      if o.capture.None? then bytes == None && artifactId == ""
      else
        var c := o.capture.value;
        artifactId != "" && c.artifactId == artifactId && bytes == Some(c.digest) && c.digest != [] && RightBytes(c, c.digest)
  {
    if o.capture.Some? && bytes.Some? && |bytes.value| >= 12 {
      var b := bytes.value;
      assert Ftyp(b) <==> b[4] as int % 128 == 102 && b[5] as int % 128 == 116 && b[6] as int % 128 == 121 && b[7] as int % 128 == 112 by {
        assert FTYP[0] == 102 && FTYP[1] == 116 && FTYP[2] == 121 && FTYP[3] == 112;
        assert b[4 + 0] == b[4] && b[4 + 1] == b[5] && b[4 + 2] == b[6] && b[4 + 3] == b[7];
      }
    }
  }

  /** The route returns a result exactly when observation and bytes are accepted. */
  lemma RouteExecutesExactly(route: Route, r: Request, o: Observation, bytes: Option<Bytes>, now: int)
    ensures RouteExecute(route, r, o, bytes, now).Ok? <==>
      Normalize(r, o, now).Ok? && ValidateCapture(o, bytes, route.captureArtifactId).Ok?
    ensures RouteExecute(route, r, o, bytes, now).Ok? ==> RouteExecute(route, r, o, bytes, now).value == MobileResult(o, o.capture.Some?)
  {}

  /** The route recognises a readback exactly when it is asked for its own operation and provider,
      support holds, and what is read back is what was recorded. */
  lemma RouteObservesExactly(route: Route, r: Request, recorded: MobileResult, evidence: Observation,
                             support: Support, supportNow: int, actual: Option<Observation>, now: int)
    ensures RouteObserve(route, r, recorded, evidence, support, supportNow, actual, now) == Ok(true) <==>
      && r.operation == route.operation && r.providerId == route.providerId && RequireSupport(r, support, supportNow).Ok?
      && actual.Some? && Normalize(r, actual.value, now).Ok?
      && MobileResult(actual.value, actual.value.capture.Some?) == recorded && actual.value == evidence
  {}

  // ---- what is well formed ------------------------------------------------------------------

  /** The texts of a target; none may be missing. */
  function TargetTexts(t: Target): seq<string> {
    [t.deviceId, t.osVersion, t.locale, t.appId, t.buildId, t.artifactSha256]
  }

  lemma TextsAreThere(a: string, b: string, target: Target)
    ensures "" !in [a, b] + TargetTexts(target) <==> a != "" && b != "" && TargetSchema(target)
  {
    var t, s := TargetTexts(target), [a, b] + TargetTexts(target);
    assert s[0] == a && s[1] == b;
    assert t[0] == target.deviceId && t[1] == target.osVersion && t[2] == target.locale;
    assert t[3] == target.appId && t[4] == target.buildId && t[5] == target.artifactSha256;
    assert forall i :: 0 <= i < 6 ==> s[2 + i] == t[i] && t[i] in s;
  }

  /** A request is well formed exactly when no text is missing, it asks for thirty actions at most, and
      for a video of one to sixty seconds if it asks for one. */
  lemma RequestExactly(r: Request)
    ensures RequestSchema(r) <==>
      && "" !in [r.providerId, r.stateId] + TargetTexts(r.target)
      && !(r.actions.Some? && r.actions.value > 30)
      && !(r.durationSeconds.Some? && (r.durationSeconds.value < 1 || r.durationSeconds.value > 60))
  {
    TextsAreThere(r.providerId, r.stateId, r.target);
    hide TargetSchema;
    hide TargetTexts;
  }

  /** A support answer is well formed exactly when it names its provider and each of its tuples offers
      something. */
  lemma SupportExactly(s: Support)
    ensures SupportSchema(s) <==> |s.providerId| > 0 && !exists t :: t in s.tuples && |t.operations| == 0
  {}

  /** An observation is well formed exactly when no text is missing, no count is negative, and a capture
      has an id, a state, an extent and no empty duration. */
  lemma ObservationExactly(o: Observation)
    ensures ObservationSchema(o) <==>
      && "" !in [o.providerId, o.executionId] + TargetTexts(o.target) && !(o.actionsCompleted < 0)
      && (o.capture.Some? ==>
            var c := o.capture.value;
            && "" !in [c.artifactId, c.stateId] && !(c.width < 1) && !(c.height < 1)
            && !(c.durationSeconds.Some? && c.durationSeconds.value < 1))
  {
    TextsAreThere(o.providerId, o.executionId, o.target);
    if o.capture.Some? {
      var pair := [o.capture.value.artifactId, o.capture.value.stateId];
      assert pair[0] in pair && pair[1] in pair;
    }
    hide TargetSchema;
    hide TargetTexts;
  }

  /** The bytes are the digits of the number, the first one the highest. */
  lemma BigEndianExactly(b: Bytes, at: nat)
    requires at + 4 <= |b|
    ensures var n := BigEndian(b, at);
      && n % 256 == b[at + 3] && n / 256 % 256 == b[at + 2]
      && n / 0x1_0000 % 256 == b[at + 1] && n / 0x100_0000 == b[at]
  {
    var n := BigEndian(b, at);
    var high, middle := b[at] as int, b[at] as int * 256 + b[at + 1] as int;
    var low := middle * 256 + b[at + 2] as int;
    assert n == low * 256 + b[at + 3] as int;
    assert n / 256 == low && n / 0x1_0000 == middle && n / 0x100_0000 == high;
  }

  /** A route may be declared for a screenshot or a video exactly with an artifact to put it into, and for
      any other operation exactly without. */
  lemma DeclaredExactly(route: Route)
    ensures RouteDeclared(route) <==>
      match route.operation
      case Screenshot | RecordVideo => |route.captureArtifactId| > 0
      case Launch | Inspect | Interact => |route.captureArtifactId| == 0
  {}
}
