/** The resumable corridor build (`main` and `_acquire` of build_dhaka_corridor_network.py).

    One run at a time works in a workspace; any run may crash at any step, and a crashed tool or
    write leaves arbitrary bytes behind. A history is a list of events, one atomic step each; an
    event that is not enabled does nothing. osmium, netconvert and SHA-256 are unknown functions. */
module CorridorStages {
  import opened Options

  type Bytes = seq<nat>
  type Scope = nat

  datatype Pin = Pin(fileName: nat, size: nat, sha256: nat)
  datatype Config = Config(scope: Scope, pin: Pin, confirmed: bool)
  datatype Tools = Tools(
    sha256: Bytes -> nat,
    clip: (Scope, Bytes) -> Bytes,
    decode: Bytes -> Bytes,
    build: Bytes -> Bytes)

  datatype Stage = Acquire | Clip | Decode | Build

  datatype Phase =
    | Entering(stage: Stage)
    | Saving(raw: Bytes)      // the download passed its checks, write_bytes is under way
    | Running(stage: Stage)   // the tool of a later stage is under way
    | Marking(stage: Stage)   // the output is complete, the marker is not there yet
    | Verifying
    | Sealing

  datatype Process = Process(config: Config, phase: Phase)
  datatype Receipt = Receipt(config: Config, network: Bytes)
  datatype Source = Source(config: Config, raw: Bytes)

  /** `source` is bookkeeping no script reads: the config and extract of the completed clip. */
  datatype State = State(
    extracts: map<nat, Bytes>,
    clipped: Option<Bytes>,
    decoded: Option<Bytes>,
    network: Option<Bytes>,
    markers: set<Stage>,
    process: Option<Process>,
    receipts: seq<Receipt>,
    source: Option<Source>)

  datatype Event =
    | Launch(config: Config)
    | Proceed             // the marker is there: reuse
    | Begin               // the marker is missing: start the tool
    | Download(raw: Bytes)
    | Scribble(bytes: Bytes)
    | Complete
    | Mark
    | Verify
    | Seal
    | Crash               // a tool failure, a refusal or the end of the process

  const EMPTY := State(map[], None, None, None, {}, None, [], None)

  predicate Matches(raw: Bytes, pin: Pin, tools: Tools) {
    |raw| == pin.size && tools.sha256(raw) == pin.sha256
  }

  /** The extract file of a config is there, whole and with the pinned digest. */
  predicate HasExtract(s: State, c: Config, tools: Tools) {
    c.pin.fileName in s.extracts && Matches(s.extracts[c.pin.fileName], c.pin, tools)
  }

  function Compose(scope: Scope, raw: Bytes, tools: Tools): Bytes {
    tools.build(tools.decode(tools.clip(scope, raw)))
  }

  function After(stage: Stage): Phase {
    match stage
    case Acquire => Verifying
    case Clip => Entering(Decode)
    case Decode => Entering(Build)
    case Build => Sealing
  }

  function At(s: State, c: Config, phase: Phase): State { s.(process := Some(Process(c, phase))) }

  function Stop(s: State): State { s.(process := None) }

  /** What the tool of a stage leaves when it exits with 0, if its input file is there. */
  function Output(s: State, c: Config, stage: Stage, tools: Tools): Option<Bytes> {
    match stage
    case Acquire => None
    case Clip => if c.pin.fileName in s.extracts then Some(tools.clip(c.scope, s.extracts[c.pin.fileName])) else None
    case Decode => if s.clipped.Some? then Some(tools.decode(s.clipped.value)) else None
    case Build => if s.decoded.Some? then Some(tools.build(s.decoded.value)) else None
  }

  function Store(s: State, stage: Stage, bytes: Bytes): State {
    match stage
    case Acquire => s
    case Clip => s.(clipped := Some(bytes))
    case Decode => s.(decoded := Some(bytes))
    case Build => s.(network := Some(bytes))
  }

  function DoScribble(s: State, c: Config, phase: Phase, bytes: Bytes): State {
    match phase
    case Saving(raw) => if bytes <= raw then s.(extracts := s.extracts[c.pin.fileName := bytes]) else s
    case Running(stage) => Store(s, stage, bytes)
    case _ => s
  }

  function DoComplete(s: State, c: Config, phase: Phase, tools: Tools): State {
    match phase
    case Saving(raw) => At(s.(extracts := s.extracts[c.pin.fileName := raw]), c, Marking(Acquire))
    case Running(stage) =>
      var output := Output(s, c, stage, tools);
      if output.None? then s
      else
        var t := At(Store(s, stage, output.value), c, Marking(stage));
        if stage.Clip? && c.pin.fileName in s.extracts
        then t.(source := Some(Source(c, s.extracts[c.pin.fileName]))) else t
    case _ => s
  }

  function Apply(s: State, e: Event, tools: Tools): State {
    if e.Launch? then (if s.process.None? then At(s, e.config, Entering(Acquire)) else s)
    else if s.process.None? then s
    else
      var c, phase := s.process.value.config, s.process.value.phase;
      match e
      case Proceed => if phase.Entering? && phase.stage in s.markers then At(s, c, After(phase.stage)) else s
      case Begin =>
        if phase.Entering? && !phase.stage.Acquire? && phase.stage !in s.markers
        then At(s, c, Running(phase.stage)) else s
      case Download(raw) =>
        if phase == Entering(Acquire) && Acquire !in s.markers then
          (if c.confirmed && Matches(raw, c.pin, tools) then At(s, c, Saving(raw)) else Stop(s))
        else s
      case Scribble(bytes) => DoScribble(s, c, phase, bytes)
      case Complete => DoComplete(s, c, phase, tools)
      case Mark =>
        if phase.Marking? then At(s.(markers := s.markers + {phase.stage}), c, After(phase.stage)) else s
      case Verify =>
        if !phase.Verifying? then s
        else if HasExtract(s, c, tools) then At(s, c, Entering(Clip))
        else Stop(s)
      case Seal =>
        if phase.Sealing? && s.network.Some?
        then Stop(s.(receipts := s.receipts + [Receipt(c, s.network.value)])) else s
      case Crash => Stop(s)
  }

  function Run(events: seq<Event>, tools: Tools): State {
    if events == [] then EMPTY
    else Apply(Run(events[..|events| - 1], tools), events[|events| - 1], tools)
  }

  // ----- what every history keeps -----

  ghost predicate ClipIsGenuine(s: State, tools: Tools) {
    && s.source.Some? && Matches(s.source.value.raw, s.source.value.config.pin, tools)
    && s.clipped == Some(tools.clip(s.source.value.config.scope, s.source.value.raw))
  }

  ghost predicate DecodeIsGenuine(s: State, tools: Tools) {
    s.clipped.Some? && s.decoded == Some(tools.decode(s.clipped.value))
  }

  ghost predicate BuildIsGenuine(s: State, tools: Tools) {
    s.decoded.Some? && s.network == Some(tools.build(s.decoded.value))
  }

  ghost predicate AcquireIsGenuine(s: State, tools: Tools) {
    exists c: Config :: c.confirmed && HasExtract(s, c, tools)
  }

  /** A marker vouches for its stage and for every stage before it. */
  ghost predicate MarkersGenuine(s: State, tools: Tools) {
    && (Acquire in s.markers ==> AcquireIsGenuine(s, tools))
    && (Clip in s.markers ==> Acquire in s.markers && ClipIsGenuine(s, tools))
    && (Decode in s.markers ==> Clip in s.markers && DecodeIsGenuine(s, tools))
    && (Build in s.markers ==> Decode in s.markers && BuildIsGenuine(s, tools))
  }

  ghost predicate ExtractVerified(s: State, c: Config, tools: Tools) {
    Acquire in s.markers && HasExtract(s, c, tools)
  }

  ghost predicate PhaseOk(s: State, c: Config, phase: Phase, tools: Tools) {
    match phase
    case Entering(Acquire) => true
    case Saving(raw) => Acquire !in s.markers && c.confirmed && Matches(raw, c.pin, tools)
    case Marking(Acquire) => Acquire !in s.markers && c.confirmed && HasExtract(s, c, tools)
    case Running(Acquire) => false
    case Verifying => Acquire in s.markers
    case Entering(Clip) => ExtractVerified(s, c, tools)
    case Running(Clip) => ExtractVerified(s, c, tools) && Clip !in s.markers
    case Marking(Clip) => ExtractVerified(s, c, tools) && Clip !in s.markers && ClipIsGenuine(s, tools)
    case Entering(Decode) => Clip in s.markers
    case Running(Decode) => Clip in s.markers && Decode !in s.markers
    case Marking(Decode) => Clip in s.markers && Decode !in s.markers && DecodeIsGenuine(s, tools)
    case Entering(Build) => Decode in s.markers
    case Running(Build) => Decode in s.markers && Build !in s.markers
    case Marking(Build) => Decode in s.markers && Build !in s.markers && BuildIsGenuine(s, tools)
    case Sealing => Build in s.markers
  }

  ghost predicate ReceiptOk(s: State, r: Receipt, tools: Tools) {
    && Build in s.markers && s.source.Some?
    && r.network == Compose(s.source.value.config.scope, s.source.value.raw, tools)
  }

  ghost predicate Inv(s: State, tools: Tools) {
    && MarkersGenuine(s, tools)
    && (s.process.Some? ==> PhaseOk(s, s.process.value.config, s.process.value.phase, tools))
    && (forall r :: r in s.receipts ==> ReceiptOk(s, r, tools))
  }

  lemma StepKeepsMarkers(s: State, e: Event, tools: Tools)
    requires Inv(s, tools)
    ensures MarkersGenuine(Apply(s, e, tools), tools)
  {
  }

  lemma StepKeepsPhase(s: State, e: Event, tools: Tools)
    requires Inv(s, tools)
    ensures var t := Apply(s, e, tools);
      t.process.Some? ==> PhaseOk(t, t.process.value.config, t.process.value.phase, tools)
  {
  }

  lemma StepKeepsReceipts(s: State, e: Event, tools: Tools)
    requires Inv(s, tools)
    ensures var t := Apply(s, e, tools); forall r :: r in t.receipts ==> ReceiptOk(t, r, tools)
  {
  }

  lemma StepKeepsInvariant(s: State, e: Event, tools: Tools)
    requires Inv(s, tools)
    ensures Inv(Apply(s, e, tools), tools)
  {
    StepKeepsMarkers(s, e, tools);
    StepKeepsPhase(s, e, tools);
    StepKeepsReceipts(s, e, tools);
  }

  lemma {:induction false} RunKeepsInvariant(events: seq<Event>, tools: Tools)
    ensures Inv(Run(events, tools), tools)
  {
    if events != [] {
      RunKeepsInvariant(events[..|events| - 1], tools);
      StepKeepsInvariant(Run(events[..|events| - 1], tools), events[|events| - 1], tools);
    }
  }

  // ----- main results -----

  /** The extract files change only inside a run that confirmed network use, and only to a
      part of a download whose size and digest had been compared with the pin. */
  lemma ExtractWrittenOnlyWhenConfirmed(events: seq<Event>, e: Event, tools: Tools)
    requires Apply(Run(events, tools), e, tools).extracts != Run(events, tools).extracts
    ensures var s := Run(events, tools); var t := Apply(s, e, tools);
      && s.process.Some? && s.process.value.phase.Saving? && Acquire !in s.markers
      && (var c, raw := s.process.value.config, s.process.value.phase.raw;
          && c.confirmed && |raw| == c.pin.size && tools.sha256(raw) == c.pin.sha256
          && c.pin.fileName in t.extracts && t.extracts[c.pin.fileName] <= raw
          && t.extracts - {c.pin.fileName} == s.extracts - {c.pin.fileName})
  {
    RunKeepsInvariant(events, tools);
  }
}
