/** What a workspace of the corridor build that several configurations share may hand out.

    A config is a scope, a pin and the network confirmation of one command line. The theorem is
    about a set of configs: whatever histories of runs, refusals and crashes use only these. */
module CorridorSharing {
  import opened Options
  import opened CorridorStages

  /** The configs of the runs that were started; a launch during another run does nothing. */
  function Started(events: seq<Event>, tools: Tools): set<Config> {
    if events == [] then {}
    else
      var init, e := events[..|events| - 1], events[|events| - 1];
      Started(init, tools) + (if e.Launch? && Run(init, tools).process.None? then {e.config} else {})
  }

  ghost predicate StartsOnly(events: seq<Event>, configs: set<Config>, tools: Tools) {
    Started(events, tools) <= configs
  }

  /** Every receipt is for its own scope, on its own extract as it lies on disk. */
  ghost predicate ReceiptsAreOwn(s: State, tools: Tools) {
    forall r :: r in s.receipts ==>
      HasExtract(s, r.config, tools) && r.network == Compose(r.config.scope, s.extracts[r.config.pin.fileName], tools)
  }

  /** An extract file may hold any prefix of a download that one of the configs accepts. */
  ghost predicate MayBeLeft(configs: set<Config>, name: nat, bytes: Bytes, tools: Tools) {
    exists c, raw :: c in configs && c.confirmed && c.pin.fileName == name && Matches(raw, c.pin, tools) && bytes <= raw
  }

  /** Once `raw` has been acquired for `a`, config `b` may find `bytes` as its own extract. */
  ghost predicate MayReuse(configs: set<Config>, a: Config, raw: Bytes, b: Config, bytes: Bytes, tools: Tools) {
    && a in configs && a.confirmed && Matches(raw, a.pin, tools)
    && b in configs && Matches(bytes, b.pin, tools)
    && (if b.pin.fileName == a.pin.fileName then bytes == raw else MayBeLeft(configs, b.pin.fileName, bytes, tools))
  }

  /** Whoever acquires and whoever reuses, both would build the same network. */
  ghost predicate Interchangeable(configs: set<Config>, tools: Tools) {
    forall a, raw, b, bytes :: MayReuse(configs, a, raw, b, bytes, tools) ==>
      Compose(a.scope, raw, tools) == Compose(b.scope, bytes, tools)
  }

  // ----- what the configs of a history leave behind -----

  predicate PastVerify(phase: Phase) {
    match phase
    case Entering(stage) => !stage.Acquire?
    case Running(stage) => !stage.Acquire?
    case Marking(stage) => !stage.Acquire?
    case Sealing => true
    case _ => false
  }

  ghost predicate FilesOf(s: State, configs: set<Config>, tools: Tools) {
    && (forall n :: n in s.extracts ==> MayBeLeft(configs, n, s.extracts[n], tools))
    && (Acquire in s.markers ==> exists a :: a in configs && a.confirmed && HasExtract(s, a, tools))
  }

  ghost predicate UsersOf(s: State, configs: set<Config>, tools: Tools) {
    && (s.process.Some? ==>
          && s.process.value.config in configs
          && (PastVerify(s.process.value.phase) ==> ExtractVerified(s, s.process.value.config, tools)))
    && (s.source.Some? ==>
          && s.source.value.config in configs && ExtractVerified(s, s.source.value.config, tools)
          && s.extracts[s.source.value.config.pin.fileName] == s.source.value.raw)
    && (forall r :: r in s.receipts ==> r.config in configs && ExtractVerified(s, r.config, tools))
  }

  /** Extract files are written only before the acquire marker, so they stay as they are after it. */
  lemma ExtractsAreFrozen(s: State, e: Event, tools: Tools)
    requires Inv(s, tools) && Acquire in s.markers
    ensures Apply(s, e, tools).extracts == s.extracts && Acquire in Apply(s, e, tools).markers
  {
  }

  lemma StepKeepsFiles(s: State, e: Event, configs: set<Config>, tools: Tools)
    requires Inv(s, tools) && FilesOf(s, configs, tools)
    requires s.process.Some? ==> s.process.value.config in configs
    ensures FilesOf(Apply(s, e, tools), configs, tools)
  {
    if Acquire in s.markers {
      ExtractsAreFrozen(s, e, tools);
    } else if s.process.Some? && s.process.value.phase.Saving? {
      SavedBytesMayBeLeft(s, e, configs, tools);
    }
  }

  lemma SavedBytesMayBeLeft(s: State, e: Event, configs: set<Config>, tools: Tools)
    requires Inv(s, tools) && s.process.Some? && s.process.value.phase.Saving? && s.process.value.config in configs
    ensures var c, t := s.process.value.config, Apply(s, e, tools);
      && t.extracts - {c.pin.fileName} == s.extracts - {c.pin.fileName}
      && (t.extracts == s.extracts
          || (c.pin.fileName in t.extracts
              && MayBeLeft(configs, c.pin.fileName, t.extracts[c.pin.fileName], tools)))
  {
  }

  lemma StepKeepsUsers(s: State, e: Event, configs: set<Config>, tools: Tools)
    requires Inv(s, tools) && UsersOf(s, configs, tools)
    requires e.Launch? && s.process.None? ==> e.config in configs
    ensures UsersOf(Apply(s, e, tools), configs, tools)
  {
    if Acquire in s.markers {
      ExtractsAreFrozen(s, e, tools);
    }
  }

  lemma {:induction false} HistoryOf(events: seq<Event>, configs: set<Config>, tools: Tools)
    requires StartsOnly(events, configs, tools)
    ensures FilesOf(Run(events, tools), configs, tools) && UsersOf(Run(events, tools), configs, tools)
  {
    if events != [] {
      var init, e := events[..|events| - 1], events[|events| - 1];
      HistoryOf(init, configs, tools);
      RunKeepsInvariant(init, tools);
      StepKeepsFiles(Run(init, tools), e, configs, tools);
      StepKeepsUsers(Run(init, tools), e, configs, tools);
    }
  }

  /** Sufficiency, for one history. */
  lemma InterchangeableReceiptsAreOwn(events: seq<Event>, configs: set<Config>, tools: Tools)
    requires StartsOnly(events, configs, tools) && Interchangeable(configs, tools)
    ensures ReceiptsAreOwn(Run(events, tools), tools)
  {
    var s := Run(events, tools);
    RunKeepsInvariant(events, tools);
    HistoryOf(events, configs, tools);
    forall r | r in s.receipts
      ensures HasExtract(s, r.config, tools)
      ensures r.network == Compose(r.config.scope, s.extracts[r.config.pin.fileName], tools)
    {
      assert ReceiptOk(s, r, tools);
      var a :| a in configs && a.confirmed && HasExtract(s, a, tools);
      MayReuseOnDisk(s, configs, a, r.config, tools);
      MayReuseOnDisk(s, configs, a, s.source.value.config, tools);
    }
  }

  lemma MayReuseOnDisk(s: State, configs: set<Config>, a: Config, b: Config, tools: Tools)
    requires FilesOf(s, configs, tools) && a in configs && a.confirmed && b in configs
    requires HasExtract(s, a, tools) && HasExtract(s, b, tools)
    ensures MayReuse(configs, a, s.extracts[a.pin.fileName], b, s.extracts[b.pin.fileName], tools)
  {
  }

  // ----- histories -----

  lemma RunSnoc(events: seq<Event>, e: Event, tools: Tools)
    ensures Run(events + [e], tools) == Apply(Run(events, tools), e, tools)
    ensures Started(events + [e], tools)
      == Started(events, tools) + (if e.Launch? && Run(events, tools).process.None? then {e.config} else {})
  {
    assert (events + [e])[..|events|] == events;
  }

  /** One stage of an idle workspace, run to its marker. */
  lemma RunStage(before: seq<Event>, c: Config, stage: Stage, tools: Tools) returns (events: seq<Event>)
    requires !stage.Acquire? && stage !in Run(before, tools).markers
    requires Run(before, tools).process == Some(Process(c, Entering(stage)))
    requires Output(Run(before, tools), c, stage, tools).Some?
    ensures before <= events
    ensures Started(events, tools) == Started(before, tools)
    ensures var s, t := Run(before, tools), Run(events, tools);
      && t.process == Some(Process(c, After(stage))) && t.markers == s.markers + {stage}
      && t.extracts == s.extracts && t.receipts == s.receipts
      && (var u := Store(s, stage, Output(s, c, stage, tools).value);
          t.clipped == u.clipped && t.decoded == u.decoded && t.network == u.network)
  {
    events := before + [Begin];
    RunSnoc(before, Begin, tools);
    RunSnoc(events, Complete, tools);
    events := events + [Complete];
    RunSnoc(events, Mark, tools);
    events := events + [Mark];
  }

  /** The download and its comparison in a workspace without markers. */
  lemma RunDownload(before: seq<Event>, a: Config, raw: Bytes, tools: Tools) returns (events: seq<Event>)
    requires a.confirmed && Matches(raw, a.pin, tools)
    requires Run(before, tools).process.None? && Run(before, tools).markers == {}
    ensures Started(events, tools) == Started(before, tools) + {a}
    ensures Run(events, tools)
      == At(Run(before, tools).(extracts := Run(before, tools).extracts[a.pin.fileName := raw]), a, Marking(Acquire))
  {
    RunSnoc(before, Launch(a), tools);
    events := before + [Launch(a)];
    RunSnoc(events, Download(raw), tools);
    events := events + [Download(raw)];
    RunSnoc(events, Complete, tools);
    events := events + [Complete];
  }

  lemma RunAcquire(before: seq<Event>, a: Config, raw: Bytes, tools: Tools) returns (events: seq<Event>)
    requires a.confirmed && Matches(raw, a.pin, tools)
    requires Run(before, tools).process.None? && Run(before, tools).markers == {}
    ensures Started(events, tools) == Started(before, tools) + {a}
    ensures var s, t := Run(before, tools), Run(events, tools);
      && t.process == Some(Process(a, Entering(Clip))) && t.markers == {Acquire}
      && t.extracts == s.extracts[a.pin.fileName := raw] && t.receipts == s.receipts
  {
    events := RunDownload(before, a, raw, tools);
    RunSnoc(events, Mark, tools);
    events := events + [Mark];
    RunSnoc(events, Verify, tools);
    events := events + [Verify];
  }

  /** The three tool stages after a verified extract. */
  lemma RunTools(before: seq<Event>, a: Config, raw: Bytes, tools: Tools) returns (events: seq<Event>)
    requires Run(before, tools).process == Some(Process(a, Entering(Clip))) && Run(before, tools).markers == {Acquire}
    requires a.pin.fileName in Run(before, tools).extracts && Run(before, tools).extracts[a.pin.fileName] == raw
    ensures Started(events, tools) == Started(before, tools)
    ensures var s, t := Run(before, tools), Run(events, tools);
      && t.process == Some(Process(a, Sealing)) && t.markers == {Acquire, Clip, Decode, Build}
      && t.extracts == s.extracts && t.network == Some(Compose(a.scope, raw, tools))
  {
    events := RunStage(before, a, Clip, tools);
    events := RunStage(events, a, Decode, tools);
    events := RunStage(events, a, Build, tools);
  }

  /** The first whole run of a workspace, undisturbed. */
  lemma FirstRun(before: seq<Event>, a: Config, raw: Bytes, tools: Tools) returns (events: seq<Event>)
    requires a.confirmed && Matches(raw, a.pin, tools)
    requires Run(before, tools).process.None? && Run(before, tools).markers == {}
    ensures Started(events, tools) == Started(before, tools) + {a}
    ensures var s, t := Run(before, tools), Run(events, tools);
      && t.process.None? && t.markers == {Acquire, Clip, Decode, Build}
      && t.extracts == s.extracts[a.pin.fileName := raw] && t.network == Some(Compose(a.scope, raw, tools))
  {
    events := RunAcquire(before, a, raw, tools);
    events := RunTools(events, a, raw, tools);
    RunSnoc(events, Seal, tools);
    events := events + [Seal];
  }

  lemma ReuseStage(before: seq<Event>, c: Config, stage: Stage, tools: Tools) returns (events: seq<Event>)
    requires stage in Run(before, tools).markers
    requires Run(before, tools).process == Some(Process(c, Entering(stage)))
    ensures before <= events
    ensures Started(events, tools) == Started(before, tools)
    ensures Run(events, tools) == At(Run(before, tools), c, After(stage))
  {
    events := before + [Proceed];
    RunSnoc(before, Proceed, tools);
  }

  lemma ReuseTools(before: seq<Event>, b: Config, tools: Tools) returns (events: seq<Event>)
    requires Run(before, tools).process == Some(Process(b, Entering(Clip)))
    requires {Clip, Decode, Build} <= Run(before, tools).markers
    ensures Started(events, tools) == Started(before, tools)
    ensures Run(events, tools) == At(Run(before, tools), b, Sealing)
  {
    events := ReuseStage(before, b, Clip, tools);
    events := ReuseStage(events, b, Decode, tools);
    events := ReuseStage(events, b, Build, tools);
  }

  /** A run on a finished workspace: it seals whatever network is there. */
  lemma ReuseRun(before: seq<Event>, b: Config, tools: Tools) returns (events: seq<Event>)
    requires var s := Run(before, tools);
      s.process.None? && s.markers == {Acquire, Clip, Decode, Build} && s.network.Some? && HasExtract(s, b, tools)
    ensures Started(events, tools) == Started(before, tools) + {b}
    ensures var s := Run(before, tools);
      Run(events, tools) == s.(receipts := s.receipts + [Receipt(b, s.network.value)])
  {
    RunSnoc(before, Launch(b), tools);
    events := before + [Launch(b)];
    events := ReuseStage(events, b, Acquire, tools);
    RunSnoc(events, Verify, tools);
    events := events + [Verify];
    events := ReuseTools(events, b, tools);
    RunSnoc(events, Seal, tools);
    events := events + [Seal];
  }

  /** A download cut short after `bytes`, the process lost before the marker. */
  lemma AbandonedDownload(c: Config, raw: Bytes, bytes: Bytes, tools: Tools) returns (events: seq<Event>)
    requires c.confirmed && Matches(raw, c.pin, tools) && bytes <= raw
    ensures Started(events, tools) == {c}
    ensures Run(events, tools) == EMPTY.(extracts := map[c.pin.fileName := bytes])
  {
    RunSnoc([], Launch(c), tools);
    events := [] + [Launch(c)];
    RunSnoc(events, Download(raw), tools);
    events := events + [Download(raw)];
    RunSnoc(events, Scribble(bytes), tools);
    events := events + [Scribble(bytes)];
    RunSnoc(events, Crash, tools);
    events := events + [Crash];
  }

  /** Every pair the condition speaks of occurs: `b` seals the network that `a` built. */
  lemma ReuseHappens(configs: set<Config>, a: Config, raw: Bytes, b: Config, bytes: Bytes, tools: Tools)
    returns (events: seq<Event>)
    requires MayReuse(configs, a, raw, b, bytes, tools)
    ensures StartsOnly(events, configs, tools)
    ensures var s := Run(events, tools);
      && Receipt(b, Compose(a.scope, raw, tools)) in s.receipts
      && b.pin.fileName in s.extracts && s.extracts[b.pin.fileName] == bytes
  {
    events := [];
    if b.pin.fileName != a.pin.fileName {
      var c, whole :| c in configs && c.confirmed && c.pin.fileName == b.pin.fileName
                      && Matches(whole, c.pin, tools) && bytes <= whole;
      events := AbandonedDownload(c, whole, bytes, tools);
    }
    events := FirstRun(events, a, raw, tools);
    events := ReuseRun(events, b, tools);
  }

  // ----- main results -----

  /** Over every history of runs, refusals and crashes, a done marker means that the stage's
      output is the tool's complete result on its predecessor's complete output, down to an
      extract that some run started with network confirmation compared with its pin, and that
      lies on disk as it was. */
  lemma MarkersVouchForTheChain(events: seq<Event>, tools: Tools)
    ensures MarkersGenuine(Run(events, tools), tools)
    ensures var s := Run(events, tools);
      Acquire in s.markers ==> exists a :: a in Started(events, tools) && a.confirmed && HasExtract(s, a, tools)
    ensures var s := Run(events, tools);
      Clip in s.markers ==>
        (s.source.Some? && s.source.value.config in Started(events, tools)
         && HasExtract(s, s.source.value.config, tools)
         && s.extracts[s.source.value.config.pin.fileName] == s.source.value.raw)
    ensures var s := Run(events, tools);
      Build in s.markers ==>
        (s.source.Some? && s.network
         == Some(tools.build(tools.decode(tools.clip(s.source.value.config.scope, s.source.value.raw)))))
  {
    RunKeepsInvariant(events, tools);
    assert StartsOnly(events, Started(events, tools), tools);
    HistoryOf(events, Started(events, tools), tools);
  }

  /** The markers record neither scope nor pin. A set of configs can share a workspace, over
      all histories, exactly if no two of them that could meet there build different networks. */
  lemma SharingIsSafeIff(configs: set<Config>, tools: Tools)
    ensures (forall events :: StartsOnly(events, configs, tools) ==> ReceiptsAreOwn(Run(events, tools), tools))
      <==> Interchangeable(configs, tools)
  {
    if Interchangeable(configs, tools) {
      forall events | StartsOnly(events, configs, tools) ensures ReceiptsAreOwn(Run(events, tools), tools) {
        InterchangeableReceiptsAreOwn(events, configs, tools);
      }
    }
    if forall events :: StartsOnly(events, configs, tools) ==> ReceiptsAreOwn(Run(events, tools), tools) {
      forall a, raw, b, bytes | MayReuse(configs, a, raw, b, bytes, tools)
        ensures Compose(a.scope, raw, tools) == Compose(b.scope, bytes, tools)
      {
        var events := ReuseHappens(configs, a, raw, b, bytes, tools);
        assert ReceiptsAreOwn(Run(events, tools), tools);
      }
    }
  }

  /** With one pin for all configs the condition is about scopes alone. */
  lemma OnePinIsSafeIff(configs: set<Config>, pin: Pin, tools: Tools)
    requires forall c :: c in configs ==> c.pin == pin
    ensures (forall events :: StartsOnly(events, configs, tools) ==> ReceiptsAreOwn(Run(events, tools), tools))
      <==> (forall a, b, raw :: a in configs && b in configs && a.confirmed && Matches(raw, pin, tools) ==>
              Compose(a.scope, raw, tools) == Compose(b.scope, raw, tools))
  {
    SharingIsSafeIff(configs, tools);
    if Interchangeable(configs, tools) {
      forall a, b, raw | a in configs && b in configs && a.confirmed && Matches(raw, pin, tools)
        ensures Compose(a.scope, raw, tools) == Compose(b.scope, raw, tools)
      {
        assert MayReuse(configs, a, raw, b, raw, tools);
      }
    }
  }

  /** While a workspace is used with one scope and one pin, every receipt is for the whole
      pipeline on a verified extract, however many runs and crashes it took. */
  lemma ReceiptsAreFullCompositions(events: seq<Event>, tools: Tools, scope: Scope, pin: Pin)
    requires forall c :: c in Started(events, tools) ==> c.scope == scope && c.pin == pin
    ensures forall r :: r in Run(events, tools).receipts ==> var s := Run(events, tools);
      && pin.fileName in s.extracts && Matches(s.extracts[pin.fileName], pin, tools)
      && r.network == tools.build(tools.decode(tools.clip(scope, s.extracts[pin.fileName])))
  {
    var configs := Started(events, tools);
    OnePinIsSafeIff(configs, pin, tools);
    assert ReceiptsAreOwn(Run(events, tools), tools);
    HistoryOf(events, configs, tools);
  }

  /** Changing the scope: whenever two scopes give different networks on one extract, a second
      run under the other scope, against the same finished workspace, seals the first network. */
  lemma ScopeChangeIsNotNoticed(a: Config, b: Config, raw: Bytes, tools: Tools)
    requires a.confirmed && a.pin == b.pin && Matches(raw, a.pin, tools)
    requires Compose(a.scope, raw, tools) != Compose(b.scope, raw, tools)
    ensures exists events :: (var s := Run(events, tools);
      && b.pin.fileName in s.extracts && s.extracts[b.pin.fileName] == raw
      && (exists r :: r in s.receipts && r.config == b && r.network != Compose(b.scope, raw, tools)))
  {
    var events := ReuseHappens({a, b}, a, raw, b, raw, tools);
    assert Receipt(b, Compose(a.scope, raw, tools)) in Run(events, tools).receipts;
  }

  /** Changing the pin: `b` saves its extract and is lost before the marker, `a` with another
      file name builds to the end, then `b` passes the verification and seals `a`'s network. */
  lemma PinChangeIsNotNoticed(a: Config, raw: Bytes, b: Config, other: Bytes, tools: Tools)
    requires a.confirmed && b.confirmed && a.pin.fileName != b.pin.fileName
    requires Matches(raw, a.pin, tools) && Matches(other, b.pin, tools)
    ensures exists events :: (var s := Run(events, tools);
      && Receipt(b, Compose(a.scope, raw, tools)) in s.receipts
      && s.extracts == map[a.pin.fileName := raw, b.pin.fileName := other])
  {
    var events := AbandonedDownload(b, other, other, tools);
    events := FirstRun(events, a, raw, tools);
    events := ReuseRun(events, b, tools);
  }

  // ----- whom a workspace can still serve -----

  /** One more stage for a run that stands before it, reused or done anew. */
  lemma PassStage(before: seq<Event>, c: Config, stage: Stage, tools: Tools) returns (events: seq<Event>)
    requires !stage.Acquire? && Run(before, tools).process == Some(Process(c, Entering(stage)))
    ensures before <= events
    ensures var s, t := Run(before, tools), Run(events, tools);
      && t.process == Some(Process(c, After(stage))) && t.extracts == s.extracts && t.receipts == s.receipts
  {
    RunKeepsInvariant(before, tools);
    if stage in Run(before, tools).markers {
      events := ReuseStage(before, c, stage, tools);
    } else {
      events := RunStage(before, c, stage, tools);
    }
  }

  lemma SealNow(before: seq<Event>, c: Config, tools: Tools) returns (events: seq<Event>)
    requires Run(before, tools).process == Some(Process(c, Sealing))
    ensures before <= events && exists r :: r in Run(events, tools).receipts && r.config == c
  {
    RunKeepsInvariant(before, tools);
    RunSnoc(before, Seal, tools);
    events := before + [Seal];
    assert Receipt(c, Run(before, tools).network.value) in Run(events, tools).receipts;
  }

  /** After any runs, refusals and crashes, a config whose extract is there gets its receipt. */
  lemma ResumeToTheEnd(before: seq<Event>, c: Config, tools: Tools) returns (events: seq<Event>)
    requires var s := Run(before, tools); s.process.None? && Acquire in s.markers && HasExtract(s, c, tools)
    ensures before <= events && exists r :: r in Run(events, tools).receipts && r.config == c
  {
    RunSnoc(before, Launch(c), tools);
    events := before + [Launch(c)];
    events := ReuseStage(events, c, Acquire, tools);
    RunSnoc(events, Verify, tools);
    events := events + [Verify];
    events := PassStage(events, c, Clip, tools);
    events := PassStage(events, c, Decode, tools);
    events := PassStage(events, c, Build, tools);
    events := SealNow(events, c, tools);
  }

  lemma {:induction false} ExtractsStay(before: seq<Event>, after: seq<Event>, tools: Tools)
    requires before <= after && Acquire in Run(before, tools).markers
    ensures Acquire in Run(after, tools).markers && Run(after, tools).extracts == Run(before, tools).extracts
    decreases |after|
  {
    if before != after {
      var init := after[..|after| - 1];
      assert before <= init;
      ExtractsStay(before, init, tools);
      RunKeepsInvariant(init, tools);
      ExtractsAreFrozen(Run(init, tools), after[|after| - 1], tools);
    }
  }

  /** Once the acquire marker is set, a config can ever get a receipt exactly if the workspace
      already holds an extract that matches its pin: no run fetches another one any more. */
  lemma WorkspaceServesIff(before: seq<Event>, c: Config, tools: Tools)
    requires Run(before, tools).process.None? && Acquire in Run(before, tools).markers
    ensures (exists after, r :: before <= after && r in Run(after, tools).receipts && r.config == c)
      <==> HasExtract(Run(before, tools), c, tools)
  {
    if HasExtract(Run(before, tools), c, tools) {
      var after := ResumeToTheEnd(before, c, tools);
    }
    if after, r :| before <= after && r in Run(after, tools).receipts && r.config == c {
      ExtractsStay(before, after, tools);
      assert StartsOnly(after, Started(after, tools), tools);
      HistoryOf(after, Started(after, tools), tools);
    }
  }
}
