/** Resumable demand preparation (`_xml_is_complete`, `_stage_is_reusable`, `_mark_done` and the
    stage chain of `main` in run_demand_diagnosis.py): trips, then the route pool, then the
    sampled demand. Events and crashes are as in the corridor build; the difference is that a
    stage is reused only if its marker is there AND its file looks complete. */
module DemandStages {
  import opened Options
  import opened Text

  datatype Stage = Trips | Pool | Demand

  /** randomTrips, duarouter and routeSampler as unknown functions of their input file. */
  datatype Tools = Tools(trips: string, pool: string -> string, demand: string -> string)

  datatype Phase = Entering(stage: Stage) | Running(stage: Stage) | Marking(stage: Stage) | Reporting
  datatype Process = Process(skipDemand: bool, phase: Phase)
  datatype Report = Report(pool: string, demand: Option<string>)
  datatype State = State(files: map<Stage, string>, markers: set<Stage>, process: Option<Process>, reports: seq<Report>)

  datatype Event =
    | Launch(skipDemand: bool)
    | Enter             // reuse the stage or start its tool, as the check decides
    | Scribble(text: string)
    | Complete
    | Mark
    | Finish
    | Crash

  const EMPTY := State(map[], {}, None, [])

  // ----- the completeness check -----

  const ROUTES_END := "</routes>"
  const MEANDATA_END := "</meandata>"

  /** `handle.read()` from a position: everything up to the end of the file. */
  function ReadFrom(text: string, position: nat): string
    requires position <= |text|
  {
    text[position..]
  }

  /** Both tests of the disjunction call `read()`; the second call starts where the first ended. */
  predicate XmlIsComplete(text: string) {
    var position := if |text| <= 4096 then 0 else |text| - 4096;
    text != [] && (Occurs(ROUTES_END, ReadFrom(text, position)) || Occurs(MEANDATA_END, ReadFrom(text, |text|)))
  }

  /** So a closing meandata tag is never seen, and the check is for routes only. */
  lemma MeandataIsNeverRecognised(text: string)
    ensures XmlIsComplete(text) <==> Occurs(ROUTES_END, text[if |text| <= 4096 then 0 else |text| - 4096..])
  {
    assert ReadFrom(text, |text|) == "";
    assert |MEANDATA_END| == 11 && |ROUTES_END| == 9;
    assert text == [] ==> text[0..] == "";
  }

  lemma WholeFileOfRoutes()
    ensures XmlIsComplete(ROUTES_END)
  {
    assert ReadFrom(ROUTES_END, 0) == ROUTES_END && MatchesAt(ROUTES_END, ROUTES_END, 0);
  }

  // ----- the chain -----

  function Result(s: State, stage: Stage, tools: Tools): Option<string> {
    match stage
    case Trips => Some(tools.trips)
    case Pool => if Trips in s.files then Some(tools.pool(s.files[Trips])) else None
    case Demand => if Pool in s.files then Some(tools.demand(s.files[Pool])) else None
  }

  function Genuine(stage: Stage, tools: Tools): string {
    match stage
    case Trips => tools.trips
    case Pool => tools.pool(tools.trips)
    case Demand => tools.demand(tools.pool(tools.trips))
  }

  predicate Reusable(s: State, stage: Stage) {
    stage in s.markers && stage in s.files && XmlIsComplete(s.files[stage])
  }

  function After(stage: Stage, skipDemand: bool): Phase {
    match stage
    case Trips => Entering(Pool)
    case Pool => if skipDemand then Reporting else Entering(Demand)
    case Demand => Reporting
  }

  function At(s: State, skip: bool, phase: Phase): State { s.(process := Some(Process(skip, phase))) }

  function Apply(s: State, e: Event, tools: Tools): State {
    if e.Launch? then (if s.process.None? then At(s, e.skipDemand, Entering(Trips)) else s)
    else if s.process.None? then s
    else
      var skip, phase := s.process.value.skipDemand, s.process.value.phase;
      match e
      case Enter =>
        if !phase.Entering? then s
        else if Reusable(s, phase.stage) then At(s, skip, After(phase.stage, skip))
        else At(s, skip, Running(phase.stage))
      case Scribble(text) => if phase.Running? then s.(files := s.files[phase.stage := text]) else s
      case Complete =>
        if phase.Running? && Result(s, phase.stage, tools).Some?
        then At(s.(files := s.files[phase.stage := Result(s, phase.stage, tools).value]), skip, Marking(phase.stage))
        else s
      case Mark =>
        if phase.Marking?
        then At(s.(markers := s.markers + {phase.stage}), skip, After(phase.stage, skip)) else s
      case Finish =>
        if phase.Reporting? && Pool in s.files && (skip || Demand in s.files)
        then s.(process := None,
          reports := s.reports + [Report(s.files[Pool], if skip then None else Some(s.files[Demand]))])
        else s
      case Crash => s.(process := None)
  }

  function Run(events: seq<Event>, tools: Tools): State {
    if events == [] then EMPTY
    else Apply(Run(events[..|events| - 1], tools), events[|events| - 1], tools)
  }

  lemma RunSnoc(events: seq<Event>, e: Event, tools: Tools)
    ensures Run(events + [e], tools) == Apply(Run(events, tools), e, tools)
  {
    assert (events + [e])[..|events|] == events;
  }

  // ----- safety, when genuine results pass the check -----

  ghost predicate ResultsPass(tools: Tools) {
    forall stage :: XmlIsComplete(Genuine(stage, tools))
  }

  ghost predicate Holds(s: State, stage: Stage, tools: Tools) {
    stage in s.files && s.files[stage] == Genuine(stage, tools)
  }

  ghost predicate InputsHold(s: State, stage: Stage, tools: Tools) {
    && (stage != Trips ==> Holds(s, Trips, tools) && Trips in s.markers)
    && (stage == Demand ==> Holds(s, Pool, tools) && Pool in s.markers)
  }

  ghost predicate PhaseOk(s: State, skipDemand: bool, phase: Phase, tools: Tools) {
    match phase
    case Entering(stage) => InputsHold(s, stage, tools)
    case Running(stage) => InputsHold(s, stage, tools) && stage !in s.markers
    case Marking(stage) => InputsHold(s, stage, tools) && Holds(s, stage, tools)
    case Reporting => Holds(s, Pool, tools) && (skipDemand || Holds(s, Demand, tools))
  }

  ghost predicate IsGenuine(r: Report, tools: Tools) {
    r.pool == Genuine(Pool, tools) && (r.demand.None? || r.demand == Some(Genuine(Demand, tools)))
  }

  ghost predicate Inv(s: State, tools: Tools) {
    && (forall stage :: stage in s.markers ==> Holds(s, stage, tools))
    && (s.process.Some? ==> PhaseOk(s, s.process.value.skipDemand, s.process.value.phase, tools))
    && (forall r :: r in s.reports ==> IsGenuine(r, tools))
  }

  lemma StepKeepsMarkers(s: State, e: Event, tools: Tools)
    requires ResultsPass(tools) && Inv(s, tools)
    ensures var t := Apply(s, e, tools); forall stage :: stage in t.markers ==> Holds(t, stage, tools)
  {
  }

  lemma StepKeepsPhase(s: State, e: Event, tools: Tools)
    requires ResultsPass(tools) && Inv(s, tools)
    ensures var t := Apply(s, e, tools);
      t.process.Some? ==> PhaseOk(t, t.process.value.skipDemand, t.process.value.phase, tools)
  {
    assert forall stage :: XmlIsComplete(Genuine(stage, tools));
  }

  lemma StepKeepsReports(s: State, e: Event, tools: Tools)
    requires ResultsPass(tools) && Inv(s, tools)
    ensures var t := Apply(s, e, tools); forall r :: r in t.reports ==> IsGenuine(r, tools)
  {
  }

  lemma {:induction false} RunKeepsInvariant(events: seq<Event>, tools: Tools)
    requires ResultsPass(tools)
    ensures Inv(Run(events, tools), tools)
  {
    if events != [] {
      var s, e := Run(events[..|events| - 1], tools), events[|events| - 1];
      RunKeepsInvariant(events[..|events| - 1], tools);
      StepKeepsMarkers(s, e, tools);
      StepKeepsPhase(s, e, tools);
      StepKeepsReports(s, e, tools);
    }
  }

  /** If the tools' results close their root element, every history reuses and reports only the
      full composition of the tools. */
  lemma ReportsAreGenuine(events: seq<Event>, tools: Tools)
    requires ResultsPass(tools)
    ensures var s := Run(events, tools);
      forall r :: r in s.reports ==>
        (r.pool == tools.pool(tools.trips)
         && (r.demand.Some? ==> r.demand.value == tools.demand(tools.pool(tools.trips))))
  {
    RunKeepsInvariant(events, tools);
  }

  // ----- and only then -----

  ghost predicate ReuseIsSafe(tools: Tools) {
    forall events, stage :: Reusable(Run(events, tools), stage) ==> Holds(Run(events, tools), stage, tools)
  }

  ghost predicate EarlierPass(stage: Stage, tools: Tools) {
    && (stage != Trips ==> XmlIsComplete(Genuine(Trips, tools)))
    && (stage == Demand ==> XmlIsComplete(Genuine(Pool, tools)))
  }

  ghost predicate EarlierDone(s: State, stage: Stage, tools: Tools) {
    && (stage != Trips ==> Trips in s.markers && Holds(s, Trips, tools))
    && (stage == Demand ==> Pool in s.markers && Holds(s, Pool, tools))
  }

  /** From a launch, run every stage before `stage`, reusing what is done. */
  lemma ReachStage(before: seq<Event>, stage: Stage, tools: Tools) returns (events: seq<Event>)
    requires EarlierPass(stage, tools) && EarlierDone(Run(before, tools), stage, tools)
    requires Run(before, tools).process.None?
    ensures Run(events, tools) == At(Run(before, tools), false, Entering(stage))
  {
    RunSnoc(before, Launch(false), tools);
    events := before + [Launch(false)];
    if stage != Trips {
      RunSnoc(events, Enter, tools);
      events := events + [Enter];
      if stage == Demand {
        RunSnoc(events, Enter, tools);
        events := events + [Enter];
      }
    }
  }

  /** From a stopped workspace, complete and mark one stage and stop. */
  lemma DoStage(before: seq<Event>, stage: Stage, tools: Tools) returns (events: seq<Event>)
    requires EarlierPass(stage, tools) && EarlierDone(Run(before, tools), stage, tools)
    requires Run(before, tools).process.None? && stage !in Run(before, tools).markers
    ensures var s, t := Run(before, tools), Run(events, tools);
      t.process.None? && t.markers == s.markers + {stage} && t.files == s.files[stage := Genuine(stage, tools)]
  {
    events := ReachStage(before, stage, tools);
    RunSnoc(events, Enter, tools);
    events := events + [Enter];
    RunSnoc(events, Complete, tools);
    events := events + [Complete];
    RunSnoc(events, Mark, tools);
    events := events + [Mark];
    RunSnoc(events, Crash, tools);
    events := events + [Crash];
  }

  /** The marker is not removed before a stage is run again, so an interrupted second run can
      leave a marked, closed and wrong file. */
  lemma MarkedButWrong(stage: Stage, tools: Tools) returns (events: seq<Event>)
    requires EarlierPass(stage, tools) && !XmlIsComplete(Genuine(stage, tools))
    ensures Reusable(Run(events, tools), stage) && !Holds(Run(events, tools), stage, tools)
  {
    events := [];
    if stage != Trips {
      events := DoStage(events, Trips, tools);
      if stage == Demand {
        events := DoStage(events, Pool, tools);
      }
    }
    events := DoStage(events, stage, tools);
    events := ReachStage(events, stage, tools);
    RunSnoc(events, Enter, tools);
    events := events + [Enter];
    RunSnoc(events, Scribble(ROUTES_END), tools);
    events := events + [Scribble(ROUTES_END)];
    WholeFileOfRoutes();
  }

  /** Reuse is safe over all histories exactly when each tool's own result passes the check. */
  lemma ReuseSafeIffResultsPass(tools: Tools)
    ensures ReuseIsSafe(tools) <==> ResultsPass(tools)
  {
    if ResultsPass(tools) {
      forall events, stage | Reusable(Run(events, tools), stage) ensures Holds(Run(events, tools), stage, tools) {
        RunKeepsInvariant(events, tools);
      }
    } else {
      var stage :| !XmlIsComplete(Genuine(stage, tools));
      var first := if !XmlIsComplete(Genuine(Trips, tools)) then Trips
        else if !XmlIsComplete(Genuine(Pool, tools)) then Pool else Demand;
      assert stage == Trips || stage == Pool || stage == Demand;
      var events := MarkedButWrong(first, tools);
    }
  }

  // ----- an undisturbed run reports -----

  /** What is reusable in a workspace is genuine: true of an empty one, and of every history if
      the tools' results pass the check. */
  ghost predicate Trustworthy(s: State, tools: Tools) {
    forall stage :: Reusable(s, stage) ==> Holds(s, stage, tools)
  }

  /** What follows `before` is free of crashes and of scribbling. */
  ghost predicate Undisturbed(before: seq<Event>, events: seq<Event>) {
    before <= events && forall i :: |before| <= i < |events| ==> !events[i].Crash? && !events[i].Scribble?
  }

  lemma StaysTrustworthy(s: State, t: State, stage: Stage, tools: Tools)
    requires Trustworthy(s, tools) && t.markers <= s.markers + {stage}
    requires t.files == s.files[stage := Genuine(stage, tools)]
    ensures Trustworthy(t, tools)
  {
    forall x | Reusable(t, x) ensures Holds(t, x, tools) {
      if x != stage { assert Reusable(s, x) && Holds(s, x, tools); }
    }
  }

  /** One stage, reused or done anew. */
  lemma PassStage(before: seq<Event>, skip: bool, stage: Stage, tools: Tools) returns (events: seq<Event>)
    requires var s := Run(before, tools);
      s.process == Some(Process(skip, Entering(stage))) && Trustworthy(s, tools)
    requires stage != Trips ==> Holds(Run(before, tools), Trips, tools)
    requires stage == Demand ==> Holds(Run(before, tools), Pool, tools)
    ensures Undisturbed(before, events)
    ensures var s, t := Run(before, tools), Run(events, tools);
      && t.process == Some(Process(skip, After(stage, skip))) && Trustworthy(t, tools)
      && t.files == s.files[stage := Genuine(stage, tools)] && t.reports == s.reports
  {
    var s := Run(before, tools);
    RunSnoc(before, Enter, tools);
    events := before + [Enter];
    if Reusable(s, stage) {
      assert s.files[stage := Genuine(stage, tools)] == s.files;
    } else {
      RunSnoc(events, Complete, tools);
      events := events + [Complete];
      RunSnoc(events, Mark, tools);
      events := events + [Mark];
      assert Run(events, tools).markers == s.markers + {stage};
    }
    StaysTrustworthy(s, Run(events, tools), stage, tools);
  }

  lemma PassAll(before: seq<Event>, skip: bool, tools: Tools) returns (events: seq<Event>)
    requires Run(before, tools).process.None? && Trustworthy(Run(before, tools), tools)
    ensures Undisturbed(before, events)
    ensures var s, t := Run(before, tools), Run(events, tools);
      && t.process == Some(Process(skip, Reporting)) && Holds(t, Pool, tools) && (skip || Holds(t, Demand, tools))
      && t.reports == s.reports
  {
    RunSnoc(before, Launch(skip), tools);
    events := before + [Launch(skip)];
    assert forall x :: Reusable(Run(events, tools), x) ==> Reusable(Run(before, tools), x);
    events := PassStage(events, skip, Trips, tools);
    events := PassStage(events, skip, Pool, tools);
    if !skip {
      events := PassStage(events, skip, Demand, tools);
    }
  }

  ghost predicate ReportsOneMore(before: seq<Event>, after: seq<Event>, skip: bool, tools: Tools) {
    var pool := tools.pool(tools.trips);
    && Run(after, tools).process.None?
    && Run(after, tools).reports
       == Run(before, tools).reports + [Report(pool, if skip then None else Some(tools.demand(pool)))]
  }

  /** From a stopped, trustworthy workspace an undisturbed run reaches its end and reports the
      tools' composition, with the sampled demand unless it is skipped. */
  lemma UndisturbedRunReports(before: seq<Event>, skip: bool, tools: Tools)
    requires Run(before, tools).process.None? && Trustworthy(Run(before, tools), tools)
    ensures exists after :: Undisturbed(before, after) && ReportsOneMore(before, after, skip, tools)
  {
    var events := PassAll(before, skip, tools);
    RunSnoc(events, Finish, tools);
    var after := events + [Finish];
    assert Undisturbed(before, after);
  }

  /** So a workspace can always be resumed when the tools' results pass the check. */
  lemma AlwaysResumable(before: seq<Event>, tools: Tools)
    requires Run(before, tools).process.None?
    ensures Run(before, tools) == EMPTY || ResultsPass(tools) ==> Trustworthy(Run(before, tools), tools)
  {
    if ResultsPass(tools) { RunKeepsInvariant(before, tools); }
  }
}
