/** Every interleaving of Register, Submit, Abort and Close on one unit (unit.go). */
module UnitRuns {
  import opened Paths
  import opened Concurrency
  import opened Judgment
  import opened Units

  /** Where a call stands between its critical sections. */
  datatype Local =
    | Preparing
    | Contributed
    | Turned(refusal: Refusal)
    | CloseBegun(nilContext: bool)
    | Inspected
    | Recorded
    | Failing(refusal: Refusal)
    | Concluding(result: Finalized)
    | Closed(result: Finalized)

  datatype World = World(unit: State, calls: map<Call, Local>, identityOnly: bool)

  function Beginning(identityOnly: bool): World {
    World(Opened, map[], identityOnly)
  }

  datatype Event =
    | Register(call: Call, process: string, artifact: string, capture: string)
    | CommitRegistration(call: Call, cancelled: bool, failed: bool, observed: set<Subject>, reason: string)
    | SubmitTerminal(from: Option<Call>, terminal: Terminal)
    | Abort
    | BeginClose(call: Call, nilContext: bool)
    | Examine(call: Call, cancelled: bool)
    | Observe(call: Call, observation: Option<Observation>)
    | Judge(call: Call, attached: bool, checked: bool, validation: Option<Refusal>)
    | EndClose(call: Call, cancelled: bool)

  predicate Stands(w: World, call: Call, local: Local) {
    call in w.calls && w.calls[call] == local
  }

  /** A finalized observation always carries a manifest. */
  predicate Enabled(w: World, e: Event) {
    match e
    case Register(c, _, _, _) => c !in w.calls
    case CommitRegistration(c, _, _, _, _) => Stands(w, c, Preparing) && w.unit.execution.Some?
    case SubmitTerminal(_, _) => true
    case Abort => true
    case BeginClose(c, _) => c !in w.calls
    case Examine(c, _) => c in w.calls && w.calls[c].CloseBegun?
    case Observe(c, observation) =>
      && Stands(w, c, Inspected) && w.unit.execution.Some? && NeedsObservation(w.unit.execution.value, w.identityOnly)
      && (observation.Some? ==> observation.value.manifest != "")
    case Judge(c, _, _, _) =>
      c in w.calls && w.unit.execution.Some?
      && (w.calls[c].Recorded? || (w.calls[c].Inspected? && !NeedsObservation(w.unit.execution.value, w.identityOnly)))
    case EndClose(c, _) => c in w.calls && (w.calls[c].Failing? || w.calls[c].Concluding?)
  }

  function OrFailing(refusal: Option<Refusal>, local: Local): Local {
    if refusal.Some? then Failing(refusal.value) else local
  }

  function OrTurned(refusal: Option<Refusal>, local: Local): Local {
    if refusal.Some? then Turned(refusal.value) else local
  }

  /** One critical section, or one stretch of unlocked closing work; an event that is not enabled changes
      nothing. */
  function Apply(w: World, e: Event): World {
    if !Enabled(w, e) then w else
    match e
    case Register(c, process, artifact, capture) =>
      var (unit, refusal) := Reserve(w.unit, Reserved(c, process, artifact, capture));
      w.(unit := unit, calls := w.calls[c := OrTurned(refusal, Preparing)])
    case CommitRegistration(c, cancelled, failed, observed, reason) =>
      var (unit, refusal) := Prepare(w.unit, cancelled, failed, if w.identityOnly then {} else observed, reason);
      w.(unit := unit, calls := w.calls[c := OrTurned(refusal, Contributed)])
    case SubmitTerminal(from, terminal) => w.(unit := Submit(w.unit, from, terminal).0)
    case Abort => w.(unit := AbortUnit(w.unit))
    case BeginClose(c, nilContext) =>
      var (unit, refusal) := EnterClose(w.unit, c, nilContext);
      w.(unit := unit, calls := w.calls[c := OrTurned(refusal, CloseBegun(nilContext))])
    case Examine(c, cancelled) =>
      w.(calls := w.calls[c := OrFailing(Inspect(w.unit.execution, cancelled, w.calls[c].nilContext), Inspected)])
    case Observe(c, observation) =>
      if observation.None? then w.(calls := w.calls[c := Failing(ObservationFailed)])
      else w.(unit := Record(w.unit, observation.value), calls := w.calls[c := Recorded])
    case Judge(c, attached, checked, validation) =>
      var x := w.unit.execution.value;
      w.(calls := w.calls[c := OrFailing(Conclude(attached, checked, validation, x.observation.bracketMoved), Concluding(Account(x)))])
    case EndClose(c, cancelled) =>
      var failed := if w.calls[c].Failing? then Some(w.calls[c].refusal) else None;
      var (unit, refusal) := CommitClose(w.unit, cancelled, failed);
      w.(unit := unit, calls := w.calls[c := OrTurned(refusal, Closed(if w.calls[c].Concluding? then w.calls[c].result else Nothing))])
  }

  function After(identityOnly: bool, events: seq<Event>): World {
    if events == [] then Beginning(identityOnly)
    else Apply(After(identityOnly, events[..|events| - 1]), events[|events| - 1])
  }

  // ----- What every section keeps -----

  predicate InClose(local: Local) {
    local.CloseBegun? || local.Inspected? || local.Recorded? || local.Failing? || local.Concluding?
  }

  /** Prepared, submitted, and started. */
  predicate Executed(s: State) {
    && s.execution.Some? && s.execution.value.ready
    && (s.execution.value.terminal.kind == NormalCompletion || s.execution.value.terminal.kind == AbnormalCompletion)
  }

  ghost predicate ExecutionInv(w: World) {
    var s := w.unit;
    && (forall c :: c in w.calls && (w.calls[c].Preparing? || w.calls[c].Contributed?) ==>
          s.execution.Some? && s.execution.value.call == c && s.execution.value.ready == w.calls[c].Contributed?)
    && (s.execution.Some? ==>
          (s.execution.value.terminal.kind != NoTerminal ==> s.execution.value.ready)
          && (s.execution.value.terminal.kind != NoTerminal ==>
                (s.execution.value.terminal.kind == NormalCompletion <==> s.execution.value.terminal.reason == ""))
          && (w.identityOnly ==> s.execution.value.observed == {})
          && (s.execution.value.terminal.kind == NoTerminal ==> s.execution.value.terminal == Unsubmitted)
          && s.execution.value.call in w.calls && (s.execution.value.ready ==> w.calls[s.execution.value.call].Contributed?))
  }

  predicate Unobserved(s: State) {
    s.execution.Some? ==> s.execution.value.observation == NoObservation
  }

  /** An observation was recorded exactly when one was needed. */
  predicate Settled(s: State, identityOnly: bool) {
    s.execution.Some? ==> var x := s.execution.value;
      if NeedsObservation(x, identityOnly) then x.observation.manifest != "" else x.observation == NoObservation
  }

  /** What a call in or past closing may rely on. */
  predicate CallInv(s: State, identityOnly: bool, local: Local) {
    && (InClose(local) ==> s.phase == UnitClosing || s.phase == UnitAborted)
    && (local.CloseBegun? || local.Inspected? ==> Unobserved(s))
    && (local.Inspected? || local.Recorded? || local.Concluding? || local.Closed? ==> Executed(s))
    && (local.Concluding? || local.Closed? ==>
          local.result == Account(s.execution.value) && !s.execution.value.observation.bracketMoved)
    && (local.Recorded? || local.Concluding? || local.Closed? ==> Settled(s, identityOnly))
    && (local.Closed? ==> s.phase == UnitClosed)
  }

  ghost predicate OneCloser(w: World) {
    && (forall c, d :: c in w.calls && d in w.calls && InClose(w.calls[c]) && InClose(w.calls[d]) ==> c == d)
    && (forall c, d :: c in w.calls && d in w.calls && w.calls[c].Closed? && w.calls[d].Closed? ==> c == d)
  }

  ghost predicate CloseInv(w: World) {
    && (forall c :: c in w.calls ==> CallInv(w.unit, w.identityOnly, w.calls[c]))
    && OneCloser(w)
    && (w.unit.phase == UnitOpen ==> Unobserved(w.unit))
  }

  lemma ExecutionInvHolds(w: World, e: Event)
    requires ExecutionInv(w)
    ensures ExecutionInv(Apply(w, e))
  {
  }

  lemma RegisteringKeepsClosing(w: World, e: Event)
    requires CloseInv(w) && (e.Register? || e.CommitRegistration?)
    ensures CloseInv(Apply(w, e))
  {
    hide Account, NeedsObservation;
  }

  lemma OpenSectionsKeepClosing(w: World, e: Event)
    requires CloseInv(w) && (e.SubmitTerminal? || e.Abort? || e.BeginClose?)
    ensures CloseInv(Apply(w, e))
  {
    hide Account, NeedsObservation;
  }

  lemma ExaminingKeepsClosing(w: World, e: Event)
    requires CloseInv(w) && e.Examine?
    ensures CloseInv(Apply(w, e))
  {
    hide DispositionOf, NeedsObservation;
  }

  lemma JudgingKeepsClosing(w: World, e: Event)
    requires CloseInv(w) && e.Judge?
    ensures CloseInv(Apply(w, e))
  {
    hide DispositionOf, NeedsObservation;
    if Enabled(w, e) {
      assert CallInv(w.unit, w.identityOnly, w.calls[e.call]);
      assert Settled(w.unit, w.identityOnly);
    }
  }

  lemma ObservingKeepsClosing(w: World, e: Event)
    requires CloseInv(w) && e.Observe?
    ensures CloseInv(Apply(w, e))
  {
    hide DispositionOf;
  }

  lemma EndingKeepsClosing(w: World, e: Event)
    requires CloseInv(w) && e.EndClose?
    ensures CloseInv(Apply(w, e))
  {
    hide DispositionOf;
  }

  lemma CloseInvHolds(w: World, e: Event)
    requires CloseInv(w)
    ensures CloseInv(Apply(w, e))
  {
    if e.Examine? { ExaminingKeepsClosing(w, e); }
    else if e.Judge? { JudgingKeepsClosing(w, e); }
    else if e.Observe? { ObservingKeepsClosing(w, e); }
    else if e.EndClose? { EndingKeepsClosing(w, e); }
    else if e.Register? || e.CommitRegistration? { RegisteringKeepsClosing(w, e); }
    else { OpenSectionsKeepClosing(w, e); }
  }

  lemma {:induction false} InvHolds(identityOnly: bool, events: seq<Event>)
    ensures ExecutionInv(After(identityOnly, events)) && CloseInv(After(identityOnly, events))
    ensures After(identityOnly, events).identityOnly == identityOnly
  {
    if events != [] {
      var before := After(identityOnly, events[..|events| - 1]);
      InvHolds(identityOnly, events[..|events| - 1]);
      ExecutionInvHolds(before, events[|events| - 1]);
      CloseInvHolds(before, events[|events| - 1]);
    }
  }

  // ----- What holds over whole runs -----

  lemma AfterMore(identityOnly: bool, events: seq<Event>, more: seq<Event>)
    requires more != []
    ensures After(identityOnly, events + more) == Apply(After(identityOnly, events + more[..|more| - 1]), more[|more| - 1])
  {
    assert (events + more)[..|events + more| - 1] == events + more[..|more| - 1];
  }

  predicate Follows(from: Phase, to: Phase) {
    match from
    case UnitOpen => true
    case UnitClosing => to != UnitOpen
    case UnitClosed => to == UnitClosed
    case UnitFailed => to == UnitFailed
    case UnitAborted => to == UnitAborted
  }

  /** The reserved execution is never replaced, its terminal never rewritten, and once it is prepared or
      the unit has left open, nothing its preparation decided changes. */
  predicate Keeps(s: State, s': State) {
    && Follows(s.phase, s'.phase) && s.interrupted <= s'.interrupted
    && (s.execution.Some? ==>
          var x := s.execution.value;
          && s'.execution.Some?
          && var x' := s'.execution.value;
             && (x'.call, x'.process, x'.artifact, x'.capture) == (x.call, x.process, x.artifact, x.capture)
             && (x.terminal.kind != NoTerminal ==> x'.terminal == x.terminal)
             && (x.ready ==> (x'.ready, x'.observed, x'.outcomeReason) == (x.ready, x.observed, x.outcomeReason)))
    && (s.phase != UnitOpen ==>
          if s.execution.None? then s'.execution.None?
          else s'.execution.Some? && s'.execution.value.(observation := s.execution.value.observation) == s.execution.value)
  }

  /** A call that ended stays as it ended. */
  predicate KeepsEnded(w: World, w': World) {
    forall c :: c in w.calls && (w.calls[c].Contributed? || w.calls[c].Turned? || w.calls[c].Closed?) ==> Stands(w', c, w.calls[c])
  }

  lemma StepKeeps(w: World, e: Event)
    requires ExecutionInv(w) && CloseInv(w)
    ensures Keeps(w.unit, Apply(w, e).unit) && KeepsEnded(w, Apply(w, e))
  {
    EndedStays(w, e);
    hide Account, NeedsObservation, KeepsEnded;
  }

  lemma EndedStays(w: World, e: Event)
    requires ExecutionInv(w) && CloseInv(w)
    ensures KeepsEnded(w, Apply(w, e))
  {
    hide Account, NeedsObservation;
  }

  lemma {:induction false} RunsKeep(identityOnly: bool, events: seq<Event>, more: seq<Event>)
    ensures var w, w' := After(identityOnly, events), After(identityOnly, events + more); Keeps(w.unit, w'.unit) && KeepsEnded(w, w')
    decreases |more|
  {
    if more == [] {
      assert events + more == events;
    } else {
      var last := |more| - 1;
      RunsKeep(identityOnly, events, more[..last]);
      InvHolds(identityOnly, events + more[..last]);
      StepKeeps(After(identityOnly, events + more[..last]), more[last]);
      AfterMore(identityOnly, events, more);
    }
  }

  /** At most one contributor is ever reserved: every call that prepares or has contributed, at any two
      points of a run, is the same one. */
  lemma OneContributor(identityOnly: bool, events: seq<Event>, more: seq<Event>, c: Call, d: Call)
    requires var w := After(identityOnly, events); c in w.calls && (w.calls[c].Preparing? || w.calls[c].Contributed?)
    requires var w := After(identityOnly, events + more); d in w.calls && (w.calls[d].Preparing? || w.calls[d].Contributed?)
    ensures c == d
  {
    InvHolds(identityOnly, events);
    InvHolds(identityOnly, events + more);
    RunsKeep(identityOnly, events, more);
  }

  /** A terminal disposition is written once, and only onto a prepared execution. */
  lemma TerminalIsWrittenOnce(identityOnly: bool, events: seq<Event>, more: seq<Event>)
    requires var s := After(identityOnly, events).unit; s.execution.Some? && s.execution.value.terminal.kind != NoTerminal
    ensures After(identityOnly, events).unit.execution.value.ready
    ensures var s := After(identityOnly, events + more).unit;
      s.execution.Some? && s.execution.value.terminal == After(identityOnly, events).unit.execution.value.terminal
  {
    InvHolds(identityOnly, events);
    RunsKeep(identityOnly, events, more);
  }

  /** From the start of closing, all but the observation is frozen. */
  lemma FrozenFromClosing(identityOnly: bool, events: seq<Event>, more: seq<Event>)
    requires After(identityOnly, events).unit.phase != UnitOpen
    ensures var s, s' := After(identityOnly, events).unit, After(identityOnly, events + more).unit;
      && s'.phase != UnitOpen && s'.execution.Some? == s.execution.Some?
      && (s.execution.Some? ==> s'.execution.value.(observation := s.execution.value.observation) == s.execution.value)
  {
    RunsKeep(identityOnly, events, more);
  }

  /** A successful Close reports the one execution, prepared, submitted as started, its inputs unmoved;
      no other Close of the unit ever succeeds. */
  lemma CloseSucceedsOnce(identityOnly: bool, events: seq<Event>, more: seq<Event>, c: Call, d: Call)
    requires var w := After(identityOnly, events); c in w.calls && w.calls[c].Closed?
    ensures var w := After(identityOnly, events); var result := w.calls[c].result;
      && w.unit.phase == UnitClosed && Executed(w.unit)
      && result.terminal == w.unit.execution.value.terminal && result.process == w.unit.execution.value.process
      && (result.terminal.kind == NormalCompletion || result.terminal.kind == AbnormalCompletion)
      && (result.terminal.kind == NormalCompletion <==> result.terminal.reason == "")
      && !w.unit.execution.value.observation.bracketMoved
      && (result.disposition == Supported ==>
            w.unit.execution.value.observed != {} && w.unit.execution.value.observed <= w.unit.execution.value.observation.supported)
      && (result.disposition == Unknown <==>
            w.unit.execution.value.observed == {} && !identityOnly && w.unit.execution.value.capture == "" && result.terminal.kind == NormalCompletion)
    ensures var w := After(identityOnly, events + more); d in w.calls && w.calls[d].Closed? ==> d == c
  {
    InvHolds(identityOnly, events);
    InvHolds(identityOnly, events + more);
    RunsKeep(identityOnly, events, more);
  }

  /** An Abort that finds the unit open or closing interrupts its preparation and its closing, and no
      Close succeeds in that run. */
  lemma AbortIsFinal(identityOnly: bool, events: seq<Event>, more: seq<Event>, c: Call)
    requires After(identityOnly, events).unit.phase == UnitOpen || After(identityOnly, events).unit.phase == UnitClosing
    ensures var w := After(identityOnly, events + [Abort] + more);
      w.unit.phase == UnitAborted && (c in w.calls ==> !w.calls[c].Closed?)
    ensures var w, w' := After(identityOnly, events), After(identityOnly, events + [Abort] + more);
      && (w.unit.execution.Some? ==> w.unit.execution.value.call in w'.unit.interrupted)
      && (w.unit.closing.Some? ==> w.unit.closing.value in w'.unit.interrupted)
  {
    AfterMore(identityOnly, events, [Abort]);
    assert [Abort][..0] == [] && events + [] == events;
    InvHolds(identityOnly, events + [Abort] + more);
    RunsKeep(identityOnly, events + [Abort], more);
  }

  /** Close's caller cancelled at its commit: refused with that, and nothing closed. */
  lemma CancelledCloseRefuses(identityOnly: bool, events: seq<Event>, c: Call)
    requires var w := After(identityOnly, events); c in w.calls && InClose(w.calls[c]) && Enabled(w, EndClose(c, true))
    ensures var w := After(identityOnly, events + [EndClose(c, true)]);
      Stands(w, c, Turned(CallerCancelled)) && (w.unit.phase == UnitFailed || w.unit.phase == UnitAborted)
  {
    AfterMore(identityOnly, events, [EndClose(c, true)]);
    assert [EndClose(c, true)][..0] == [] && events + [] == events;
    InvHolds(identityOnly, events);
  }

  /** Closing cancels a preparation in flight, which then never contributes. */
  lemma ClosingEndsPreparation(identityOnly: bool, events: seq<Event>, more: seq<Event>, r: Call, c: Call)
    requires var w := After(identityOnly, events);
      r in w.calls && w.calls[r].Preparing? && c !in w.calls && w.unit.phase == UnitOpen
    ensures var w := After(identityOnly, events + [BeginClose(c, false)] + more);
      r in w.unit.interrupted && (r in w.calls ==> !w.calls[r].Contributed?)
  {
    AfterMore(identityOnly, events, [BeginClose(c, false)]);
    assert [BeginClose(c, false)][..0] == [] && events + [] == events;
    InvHolds(identityOnly, events);
    InvHolds(identityOnly, events + [BeginClose(c, false)] + more);
    RunsKeep(identityOnly, events + [BeginClose(c, false)], more);
  }

  lemma AfterOne(identityOnly: bool, events: seq<Event>, e: Event)
    ensures After(identityOnly, events + [e]) == Apply(After(identityOnly, events), e)
  {
    assert (events + [e])[..|events + [e]| - 1] == events;
  }

  /** Nothing moves a submission but the first one of a started call's own contribution, while the unit is
      open: an ending that carries a reason exactly when it is not normal. */
  lemma SubmissionExactly(identityOnly: bool, events: seq<Event>, from: Option<Call>, terminal: Terminal)
    ensures var w, w' := After(identityOnly, events), After(identityOnly, events + [SubmitTerminal(from, terminal)]);
      if && w.unit.phase == UnitOpen && w.unit.execution.Some? && w.unit.execution.value.terminal == Terminal(NoTerminal, "")
         && from.Some? && from.value in w.calls && w.calls[from.value].Contributed?
         && terminal.kind != NoTerminal && (terminal.kind == NormalCompletion <==> terminal.reason == "")
      then w' == w.(unit := w.unit.(execution := Some(w.unit.execution.value.(terminal := terminal))))
      else w' == w
  {
    AfterOne(identityOnly, events, SubmitTerminal(from, terminal));
    InvHolds(identityOnly, events);
  }

  /** A preparation contributes exactly when its caller stands, the unit is still open and it did not fail;
      an open unit it does not contribute to has failed. */
  lemma RegistrationExactly(identityOnly: bool, events: seq<Event>, c: Call, cancelled: bool, failed: bool, observed: set<Subject>, reason: string)
    requires Stands(After(identityOnly, events), c, Preparing)
    ensures var w := After(identityOnly, events);
      var w' := After(identityOnly, events + [CommitRegistration(c, cancelled, failed, observed, reason)]);
      && (Stands(w', c, Contributed) <==> !cancelled && !failed && w.unit.phase == UnitOpen)
      && (Stands(w', c, Contributed) ==>
            w'.unit.phase == UnitOpen && w'.unit.execution.Some? && w'.unit.execution.value.ready
            && w'.unit.execution.value.observed == if identityOnly then {} else observed)
      && (!Stands(w', c, Contributed) ==>
            && w'.unit == w.unit.(phase := if w.unit.phase == UnitOpen then UnitFailed else w.unit.phase)
            && Stands(w', c, Turned(if cancelled then CallerCancelled else if w.unit.phase != UnitOpen then AlreadyClosed else PreparationFailed)))
  {
    AfterOne(identityOnly, events, CommitRegistration(c, cancelled, failed, observed, reason));
    InvHolds(identityOnly, events);
  }

  /** What a close's checks come to: it concludes exactly when everything attached, checked and validated
      and the inputs did not move. Other drift is told before movement, and movement before missing evidence. */
  lemma JudgementExactly(identityOnly: bool, events: seq<Event>, c: Call, attached: bool, checked: bool, validation: Option<Refusal>)
    requires Enabled(After(identityOnly, events), Judge(c, attached, checked, validation))
    ensures var w := After(identityOnly, events); var x := w.unit.execution.value;
      var local := After(identityOnly, events + [Judge(c, attached, checked, validation)]).calls[c];
      && (local.Concluding? <==> attached && checked && validation.None? && !x.observation.bracketMoved)
      && (local.Concluding? ==> local.result == Account(x))
      && (!local.Concluding? ==> local.Failing?)
      && (attached && checked && x.observation.bracketMoved && (validation.None? || validation == Some(EvidenceUnavailable)) ==>
            local == Failing(SpanChanged))
      && (attached && checked && validation.Some? && (validation != Some(EvidenceUnavailable) || !x.observation.bracketMoved) ==>
            local == Failing(validation.value))
  {
    AfterOne(identityOnly, events, Judge(c, attached, checked, validation));
  }

  /** How a close ends: its caller's cancellation is told first, then an Abort, then its own failure; only
      a concluded one closes the unit, and any other fails it unless an Abort won. */
  lemma CloseEndsExactly(identityOnly: bool, events: seq<Event>, c: Call, cancelled: bool)
    requires Enabled(After(identityOnly, events), EndClose(c, cancelled))
    ensures var w := After(identityOnly, events); var w' := After(identityOnly, events + [EndClose(c, cancelled)]);
      && (w.unit.phase == UnitClosing || w.unit.phase == UnitAborted)
      && w'.calls[c] == (if cancelled then Turned(CallerCancelled) else if w.unit.phase == UnitAborted then Turned(Aborted)
                         else if w.calls[c].Failing? then Turned(w.calls[c].refusal) else Closed(w.calls[c].result))
      && w'.unit.phase == (if w.unit.phase == UnitAborted then UnitAborted else if w'.calls[c].Closed? then UnitClosed else UnitFailed)
      && w'.unit.execution == w.unit.execution
  {
    AfterOne(identityOnly, events, EndClose(c, cancelled));
    InvHolds(identityOnly, events);
  }

  /** An open unit with an executed contribution closes with its account, when its checks pass, its inputs
      did not move and nothing comes between: observed first exactly when observation is needed. */
  lemma UndisturbedCloseSucceeds(identityOnly: bool, events: seq<Event>, c: Call, seen: Observation)
    requires var w := After(identityOnly, events); w.unit.phase == UnitOpen && c !in w.calls && Executed(w.unit)
    requires seen.manifest != "" && !seen.bracketMoved
    ensures var x := After(identityOnly, events).unit.execution.value;
      var needed := NeedsObservation(x, identityOnly);
      Stands(After(identityOnly, events + [BeginClose(c, false)] + [Examine(c, false)] + (if needed then [Observe(c, Some(seen))] else [])
                                 + [Judge(c, true, true, None)] + [EndClose(c, false)]),
             c, Closed(Account(if needed then x.(observation := seen) else x)))
  {
    InvHolds(identityOnly, events);
    var w := After(identityOnly, events);
    var needed := NeedsObservation(w.unit.execution.value, identityOnly);
    var e1 := events + [BeginClose(c, false)];
    var e2 := e1 + [Examine(c, false)];
    var e3 := e2 + if needed then [Observe(c, Some(seen))] else [];
    AfterOne(identityOnly, events, BeginClose(c, false));
    AfterOne(identityOnly, e1, Examine(c, false));
    if needed { AfterOne(identityOnly, e2, Observe(c, Some(seen))); } else { assert e3 == e2; }
    AfterOne(identityOnly, e3, Judge(c, true, true, None));
    AfterOne(identityOnly, e3 + [Judge(c, true, true, None)], EndClose(c, false));
    hide After;
    CloseSteps(w, c, seen);
  }

  lemma CloseSteps(w: World, c: Call, seen: Observation)
    requires w.unit.phase == UnitOpen && c !in w.calls && Executed(w.unit) && Unobserved(w.unit)
    requires seen.manifest != "" && !seen.bracketMoved
    ensures var x := w.unit.execution.value;
      var needed := NeedsObservation(x, w.identityOnly);
      var w2 := Apply(Apply(w, BeginClose(c, false)), Examine(c, false));
      Stands(Apply(Apply(if needed then Apply(w2, Observe(c, Some(seen))) else w2, Judge(c, true, true, None)), EndClose(c, false)),
             c, Closed(Account(if needed then x.(observation := seen) else x)))
  {
    hide DispositionOf;
  }
}
