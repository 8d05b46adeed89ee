/** Every interleaving of rounds, Abort and Close on one checking unit (checking.go). */
module CheckingRuns {
  import opened Paths
  import opened Concurrency
  import opened Judgment
  import opened Checking
  import opened Closing
  import opened CheckingUnits

  /** Where a call stands between its critical sections. */
  datatype Local =
    | Waiting
    | Gated
    | Working(prepared: seq<Slot>)
    | Acknowledged(first: nat, held: seq<Slot>)
    | ClosingWork(frozen: seq<Slot>)
    | Answered(answers: seq<CheckedCandidate>, again: seq<RecordResult>, proofs: map<Subject, Proof>, closing: View)
    | Turned(refusal: Refusal)

  datatype World = World(unit: State, calls: map<Call, Local>)

  const Beginning := World(Opened, map[])

  datatype RoundWork = RoundWork(results: seq<RecordResult>, proofs: map<Subject, Proof>)
  datatype CloseWork = CloseWork(answers: seq<CheckedCandidate>, again: seq<RecordResult>, proofs: map<Subject, Proof>, closing: View)

  datatype Event =
    | Arrive(call: Call)
    | GiveUp(call: Call)
    | TakeGate(call: Call)
    | Admit(call: Call, cancelled: bool, prepared: Option<seq<Slot>>)
    | Commit(call: Call, cancelled: bool, work: Option<RoundWork>)
    | Release(call: Call)
    | Abort
    | BeginClose(call: Call, cancelled: bool)
    | EndClose(call: Call, cancelled: bool, close: Option<CloseWork>)

  ghost predicate Stands(w: World, call: Call, local: Local) {
    call in w.calls && w.calls[call] == local
  }

  /** Prepared slots carry no result yet, and a refusal only of evidence already stale. */
  ghost predicate Preparable(slots: seq<Slot>) {
    forall i :: 0 <= i < |slots| ==> slots[i].record.refusal.Some? ==> slots[i].record.refusal.value.status == Stale
  }

  function Records(slots: seq<Slot>): seq<RecordCheck> {
    seq(|slots|, i requires 0 <= i < |slots| => slots[i].record)
  }

  /** What the closing pass promises when it does not fail. */
  ghost predicate Closes(frozen: seq<Slot>, close: CloseWork) {
    && Checked(close.closing, ClosingRecords(frozen), close.proofs, close.again) && |close.answers| == |frozen|
    && forall i :: 0 <= i < |frozen| ==>
         && close.answers[i] == Candidate(FinalSlot(close.closing, frozen[i], close.again[i]), i)
         && (Licensed(frozen[i]) ==> close.answers[i].verdict.status == Valid)
  }

  ghost predicate Enabled(view: View, w: World, e: Event) {
    match e
    case Arrive(c) => c !in w.calls
    case GiveUp(c) => Stands(w, c, Waiting)
    case TakeGate(c) => Stands(w, c, Waiting) && w.unit.gate.None?
    case Admit(c, _, prepared) => Stands(w, c, Gated) && (prepared.Some? ==> Preparable(prepared.value))
    case Commit(c, _, work) =>
      && c in w.calls && w.calls[c].Working?
      && (work.Some? ==> |work.value.results| == |w.calls[c].prepared|
                         && Checked(view, Records(w.calls[c].prepared), work.value.proofs, work.value.results))
    case Release(c) => w.unit.gate == Some(c) && c in w.calls && (w.calls[c].Acknowledged? || w.calls[c].Turned?)
    case Abort => true
    case BeginClose(c, _) => c !in w.calls
    case EndClose(c, _, close) =>
      c in w.calls && w.calls[c].ClosingWork? && (close.Some? ==> Closes(w.calls[c].frozen, close.value))
  }

  /** One critical section; an event that is not enabled changes nothing. */
  ghost function Apply(view: View, w: World, e: Event): World {
    if !Enabled(view, w, e) then w else
    match e
    case Arrive(c) => w.(calls := w.calls[c := Waiting])
    case GiveUp(c) => w.(calls := w.calls[c := Turned(CallerCancelled)])
    case TakeGate(c) => World(w.unit.(gate := Some(c)), w.calls[c := Gated])
    case Admit(c, cancelled, prepared) =>
      var (unit, refusal) := EnterRound(w.unit, c, cancelled, prepared);
      World(unit, w.calls[c := if refusal.Some? then Turned(refusal.value) else Working(prepared.value)])
    case Commit(c, cancelled, work) =>
      var prepared := w.calls[c].prepared;
      var (unit, refusal) := CheckingUnits.CommitRound(w.unit, cancelled, prepared, if work.Some? then Some(work.value.results) else None);
      World(unit, w.calls[c := if refusal.Some? then Turned(refusal.value)
                               else Acknowledged(|w.unit.slots|, unit.slots[|w.unit.slots|..])])
    case Release(c) => w.(unit := w.unit.(gate := None))
    case Abort => w.(unit := AbortUnit(w.unit))
    case BeginClose(c, cancelled) =>
      var (unit, refusal) := EnterClose(w.unit, c, cancelled);
      World(unit, w.calls[c := if refusal.Some? then Turned(refusal.value) else ClosingWork(unit.slots)])
    case EndClose(c, cancelled, close) =>
      var (unit, refusal) := CommitClose(w.unit, cancelled, close.None?);
      World(unit, w.calls[c := if refusal.Some? then Turned(refusal.value)
                               else Answered(close.value.answers, close.value.again, close.value.proofs, close.value.closing)])
  }

  ghost function After(view: View, events: seq<Event>): World {
    if events == [] then Beginning else Apply(view, After(view, events[..|events| - 1]), events[|events| - 1])
  }

  // ----- What every section keeps -----

  ghost predicate HoldsGate(w: World, c: Call) {
    w.unit.gate == Some(c)
  }

  ghost predicate EstablishedIn(view: View, slot: Slot) {
    exists proof: Proof :: Established(view, slot, proof)
  }

  /** One call at a time works, and the flags say which. */
  ghost predicate WorkInv(w: World) {
    var u := w.unit;
    && (forall c :: c in w.calls && (w.calls[c].Gated? || w.calls[c].Working?) ==> HoldsGate(w, c))
    && (forall c :: c in w.calls && w.calls[c].Working? ==> u.busy && u.cancel == Some(c) && Preparable(w.calls[c].prepared))
    && (u.busy ==> u.gate.Some? && u.gate.value in w.calls && w.calls[u.gate.value].Working?)
    && (forall c :: c in w.calls && w.calls[c].ClosingWork? ==>
          u.cancel == Some(c) && !u.busy && (u.phase == UnitClosing || u.phase == UnitAborted) && w.calls[c].frozen == u.slots)
    && (u.phase == UnitClosing ==> u.cancel.Some? && u.cancel.value in w.calls && w.calls[u.cancel.value].ClosingWork?)
    && (u.phase == UnitClosed ==> !u.busy)
  }

  /** Slots and answers agree. */
  ghost predicate SlotInv(view: View, w: World) {
    var u := w.unit;
    && (forall i :: 0 <= i < |u.slots| ==> EstablishedIn(view, u.slots[i]))
    && (forall c :: c in w.calls && w.calls[c].Acknowledged? ==> Held(u, w.calls[c]))
    && (forall c :: c in w.calls && w.calls[c].Answered? ==>
          u.phase == UnitClosed
          && Closes(u.slots, CloseWork(w.calls[c].answers, w.calls[c].again, w.calls[c].proofs, w.calls[c].closing)))
    && (forall c, d :: c in w.calls && d in w.calls && w.calls[c].Answered? && w.calls[d].Answered? ==> c == d)
  }

  ghost predicate Held(u: State, local: Local)
    requires local.Acknowledged?
  {
    local.first + |local.held| <= |u.slots| && u.slots[local.first..local.first + |local.held|] == local.held
  }

  ghost predicate Inv(view: View, w: World) {
    WorkInv(w) && SlotInv(view, w)
  }

  lemma WorkInvHolds(view: View, w: World, e: Event)
    requires WorkInv(w)
    ensures WorkInv(Apply(view, w, e))
  {
    hide Checked, Closes, Filled;
    if e.Commit? {
      CommitKeepsWork(view, w, e);
    } else if e.Abort? || e.BeginClose? || e.EndClose? {
      EndsKeepWork(view, w, e);
    }
  }

  lemma CommitKeepsWork(view: View, w: World, e: Event)
    requires WorkInv(w) && e.Commit?
    ensures WorkInv(Apply(view, w, e))
  {
    hide Checked, Closes, Filled;
    if Enabled(view, w, e) { assert !Apply(view, w, e).unit.busy; }
  }

  lemma EndsKeepWork(view: View, w: World, e: Event)
    requires WorkInv(w) && (e.Abort? || e.BeginClose? || e.EndClose?)
    ensures WorkInv(Apply(view, w, e))
  {
    hide Checked, Closes, Filled;
  }

  lemma SlotInvHolds(view: View, w: World, e: Event)
    requires Inv(view, w)
    ensures SlotInv(view, Apply(view, w, e))
  {
    if Enabled(view, w, e) && e.Commit? {
      CommitKeepsSlots(view, w, e);
    } else if e.Abort? || e.BeginClose? || e.EndClose? {
      EndsKeepSlots(view, w, e);
    } else {
      hide Checked, Closes, Filled, EstablishedIn, Preparable;
    }
  }

  lemma EndsKeepSlots(view: View, w: World, e: Event)
    requires Inv(view, w) && (e.Abort? || e.BeginClose? || e.EndClose?)
    ensures SlotInv(view, Apply(view, w, e))
  {
    hide Checked, Closes, Filled, EstablishedIn, Preparable;
  }

  lemma NewSlotsAreEstablished(view: View, prepared: seq<Slot>, work: RoundWork)
    requires Preparable(prepared) && |work.results| == |prepared| && Checked(view, Records(prepared), work.proofs, work.results)
    ensures forall i :: 0 <= i < |prepared| ==> EstablishedIn(view, Filled(prepared, work.results)[i])
  {
    hide Answer;
    forall i | 0 <= i < |prepared|
      ensures EstablishedIn(view, Filled(prepared, work.results)[i])
    {
      assert Records(prepared)[i] == prepared[i].record;
      assert Established(view, Filled(prepared, work.results)[i], ProofOf(work.proofs, prepared[i].record.subject));
    }
  }

  lemma CommitKeepsSlots(view: View, w: World, e: Event)
    requires Inv(view, w) && e.Commit? && Enabled(view, w, e)
    ensures SlotInv(view, Apply(view, w, e))
  {
    var prepared := w.calls[e.call].prepared;
    assert e.work.Some? ==> |Filled(prepared, e.work.value.results)| == |prepared|;
    if e.work.Some? { NewSlotsAreEstablished(view, prepared, e.work.value); }
    hide Closes, Checked, EstablishedIn, Preparable, Filled;
    var w' := Apply(view, w, e);
    assert w'.unit.slots == w.unit.slots
      || (e.work.Some? && w'.unit.slots == w.unit.slots + Filled(prepared, e.work.value.results));
  }

  lemma {:induction false} InvHolds(view: View, events: seq<Event>)
    ensures Inv(view, After(view, events))
  {
    if events != [] {
      var before := After(view, events[..|events| - 1]);
      InvHolds(view, events[..|events| - 1]);
      WorkInvHolds(view, before, events[|events| - 1]);
      SlotInvHolds(view, before, events[|events| - 1]);
    }
  }

  // ----- What holds over whole runs -----

  lemma {:induction false} AfterMore(view: View, events: seq<Event>, more: seq<Event>)
    ensures more != [] ==>
      After(view, events + more) == Apply(view, After(view, events + more[..|more| - 1]), more[|more| - 1])
  {
    if more != [] {
      assert (events + more)[..|events + more| - 1] == events + more[..|more| - 1];
    }
  }

  predicate Follows(from: Phase, to: Phase) {
    match from
    case UnitOpen => true
    case UnitClosing => to != UnitOpen
    case UnitClosed => to == UnitClosed
    case UnitFailed => to == UnitFailed
    case UnitAborted => to == UnitAborted || to == UnitFailed
  }

  /** A call that ended stays as it ended, and slots are only appended. */
  ghost predicate Extends(w: World, w': World) {
    && w.unit.slots <= w'.unit.slots
    && (forall c :: c in w.calls && (w.calls[c].Acknowledged? || w.calls[c].Answered? || w.calls[c].Turned?) ==> Stands(w', c, w.calls[c]))
  }

  lemma StepAdvances(view: View, w: World, e: Event)
    requires Inv(view, w)
    ensures Follows(w.unit.phase, Apply(view, w, e).unit.phase) && Extends(w, Apply(view, w, e))
    ensures w.unit.interrupted <= Apply(view, w, e).unit.interrupted
  {
    hide Checked, Closes, Filled, EstablishedIn;
  }

  /** The phase never goes back: an ended unit is never open or closing again, a closed one stays closed,
      and what any call was answered stands. */
  lemma {:induction false} RunsAdvance(view: View, events: seq<Event>, more: seq<Event>)
    ensures Follows(After(view, events).unit.phase, After(view, events + more).unit.phase)
    ensures Extends(After(view, events), After(view, events + more))
    decreases |more|
  {
    if more == [] {
      assert events + more == events;
    } else {
      var last := |more| - 1;
      RunsAdvance(view, events, more[..last]);
      InvHolds(view, events + more[..last]);
      StepAdvances(view, After(view, events + more[..last]), more[last]);
      AfterMore(view, events, more);
    }
  }

  lemma NeverReopens(view: View, events: seq<Event>, more: seq<Event>)
    requires After(view, events).unit.phase != UnitOpen
    ensures After(view, events + more).unit.phase != UnitOpen
  {
    RunsAdvance(view, events, more);
  }

  /** At most one Close succeeds in a run, and it is the one that closed the unit. */
  lemma OneCloseSucceeds(view: View, events: seq<Event>, more: seq<Event>, c: Call, d: Call)
    requires c in After(view, events).calls && After(view, events).calls[c].Answered?
    requires d in After(view, events + more).calls && After(view, events + more).calls[d].Answered?
    ensures c == d && After(view, events + more).unit.phase == UnitClosed
  {
    InvHolds(view, events);
    InvHolds(view, events + more);
    RunsAdvance(view, events, more);
  }

  /** An Abort that finds the unit open or closing interrupts the work in flight, and no Close ever
      succeeds in that run. */
  lemma AbortIsFinal(view: View, events: seq<Event>, more: seq<Event>, c: Call)
    requires After(view, events).unit.phase == UnitOpen || After(view, events).unit.phase == UnitClosing
    ensures var aborted := After(view, events + [Abort]);
      forall d :: d in aborted.calls && (aborted.calls[d].Working? || aborted.calls[d].ClosingWork?) ==> d in aborted.unit.interrupted
    ensures var w := After(view, events + [Abort] + more); c in w.calls ==> !w.calls[c].Answered?
  {
    AfterMore(view, events, [Abort]);
    assert events + [] == events;
    assert [Abort][..0] == [];
    InvHolds(view, events);
    InvHolds(view, events + [Abort]);
    InvHolds(view, events + [Abort] + more);
    RunsAdvance(view, events + [Abort], more);
  }

  /** While closing runs unlocked nothing moves under it, whatever happens next. */
  lemma FrozenWhileClosing(view: View, events: seq<Event>, e: Event, c: Call)
    requires c in After(view, events).calls && After(view, events).calls[c].ClosingWork?
    ensures var w, w' := After(view, events), After(view, events + [e]);
      w'.unit.slots == w.unit.slots == w.calls[c].frozen && w'.unit.busy == w.unit.busy == false
  {
    AfterMore(view, events, [e]);
    assert events + [] == events;
    InvHolds(view, events);
    hide Checked, Closes, Filled, EstablishedIn;
  }

  /** A round in flight when Close is called is interrupted and the Close refused, so no pending
      obligation is omitted. */
  lemma CloseDuringRoundRefuses(view: View, events: seq<Event>, r: Call, c: Call)
    requires r in After(view, events).calls && After(view, events).calls[r].Working?
    requires c !in After(view, events).calls && After(view, events).unit.phase == UnitOpen
    ensures var w := After(view, events + [BeginClose(c, false)]);
      Stands(w, c, Turned(Incomplete)) && r in w.unit.interrupted && w.unit.phase == UnitFailed
  {
    AfterMore(view, events, [BeginClose(c, false)]);
    assert events + [] == events;
    InvHolds(view, events);
  }

  /** A successful Close answers every slot any round acknowledged, at the index it was acknowledged at:
      for the same subject, with the provisional verdict when that was Stale, with Valid where a round
      licensed an extension or relied on a current proof, and with Valid only over one state of the
      recording's inputs at all four readings. */
  lemma CloseAnswersEverySlot(view: View, events: seq<Event>, r: Call, c: Call, k: nat)
    requires var w := After(view, events);
      && r in w.calls && w.calls[r].Acknowledged? && k < |w.calls[r].held|
      && c in w.calls && w.calls[c].Answered?
    ensures var w := After(view, events); var i, slot := w.calls[r].first + k, w.calls[r].held[k];
      && i < |w.calls[c].answers| == |w.calls[c].again| && w.calls[c].answers[i].index == i
      && w.calls[c].answers[i].subject == slot.record.subject
      && (slot.result.verdict.status == Stale ==> w.calls[c].answers[i].verdict == slot.result.verdict)
      && (slot.result.selected || (slot.extension && slot.result.verdict.status == Valid) ==> w.calls[c].answers[i].verdict.status == Valid)
      && (w.calls[c].answers[i].verdict.status == Valid ==>
            slot.result.evaluated && (slot.record.recorded.inputs != "" ==> Still(slot, w.calls[c].again[i])))
  {
    hide After, Checked, Closes, EstablishedIn, Still;
    var w := After(view, events);
    InvHolds(view, events);
    var i, slot := w.calls[r].first + k, w.calls[r].held[k];
    assert w.unit.slots[i] == slot;
    AnsweredSlot(view, w, c, i);
  }

  lemma AnsweredSlot(view: View, w: World, c: Call, i: nat)
    requires SlotInv(view, w) && i < |w.unit.slots| && c in w.calls && w.calls[c].Answered?
    ensures i < |w.calls[c].answers| == |w.calls[c].again|
    ensures var slot, answer := w.unit.slots[i], w.calls[c].answers[i];
      && answer.index == i && answer.subject == slot.record.subject
      && (slot.result.verdict.status == Stale ==> answer.verdict == slot.result.verdict)
      && (slot.result.selected || (slot.extension && slot.result.verdict.status == Valid) ==> answer.verdict.status == Valid)
      && (answer.verdict.status == Valid ==>
            slot.result.evaluated && (slot.record.recorded.inputs != "" ==> Still(slot, w.calls[c].again[i])))
  {
    hide Answer, FinalVerdict;
    var slots, local := w.unit.slots, w.calls[c];
    var slot, again := slots[i], local.again[i];
    assert EstablishedIn(view, slot);
    var proof: Proof :| Established(view, slot, proof);
    var proof' := ProofOf(local.proofs, ClosingRecord(slot).subject);
    assert ClosingRecords(slots)[i] == ClosingRecord(slot);
    assert again == Answer(local.closing, ClosingRecord(slot), again.before, again.after, proof');
    FinalAnswerExactly(view, local.closing, slot, proof, again, proof');
    RefusedIsStale(view, slot, proof);
  }

  lemma AfterOne(view: View, events: seq<Event>, e: Event)
    ensures After(view, events + [e]) == Apply(view, After(view, events), e)
  {
    assert (events + [e])[..|events + [e]| - 1] == events;
  }

  /** An open, idle unit whose closing pass does not fail closes with that pass's answers when nothing
      comes between and the caller's context stands. */
  lemma UndisturbedCloseSucceeds(view: View, events: seq<Event>, c: Call, close: CloseWork)
    requires var w := After(view, events);
      w.unit.phase == UnitOpen && !w.unit.busy && c !in w.calls && Closes(w.unit.slots, close)
    ensures Stands(After(view, events + [BeginClose(c, false)] + [EndClose(c, false, Some(close))]), c,
                   Answered(close.answers, close.again, close.proofs, close.closing))
  {
    hide Closes, After, Apply, Enabled;
    AfterOne(view, events, BeginClose(c, false));
    AfterOne(view, events + [BeginClose(c, false)], EndClose(c, false, Some(close)));
    CloseSteps(view, After(view, events), c, close);
  }

  lemma CloseSteps(view: View, w: World, c: Call, close: CloseWork)
    requires w.unit.phase == UnitOpen && !w.unit.busy && c !in w.calls && Closes(w.unit.slots, close)
    ensures Stands(Apply(view, Apply(view, w, BeginClose(c, false)), EndClose(c, false, Some(close))), c,
                   Answered(close.answers, close.again, close.proofs, close.closing))
  {
    hide Closes;
  }

  /** How a round ends: its caller's cancellation is told first and fails the unit, whatever became of it;
      then an Abort; then its own failure. Only a round that came through on an open unit appends its slots,
      each under its own result, and whatever its end the unit is idle again. */
  lemma RoundEndsExactly(view: View, events: seq<Event>, c: Call, cancelled: bool, work: Option<RoundWork>)
    requires Enabled(view, After(view, events), Commit(c, cancelled, work))
    ensures var w, w' := After(view, events), After(view, events + [Commit(c, cancelled, work)]);
      var kept := !cancelled && w.unit.phase == UnitOpen && work.Some?;
      && !w'.unit.busy && c in w'.calls && (w'.calls[c].Acknowledged? <==> kept)
      && (kept ==> w'.unit.phase == UnitOpen && Appended(w.unit.slots, w.calls[c].prepared, work.value.results, w'.unit.slots)
                   && w'.calls[c].first == |w.unit.slots| && w'.calls[c].held == w'.unit.slots[|w.unit.slots|..])
      && (!kept ==> w'.unit.slots == w.unit.slots
                    && w'.calls[c] == Turned(if cancelled then CallerCancelled else if w.unit.phase == UnitAborted then Refusal.Aborted
                                             else if w.unit.phase != UnitOpen then AlreadyClosed else WorkFailed)
                    && w'.unit.phase == if cancelled || w.unit.phase == UnitOpen then UnitFailed else w.unit.phase)
  {
    AfterOne(view, events, Commit(c, cancelled, work));
    InvHolds(view, events);
    hide Checked, Closes, EstablishedIn;
    var w, w' := After(view, events), After(view, events + [Commit(c, cancelled, work)]);
    if work.Some? { assert Appended(w.unit.slots, w.calls[c].prepared, work.value.results, w.unit.slots + Filled(w.calls[c].prepared, work.value.results)); }
  }

  /** after is before followed by the slots made, each under its own result. */
  ghost predicate Appended(before: seq<Slot>, made: seq<Slot>, results: seq<RecordResult>, after: seq<Slot>) {
    && |results| == |made| && |after| == |before| + |made| && before <= after
    && forall i :: 0 <= i < |made| ==> after[|before| + i] == made[i].(result := results[i])
  }

  /** How a close ends, in the same order; one that answers closes the unit, and no other does. */
  lemma CloseEndsExactly(view: View, events: seq<Event>, c: Call, cancelled: bool, close: Option<CloseWork>)
    requires Enabled(view, After(view, events), EndClose(c, cancelled, close))
    ensures var w, w' := After(view, events), After(view, events + [EndClose(c, cancelled, close)]);
      && (w.unit.phase == UnitClosing || w.unit.phase == UnitAborted) && c in w'.calls
      && (w'.unit.phase == UnitClosed <==> !cancelled && w.unit.phase == UnitClosing && close.Some?)
      && (w'.unit.phase == UnitClosed <==> w'.calls[c].Answered?)
      && (w'.calls[c].Answered? ==> w'.calls[c].answers == close.value.answers)
      && (!w'.calls[c].Answered? ==>
            && w'.calls[c] == Turned(if cancelled then CallerCancelled else if w.unit.phase == UnitAborted then Refusal.Aborted else WorkFailed)
            && w'.unit.phase == if cancelled || w.unit.phase == UnitClosing then UnitFailed else UnitAborted)
  {
    AfterOne(view, events, EndClose(c, cancelled, close));
    InvHolds(view, events);
    hide Checked, Closes, EstablishedIn, Filled;
  }

  /** A round is admitted exactly when its caller stands, the unit is open and its inputs are admissible; a
      refused one changes nothing of the unit. */
  lemma AdmissionExactly(view: View, events: seq<Event>, c: Call, cancelled: bool, prepared: Option<seq<Slot>>)
    requires Enabled(view, After(view, events), Event.Admit(c, cancelled, prepared))
    ensures var w, w' := After(view, events), After(view, events + [Event.Admit(c, cancelled, prepared)]);
      && (Stands(w', c, Turned(if cancelled then CallerCancelled else if w.unit.phase != UnitOpen then AlreadyClosed else InputRefused))
          <==> cancelled || w.unit.phase != UnitOpen || prepared.None?)
      && (if cancelled || w.unit.phase != UnitOpen || prepared.None? then w'.unit == w.unit
          else Stands(w', c, Working(prepared.value)) && w'.unit == w.unit.(busy := true, cancel := Some(c)))
  {
    AfterOne(view, events, Event.Admit(c, cancelled, prepared));
    hide Checked, Closes, EstablishedIn, Filled;
  }
}
