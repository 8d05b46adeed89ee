/** CheckingUnit: rounds, Abort and Close as critical sections under one mutex, with the checking work
    between them unlocked (checking.go). */
module CheckingUnits {
  import opened Paths
  import opened Concurrency
  import opened Judgment
  import opened Checking
  import opened Closing

  datatype Refusal = CallerCancelled | Aborted | AlreadyClosed | Incomplete | InputRefused | WorkFailed

  /** The fields behind the mutex, and the gate that serializes rounds. cancel names the work it interrupts. */
  datatype State = State(phase: Phase, slots: seq<Slot>, busy: bool, cancel: Option<Call>, gate: Option<Call>, interrupted: set<Call>)

  const Opened := State(UnitOpen, [], false, None, None, {})

  function Interrupt(s: State): State {
    if s.cancel.Some? then s.(interrupted := s.interrupted + {s.cancel.value}) else s
  }

  // ----- The sections, as functions of the state -----

  /** A round's admission: prepared is what its inputs come to over the slots so far, if admissible. */
  function EnterRound(s: State, call: Call, cancelled: bool, prepared: Option<seq<Slot>>): (State, Option<Refusal>) {
    if cancelled then (s, Some(CallerCancelled))
    else if s.phase != UnitOpen then (s, Some(AlreadyClosed))
    else if prepared.None? then (s, Some(InputRefused))
    else (s.(busy := true, cancel := Some(call)), None)
  }

  /** The commit boundary. The caller's own cancellation outranks the unit's transitions. */
  function FinishWork(s: State, cancelled: bool, failed: bool): (State, Option<Refusal>) {
    if cancelled then (s.(phase := UnitFailed), Some(CallerCancelled))
    else if s.phase == UnitAborted then (s, Some(Aborted))
    else if s.phase != UnitOpen && s.phase != UnitClosing then (s, Some(AlreadyClosed))
    else if failed then (s.(phase := UnitFailed), Some(WorkFailed))
    else (s, None)
  }

  function Filled(slots: seq<Slot>, results: seq<RecordResult>): seq<Slot>
    requires |slots| == |results|
  {
    seq(|slots|, i requires 0 <= i < |slots| => slots[i].(result := results[i]))
  }

  function CommitRound(s: State, cancelled: bool, slots: seq<Slot>, results: Option<seq<RecordResult>>): (State, Option<Refusal>)
    requires results.Some? ==> |results.value| == |slots|
  {
    var (s', refusal) := FinishWork(s.(busy := false, cancel := None), cancelled, results.None?);
    if refusal.Some? || results.None? then (s', refusal) else (s'.(slots := s'.slots + Filled(slots, results.value)), None)
  }

  function AbortUnit(s: State): State {
    if s.phase == UnitOpen || s.phase == UnitClosing then Interrupt(s.(phase := UnitAborted)) else s
  }

  function EnterClose(s: State, call: Call, cancelled: bool): (State, Option<Refusal>) {
    if s.phase != UnitOpen then (s, Some(AlreadyClosed))
    else if cancelled || s.busy then (Interrupt(s.(phase := UnitFailed)), Some(if cancelled then CallerCancelled else Incomplete))
    else (s.(phase := UnitClosing, cancel := Some(call)), None)
  }

  function CommitClose(s: State, cancelled: bool, failed: bool): (State, Option<Refusal>) {
    var (s', refusal) := FinishWork(s.(cancel := None), cancelled, failed);
    if refusal.Some? then (s', refusal) else (s'.(phase := UnitClosed), None)
  }

  // ----- The object -----

  class CheckingUnit {
    var phase: Phase
    var slots: seq<Slot>
    var busy: bool
    var cancel: Option<Call>
    var gate: Option<Call>
    var interrupted: set<Call>

    function Now(): State
      reads this
    {
      State(phase, slots, busy, cancel, gate, interrupted)
    }

    constructor ()
      ensures Now() == Opened
    {
      phase, slots, busy, cancel, gate, interrupted := UnitOpen, [], false, None, None, {};
    }

    method Admit(call: Call, cancelled: bool, prepared: Option<seq<Slot>>) returns (refusal: Option<Refusal>)
      modifies this
      ensures (Now(), refusal) == EnterRound(old(Now()), call, cancelled, prepared)
    {
      if cancelled { return Some(CallerCancelled); }
      if phase != UnitOpen { return Some(AlreadyClosed); }
      if prepared.None? { return Some(InputRefused); }
      busy, cancel := true, Some(call);
      return None;
    }

    method Finish(cancelled: bool, failed: bool) returns (refusal: Option<Refusal>)
      modifies this`phase
      ensures (Now(), refusal) == FinishWork(old(Now()), cancelled, failed)
    {
      if cancelled {
        phase := UnitFailed;
        return Some(CallerCancelled);
      }
      if phase == UnitAborted { return Some(Aborted); }
      if phase != UnitOpen && phase != UnitClosing { return Some(AlreadyClosed); }
      if failed {
        phase := UnitFailed;
        return Some(WorkFailed);
      }
      return None;
    }

    /** Appends the round's slots and returns one provisional answer for each, at its final index. */
    method Commit(cancelled: bool, prepared: seq<Slot>, results: Option<seq<RecordResult>>)
      returns (refusal: Option<Refusal>, checked: seq<CheckedCandidate>)
      requires results.Some? ==> |results.value| == |prepared|
      modifies this
      ensures (Now(), refusal) == CommitRound(old(Now()), cancelled, prepared, results)
      ensures refusal.None? ==> |checked| == |prepared| && slots[|old(slots)|..] == Filled(prepared, results.value)
      ensures refusal.None? ==> forall i :: 0 <= i < |checked| ==> checked[i] == Candidate(slots[|old(slots)| + i], |old(slots)| + i)
    {
      checked := [];
      busy, cancel := false, None;
      refusal := Finish(cancelled, results.None?);
      if refusal.Some? { return; }
      ghost var before := slots;
      for i := 0 to |prepared|
        invariant |checked| == i && slots == before + Filled(prepared, results.value)[..i]
        invariant Now() == CommitRound(old(Now()), cancelled, prepared, results).0.(slots := slots)
        invariant forall k :: 0 <= k < i ==> checked[k] == Candidate(slots[|before| + k], |before| + k)
      {
        var index := |slots|;
        slots := slots + [prepared[i].(result := results.value[i])];
        checked := checked + [Candidate(slots[index], index)];
      }
      assert Filled(prepared, results.value)[..|prepared|] == Filled(prepared, results.value);
    }

    method Abort()
      modifies this
      ensures Now() == AbortUnit(old(Now()))
    {
      if phase == UnitOpen || phase == UnitClosing {
        phase := UnitAborted;
        if cancel.Some? { interrupted := interrupted + {cancel.value}; }
      }
    }

    method BeginClose(call: Call, cancelled: bool) returns (refusal: Option<Refusal>)
      modifies this
      ensures (Now(), refusal) == EnterClose(old(Now()), call, cancelled)
    {
      if phase != UnitOpen { return Some(AlreadyClosed); }
      phase := UnitClosing;
      if cancelled || busy {
        if cancel.Some? { interrupted := interrupted + {cancel.value}; }
        phase := UnitFailed;
        if cancelled { return Some(CallerCancelled); }
        return Some(Incomplete);
      }
      cancel := Some(call);
      return None;
    }

    method EndClose(cancelled: bool, failed: bool) returns (refusal: Option<Refusal>)
      modifies this
      ensures (Now(), refusal) == CommitClose(old(Now()), cancelled, failed)
    {
      cancel := None;
      refusal := Finish(cancelled, failed);
      if refusal.None? { phase := UnitClosed; }
    }
  }

  // ----- Explicit extensions -----

  datatype InertRequest = InertRequest(index: int, inert: bool, ledgerFails: bool, ledger: string)

  /** Licenses only the compartment's substitution: no verdict means the new endpoint is still to be
      checked, and an unreadable ledger refuses the batch. */
  function PrepareExtension(view: View, rec: Fingerprint, subject: Subject, request: InertRequest): Option<RecordCheck> {
    var cl := view.closures(subject);
    var candidate := rec.(applicability := Applicability(EXTENSION, cl.variants));
    var mismatch := CompareFacts(rec.guards, view.guards, view.kind);
    var refusal :=
      if !rec.Recognized() || rec.EffectiveVariants() == "" then
        Some(Refuse(Stale, TestVariantsCause, if !rec.Recognized() then Unsupported else Absent))
      else if rec.closureStrategy != view.closureStrategy then
        Some(Refuse(Stale, ClosureStrategyCause, if rec.closureStrategy == "" then Absent else Unsupported))
      else if RecordedEvidence(candidate, cl, view.closureStrategy).Some? then RecordedEvidence(candidate, cl, view.closureStrategy)
      else if mismatch.Mismatch? then Some(GuardVerdict(mismatch))
      else None;
    if refusal.Some? then Some(RecordCheck(subject, rec, true, refusal))
    else if request.ledgerFails then None
    else if !request.inert then Some(RecordCheck(subject, rec, true, Some(Refuse(Stale, TestVariantsCause, Refused))))
    else Some(RecordCheck(subject, candidate, true, None))
  }

  method Extend(view: View, slots: seq<Slot>, requests: seq<InertRequest>) returns (prepared: Option<seq<Slot>>)
    ensures prepared.Some? <==> forall i :: 0 <= i < |requests| ==> Extensible(view, slots, requests[i])
    ensures prepared.Some? ==> |prepared.value| == |requests|
    ensures prepared.Some? ==> forall i :: 0 <= i < |requests| ==> prepared.value[i] == Extended(view, slots, requests[i])
  {
    for i := 0 to |requests|
      invariant forall k :: 0 <= k < i ==> 0 <= requests[k].index < |slots|
    {
      if requests[i].index < 0 || requests[i].index >= |slots| { return None; }
    }
    var made := [];
    for i := 0 to |requests|
      invariant |made| == i
      invariant forall k :: 0 <= k < i ==> Extensible(view, slots, requests[k]) && made[k] == Extended(view, slots, requests[k])
    {
      var from := slots[requests[i].index].record;
      var record := PrepareExtension(view, from.recorded, from.subject, requests[i]);
      if record.None? { return None; }
      made := made + [Slot(record.value, NoResult, true, requests[i].ledger)];
    }
    return Some(made);
  }

  predicate Extensible(view: View, slots: seq<Slot>, request: InertRequest) {
    0 <= request.index < |slots|
    && var from := slots[request.index].record; PrepareExtension(view, from.recorded, from.subject, request).Some?
  }

  function Extended(view: View, slots: seq<Slot>, request: InertRequest): Slot
    requires Extensible(view, slots, request)
  {
    var from := slots[request.index].record;
    Slot(PrepareExtension(view, from.recorded, from.subject, request).value, NoResult, true, request.ledger)
  }

  /** An extension keeps the referenced slot's subject and every part of its recording but the effective
      compartment, which it takes from the view; it is admitted only when that is all that moved. */
  lemma ExtensionChangesOnlyTheCompartment(view: View, slots: seq<Slot>, request: InertRequest)
    requires Extensible(view, slots, request)
    ensures var from, made := slots[request.index].record, Extended(view, slots, request).record;
      && made.subject == from.subject
      && made.recorded.(applicability := from.recorded.applicability) == from.recorded
      && (made.refusal.Some? ==> made.refusal.value.status == Stale && made.recorded == from.recorded)
      && (made.refusal.None? <==> request.inert && !request.ledgerFails && Extends(view, from.recorded, view.closures(from.subject)))
      && (made.refusal.None? ==> EvidenceAgrees(made.recorded, view.closures(from.subject), view.closureStrategy))
  {
    var from := slots[request.index].record;
    var cl := view.closures(from.subject);
    EvidenceRefusesExactly(from.recorded.(applicability := Applicability(EXTENSION, cl.variants)), cl, view.closureStrategy);
  }

  predicate Extends(view: View, rec: Fingerprint, cl: Closure) {
    && rec.Recognized() && rec.EffectiveVariants() != "" && rec.closureStrategy == view.closureStrategy
    && EvidenceAgrees(rec.(applicability := Applicability(EXTENSION, cl.variants)), cl, view.closureStrategy)
    && CompareFacts(rec.guards, view.guards, view.kind) == Agreement
  }
}
