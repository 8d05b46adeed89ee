/** Closing a checking unit: every slot is judged again against a new view and tied to its first judgment
    (checking.go, close). */
module Closing {
  import opened Paths
  import opened Judgment
  import opened Checking

  datatype Slot = Slot(record: RecordCheck, result: RecordResult, extension: bool, ledger: string)

  datatype Extension = Extension(recorded: Fingerprint, ledger: string)
  datatype CheckedCandidate = CheckedCandidate(index: nat, subject: Subject, verdict: Verdict, extension: Option<Extension>)

  function Candidate(slot: Slot, index: nat): CheckedCandidate {
    CheckedCandidate(index, slot.record.subject, slot.result.verdict,
                     if slot.extension && slot.result.verdict.status == Valid
                     then Some(Extension(slot.record.recorded, slot.ledger)) else None)
  }

  /** A slot refused before it was evaluated is refused again with the same verdict. */
  function ClosingRecord(slot: Slot): RecordCheck {
    if slot.result.evaluated then slot.record else slot.record.(refusal := Some(slot.result.verdict))
  }

  function ClosingRecords(slots: seq<Slot>): seq<RecordCheck> {
    seq(|slots|, i requires 0 <= i < |slots| => ClosingRecord(slots[i]))
  }

  function FinalVerdict(view: View, slot: Slot, again: RecordResult): Verdict {
    if slot.result.verdict.status == Stale then slot.result.verdict
    else if !slot.result.evaluated then again.verdict
    else
      var r := slot.record;
      RuntimeMotion(view, r.subject, r.recorded,
                    RuntimeMotion(view, r.subject, r.recorded, again.verdict, slot.result.before, again.before),
                    slot.result.after, again.after)
  }

  function FinalSlot(view: View, slot: Slot, again: RecordResult): Slot {
    slot.(result := again.(verdict := FinalVerdict(view, slot, again)))
  }

  /** A provisional extension, or an answer resting on a current proof: what the round licensed must hold
      to the end. */
  predicate Licensed(slot: Slot) {
    (slot.extension && slot.result.verdict.status == Valid) || slot.result.selected
  }

  method CloseSlots(current: View, slots: seq<Slot>)
    returns (failure: Option<Failure>, checked: seq<CheckedCandidate>, again: seq<RecordResult>, proofs: map<Subject, Proof>)
    ensures failure.None? ==> Checked(current, ClosingRecords(slots), proofs, again) && |checked| == |slots|
    ensures failure.None? ==> forall i :: 0 <= i < |slots| ==>
      checked[i] == Candidate(FinalSlot(current, slots[i], again[i]), i)
      && (slots[i].result.selected || (slots[i].extension && slots[i].result.verdict.status == Valid) ==> checked[i].verdict.status == Valid)
  {
    checked := [];
    failure, again, proofs := CheckRecords(current, ClosingRecords(slots), true);
    if failure.Some? { return; }
    var unavailable := false;
    assert |again| == |slots|;
    hide Checked, ClosingRecords, Answer;
    for i := 0 to |slots|
      invariant |checked| == i
      invariant forall k :: 0 <= k < i ==>
        checked[k] == Candidate(FinalSlot(current, slots[k], again[k]), k)
        && (Licensed(slots[k]) && !unavailable ==> checked[k].verdict.status == Valid)
    {
      hide RuntimeMotion;
      var slot, result := slots[i], again[i];
      if slot.result.verdict.status == Stale {
        result := result.(verdict := slot.result.verdict);
      } else if slot.result.evaluated {
        result := result.(verdict := RuntimeMotion(current, slot.record.subject, slot.record.recorded, result.verdict, slot.result.before, result.before));
        result := result.(verdict := RuntimeMotion(current, slot.record.subject, slot.record.recorded, result.verdict, slot.result.after, result.after));
      }
      if Licensed(slot) && result.verdict.status != Valid {
        if result.verdict.status != Unverifiable || !result.unavailable { return Some(ViewChanged), [], again, proofs; }
        unavailable := true;
      }
      checked := checked + [Candidate(slot.(result := result), i)];
    }
    failure := CloseObservation(unavailable);
  }

  /** The base is observed once more; unavailability held so far outlives an agreement there. */
  method CloseObservation(unavailable: bool) returns (failure: Option<Failure>)
    ensures unavailable ==> failure.Some?
  {
    var cancelled, moved, cut: bool := *, *, *;
    if moved { return Some(ViewChanged); }
    if cancelled { return Some(Cancelled); }
    if unavailable || cut { return Some(AnalysisUnavailable); }
    return None;
  }

  // ----- What a final answer means -----

  /** The slot holds what its round established for it. */
  ghost predicate Established(view: View, slot: Slot, proof: Proof) {
    && (slot.record.refusal.Some? ==> slot.record.refusal.value.status == Stale)
    && slot.result == Answer(view, slot.record, slot.result.before, slot.result.after, proof)
  }

  /** All four readings of a slot's inputs are one state. */
  predicate Still(slot: Slot, again: RecordResult) {
    slot.result.before == slot.result.after == again.before && again.before == again.after
  }

  /** A slot provisionally stale closes with exactly that verdict, whatever the closing view holds.
      Otherwise the final answer is Valid exactly when the closing judgment is and, for a recording that
      carries inputs, all four readings of them are the same state. What was never evaluated is not
      evaluated at closing either. */
  lemma FinalAnswerExactly(opening: View, closing: View, slot: Slot, proof: Proof, again: RecordResult, proof': Proof)
    requires Established(opening, slot, proof)
    requires again == Answer(closing, ClosingRecord(slot), again.before, again.after, proof')
    ensures slot.result.verdict.status == Stale ==> FinalVerdict(closing, slot, again) == slot.result.verdict
    ensures !slot.result.evaluated ==> !again.evaluated
    ensures FinalVerdict(closing, slot, again).status == Valid <==>
      && slot.result.verdict.status != Stale && again.verdict.status == Valid
      && (slot.record.recorded.inputs != "" ==> Still(slot, again))
  {
    hide DecideIn, Granted, Asked, Observable;
    RefusedIsStale(opening, slot, proof);
    MotionIsStale(closing, slot.record, again.verdict, slot.result.before, again.before);
    MotionIsStale(closing, slot.record, RuntimeMotion(closing, slot.record.subject, slot.record.recorded, again.verdict, slot.result.before, again.before),
                  slot.result.after, again.after);
    if again.evaluated { ValidAnswerIsStill(closing, ClosingRecord(slot), again, proof'); }
  }

  /** An unevaluated slot holds a stale refusal. */
  lemma RefusedIsStale(view: View, slot: Slot, proof: Proof)
    requires Established(view, slot, proof)
    ensures !slot.result.evaluated ==> slot.result.verdict.status == Stale
  {
    EvidenceRefusesExactly(slot.record.recorded, view.closures(slot.record.subject), view.closureStrategy);
  }

  lemma MotionIsStale(view: View, r: RecordCheck, prior: Verdict, before: Reading, after: Reading)
    ensures var v := RuntimeMotion(view, r.subject, r.recorded, prior, before, after);
            && (v.status == Valid <==> prior.status == Valid && (r.recorded.inputs == "" || before == after))
            && (v.status == Undecided ==> prior.status == Undecided)
  {
  }

  lemma ValidAnswerIsStill(view: View, r: RecordCheck, result: RecordResult, proof: Proof)
    requires result == Answer(view, r, result.before, result.after, proof) && result.evaluated
    ensures result.verdict.status == Valid ==> r.recorded.inputs == "" || result.before == result.after
  {
    hide DecideIn, Granted, Asked, Observable;
    MotionIsStale(view, r, DecideIn(view, r, result.before, Granted(view, r, result.before, proof)), result.before, result.after);
  }

  /** What a final Valid certifies at the closing view: the recorded evidence and every guard agree, the
      one reading behind all four carries the recorded digest, and nothing unhashable went unlifted. */
  lemma FinalValidCertifies(opening: View, closing: View, slot: Slot, proof: Proof, again: RecordResult, proof': Proof)
    requires Established(opening, slot, proof)
    requires again == Answer(closing, ClosingRecord(slot), again.before, again.after, proof')
    requires FinalVerdict(closing, slot, again).status == Valid
    ensures slot.result.evaluated && again.evaluated
    ensures var rec, cl := slot.record.recorded, closing.closures(slot.record.subject);
      && EvidenceAgrees(rec, opening.closures(slot.record.subject), opening.closureStrategy)
      && EvidenceAgrees(rec, cl, closing.closureStrategy)
      && CompareFacts(rec.guards, closing.guards, closing.kind) == Agreement
      && !cl.external && rec.toolchainContent != "" && cl.toolchainContent == rec.toolchainContent
      && (rec.inputs != "" ==> again.before.ok && !again.before.bracketMoved && again.before.digest == rec.digest != "")
      && Lifted(rec, cl, again.before, PurityOf(closing, slot.record), Granted(closing, slot.record, again.before, proof'))
  {
    hide Granted, Asked, Observable;
    FinalAnswerExactly(opening, closing, slot, proof, again, proof');
    RefusedIsStale(opening, slot, proof);
    var r := slot.record;
    assert ClosingRecord(slot) == r;
    EvidenceRefusesExactly(r.recorded, opening.closures(r.subject), opening.closureStrategy);
    EvidenceRefusesExactly(r.recorded, closing.closures(r.subject), closing.closureStrategy);
    AnswerIsDecided(opening, r, slot.result, proof);
    AnswerIsDecided(closing, r, again, proof');
    ValidExactly(r.recorded, closing.closures(r.subject), closing.guards, again.before, closing.kind, PurityOf(closing, r),
                 Granted(closing, r, again.before, proof'));
  }

  lemma AnswerIsDecided(view: View, r: RecordCheck, result: RecordResult, proof: Proof)
    requires result == Answer(view, r, result.before, result.after, proof) && result.evaluated
    ensures Admission(view, r).None?
    ensures result.verdict.status == Valid ==> DecideIn(view, r, result.before, Granted(view, r, result.before, proof)).status == Valid
  {
    hide DecideIn, Granted, Asked, Observable;
    MotionIsStale(view, r, DecideIn(view, r, result.before, Granted(view, r, result.before, proof)), result.before, result.after);
  }

  /** A licensed slot of a closed unit is Valid at both endpoints over one state of its inputs. */
  lemma LicenceHolds(opening: View, closing: View, slot: Slot, proof: Proof, again: RecordResult, proof': Proof, index: nat)
    requires Established(opening, slot, proof)
    requires again == Answer(closing, ClosingRecord(slot), again.before, again.after, proof')
    requires Candidate(FinalSlot(closing, slot, again), index).verdict.status == Valid
    ensures slot.record.recorded.inputs != "" ==> Still(slot, again)
    ensures slot.extension ==>
      Candidate(FinalSlot(closing, slot, again), index).extension == Some(Extension(slot.record.recorded, slot.ledger))
  {
    FinalAnswerExactly(opening, closing, slot, proof, again, proof');
  }
}
