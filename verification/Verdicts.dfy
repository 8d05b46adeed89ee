/** The verdicts of the checking kernel over a recording's own texts: which answer, for what cause, under
    whose authority (judgment.go, checking.go). */
module Verdicts {
  import opened Paths
  import opened Judgment
  import opened Checking
  import opened Closing

  // ----- Whose word -----

  /** The three texts that assert purity. */
  predicate Asserts(text: string) {
    text == "caller assertion" || text == "source directive" || text == "caller assertion and source directive"
  }

  /** Each asserting text names its own responsibility, and no other text names any. */
  lemma AttributionExactly(text: string)
    ensures PurityAttribution(text) == CallerPurity <==> text == "caller assertion"
    ensures PurityAttribution(text) == SourcePurity <==> text == "source directive"
    ensures PurityAttribution(text) == CallerAndSourcePurity <==> text == "caller assertion and source directive"
    ensures PurityAttribution(text) == NoPurity <==> !Asserts(text)
  {
  }

  /** A recording's completed observation speaks for it when its proof fits, was made under the policy now
      in force, and found the subject observable, by the outcome it carries or by being free of effects. */
  predicate Observes(rec: Fingerprint, cl: Closure) {
    rec.compatible && rec.admission == cl.admission && rec.observable && (rec.outcomeSupport || rec.effectFree)
  }

  lemma ObservationExactly(rec: Fingerprint, cl: Closure)
    ensures AdmittedObservation(rec, cl).Accepted() <==> Observes(rec, cl)
    ensures Observes(rec, cl) ==>
      AdmittedObservation(rec, cl) == Authority(rec.assertion, rec.proofStrategy,
        if rec.outcomeSupport then "gofresh/immutable-environment@1" else "gofresh/static-reachability@1", false)
  {
  }

  /** The subject's current proof supports the way its recording was observed. */
  predicate StillObservable(rec: Fingerprint, proof: Proof) {
    proof.observable && if rec.outcomeSupport then proof.outcome == "gofresh/immutable-environment@1" else proof.effectFree
  }

  // ----- When an answer is valid -----

  predicate InputsHold(rec: Fingerprint, before: Reading) {
    if rec.inputs == "" then rec.digest == ""
    else before.ok && !before.bracketMoved && rec.digest != "" && rec.digest == before.digest
  }

  predicate GuardsHold(rec: Guards, cur: Guards, kind: Kind) {
    && kind != NoKind
    && rec.toolchain != "" && rec.toolchain == cur.toolchain && rec.buildConfig != "" && rec.buildConfig == cur.buildConfig
    && (kind == Measurement ==>
          rec.machine != "" && rec.machine == cur.machine && rec.runtimeConfig != "" && rec.runtimeConfig == cur.runtimeConfig)
  }

  /** Nothing withholds the recording once its guards hold. */
  predicate Open(rec: Fingerprint, cl: Closure) {
    rec.toolchainContent != "" && cl.toolchainContent != "" && !cl.external
  }

  /** What a dependence that cannot be hashed takes: the word of both sides, or for a closure a completed
      observation, currently supported when the recording was extended; never over process-shared state. */
  predicate Discharged(view: View, r: RecordCheck, before: Reading, proof: Proof) {
    var rec, cl := r.recorded, view.closures(r.subject);
    || (Asserts(rec.purity) && Asserts(view.purity(r.subject)))
    || (&& (rec.inputs != "" ==> !before.unverifiable)
        && (cl.unverifiable ==>
              && rec.inputs != "" && cl.refusal != SharedDynamicState && r.observed && Observes(rec, cl)
              && (rec.applicability != Applicability("", "") ==> StillObservable(rec, proof))))
  }

  /** An evaluated record is valid exactly when its inputs stayed one state with the recorded digest, every
      guard holds, nothing withholds it, and whatever cannot be hashed is discharged. */
  lemma AnswerIsValidExactly(view: View, r: RecordCheck, before: Reading, after: Reading, proof: Proof)
    requires Admission(view, r).None?
    ensures Answer(view, r, before, after, proof).verdict.status == Valid <==>
      var rec, cl := r.recorded, view.closures(r.subject);
      && InputsHold(rec, before) && (rec.inputs != "" ==> before == after)
      && GuardsHold(rec.guards, view.guards, view.kind) && Open(rec, cl) && Discharged(view, r, before, proof)
  {
    var rec, cl := r.recorded, view.closures(r.subject);
    var granted := Granted(view, r, before, proof);
    DecisionExactly(view, r, before, granted);
    GrantExactly(view, r, before, proof);
    hide Decide, DecideIn, Granted, AdmittedObservation, Lifted;
    MotionIsStale(view, r, DecideIn(view, r, before, granted), before, after);
  }

  /** What rests on the observation alone: an extension over a closure that cannot be hashed, asserted by
      nobody, whose answer would be valid if its subject's proof still supports it. */
  predicate RestsOnObservation(view: View, r: RecordCheck, before: Reading) {
    var rec, cl := r.recorded, view.closures(r.subject);
    && rec.applicability != Applicability("", "") && r.observed && Observes(rec, cl)
    && cl.unverifiable && cl.refusal != SharedDynamicState && !(Asserts(rec.purity) && Asserts(view.purity(r.subject)))
    && rec.inputs != "" && !before.unverifiable
    && InputsHold(rec, before) && GuardsHold(rec.guards, view.guards, view.kind) && Open(rec, cl)
  }

  /** Exactly those ask their subject for a current proof; a valid one is reported as selected, and one the
      proof does not support is reported unavailable when that is why. */
  lemma SelectedExactly(view: View, r: RecordCheck, before: Reading, after: Reading, proof: Proof)
    requires Admission(view, r).None?
    ensures Asked(view, r, before) <==> RestsOnObservation(view, r, before)
    ensures var a := Answer(view, r, before, after, proof);
      && (a.selected <==> RestsOnObservation(view, r, before) && StillObservable(r.recorded, proof) && before == after)
      && (a.unavailable <==> RestsOnObservation(view, r, before) && !StillObservable(r.recorded, proof) && proof.unavailable)
  {
    AskedExactly(view, r, before);
    AnswerIsValidExactly(view, r, before, after, proof);
    ObservationExactly(r.recorded, view.closures(r.subject));
    hide Decide, DecideIn, Asked, AdmittedObservation, InputsHold, GuardsHold, Open, Asserts, Admission;
  }

  lemma AskedExactly(view: View, r: RecordCheck, before: Reading)
    ensures Asked(view, r, before) <==> RestsOnObservation(view, r, before)
  {
    var rec, cl := r.recorded, view.closures(r.subject);
    DecisionExactly(view, r, before, NoAuthority);
    DecisionExactly(view, r, before, Positive(view, r));
    ObservationExactly(rec, cl);
    if InputsHold(rec, before) && GuardsHold(rec.guards, view.guards, view.kind) { UnopenedIsUnverifiable(view, r, before, NoAuthority); }
    hide Decide, DecideIn, CompareFacts, PurityAttribution, AdmittedObservation, InputsHold, GuardsHold, Open, Asserts;
  }

  lemma DecisionExactly(view: View, r: RecordCheck, before: Reading, observed: Authority)
    ensures DecideIn(view, r, before, observed).status == Valid <==>
      var rec, cl := r.recorded, view.closures(r.subject);
      && InputsHold(rec, before) && GuardsHold(rec.guards, view.guards, view.kind) && Open(rec, cl)
      && Lifted(rec, cl, before, PurityOf(view, r), observed)
    ensures PurityOf(view, r).Accepted() <==> Asserts(r.recorded.purity) && Asserts(view.purity(r.subject))
  {
    var rec, cl := r.recorded, view.closures(r.subject);
    ValidExactly(rec, cl, view.guards, before, view.kind, PurityOf(view, r), observed);
    GuardsAgreeExactly(rec.guards, view.guards, view.kind);
    AttributionExactly(rec.purity);
    AttributionExactly(view.purity(r.subject));
    hide Decide, CompareFacts, PurityAttribution;
  }

  /** Where a grant decides, it is accepted exactly when the observation discharges. */
  lemma GrantExactly(view: View, r: RecordCheck, before: Reading, proof: Proof)
    ensures var rec, cl := r.recorded, view.closures(r.subject);
      InputsHold(rec, before) && GuardsHold(rec.guards, view.guards, view.kind) && Open(rec, cl) ==>
        (Lifted(rec, cl, before, PurityOf(view, r), Granted(view, r, before, proof)) <==> Discharged(view, r, before, proof))
  {
    var rec, cl := r.recorded, view.closures(r.subject);
    DecisionExactly(view, r, before, NoAuthority);
    DecisionExactly(view, r, before, Positive(view, r));
    ObservationExactly(rec, cl);
    if InputsHold(rec, before) && GuardsHold(rec.guards, view.guards, view.kind) { UnopenedIsUnverifiable(view, r, before, NoAuthority); }
    hide Decide, DecideIn, CompareFacts, PurityAttribution, AdmittedObservation;
  }

  /** With the guards and inputs in order, what is not valid is unverifiable. */
  lemma UnopenedIsUnverifiable(view: View, r: RecordCheck, before: Reading, observed: Authority)
    requires InputsHold(r.recorded, before) && GuardsHold(r.recorded.guards, view.guards, view.kind)
    ensures DecideIn(view, r, before, observed).status == Valid || DecideIn(view, r, before, observed).status == Unverifiable
  {
    GuardsAgreeExactly(r.recorded.guards, view.guards, view.kind);
  }

  // ----- Which refusal -----

  /** The first guard the kind asks for that does not hold. */
  function FailingGuard(rec: Guards, cur: Guards, kind: Kind): CauseKind {
    if kind == NoKind then ResultKindCause
    else if rec.toolchain == "" || rec.toolchain != cur.toolchain then ToolchainCause
    else if rec.buildConfig == "" || rec.buildConfig != cur.buildConfig then BuildConfigCause
    else if rec.machine == "" || rec.machine != cur.machine then MachineCause
    else RuntimeConfigCause
  }

  function GuardTexts(g: Guards, axis: CauseKind): string {
    match axis
    case ToolchainCause => g.toolchain
    case BuildConfigCause => g.buildConfig
    case MachineCause => g.machine
    case _ => g.runtimeConfig
  }

  lemma GuardCause(rec: Guards, cur: Guards, kind: Kind)
    requires !GuardsHold(rec, cur, kind)
    ensures var m, axis := CompareFacts(rec, cur, kind), FailingGuard(rec, cur, kind);
      && m.Mismatch? && m.axis == axis
      && (axis != ResultKindCause ==> (m.missing <==> GuardTexts(rec, axis) == "" || GuardTexts(cur, axis) == ""))
      && (axis == ResultKindCause ==> !m.missing)
  {
    if kind != NoKind {
      var pairs := Pairs(rec, cur, kind);
      assert pairs[0] == Pair(ToolchainCause, rec.toolchain, cur.toolchain) && pairs[1] == Pair(BuildConfigCause, rec.buildConfig, cur.buildConfig);
      assert kind == Measurement ==> pairs[2] == Pair(MachineCause, rec.machine, cur.machine) && pairs[3] == Pair(RuntimeConfigCause, rec.runtimeConfig, cur.runtimeConfig);
      FirstIs(pairs, if !pairs[0].Agrees() then 0 else if !pairs[1].Agrees() then 1 else if !pairs[2].Agrees() then 2 else 3);
    }
  }

  lemma {:induction false} FirstIs(pairs: seq<Pair>, k: nat)
    requires k < |pairs| && !pairs[k].Agrees() && forall j :: 0 <= j < k ==> pairs[j].Agrees()
    ensures FirstMismatch(pairs) == Mismatch(pairs[k].axis, pairs[k].recorded == "" || pairs[k].current == "")
  {
    if k > 0 { FirstIs(pairs[1..], k - 1); }
  }

  /** Inputs that do not hold are stale first, then guards, each for its own cause; then what the author or
      missing toolchain evidence withholds is unverifiable, and last what is left undischarged. */
  lemma CauseExactly(rec: Fingerprint, cl: Closure, cur: Guards, rt: Reading, kind: Kind, pure: Purity, observed: Authority)
    ensures var v := Decide(rec, cl, cur, rt, kind, pure, observed);
      if !InputsHold(rec, rt) then
        && v.status == Stale && v.cause.kind == RuntimeInputsCause && v.accepted == NothingAccepted
        && (v.cause.condition == Absent <==> rec.inputs == "" || (rec.digest == "" && rt.ok && !rt.bracketMoved))
        && (v.cause.condition == Unavailable <==> rec.inputs != "" && !rt.ok && !rt.bracketMoved)
        && (v.cause.condition == Absent || v.cause.condition == Unavailable || v.cause.condition == Changed)
      else if !GuardsHold(rec.guards, cur, kind) then
        var axis := FailingGuard(rec.guards, cur, kind);
        && v.status == Stale && v.cause.kind == axis && v.accepted == NothingAccepted
        && v.cause.condition == (if axis == ResultKindCause then Unsupported
                                 else if GuardTexts(rec.guards, axis) == "" || GuardTexts(cur, axis) == "" then Absent else Changed)
      else if !Open(rec, cl) then
        && v.status == Unverifiable && v.accepted == NothingAccepted
        && v.cause == Cause(if rec.toolchainContent == "" || cl.toolchainContent == "" then ToolchainContentCause else ExternalDirectiveCause,
                            if rec.toolchainContent == "" then Absent else if cl.toolchainContent == "" then Unavailable else Refused, NoSubject)
      else
        && v.accepted.guards && (v.accepted.runtime <==> rec.inputs != "")
        && (v.status == Valid || v.status == Unverifiable)
        && (v.status == Valid ==> v.accepted.applicability == rec.applicability)
        && (v.status == Unverifiable ==> v.cause.condition == Refused && !pure.Accepted())
        && (v.status == Unverifiable && rec.inputs != "" && rt.unverifiable ==> v.cause.kind == RuntimeInputsCause)
        && (v.status == Unverifiable && !(rec.inputs != "" && rt.unverifiable) ==>
              && (v.cause.kind == SharedDynamicStateCause <==> cl.refusal == SharedDynamicState)
              && (v.cause.kind == OpenWorldCause <==> cl.refusal == OpenWorld)
              && (v.cause.kind == AmbiguousSubjectCause <==> cl.refusal == AmbiguousSubject)
              && (v.cause.kind == ClosureDependenceCause <==> cl.refusal == Dependence)
              && v.cause.culprit == if cl.refusal == SharedDynamicState then cl.culprit else NoSubject)
  {
    GuardsAgreeExactly(rec.guards, cur, kind);
    if !GuardsHold(rec.guards, cur, kind) { GuardCause(rec.guards, cur, kind); }
    hide CompareFacts;
  }

  /** Only what the deciding check admitted is named as its authority: purity where it lifted something, and
      an observation where it did. */
  lemma AuthorityIsUsed(rec: Fingerprint, cl: Closure, cur: Guards, rt: Reading, kind: Kind, pure: Purity, observed: Authority)
    requires Decide(rec, cl, cur, rt, kind, pure, observed).status == Valid
    ensures var a := Decide(rec, cl, cur, rt, kind, pure, observed).accepted;
      && a.purity == (if pure.Accepted() && (cl.unverifiable || (rec.inputs != "" && rt.unverifiable)) then pure else Purity(NoPurity, NoPurity))
      && a.observation == (if !pure.Accepted() && cl.unverifiable then observed else NoAuthority)
  {
    hide CompareFacts;
  }

  /** Evidence that does not agree is refused for the first of: no recorded closure, or another one; the
      test variants of an unchanged one; its toolchain; its dynamic-state derivation; the derivation of an
      extended one. */
  lemma EvidenceCause(rec: Fingerprint, cl: Closure, strategy: string)
    requires !EvidenceAgrees(rec, cl, strategy)
    ensures var v := RecordedEvidence(rec, cl, strategy);
      && v.Some? && v.value.status == Stale && v.value.accepted == NothingAccepted
      && v.value.cause == Cause(
           if rec.maximal == "" || rec.maximal != cl.hash then ClosureCause
           else if !rec.Recognized() || rec.EffectiveVariants() == "" || rec.EffectiveVariants() != cl.variants then TestVariantsCause
           else if rec.toolchainContent != "" && cl.toolchainContent != "" && rec.toolchainContent != cl.toolchainContent then ToolchainContentCause
           else if rec.dynamicState != "gofresh/dynamic-state@49" then DynamicStateStrategyCause
           else ClosureStrategyCause,
           v.value.cause.condition, NoSubject)
    ensures var c := RecordedEvidence(rec, cl, strategy).value.cause;
      && (c.kind == ClosureCause ==> c.condition == if rec.maximal == "" then Absent else if cl.hash == "" then Unavailable else Changed)
      && (c.kind == TestVariantsCause ==> c.condition == if !rec.Recognized() then Unsupported else if rec.EffectiveVariants() == "" then Absent
                                                       else if cl.variants == "" then Unavailable else Changed)
      && (c.kind == ToolchainContentCause ==> c.condition == Changed)
      && (c.kind == DynamicStateStrategyCause ==> c.condition == if rec.dynamicState == "" then Absent else Unsupported)
      && (c.kind == ClosureStrategyCause ==> c.condition == if rec.closureStrategy == "" then Absent else Unsupported)
  {
  }

  /** The compartment judged is the extension's when there is one, and an extension is recognized when it is
      of this kind over two recorded compartments. */
  lemma EffectiveExactly(rec: Fingerprint)
    ensures rec.EffectiveVariants() == if rec.applicability == Applicability("", "") then rec.variants else rec.applicability.variants
    ensures rec.Recognized() <==>
      rec.applicability == Applicability("", "")
      || (rec.applicability.strategy == "gofresh/inert-test-variant-extension@1" && rec.applicability.variants != "" && rec.variants != "")
  {
  }

  // ----- Under which scope -----

  /** Every answer names its own subject and the view's kind; a cut blames nobody; discharges are the
      subject's own, and stand only where the guards were agreed. */
  lemma AnswerIsScoped(view: View, r: RecordCheck, before: Reading, after: Reading, proof: Proof)
    ensures var v := Answer(view, r, before, after, proof).verdict;
      && v.scope == Scope(r.subject, view.kind)
      && (v.cause.kind == SharedDynamicStateCause && view.cut(r.subject) ==> v.cause == Cause(SharedDynamicStateCause, Unavailable, NoSubject))
      && (v.accepted.guards ==> v.accepted.discharges == view.discharges(r.subject))
  {
    hide Decide, Granted, RecordedEvidence;
  }

  /** A record not evaluated answers its refusal, or its evidence's. */
  lemma RefusedAnswer(view: View, r: RecordCheck, before: Reading, after: Reading, proof: Proof)
    ensures var refused := r.refusal.Some? || !EvidenceAgrees(r.recorded, view.closures(r.subject), view.closureStrategy);
      && Answer(view, r, before, after, proof).evaluated == !refused
      && (r.refusal.Some? ==> Answer(view, r, before, after, proof).verdict == JudgmentFor(view, r.subject, r.refusal.value))
      && (refused && r.refusal.None? ==> Answer(view, r, before, after, proof).verdict.status == Stale)
  {
    EvidenceRefusesExactly(r.recorded, view.closures(r.subject), view.closureStrategy);
    hide RecordedEvidence, Granted, DecideIn;
  }

  /** Inputs that moved between the two readings make any answer that was not stale stale, for that cause. */
  lemma MotionExactly(view: View, r: RecordCheck, before: Reading, after: Reading, proof: Proof)
    requires Admission(view, r).None? && r.recorded.inputs != "" && before != after
    ensures var v := Answer(view, r, before, after, proof).verdict; v.status == Stale
    ensures InputsHold(r.recorded, before) && GuardsHold(r.recorded.guards, view.guards, view.kind) ==>
      Answer(view, r, before, after, proof).verdict.cause.kind == RuntimeInputsCause
  {
    var granted := Granted(view, r, before, proof);
    if InputsHold(r.recorded, before) && GuardsHold(r.recorded.guards, view.guards, view.kind) { UnopenedIsUnverifiable(view, r, before, granted); }
    hide DecideIn, Granted, Decide;
  }

  // ----- At closing -----

  /** A slot's final answer is valid exactly when it was not provisionally stale, its evidence agrees at the
      closing view, where too its inputs hold, every guard does, nothing withholds it and whatever cannot
      be hashed is discharged, and all four readings of its inputs are one state. */
  lemma FinalValidExactly(opening: View, closing: View, slot: Slot, proof: Proof, again: RecordResult, proof': Proof)
    requires Established(opening, slot, proof)
    requires again == Answer(closing, ClosingRecord(slot), again.before, again.after, proof')
    ensures FinalVerdict(closing, slot, again).status == Valid <==>
      var r := slot.record; var rec, cl := r.recorded, closing.closures(r.subject);
      && slot.result.verdict.status != Stale && EvidenceAgrees(rec, cl, closing.closureStrategy)
      && InputsHold(rec, again.before) && GuardsHold(rec.guards, closing.guards, closing.kind) && Open(rec, cl)
      && Discharged(closing, r, again.before, proof') && (rec.inputs != "" ==> Still(slot, again))
  {
    hide Answer, FinalVerdict, InputsHold, GuardsHold, Open, Discharged, EvidenceAgrees;
    var r := slot.record;
    FinalAnswerExactly(opening, closing, slot, proof, again, proof');
    RefusedIsStale(opening, slot, proof);
    RefusedAnswer(opening, r, slot.result.before, slot.result.after, proof);
    RefusedAnswer(closing, r, again.before, again.after, proof');
    AdmittedExactly(closing, r);
    if slot.result.evaluated && Admission(closing, r).None? {
      AnswerIsValidExactly(closing, r, again.before, again.after, proof');
    }
  }

  lemma AdmittedExactly(view: View, r: RecordCheck)
    ensures Admission(view, r).None? <==> r.refusal.None? && EvidenceAgrees(r.recorded, view.closures(r.subject), view.closureStrategy)
  {
    EvidenceRefusesExactly(r.recorded, view.closures(r.subject), view.closureStrategy);
  }
}
