/** The verdict ladder: one recording against current facts (judgment.go, internal/guard/guard.go). A
    verdict's diagnostic reason is left out; its cause carries the same decision. */
module Judgment {
  import opened Paths
  import opened Outcomes

  datatype Status = Undecided | Valid | Stale | Unverifiable

  datatype CauseKind =
    | NoCause | ClosureCause | TestVariantsCause | ToolchainContentCause | DynamicStateStrategyCause
    | ClosureStrategyCause | RuntimeInputsCause | ToolchainCause | BuildConfigCause | MachineCause
    | RuntimeConfigCause | ResultKindCause | ExternalDirectiveCause | ClosureDependenceCause
    | SharedDynamicStateCause | OpenWorldCause | AmbiguousSubjectCause

  datatype Condition = NoCondition | Absent | Changed | Unsupported | Unavailable | Refused

  datatype Subject = Subject(pkg: string, symbol: string)
  const NoSubject := Subject("", "")

  datatype Cause = Cause(kind: CauseKind, condition: Condition, culprit: Subject)

  datatype Attribution = NoPurity | CallerPurity | SourcePurity | CallerAndSourcePurity
  datatype Purity = Purity(recorded: Attribution, current: Attribution) {
    predicate Accepted() { recorded != NoPurity && current != NoPurity }
  }

  datatype Authority = Authority(assertion: string, strategy: string, outcome: string, applicable: bool) {
    predicate Accepted() { this != NoAuthority }
  }
  const NoAuthority := Authority("", "", "", false)

  datatype Applicability = Applicability(strategy: string, variants: string)
  const NoApplicability := Applicability("", "")

  datatype Discharges = Discharges(vouches: string, singleSubject: string, packageProcess: string)
  const NoDischarges := Discharges("", "", "")

  datatype Accepted = Accepted(guards: bool, runtime: bool, purity: Purity, discharges: Discharges,
                               observation: Authority, applicability: Applicability)
  const NothingAccepted := Accepted(false, false, Purity(NoPurity, NoPurity), NoDischarges, NoAuthority, NoApplicability)

  datatype Kind = NoKind | CodeResult | Measurement
  datatype Scope = Scope(subject: Subject, kind: Kind)
  const NoScope := Scope(NoSubject, NoKind)

  datatype Verdict = Verdict(status: Status, cause: Cause, scope: Scope, accepted: Accepted)
  const NoVerdict := Verdict(Undecided, Cause(NoCause, NoCondition, NoSubject), NoScope, NothingAccepted)

  datatype Guards = Guards(toolchain: string, buildConfig: string, machine: string, runtimeConfig: string)

  /** A recording. Whether its observation proof fits it is decided from hashes and an encoded manifest;
      the three answers stand here as facts of the recording. */
  datatype Fingerprint = Fingerprint(
    maximal: string, variants: string, applicability: Applicability, toolchainContent: string,
    dynamicState: string, closureStrategy: string, guards: Guards, inputs: string, digest: string,
    purity: string, admission: string, assertion: string, proofStrategy: string,
    observable: bool, compatible: bool, effectFree: bool, outcomeSupport: bool)
  {
    function EffectiveVariants(): string {
      if applicability != NoApplicability then applicability.variants else variants
    }
    predicate Recognized() {
      applicability == NoApplicability
      || (applicability.strategy == EXTENSION && applicability.variants != "" && variants != "")
    }
  }

  datatype RefusalKind = Dependence | OpenWorld | SharedDynamicState | AmbiguousSubject

  datatype Closure = Closure(
    hash: string, toolchainContent: string, admission: string, variants: string,
    unverifiable: bool, refusal: RefusalKind, culprit: Subject, external: bool)

  /** One reading of a recording's runtime inputs. */
  datatype Reading = Reading(manifest: string, digest: string, bracketMoved: bool, unverifiable: bool, reason: string, ok: bool)
  const NoReading := Reading("", "", false, false, "", false)

  const EXTENSION := "gofresh/inert-test-variant-extension@1"
  const DYNAMIC_STATE := "gofresh/dynamic-state@49"

  function Refuse(status: Status, kind: CauseKind, condition: Condition): Verdict {
    NoVerdict.(status := status, cause := Cause(kind, condition, NoSubject))
  }

  // ----- Recorded evidence -----

  function RecordedEvidence(rec: Fingerprint, cl: Closure, closureStrategy: string): Option<Verdict> {
    if rec.maximal == "" then Some(Refuse(Stale, ClosureCause, Absent))
    else if rec.maximal == cl.hash && (!rec.Recognized() || rec.EffectiveVariants() == "" || rec.EffectiveVariants() != cl.variants) then
      Some(Refuse(Stale, TestVariantsCause,
                  if !rec.Recognized() then Unsupported
                  else if rec.EffectiveVariants() == "" then Absent
                  else if cl.variants == "" then Unavailable
                  else Changed))
    else if rec.maximal != cl.hash then
      Some(Refuse(Stale, ClosureCause, if cl.hash == "" then Unavailable else Changed))
    else if rec.toolchainContent != "" && cl.toolchainContent != "" && rec.toolchainContent != cl.toolchainContent then
      Some(Refuse(Stale, ToolchainContentCause, Changed))
    else if rec.dynamicState != DYNAMIC_STATE then
      Some(Refuse(Stale, DynamicStateStrategyCause, if rec.dynamicState == "" then Absent else Unsupported))
    else if rec.applicability != NoApplicability && rec.closureStrategy != closureStrategy then
      Some(Refuse(Stale, ClosureStrategyCause, if rec.closureStrategy == "" then Absent else Unsupported))
    else None
  }

  /** What a recording must agree with before its guards are read. */
  predicate EvidenceAgrees(rec: Fingerprint, cl: Closure, closureStrategy: string) {
    && rec.maximal != "" && rec.maximal == cl.hash
    && rec.Recognized() && rec.EffectiveVariants() != "" && rec.EffectiveVariants() == cl.variants
    && (rec.toolchainContent == "" || cl.toolchainContent == "" || rec.toolchainContent == cl.toolchainContent)
    && rec.dynamicState == DYNAMIC_STATE
    && (rec.applicability != NoApplicability ==> rec.closureStrategy == closureStrategy)
  }

  lemma EvidenceRefusesExactly(rec: Fingerprint, cl: Closure, closureStrategy: string)
    ensures RecordedEvidence(rec, cl, closureStrategy).None? <==> EvidenceAgrees(rec, cl, closureStrategy)
    ensures RecordedEvidence(rec, cl, closureStrategy).Some? ==>
      RecordedEvidence(rec, cl, closureStrategy).value.status == Stale
      && RecordedEvidence(rec, cl, closureStrategy).value.accepted == NothingAccepted
  {
  }

  // ----- Environment guards -----

  datatype Mismatch = Agreement | Mismatch(axis: CauseKind, missing: bool)

  datatype Pair = Pair(axis: CauseKind, recorded: string, current: string) {
    predicate Agrees() { recorded != "" && recorded == current }
  }

  function Pairs(recorded: Guards, current: Guards, kind: Kind): seq<Pair> {
    [Pair(ToolchainCause, recorded.toolchain, current.toolchain), Pair(BuildConfigCause, recorded.buildConfig, current.buildConfig)]
    + if kind != Measurement then []
      else [Pair(MachineCause, recorded.machine, current.machine), Pair(RuntimeConfigCause, recorded.runtimeConfig, current.runtimeConfig)]
  }

  function FirstMismatch(pairs: seq<Pair>): Mismatch {
    if pairs == [] then Agreement
    else if pairs[0].Agrees() then FirstMismatch(pairs[1..])
    else Mismatch(pairs[0].axis, pairs[0].recorded == "" || pairs[0].current == "")
  }

  function CompareFacts(recorded: Guards, current: Guards, kind: Kind): Mismatch {
    if kind == NoKind then Mismatch(ResultKindCause, false) else FirstMismatch(Pairs(recorded, current, kind))
  }

  method CompareGuards(recorded: Guards, current: Guards, kind: Kind) returns (mismatch: Mismatch)
    ensures mismatch == CompareFacts(recorded, current, kind)
  {
    if kind != CodeResult && kind != Measurement { return Mismatch(ResultKindCause, false); }
    var pairs := [Pair(ToolchainCause, recorded.toolchain, current.toolchain), Pair(BuildConfigCause, recorded.buildConfig, current.buildConfig)];
    if kind == Measurement {
      pairs := pairs + [Pair(MachineCause, recorded.machine, current.machine), Pair(RuntimeConfigCause, recorded.runtimeConfig, current.runtimeConfig)];
    }
    assert pairs == Pairs(recorded, current, kind);
    for i := 0 to |pairs|
      invariant FirstMismatch(pairs[i..]) == FirstMismatch(pairs)
    {
      if pairs[i].recorded == "" || pairs[i].recorded != pairs[i].current {
        return Mismatch(pairs[i].axis, pairs[i].recorded == "" || pairs[i].current == "");
      }
      assert pairs[i..][1..] == pairs[i + 1..];
    }
    return Agreement;
  }

  /** Agreement is agreement of every guard the kind asks for, none of them empty. */
  lemma GuardsAgreeExactly(recorded: Guards, current: Guards, kind: Kind)
    ensures CompareFacts(recorded, current, kind) == Agreement <==>
      && kind != NoKind
      && recorded.toolchain != "" && recorded.toolchain == current.toolchain
      && recorded.buildConfig != "" && recorded.buildConfig == current.buildConfig
      && (kind == Measurement ==>
            recorded.machine != "" && recorded.machine == current.machine
            && recorded.runtimeConfig != "" && recorded.runtimeConfig == current.runtimeConfig)
  {
    var pairs := Pairs(recorded, current, kind);
    AgreementIsEvery(pairs);
    assert pairs[0] == Pair(ToolchainCause, recorded.toolchain, current.toolchain);
    assert pairs[1] == Pair(BuildConfigCause, recorded.buildConfig, current.buildConfig);
    if kind == Measurement {
      assert pairs[2] == Pair(MachineCause, recorded.machine, current.machine);
      assert pairs[3] == Pair(RuntimeConfigCause, recorded.runtimeConfig, current.runtimeConfig);
    }
  }

  lemma {:induction false} AgreementIsEvery(pairs: seq<Pair>)
    ensures FirstMismatch(pairs) == Agreement <==> forall k :: 0 <= k < |pairs| ==> pairs[k].Agrees()
    ensures FirstMismatch(pairs).Mismatch? ==> exists k :: 0 <= k < |pairs| && pairs[k].axis == FirstMismatch(pairs).axis
  {
    if pairs != [] {
      AgreementIsEvery(pairs[1..]);
      assert forall k :: 1 <= k < |pairs| ==> pairs[k] == pairs[1..][k - 1];
    }
  }

  function GuardVerdict(mismatch: Mismatch): Verdict
    requires mismatch.Mismatch?
  {
    Refuse(Stale, mismatch.axis, if mismatch.missing then Absent else if mismatch.axis == ResultKindCause then Unsupported else Changed)
  }

  function RuntimeInputVerdict(rec: Fingerprint, rt: Reading): Option<Verdict> {
    if rec.inputs == "" then (if rec.digest != "" then Some(Refuse(Stale, RuntimeInputsCause, Absent)) else None)
    else if rt.bracketMoved then Some(Refuse(Stale, RuntimeInputsCause, Changed))
    else if !rt.ok then Some(Refuse(Stale, RuntimeInputsCause, Unavailable))
    else if rec.digest == "" then Some(Refuse(Stale, RuntimeInputsCause, Absent))
    else if rec.digest != rt.digest then Some(Refuse(Stale, RuntimeInputsCause, Changed))
    else None
  }

  function KnownGuards(rec: Fingerprint, cur: Guards, rt: Reading, kind: Kind): Option<Verdict> {
    var inputs := RuntimeInputVerdict(rec, rt);
    if inputs.Some? then inputs
    else
      var mismatch := CompareFacts(rec.guards, cur, kind);
      if mismatch.Mismatch? then Some(GuardVerdict(mismatch)) else None
  }

  // ----- The ladder after the closure -----

  function RefusalCause(kind: RefusalKind): CauseKind {
    match kind
    case Dependence => ClosureDependenceCause
    case OpenWorld => OpenWorldCause
    case SharedDynamicState => SharedDynamicStateCause
    case AmbiguousSubject => AmbiguousSubjectCause
  }

  function Decide(rec: Fingerprint, cl: Closure, cur: Guards, rt: Reading, kind: Kind, pure: Purity, observed: Authority): Verdict {
    var known := KnownGuards(rec, cur, rt, kind);
    if known.Some? then known.value
    else if rec.toolchainContent == "" || cl.toolchainContent == "" then
      Refuse(Unverifiable, ToolchainContentCause, if rec.toolchainContent == "" then Absent else Unavailable)
    else if cl.external then Refuse(Unverifiable, ExternalDirectiveCause, Refused)
    else
      var accepted := NothingAccepted.(guards := true, runtime := rec.inputs != "");
      var valid := NoVerdict.(status := Valid, accepted := accepted.(applicability := rec.applicability));
      var leftOpen := rec.inputs != "" && rt.unverifiable;
      if pure.Accepted() then
        if cl.unverifiable || leftOpen then valid.(accepted := valid.accepted.(purity := pure)) else valid
      else if leftOpen then Refuse(Unverifiable, RuntimeInputsCause, Refused).(accepted := accepted)
      else if !cl.unverifiable then valid
      else if observed.Accepted() && rec.inputs != "" && cl.refusal != SharedDynamicState then
        valid.(accepted := valid.accepted.(observation := observed))
      else
        var verdict := Refuse(Unverifiable, RefusalCause(cl.refusal), Refused).(accepted := accepted);
        if cl.refusal == SharedDynamicState then verdict.(cause := verdict.cause.(culprit := cl.culprit)) else verdict
  }

  /** What lets an unhashable dependence through: purity on both sides, or a completed observation, never
      over process-shared state. */
  predicate Lifted(rec: Fingerprint, cl: Closure, rt: Reading, pure: Purity, observed: Authority) {
    pure.Accepted()
    || ((rec.inputs != "" ==> !rt.unverifiable)
        && (cl.unverifiable ==> observed.Accepted() && rec.inputs != "" && cl.refusal != SharedDynamicState))
  }

  /** Valid exactly when every guard agrees, the author withholds nothing and every unhashable dependence
      is lifted. */
  lemma ValidExactly(rec: Fingerprint, cl: Closure, cur: Guards, rt: Reading, kind: Kind, pure: Purity, observed: Authority)
    ensures Decide(rec, cl, cur, rt, kind, pure, observed).status == Valid <==>
      && CompareFacts(rec.guards, cur, kind) == Agreement
      && (rec.inputs == "" ==> rec.digest == "")
      && (rec.inputs != "" ==> rt.ok && !rt.bracketMoved && rec.digest != "" && rec.digest == rt.digest)
      && rec.toolchainContent != "" && cl.toolchainContent != "" && !cl.external
      && Lifted(rec, cl, rt, pure, observed)
  {
  }

  /** Assertions and observations decide nothing a guard decides: the stale verdicts are the same ones
      whatever is asserted, and more authority never withdraws a valid answer. */
  lemma AuthorityOnlyLifts(rec: Fingerprint, cl: Closure, cur: Guards, rt: Reading, kind: Kind,
                           pure: Purity, observed: Authority, pure': Purity, observed': Authority)
    ensures var v, v' := Decide(rec, cl, cur, rt, kind, pure, observed), Decide(rec, cl, cur, rt, kind, pure', observed');
            && v.status != Undecided
            && (v.status == Stale ==> v' == v)
            && (v.cause.kind == ExternalDirectiveCause ==> v' == v)
            && (v.status == Valid && (pure.Accepted() ==> pure'.Accepted()) && (observed.Accepted() ==> observed'.Accepted())
                ==> v'.status == Valid)
            && (cl.unverifiable && cl.refusal == SharedDynamicState && !pure'.Accepted() ==> v'.status != Valid)
  {
    ValidExactly(rec, cl, cur, rt, kind, pure, observed);
    ValidExactly(rec, cl, cur, rt, kind, pure', observed');
  }

  /** A cause accompanies every refusal, and no valid judgment. */
  lemma ValidHasNoCause(rec: Fingerprint, cl: Closure, cur: Guards, rt: Reading, kind: Kind, pure: Purity, observed: Authority)
    ensures var v := Decide(rec, cl, cur, rt, kind, pure, observed); v.status == Valid <==> v.cause.kind == NoCause
  {
    AgreementIsEvery(Pairs(rec.guards, cur, kind));
  }

  // ----- What a recording's own evidence admits -----

  function PurityAttribution(assertion: string): Attribution {
    match assertion
    case "caller assertion" => CallerPurity
    case "source directive" => SourcePurity
    case "caller assertion and source directive" => CallerAndSourcePurity
    case _ => NoPurity
  }

  function AdmittedObservation(rec: Fingerprint, cl: Closure): Authority {
    if !rec.compatible || rec.admission != cl.admission || !rec.observable then NoAuthority
    else if rec.outcomeSupport then Authority(rec.assertion, rec.proofStrategy, METHOD, false)
    else if rec.effectFree then Authority(rec.assertion, rec.proofStrategy, STATIC_METHOD, false)
    else NoAuthority
  }
}
