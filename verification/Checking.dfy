/** The checking kernel: one batch of recordings judged between two readings of their inputs, and a second
    time when the unit that holds them closes (checking.go). */
module Checking {
  import opened Paths
  import opened Outcomes
  import opened Judgment

  /** What one view of the tree establishes. */
  datatype View = View(kind: Kind, closureStrategy: string, guards: Guards, closures: Subject -> Closure,
                       purity: Subject -> string, cut: Subject -> bool, discharges: Subject -> Discharges)

  /** A subject's current proof: whether its executions are observable, and how. */
  datatype Proof = Proof(observable: bool, effectFree: bool, outcome: string, unavailable: bool)

  datatype RecordCheck = RecordCheck(subject: Subject, recorded: Fingerprint, observed: bool, refusal: Option<Verdict>)

  datatype RecordResult = RecordResult(verdict: Verdict, evaluated: bool, before: Reading, after: Reading,
                                       selected: bool, unavailable: bool)
  const NoResult := RecordResult(NoVerdict, false, NoReading, NoReading, false, false)

  datatype Failure = Cancelled | ViewChanged | AnalysisUnavailable

  function JudgmentFor(view: View, subject: Subject, v: Verdict): Verdict {
    v.(scope := Scope(subject, view.kind),
       cause := if v.cause.kind == SharedDynamicStateCause && view.cut(subject)
                then Cause(SharedDynamicStateCause, Unavailable, NoSubject) else v.cause,
       accepted := if v.accepted.guards then v.accepted.(discharges := view.discharges(subject)) else v.accepted)
  }

  function RuntimeMotion(view: View, subject: Subject, rec: Fingerprint, prior: Verdict, before: Reading, after: Reading): Verdict {
    if rec.inputs == "" || before == after || prior.status == Stale then prior
    else
      var failed := RuntimeInputVerdict(rec, after);
      JudgmentFor(view, subject, if failed.Some? then failed.value else Refuse(Stale, RuntimeInputsCause, Changed))
  }

  // ----- One record -----

  function Admission(view: View, r: RecordCheck): Option<Verdict> {
    if r.refusal.Some? then r.refusal else RecordedEvidence(r.recorded, view.closures(r.subject), view.closureStrategy)
  }

  function Positive(view: View, r: RecordCheck): Authority {
    if r.observed then AdmittedObservation(r.recorded, view.closures(r.subject)) else NoAuthority
  }

  function PurityOf(view: View, r: RecordCheck): Purity {
    Purity(PurityAttribution(r.recorded.purity), PurityAttribution(view.purity(r.subject)))
  }

  function DecideIn(view: View, r: RecordCheck, before: Reading, observed: Authority): Verdict {
    Decide(r.recorded, view.closures(r.subject), view.guards, before, view.kind, PurityOf(view, r), observed)
  }

  /** An extension whose answer rests on its observation: a current proof is asked for. */
  predicate Asked(view: View, r: RecordCheck, before: Reading) {
    && r.observed && r.recorded.applicability != NoApplicability && Positive(view, r).Accepted()
    && DecideIn(view, r, before, NoAuthority).status == Unverifiable
    && DecideIn(view, r, before, Positive(view, r)).status == Valid
  }

  predicate Observable(proof: Proof, method_: string) {
    proof.observable && if method_ == STATIC_METHOD then proof.effectFree else proof.outcome == METHOD
  }

  function Granted(view: View, r: RecordCheck, before: Reading, proof: Proof): Authority {
    if !Asked(view, r, before) then Positive(view, r)
    else if Observable(proof, Positive(view, r).outcome) then Positive(view, r).(applicable := true)
    else NoAuthority
  }

  /** A record's answer from its two readings and its subject's current proof. */
  function Answer(view: View, r: RecordCheck, before: Reading, after: Reading, proof: Proof): RecordResult {
    if Admission(view, r).Some? then NoResult.(verdict := JudgmentFor(view, r.subject, Admission(view, r).value))
    else
      var granted := Granted(view, r, before, proof);
      var decided := DecideIn(view, r, before, granted);
      var verdict := JudgmentFor(view, r.subject, RuntimeMotion(view, r.subject, r.recorded, decided, before, after));
      RecordResult(verdict, true, before, after,
                   Asked(view, r, before) && granted.applicable && verdict.status == Valid,
                   Asked(view, r, before) && !Observable(proof, Positive(view, r).outcome) && proof.unavailable)
  }

  lemma JudgmentForTwice(view: View, subject: Subject, v: Verdict)
    ensures JudgmentFor(view, subject, JudgmentFor(view, subject, v)) == JudgmentFor(view, subject, v)
  {
  }

  // ----- The kernel -----

  predicate SameInputs(records: seq<RecordCheck>, i: nat, j: nat)
    requires i < |records| && j < |records|
  {
    records[i].recorded.inputs == records[j].recorded.inputs
  }

  /** One endpoint: every evaluated record's inputs are read, one reading for each distinct manifest. */
  ghost predicate OneEndpoint(records: seq<RecordCheck>, evaluated: seq<bool>, states: seq<Reading>)
    requires |records| == |evaluated| == |states|
  {
    && (forall i :: 0 <= i < |records| && (!evaluated[i] || records[i].recorded.inputs == "") ==> states[i] == NoReading)
    && (forall i, j :: 0 <= i < |records| && 0 <= j < |records| && evaluated[i] && evaluated[j] && SameInputs(records, i, j)
          ==> states[i] == states[j])
  }

  method ObserveInputs(records: seq<RecordCheck>, evaluated: seq<bool>) returns (failure: Option<Failure>, states: seq<Reading>)
    requires |records| == |evaluated|
    ensures failure.None? ==> |states| == |records| && OneEndpoint(records, evaluated, states)
  {
    var shared: map<string, Reading> := map[];
    failure, states := None, [];
    for i := 0 to |records|
      invariant |states| == i
      invariant "" !in shared
      invariant forall j :: 0 <= j < i && (!evaluated[j] || records[j].recorded.inputs == "") ==> states[j] == NoReading
      invariant forall j :: 0 <= j < i && evaluated[j] && records[j].recorded.inputs != "" ==>
        records[j].recorded.inputs in shared && states[j] == shared[records[j].recorded.inputs]
    {
      var cancelled: bool := *;
      if cancelled { return Some(Cancelled), []; }
      var state := NoReading;
      var inputs := records[i].recorded.inputs;
      if evaluated[i] && inputs != "" {
        if inputs in shared {
          state := shared[inputs];
        } else {
          state := *;
          shared := shared[inputs := state];
        }
      }
      states := states + [state];
    }
  }

  method EnsureObservable(subjects: seq<Subject>) returns (failure: Option<Failure>, proofs: map<Subject, Proof>)
    ensures failure.None? ==> forall s :: s in subjects ==> s in proofs
  {
    failure, proofs := None, map[];
    for i := 0 to |subjects|
      invariant forall j :: 0 <= j < i ==> subjects[j] in proofs
    {
      var cancelled: bool := *;
      if cancelled { return Some(Cancelled), map[]; }
      var proof: Proof := *;
      proofs := proofs[subjects[i] := proof];
    }
  }

  const NoProof := Proof(false, false, "", false)

  function ProofOf(proofs: map<Subject, Proof>, subject: Subject): Proof {
    if subject in proofs then proofs[subject] else NoProof
  }

  /** What one pass over a batch establishes: every record's own answer, over two endpoints shared by
      equal manifests. */
  ghost predicate Checked(view: View, records: seq<RecordCheck>, proofs: map<Subject, Proof>, results: seq<RecordResult>) {
    && |results| == |records|
    && (forall i :: 0 <= i < |records| ==>
          results[i] == Answer(view, records[i], results[i].before, results[i].after, ProofOf(proofs, records[i].subject)))
    && (forall i, j :: 0 <= i < |records| && 0 <= j < |records| && results[i].evaluated && results[j].evaluated && SameInputs(records, i, j)
          ==> results[i].before == results[j].before && results[i].after == results[j].after)
  }

  /** Before its second reading a record holds its admission refusal, or its decision. */
  function Provisional(view: View, r: RecordCheck, before: Reading, proof: Proof): RecordResult {
    if Admission(view, r).Some? then NoResult.(verdict := JudgmentFor(view, r.subject, Admission(view, r).value))
    else NoResult.(verdict := DecideIn(view, r, before, Granted(view, r, before, proof)), unavailable := Missed(view, r, before, proof))
  }

  ghost predicate Admitted(view: View, records: seq<RecordCheck>, evaluated: seq<bool>, positives: seq<Authority>) {
    && |evaluated| == |positives| == |records|
    && (forall k :: 0 <= k < |records| ==> evaluated[k] == Admission(view, records[k]).None?)
    && (forall k :: 0 <= k < |records| ==> positives[k] == if evaluated[k] then Positive(view, records[k]) else NoAuthority)
  }

  function Begun(view: View, r: RecordCheck): RecordResult {
    if Admission(view, r).None? then NoResult else NoResult.(verdict := JudgmentFor(view, r.subject, Admission(view, r).value))
  }

  method Admit(view: View, records: seq<RecordCheck>)
    returns (results: seq<RecordResult>, evaluated: seq<bool>, positives: seq<Authority>, hasRuntime: bool)
    ensures Admitted(view, records, evaluated, positives) && |results| == |records|
    ensures forall k :: 0 <= k < |records| ==> results[k] == Begun(view, records[k])
    ensures hasRuntime <==> exists k :: 0 <= k < |records| && evaluated[k] && records[k].recorded.inputs != ""
  {
    results, evaluated, positives, hasRuntime := [], [], [], false;
    for i := 0 to |records|
      invariant |results| == |evaluated| == |positives| == i
      invariant forall k :: 0 <= k < i ==> evaluated[k] == Admission(view, records[k]).None?
      invariant forall k :: 0 <= k < i ==> positives[k] == if evaluated[k] then Positive(view, records[k]) else NoAuthority
      invariant forall k :: 0 <= k < i ==> results[k] == Begun(view, records[k])
      invariant hasRuntime <==> exists k :: 0 <= k < i && evaluated[k] && records[k].recorded.inputs != ""
    {
      hide RecordedEvidence, AdmittedObservation, JudgmentFor;
      var r := records[i];
      var refused := if r.refusal.Some? then r.refusal else RecordedEvidence(r.recorded, view.closures(r.subject), view.closureStrategy);
      assert refused == Admission(view, r);
      var result, positive := NoResult, NoAuthority;
      if refused.Some? {
        result := NoResult.(verdict := JudgmentFor(view, r.subject, refused.value));
      } else {
        hasRuntime := hasRuntime || r.recorded.inputs != "";
        positive := if r.observed then AdmittedObservation(r.recorded, view.closures(r.subject)) else NoAuthority;
        assert positive == Positive(view, r);
      }
      assert result == Begun(view, r);
      hide Begun, Admission, Positive;
      results, evaluated, positives := results + [result], evaluated + [refused.None?], positives + [positive];
    }
  }

  method DecideAll(view: View, records: seq<RecordCheck>, evaluated: seq<bool>, admitted: seq<Authority>, selected: seq<bool>,
                   before: seq<Reading>, proofs: map<Subject, Proof>, begun: seq<RecordResult>)
    returns (results: seq<RecordResult>, positives: seq<Authority>)
    requires Admitted(view, records, evaluated, admitted) && |selected| == |before| == |begun| == |records|
    requires forall k :: 0 <= k < |records| ==> (selected[k] <==> evaluated[k] && Asked(view, records[k], before[k]))
    requires forall k :: 0 <= k < |records| ==> begun[k] == Begun(view, records[k])
    ensures |results| == |positives| == |records|
    ensures forall k :: 0 <= k < |records| ==> results[k] == Provisional(view, records[k], before[k], ProofOf(proofs, records[k].subject))
    ensures forall k :: 0 <= k < |records| && evaluated[k] ==>
      positives[k] == Granted(view, records[k], before[k], ProofOf(proofs, records[k].subject))
  {
    results, positives := begun, admitted;
    for i := 0 to |records|
      invariant |results| == |positives| == |records|
      invariant forall k :: i <= k < |records| ==> positives[k] == admitted[k] && results[k] == begun[k]
      invariant forall k :: 0 <= k < i ==> results[k] == Provisional(view, records[k], before[k], ProofOf(proofs, records[k].subject))
      invariant forall k :: 0 <= k < i && evaluated[k] ==>
        positives[k] == Granted(view, records[k], before[k], ProofOf(proofs, records[k].subject))
    {
      hide DecideIn, Asked, JudgmentFor, Positive, Admission;
      if !evaluated[i] { continue; }
      var r := records[i];
      if selected[i] {
        var proof := ProofOf(proofs, r.subject);
        if Observable(proof, positives[i].outcome) {
          positives := positives[i := positives[i].(applicable := true)];
        } else {
          positives := positives[i := NoAuthority];
          results := results[i := results[i].(unavailable := proof.unavailable)];
        }
      }
      results := results[i := results[i].(verdict := DecideIn(view, r, before[i], positives[i]))];
    }
  }

  method Settle(view: View, records: seq<RecordCheck>, evaluated: seq<bool>, positives: seq<Authority>, selected: seq<bool>,
                before: seq<Reading>, after: seq<Reading>, ghost proofs: map<Subject, Proof>, decided: seq<RecordResult>)
    returns (results: seq<RecordResult>)
    requires |evaluated| == |positives| == |selected| == |before| == |after| == |decided| == |records|
    requires forall k :: 0 <= k < |records| ==> evaluated[k] == Admission(view, records[k]).None?
    requires forall k :: 0 <= k < |records| ==> (selected[k] <==> evaluated[k] && Asked(view, records[k], before[k]))
    requires forall k :: 0 <= k < |records| && !evaluated[k] ==> before[k] == NoReading == after[k]
    requires forall k :: 0 <= k < |records| ==> decided[k] == Provisional(view, records[k], before[k], ProofOf(proofs, records[k].subject))
    requires forall k :: 0 <= k < |records| && evaluated[k] ==>
      positives[k] == Granted(view, records[k], before[k], ProofOf(proofs, records[k].subject))
    ensures |results| == |records|
    ensures forall k :: 0 <= k < |records| ==>
      results[k] == Answer(view, records[k], before[k], after[k], ProofOf(proofs, records[k].subject))
  {
    results := [];
    for i := 0 to |records|
      invariant |results| == i
      invariant forall k :: 0 <= k < i ==>
        results[k] == Answer(view, records[k], before[k], after[k], ProofOf(proofs, records[k].subject))
    {
      hide DecideIn, Asked, JudgmentFor, Positive, Admission, Granted, Observable;
      var r := records[i];
      var verdict := JudgmentFor(view, r.subject, RuntimeMotion(view, r.subject, r.recorded, decided[i].verdict, before[i], after[i]));
      if !evaluated[i] { JudgmentForTwice(view, r.subject, Admission(view, r).value); }
      results := results + [RecordResult(verdict, evaluated[i], before[i], after[i],
                                         selected[i] && positives[i].applicable && verdict.status == Valid, decided[i].unavailable)];
    }
  }

  /** The whole ordered batch: admission, the first reading, current proofs once for each subject asked,
      decisions, the second reading, motion. */
  method CheckRecords(view: View, records: seq<RecordCheck>, deferClose: bool)
    returns (failure: Option<Failure>, results: seq<RecordResult>, proofs: map<Subject, Proof>)
    ensures failure.None? ==> Checked(view, records, proofs, results)
  {
    hide Answer, Provisional, Granted, Asked;
    results, proofs := [], map[];
    var cancelled: bool := *;
    if cancelled { return Some(Cancelled), [], proofs; }
    var begun, evaluated, positives, hasRuntime := Admit(view, records);
    var before, after, selected, wanted;
    failure, before := ObserveInputs(records, evaluated);
    if failure.Some? { return; }
    selected, wanted := Select(view, records, evaluated, positives, before);
    failure, proofs := EnsureObservable(wanted);
    if failure.Some? { return; }
    var decided, granted := DecideAll(view, records, evaluated, positives, selected, before, proofs, begun);
    failure, after := ObserveInputs(records, evaluated);
    if failure.Some? { return; }
    if hasRuntime && !deferClose {
      var moved: bool := *;
      if moved { return Some(ViewChanged), [], proofs; }
    }
    results := Settle(view, records, evaluated, granted, selected, before, after, proofs, decided);
    AnswersAreChecked(view, records, evaluated, before, after, proofs, results);
    cancelled := *;
    failure := if cancelled then Some(Cancelled) else None;
  }

  lemma AnswersAreChecked(view: View, records: seq<RecordCheck>, evaluated: seq<bool>, before: seq<Reading>, after: seq<Reading>,
                          proofs: map<Subject, Proof>, results: seq<RecordResult>)
    requires |evaluated| == |before| == |after| == |results| == |records|
    requires OneEndpoint(records, evaluated, before) && OneEndpoint(records, evaluated, after)
    requires forall k :: 0 <= k < |records| ==> evaluated[k] == Admission(view, records[k]).None?
    requires forall k :: 0 <= k < |records| ==>
      results[k] == Answer(view, records[k], before[k], after[k], ProofOf(proofs, records[k].subject))
    ensures Checked(view, records, proofs, results)
  {
    hide RuntimeMotion, JudgmentFor, DecideIn, Granted, Asked, Positive, Admission;
    forall k | 0 <= k < |records|
      ensures results[k].evaluated == evaluated[k] && results[k].before == before[k] && results[k].after == after[k]
    {
    }
  }

  predicate Missed(view: View, r: RecordCheck, before: Reading, proof: Proof) {
    Asked(view, r, before) && !Observable(proof, Positive(view, r).outcome) && proof.unavailable
  }

  method Select(view: View, records: seq<RecordCheck>, evaluated: seq<bool>, positives: seq<Authority>, before: seq<Reading>)
    returns (selected: seq<bool>, wanted: seq<Subject>)
    requires |records| == |evaluated| == |positives| == |before|
    requires forall k :: 0 <= k < |records| ==> positives[k] == if evaluated[k] then Positive(view, records[k]) else NoAuthority
    ensures |selected| == |records|
    ensures forall k :: 0 <= k < |records| ==> (selected[k] <==> evaluated[k] && Asked(view, records[k], before[k]))
    ensures forall s :: s in wanted <==> exists k :: 0 <= k < |records| && selected[k] && records[k].subject == s
    ensures forall j, k :: 0 <= j < k < |wanted| ==> wanted[j] != wanted[k]
  {
    hide Decide, DecideIn, AdmittedObservation, Positive;
    selected, wanted := [], [];
    var seen: set<Subject> := {};
    for i := 0 to |records|
      invariant |selected| == i
      invariant forall k :: 0 <= k < i ==> (selected[k] <==> evaluated[k] && Asked(view, records[k], before[k]))
      invariant forall s :: s in wanted <==> s in seen
      invariant forall k :: 0 <= k < i && selected[k] ==> records[k].subject in seen
      invariant forall s :: s in seen ==> exists k :: 0 <= k < i && selected[k] && records[k].subject == s
      invariant forall j, k :: 0 <= j < k < |wanted| ==> wanted[j] != wanted[k]
    {
      var r := records[i];
      var take := evaluated[i] && r.observed
        && DecideIn(view, r, before[i], NoAuthority).status == Unverifiable
        && positives[i].Accepted() && r.recorded.applicability != NoApplicability
        && DecideIn(view, r, before[i], positives[i]).status == Valid;
      selected := selected + [take];
      if take && r.subject !in seen {
        seen := seen + {r.subject};
        wanted := wanted + [r.subject];
      }
    }
  }
}
