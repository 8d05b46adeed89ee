/** Unit: one contributing process, registered, submitted, and closed or aborted, as critical sections
    under one mutex (unit.go). */
module Units {
  import opened Paths
  import opened Concurrency
  import opened Judgment
  import opened Checking

  datatype Refusal =
    | CallerCancelled | AlreadyClosed | SecondContributor | PreparationFailed | ForeignContribution | InvalidTerminal
    | SecondTerminal | NilContext | Incomplete | NeverRan | ObservationFailed | AttachmentFailed | CheckFailed
    | Drift | SpanChanged | EvidenceUnavailable | Aborted

  datatype TerminalKind = NoTerminal | NormalCompletion | AbnormalCompletion | NeverStarted
  datatype Terminal = Terminal(kind: TerminalKind, reason: string)
  const Unsubmitted := Terminal(NoTerminal, "")

  /** The finalized observation: its manifest, the subjects whose outcome it supports, and why it is
      incomplete, if it is. */
  datatype Observation = Observation(manifest: string, supported: set<Subject>, reason: string, bracketMoved: bool)
  const NoObservation := Observation("", {}, "", false)

  datatype Disposition = Unknown | Supported | Identity | IncompleteCapture

  /** The process as described before it starts, and what its preparation, submission and closing add.
      Its registering call identifies it. */
  datatype Execution = Execution(
    call: Call, process: string, artifact: string, capture: string,
    ready: bool, observed: set<Subject>, outcomeReason: string, terminal: Terminal, observation: Observation)

  datatype State = State(phase: Phase, execution: Option<Execution>, closing: Option<Call>, interrupted: set<Call>)
  const Opened := State(UnitOpen, None, None, {})

  datatype Finalized = Finalized(process: string, artifact: string, terminal: Terminal, disposition: Disposition,
                                 observationReason: string, outcomeReason: string)
  const Nothing := Finalized("", "", Unsubmitted, Unknown, "", "")

  function Reserved(call: Call, process: string, artifact: string, capture: string): Execution {
    Execution(call, process, artifact, capture, false, {}, "", Unsubmitted, NoObservation)
  }

  // ----- The sections, as functions of the state -----

  function Reserve(s: State, x: Execution): (State, Option<Refusal>) {
    if s.phase != UnitOpen then (s, Some(AlreadyClosed))
    else if s.execution.Some? then (s, Some(SecondContributor))
    else (s.(execution := Some(x)), None)
  }

  /** The commit of a registration. Only the caller's own cancellation outranks the unit's transition. */
  function Prepare(s: State, cancelled: bool, failed: bool, observed: set<Subject>, reason: string): (State, Option<Refusal>)
    requires s.execution.Some?
  {
    if cancelled then (if s.phase == UnitOpen then s.(phase := UnitFailed) else s, Some(CallerCancelled))
    else if s.phase != UnitOpen then (s, Some(AlreadyClosed))
    else if failed then (s.(phase := UnitFailed), Some(PreparationFailed))
    else (s.(execution := Some(s.execution.value.(ready := true, observed := observed, outcomeReason := reason))), None)
  }

  /** from is the execution the contribution names, none when the unit is another's. */
  function Submit(s: State, from: Option<Call>, terminal: Terminal): (State, Option<Refusal>) {
    if s.phase != UnitOpen then (s, Some(AlreadyClosed))
    else if from.None? || s.execution.None? || from.value != s.execution.value.call || !s.execution.value.ready then
      (s, Some(ForeignContribution))
    else if terminal.kind == NoTerminal || (terminal.kind == NormalCompletion) != (terminal.reason == "") then (s, Some(InvalidTerminal))
    else if s.execution.value.terminal.kind != NoTerminal then (s, Some(SecondTerminal))
    else (s.(execution := Some(s.execution.value.(terminal := terminal))), None)
  }

  function AbortUnit(s: State): State {
    if s.phase == UnitOpen || s.phase == UnitClosing then
      s.(phase := UnitAborted, interrupted := s.interrupted + Held(s) + if s.closing.Some? then {s.closing.value} else {})
    else s
  }

  function Held(s: State): set<Call> {
    if s.execution.Some? then {s.execution.value.call} else {}
  }

  function EnterClose(s: State, call: Call, nilContext: bool): (State, Option<Refusal>) {
    if s.phase != UnitOpen then (s, Some(AlreadyClosed))
    else (s.(phase := UnitClosing, closing := if nilContext then s.closing else Some(call), interrupted := s.interrupted + Held(s)), None)
  }

  function Record(s: State, observation: Observation): State
    requires s.execution.Some?
  {
    s.(execution := Some(s.execution.value.(observation := observation)))
  }

  /** The deferred commit of a Close whose body came to failed. */
  function CommitClose(s: State, cancelled: bool, failed: Option<Refusal>): (State, Option<Refusal>) {
    var refusal := if cancelled then Some(CallerCancelled) else if s.phase == UnitAborted then Some(Aborted) else failed;
    var s' := s.(closing := None);
    if refusal.None? then (s'.(phase := UnitClosed), None)
    else (if s.phase != UnitAborted then s'.(phase := UnitFailed) else s', refusal)
  }

  // ----- Closing's own judgments -----

  /** What closing reads before it works, the unit already frozen. */
  function Inspect(x: Option<Execution>, cancelled: bool, nilContext: bool): Option<Refusal> {
    if nilContext then Some(NilContext)
    else if cancelled then Some(CallerCancelled)
    else if x.None? || !x.value.ready || x.value.terminal.kind == NoTerminal then Some(Incomplete)
    else if x.value.terminal.kind == NeverStarted then Some(NeverRan)
    else None
  }

  /** An absent optional capture is no incomplete observation. */
  predicate NeedsObservation(x: Execution, identityOnly: bool) {
    x.observed != {} || identityOnly || x.capture != "" || x.terminal.kind != NormalCompletion
  }

  /** Source drift outranks movement of the inputs, which outranks unavailability. */
  function Conclude(attached: bool, checked: bool, validation: Option<Refusal>, bracketMoved: bool): Option<Refusal> {
    if !attached then Some(AttachmentFailed)
    else if !checked then Some(CheckFailed)
    else if validation.Some? && validation != Some(EvidenceUnavailable) then validation
    else if bracketMoved then Some(SpanChanged)
    else validation
  }

  function DispositionOf(x: Execution): Disposition {
    if x.observation.manifest == "" then Unknown
    else if x.observation.reason != "" then IncompleteCapture
    else if x.observed != {} && x.observed <= x.observation.supported then Supported
    else Identity
  }

  function Account(x: Execution): Finalized {
    Finalized(x.process, x.artifact, x.terminal, DispositionOf(x), x.observation.reason, x.outcomeReason)
  }

  /** Nothing is known without a manifest; a reason makes it incomplete; otherwise it is supported exactly
      when there were observed subjects and the outcome of every one is. */
  lemma DispositionExactly(x: Execution)
    ensures var d := Account(x).disposition;
      && (d == Unknown <==> x.observation.manifest == "")
      && (d == IncompleteCapture <==> x.observation.manifest != "" && x.observation.reason != "")
      && (d == Supported <==> x.observation.manifest != "" && x.observation.reason == ""
                              && (exists s :: s in x.observed) && (forall s :: s in x.observed ==> s in x.observation.supported))
      && (d == Identity <==> x.observation.manifest != "" && x.observation.reason == ""
                             && (x.observed == {} || exists s :: s in x.observed && s !in x.observation.supported))
  {
    if x.observed != {} { var s :| s in x.observed; }
  }

  // ----- The objects -----

  class UnitExecution {
    const call: Call
    const process: string
    const artifact: string
    const capture: string
    var ready: bool
    var observed: set<Subject>
    var outcomeReason: string
    var terminal: Terminal
    var observation: Observation

    function Now(): Execution
      reads this
    {
      Execution(call, process, artifact, capture, ready, observed, outcomeReason, terminal, observation)
    }

    constructor (call: Call, process: string, artifact: string, capture: string)
      ensures Now() == Reserved(call, process, artifact, capture)
    {
      this.call, this.process, this.artifact, this.capture := call, process, artifact, capture;
      ready, observed, outcomeReason, terminal, observation := false, {}, "", Unsubmitted, NoObservation;
    }
  }

  datatype Contribution = Contribution(owner: Unit?, execution: UnitExecution?)

  class Unit {
    var phase: Phase
    var execution: UnitExecution?
    var closingCancel: Option<Call>
    var interrupted: set<Call>

    function Now(): State
      reads this, execution
    {
      State(phase, if execution == null then None else Some(execution.Now()), closingCancel, interrupted)
    }

    constructor ()
      ensures Now() == Opened && execution == null
    {
      phase, execution, closingCancel, interrupted := UnitOpen, null, None, {};
    }

    method ReserveExecution(x: UnitExecution) returns (refusal: Option<Refusal>)
      modifies this
      ensures (Now(), refusal) == Reserve(old(Now()), old(x.Now()))
      ensures refusal.None? ==> execution == x
      ensures refusal.Some? ==> execution == old(execution)
    {
      if phase != UnitOpen { return Some(AlreadyClosed); }
      if execution != null { return Some(SecondContributor); }
      execution := x;
      return None;
    }

    method CommitRegistration(cancelled: bool, failed: bool, observed: set<Subject>, reason: string)
      returns (refusal: Option<Refusal>, contribution: Contribution)
      requires execution != null
      modifies this, execution
      ensures execution == old(execution)
      ensures (Now(), refusal) == Prepare(old(Now()), cancelled, failed, observed, reason)
      ensures contribution == if refusal.None? then Contribution(this, execution) else Contribution(null, null)
    {
      contribution := Contribution(null, null);
      if cancelled {
        if phase == UnitOpen { phase := UnitFailed; }
        return Some(CallerCancelled), contribution;
      }
      if phase != UnitOpen { return Some(AlreadyClosed), contribution; }
      if failed {
        phase := UnitFailed;
        return Some(PreparationFailed), contribution;
      }
      execution.observed, execution.outcomeReason, execution.ready := observed, reason, true;
      return None, Contribution(this, execution);
    }

    /** Any contribution may be offered; only this unit's own settles it. */
    method SubmitTerminal(c: Contribution, terminal: Terminal) returns (refusal: Option<Refusal>)
      modifies this, execution
      ensures execution == old(execution)
      ensures (Now(), refusal) ==
        Submit(old(Now()), if c.owner == this && execution != null && c.execution == execution then Some(execution.call) else None, terminal)
    {
      if phase != UnitOpen { return Some(AlreadyClosed); }
      if c.owner != this || c.execution == null || c.execution != execution || !c.execution.ready { return Some(ForeignContribution); }
      if terminal.kind == NoTerminal || (terminal.kind == NormalCompletion) != (terminal.reason == "") { return Some(InvalidTerminal); }
      if c.execution.terminal.kind != NoTerminal { return Some(SecondTerminal); }
      execution.terminal := terminal;
      return None;
    }

    method Abort()
      modifies this
      ensures execution == old(execution) && Now() == AbortUnit(old(Now()))
    {
      if phase == UnitOpen || phase == UnitClosing {
        phase := UnitAborted;
        if execution != null { interrupted := interrupted + {execution.call}; }
        if closingCancel.Some? { interrupted := interrupted + {closingCancel.value}; }
      }
    }

    method BeginClose(call: Call, nilContext: bool) returns (refusal: Option<Refusal>)
      modifies this
      ensures execution == old(execution) && (Now(), refusal) == EnterClose(old(Now()), call, nilContext)
    {
      if phase != UnitOpen { return Some(AlreadyClosed); }
      phase := UnitClosing;
      if !nilContext { closingCancel := Some(call); }
      if execution != null { interrupted := interrupted + {execution.call}; }
      assert interrupted == old(Now()).interrupted + Held(old(Now()));
      return None;
    }

    method RecordObservation(observation: Observation)
      requires execution != null
      modifies execution
      ensures execution == old(execution) && Now() == Record(old(Now()), observation)
    {
      execution.observation := observation;
    }

    method EndClose(cancelled: bool, failed: Option<Refusal>, concluded: Finalized) returns (refusal: Option<Refusal>, result: Finalized)
      modifies this
      ensures execution == old(execution) && (Now(), refusal) == CommitClose(old(Now()), cancelled, failed)
      ensures result == if refusal.None? then concluded else Nothing
    {
      refusal, result := failed, concluded;
      closingCancel := None;
      if cancelled {
        refusal := Some(CallerCancelled);
      } else if phase == UnitAborted {
        refusal := Some(Aborted);
      }
      if refusal.Some? {
        result := Nothing;
        if phase != UnitAborted { phase := UnitFailed; }
      } else {
        phase := UnitClosed;
      }
    }

    /** Every fact established so far. The observation is supported only when it is complete and carries
        the outcome of every observed subject, whichever is looked at first. */
    method ReadAccount() returns (account: Finalized, known: bool)
      ensures known <==> execution != null
      ensures account == if execution != null then Account(execution.Now()) else Nothing
    {
      if execution == null { return Nothing, false; }
      var x := execution;
      var disposition := Unknown;
      if x.observation.manifest != "" {
        disposition := Supported;
        if x.observation.reason != "" {
          disposition := IncompleteCapture;
        } else {
          if x.observed == {} { disposition := Identity; }
          var left := x.observed;
          while left != {}
            invariant left <= x.observed
            invariant x.observed == {} ==> disposition == Identity
            invariant x.observed != {} ==> disposition == Supported && forall s :: s in x.observed - left ==> s in x.observation.supported
            decreases left
          {
            var s :| s in left;
            if s !in x.observation.supported {
              disposition := Identity;
              break;
            }
            left := left - {s};
          }
        }
      }
      return Finalized(x.process, x.artifact, x.terminal, disposition, x.observation.reason, x.outcomeReason), true;
    }
  }

  // ----- Which subjects need observation -----

  /** The ordinary ladder over the immutable snapshot, without any runtime reading. */
  predicate NeedsEvidence(view: View, subject: Subject, rec: Fingerprint) {
    RecordedEvidence(rec, view.closures(subject), view.closureStrategy).Some?
    || Decide(rec, view.closures(subject), view.guards, NoReading, view.kind,
              Purity(PurityAttribution(rec.purity), PurityAttribution(view.purity(subject))), NoAuthority).status != Valid
  }

  method SelectObserved(view: View, subjects: seq<Subject>, fingerprints: map<Subject, Fingerprint>, identityOnly: bool)
    returns (observed: set<Subject>)
    requires forall s :: s in subjects ==> s in fingerprints
    ensures observed == if identityOnly then {} else set s | s in subjects && NeedsEvidence(view, s, fingerprints[s])
  {
    observed := {};
    if !identityOnly {
      for i := 0 to |subjects|
        invariant observed == set s | s in subjects[..i] && NeedsEvidence(view, s, fingerprints[s])
      {
        var subject := subjects[i];
        assert subjects[..i + 1] == subjects[..i] + [subject];
        if NeedsEvidence(view, subject, fingerprints[subject]) { observed := observed + {subject}; }
      }
    }
  }

  /** A subject left unobserved is one whose evidence is already sufficient, with no runtime inputs read:
      the answer is Valid whatever the inputs turn out to be. */
  lemma UnobservedIsSufficient(view: View, subject: Subject, rec: Fingerprint, rt: Reading)
    requires rec.inputs == "" && !NeedsEvidence(view, subject, rec)
    ensures Decide(rec, view.closures(subject), view.guards, rt, view.kind,
                   Purity(PurityAttribution(rec.purity), PurityAttribution(view.purity(subject))), NoAuthority).status == Valid
  {
    var cl, pure := view.closures(subject), Purity(PurityAttribution(rec.purity), PurityAttribution(view.purity(subject)));
    ValidExactly(rec, cl, view.guards, rt, view.kind, pure, NoAuthority);
    ValidExactly(rec, cl, view.guards, NoReading, view.kind, pure, NoAuthority);
  }
}
