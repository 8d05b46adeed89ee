/** Process-group containment: who may signal the group, and until when (gotool/collect_linux.go). */
module Contained {
  import opened Paths

  // ----- The drain -----

  function FirstError(arrivals: seq<Option<string>>): Option<string> {
    if arrivals == [] then None
    else if arrivals[0].Some? then arrivals[0]
    else FirstError(arrivals[1..])
  }

  lemma {:induction false} FirstErrorAppend(arrivals: seq<Option<string>>, last: Option<string>)
    ensures FirstError(arrivals + [last]) == if FirstError(arrivals).Some? then FirstError(arrivals) else last
  {
    if arrivals != [] && arrivals[0].None? {
      FirstErrorAppend(arrivals[1..], last);
      assert (arrivals + [last])[1..] == arrivals[1..] + [last];
    }
  }

  /** The two copiers' results in arrival order; the delay may expire at any wait. Both are received
      before the drain returns, and the pipes are closed once, exactly when it timed out. */
  method DrainCollected(arrivals: seq<Option<string>>) returns (copyErr: Option<string>, timedOut: bool, closings: nat)
    requires |arrivals| == 2
    ensures copyErr == FirstError(arrivals)
    ensures closings == if timedOut then 1 else 0
  {
    copyErr, timedOut, closings := None, false, 0;
    var remaining := 2;
    var armed := false;
    while remaining > 0
      invariant 0 <= remaining <= 2
      invariant copyErr == FirstError(arrivals[..2 - remaining])
      invariant timedOut ==> armed
      invariant closings == if timedOut then 1 else 0
      decreases remaining, !timedOut
    {
      var ready: bool := *;
      var expired: bool := *;
      if !ready && !armed { armed := true; }
      if ready || timedOut || !expired {
        var next := arrivals[2 - remaining];
        FirstErrorAppend(arrivals[..2 - remaining], next);
        assert arrivals[..2 - remaining] + [next] == arrivals[..3 - remaining];
        remaining := remaining - 1;
        if copyErr.None? { copyErr := next; }
      } else {
        timedOut := true;
        closings := closings + 1;
      }
    }
    assert arrivals[..2] == arrivals;
  }

  // ----- The protocol -----

  datatype Party = Main | Canceller(call: nat)

  /** Where runContained stands. Marking and Sweeping hold the signals mutex. */
  datatype MainAt = AwaitingExit | Disowned | Marking | Draining | AtSweep | Sweeping | Released | Reaped

  /** Where a Cancel stands. Deciding and Sending hold the mutex. */
  datatype CancelAt = AtLock | Deciding | Sending | Ended(sent: bool)

  /** A group signal, and what was so when it was issued. */
  datatype Signal = Signal(from: Party, disowned: bool, finished: bool, reaped: bool)

  /** owned: the exited leader is still this process's to reap, once known. */
  datatype State = State(main: MainAt, owned: Option<bool>, finished: bool, holder: Option<Party>,
                         cancels: map<nat, CancelAt>, sent: seq<Signal>)

  const Started := State(AwaitingExit, None, false, None, map[], [])

  datatype Event =
    | ExitKnown(owned: bool)
    | LockToMark | Mark
    | Drained
    | LockToSweep | Sweep
    | Wait
    | Cancel(call: nat) | CancelLocks(call: nat) | CancelDecides(call: nat) | CancelSends(call: nat)

  predicate CancelIs(s: State, c: nat, at: CancelAt) {
    c in s.cancels && s.cancels[c] == at
  }

  predicate Enabled(s: State, e: Event) {
    match e
    case ExitKnown(_) => s.main == AwaitingExit
    case LockToMark => s.main == Disowned && s.holder.None?
    case Mark => s.main == Marking
    case Drained => s.main == Draining
    case LockToSweep => s.main == AtSweep && s.holder.None?
    case Sweep => s.main == Sweeping
    case Wait => s.main == Released
    case Cancel(c) => c !in s.cancels
    case CancelLocks(c) => CancelIs(s, c, AtLock) && s.holder.None?
    case CancelDecides(c) => CancelIs(s, c, Deciding)
    case CancelSends(c) => CancelIs(s, c, Sending)
  }

  function Issued(s: State, from: Party): Signal {
    Signal(from, s.owned == Some(false), s.finished, s.main == Reaped)
  }

  /** One step; the sweep sets the flag, signals only an owned group, and leaves the lock. */
  function Apply(s: State, e: Event): State {
    if !Enabled(s, e) then s else
    match e
    case ExitKnown(owned) => s.(owned := Some(owned), main := if owned then Draining else Disowned)
    case LockToMark => s.(main := Marking, holder := Some(Main))
    case Mark => s.(main := Draining, finished := true, holder := None)
    case Drained => s.(main := AtSweep)
    case LockToSweep => s.(main := Sweeping, holder := Some(Main))
    case Sweep =>
      s.(main := Released, finished := true, holder := None,
         sent := if s.owned == Some(true) then s.sent + [Issued(s.(finished := true), Main)] else s.sent)
    case Wait => s.(main := Reaped)
    case Cancel(c) => s.(cancels := s.cancels[c := AtLock])
    case CancelLocks(c) => s.(cancels := s.cancels[c := Deciding], holder := Some(Canceller(c)))
    case CancelDecides(c) =>
      if s.finished then s.(cancels := s.cancels[c := Ended(false)], holder := None)
      else s.(cancels := s.cancels[c := Sending])
    case CancelSends(c) =>
      s.(cancels := s.cancels[c := Ended(true)], holder := None, sent := s.sent + [Issued(s, Canceller(c))])
  }

  function After(events: seq<Event>): State {
    if events == [] then Started else Apply(After(events[..|events| - 1]), events[|events| - 1])
  }

  /** Whoever is inside its locked part holds the mutex, and the flag is set only there. */
  ghost predicate Inv(s: State) {
    && (forall c :: c in s.cancels && (s.cancels[c] == Deciding || s.cancels[c] == Sending) ==> s.holder == Some(Canceller(c)))
    && (s.main == Marking || s.main == Sweeping ==> s.holder == Some(Main))
    && (forall c :: c in s.cancels && s.cancels[c] == Sending ==> !s.finished)
    && (s.main == Released || s.main == Reaped ==> s.finished)
    && (s.owned.None? <==> s.main == AwaitingExit)
    && (s.main == Disowned || s.main == Marking ==> s.owned == Some(false) && !s.finished)
    && (s.owned == Some(false) && s.main != Disowned && s.main != Marking ==> s.finished)
    && (s.owned == Some(true) ==> (s.finished <==> s.main == Released || s.main == Reaped))
    && (s.owned.None? ==> !s.finished)
  }

  /** What every group signal issued so far satisfied. */
  predicate Proper(g: Signal) {
    && !g.reaped
    && (g.from == Main ==> !g.disowned)
    && (g.from != Main ==> !g.finished)
  }

  ghost predicate SentInv(s: State) {
    && (forall k :: 0 <= k < |s.sent| ==> Proper(s.sent[k]))
    && (forall k :: 0 <= k < |s.sent| && s.sent[k].from == Main ==> k == |s.sent| - 1 && (s.main == Released || s.main == Reaped))
    && (s.owned == Some(true) && (s.main == Released || s.main == Reaped) ==> s.sent != [] && s.sent[|s.sent| - 1].from == Main)
  }

  lemma StepKeeps(s: State, e: Event)
    requires Inv(s) && SentInv(s)
    ensures Inv(Apply(s, e)) && SentInv(Apply(s, e)) && s.sent <= Apply(s, e).sent
    ensures s.finished ==> Apply(s, e).finished && forall k :: |s.sent| <= k < |Apply(s, e).sent| ==> Apply(s, e).sent[k].from == Main
  {
  }

  lemma {:induction false} InvHolds(events: seq<Event>)
    ensures Inv(After(events)) && SentInv(After(events))
  {
    if events != [] {
      InvHolds(events[..|events| - 1]);
      StepKeeps(After(events[..|events| - 1]), events[|events| - 1]);
    }
  }

  lemma {:induction false} RunsKeep(events: seq<Event>, more: seq<Event>)
    ensures var s, s' := After(events), After(events + more);
      && s.sent <= s'.sent
      && (s.finished ==> s'.finished && forall k :: |s.sent| <= k < |s'.sent| ==> s'.sent[k].from == Main)
    decreases |more|
  {
    if more == [] {
      assert events + more == events;
    } else {
      var last := |more| - 1;
      RunsKeep(events, more[..last]);
      InvHolds(events + more[..last]);
      StepKeeps(After(events + more[..last]), more[last]);
      assert (events + more)[..|events + more| - 1] == events + more[..last];
    }
  }

  /** In every interleaving: no group signal is issued once Wait has released the leader's identity; the
      sweep signals only an owned group; and nothing signals the group after the sweep. */
  lemma NoSignalAfterReap(events: seq<Event>, k: nat)
    requires k < |After(events).sent|
    ensures Proper(After(events).sent[k])
    ensures After(events).sent[k].from == Main ==> k == |After(events).sent| - 1
  {
    InvHolds(events);
  }

  /** When the last sweep takes the lock, no cancel is between its decision and its signal, and none of
      the later ones signals. */
  lemma SweepIsLast(events: seq<Event>, more: seq<Event>, c: nat)
    requires After(events).main == Sweeping
    ensures var s := After(events); c in s.cancels ==> s.cancels[c] == AtLock || s.cancels[c].Ended?
    ensures var s, s' := After(events), After(events + [Sweep] + more);
      s'.sent == if s.owned == Some(true) then s.sent + [Signal(Main, false, true, false)] else s.sent
  {
    InvHolds(events);
    var s, s1, s' := After(events), After(events + [Sweep]), After(events + [Sweep] + more);
    assert (events + [Sweep])[..|events|] == events;
    InvHolds(events + [Sweep] + more);
    RunsKeep(events + [Sweep], more);
    OwnershipStands(events + [Sweep], more);
    assert s'.sent == s1.sent;
  }

  lemma {:induction false} OwnershipStands(events: seq<Event>, more: seq<Event>)
    requires After(events).owned.Some?
    ensures After(events + more).owned == After(events).owned
    ensures After(events).main == Released ==> After(events + more).main == Released || After(events + more).main == Reaped
    ensures After(events).main == Released && After(events).finished ==> After(events + more).sent == After(events).sent
    decreases |more|
  {
    if more == [] {
      assert events + more == events;
    } else {
      var last := |more| - 1;
      OwnershipStands(events, more[..last]);
      InvHolds(events + more[..last]);
      InvHolds(events);
      RunsKeep(events, more[..last]);
      assert (events + more)[..|events + more| - 1] == events + more[..last];
    }
  }

  // ----- The window before the mark -----

  /** Once the mark is set on a disowned leader, the group is never signalled again. */
  lemma MarkedIsSilent(events: seq<Event>, more: seq<Event>)
    requires After(events).owned == Some(false) && After(events).finished
    ensures After(events + more).sent == After(events).sent
  {
    var s, s' := After(events), After(events + more);
    RunsKeep(events, more);
    InvHolds(events + more);
    OwnershipStands(events, more);
    DisownedSweepsNothing(events, more);
    assert s'.sent[..|s.sent|] == s.sent;
  }

  lemma {:induction false} DisownedSweepsNothing(events: seq<Event>, more: seq<Event>)
    requires After(events).owned == Some(false) && After(events).finished
    ensures |After(events + more).sent| == |After(events).sent|
    decreases |more|
  {
    if more == [] {
      assert events + more == events;
    } else {
      var last := |more| - 1;
      DisownedSweepsNothing(events, more[..last]);
      InvHolds(events + more[..last]);
      RunsKeep(events, more[..last]);
      OwnershipStands(events, more[..last]);
      assert (events + more)[..|events + more| - 1] == events + more[..last];
    }
  }

  /** Before it, the window is open: whenever ownership is already known lost, a cancel that gets the lock
      signals the group exactly when the flag is not yet set. */
  lemma WindowExactly(events: seq<Event>, c: nat)
    requires var s := After(events); s.owned == Some(false) && s.holder.None? && c !in s.cancels
    ensures var s, s' := After(events), After(events + [Cancel(c), CancelLocks(c), CancelDecides(c), CancelSends(c)]);
      s'.sent == if s.finished then s.sent else s.sent + [Signal(Canceller(c), true, false, false)]
  {
    hide After, Apply, Enabled, Inv, SentInv;
    InvHolds(events);
    CancelSignals(After(events), c);
    var e1 := events + [Cancel(c)];
    var e2 := e1 + [CancelLocks(c)];
    var e3 := e2 + [CancelDecides(c)];
    AfterOne(events, Cancel(c));
    AfterOne(e1, CancelLocks(c));
    AfterOne(e2, CancelDecides(c));
    AfterOne(e3, CancelSends(c));
    assert e3 + [CancelSends(c)] == events + [Cancel(c), CancelLocks(c), CancelDecides(c), CancelSends(c)];
  }

  lemma CancelSignals(s: State, c: nat)
    requires Inv(s) && s.owned == Some(false) && s.holder.None? && c !in s.cancels
    ensures var s' := Apply(Apply(Apply(Apply(s, Cancel(c)), CancelLocks(c)), CancelDecides(c)), CancelSends(c));
      s'.sent == if s.finished then s.sent else s.sent + [Signal(Canceller(c), true, false, false)]
  {
    var s2 := Apply(Apply(s, Cancel(c)), CancelLocks(c));
    assert s2.holder == Some(Canceller(c)) && CancelIs(s2, c, Deciding);
  }

  lemma AfterOne(events: seq<Event>, e: Event)
    ensures After(events + [e]) == Apply(After(events), e)
  {
    assert (events + [e])[..|events + [e]| - 1] == events;
  }

  /** Such a state is reached: the exit wait fails, and a cancel comes before the mark. */
  lemma WindowIsReached()
    ensures After([ExitKnown(false)]).owned == Some(false) && After([ExitKnown(false)]).holder.None? && !After([ExitKnown(false)]).finished
  {
    assert [ExitKnown(false)][..0] == [];
    assert After([]) == Started;
  }
}
