/** The one-shot holder: an answer taken on the first ask, concurrent asks waiting on that take
    (gotool/memo.go). */
module Memo {
  import opened Paths
  import opened Concurrency
  import opened MemoKeys

  datatype Answer<V> = Answer(value: V, err: Option<string>)

  /** The fields behind the mutex. A channel is a number below made; receiving from it proceeds once it is
      closed. */
  datatype State<V> = State(taken: bool, value: V, err: Option<string>, inflight: Option<nat>, made: nat, closed: set<nat>) {
    function Held(): Answer<V> { Answer(value, err) }
  }

  datatype Asked<V> = Answered(answer: Answer<V>) | Take | Wait(channel: nat)

  /** How fn ends: with an answer, or by a panic. */
  datatype Ending<V> = Returns(answer: Answer<V>) | Panics

  // ----- The sections, as functions of the state -----

  function Ask<V>(s: State<V>): (State<V>, Asked<V>) {
    if s.taken then (s, Answered(s.Held()))
    else if s.inflight.Some? then (s, Wait(s.inflight.value))
    else (s.(inflight := Some(s.made), made := s.made + 1), Take)
  }

  /** A failed answer is the caller's cancellation when its own context has ended; any other answer is the
      holder's. */
  predicate Cancels<V>(ending: Ending<V>, contextEnded: bool) {
    ending.Returns? && ending.answer.err.Some? && contextEnded
  }

  function Complete<V>(s: State<V>, ending: Ending<V>, contextEnded: bool): State<V>
    requires s.inflight.Some?
  {
    var stored := if ending.Returns? && !Cancels(ending, contextEnded)
                  then s.(value := ending.answer.value, err := ending.answer.err, taken := true) else s;
    stored.(closed := s.closed + {s.inflight.value}, inflight := None)
  }

  function Prime<V>(s: State<V>, v: V): State<V> {
    s.(value := v, taken := true)
  }

  // ----- The object -----

  class Once<V(0)> {
    var taken: bool
    var value: V
    var err: Option<string>
    var inflight: Option<nat>
    var made: nat
    var closed: set<nat>

    function Now(): State<V>
      reads this
    {
      State(taken, value, err, inflight, made, closed)
    }

    constructor ()
      ensures Now() == State(false, value, None, None, 0, {})
    {
      taken, value, err, inflight, made, closed := false, *, None, None, 0, {};
    }

    method PrimeWith(v: V)
      modifies this
      ensures Now() == Prime(old(Now()), v)
    {
      value, taken := v, true;
    }

    method AskOnce() returns (asked: Asked<V>)
      modifies this
      ensures (Now(), asked) == Ask(old(Now()))
    {
      if taken { return Answered(Answer(value, err)); }
      if inflight.None? {
        inflight, made := Some(made), made + 1;
        return Take;
      }
      return Wait(inflight.value);
    }

    /** The take's deferred end: it stores, if it may, and always releases its waiters. */
    method EndTake(v: V, failure: Option<string>, returned: bool, cancelled: bool)
      requires inflight.Some?
      requires cancelled ==> returned && failure.Some?
      modifies this
      ensures Now() == Complete(old(Now()), if returned then Returns(Answer(v, failure)) else Panics, cancelled)
    {
      if returned && !cancelled { value, err, taken := v, failure, true; }
      closed := closed + {inflight.value};
      inflight := None;
    }
  }

  /** One holder for each key, made on the first ask; a malformed environment has no key. */
  class RunMemo<V> {
    var held: map<string, V>

    constructor ()
      ensures held == map[]
    {
      held := map[];
    }

    /** coordinate is the directory's own. */
    method Get(dir: string, coordinate: string, env: seq<string>, maker: V) returns (v: Option<V>)
      modifies this
      ensures v.None? <==> !Admissible(env)
      ensures v.None? ==> held == old(held)
      ensures v.Some? ==> var key := KeyOf(coordinate, Kept(dir, env));
        if key in old(held) then v.value == old(held)[key] && held == old(held)
        else v.value == maker && held == old(held)[key := maker]
    {
      var key := MemoKey(dir, coordinate, env);
      if key.None? { return None; }
      if key.value in held { return Some(held[key.value]); }
      held := held[key.value := maker];
      return Some(maker);
    }
  }

  // ----- Every interleaving -----

  datatype Local<V> =
    | Asking
    | Waiting(channel: nat)
    | Taking
    | Returned(answer: Answer<V>)
    | CallerCancelled
    | Panicked

  /** stored is the history of the answers the holder was given. */
  datatype World<V> = World(once: State<V>, calls: map<Call, Local<V>>, stored: seq<Answer<V>>)

  function Beginning<V>(zero: V): World<V> {
    World(State(false, zero, None, None, 0, {}), map[], [])
  }

  datatype Event<V> =
    | Arrive(call: Call)
    | Leave(call: Call)
    | AskFor(call: Call)
    | Wake(call: Call)
    | End(call: Call, ending: Ending<V>, contextEnded: bool)
    | PrimeIt(value: V)

  predicate Stands<V(==)>(w: World<V>, call: Call, local: Local<V>) {
    call in w.calls && w.calls[call] == local
  }

  /** A caller's context ends at its own check or while it waits; a waiter wakes when its channel closed. */
  predicate Enabled<V>(w: World<V>, e: Event<V>) {
    match e
    case Arrive(c) => c !in w.calls
    case Leave(c) => c in w.calls && (w.calls[c].Asking? || w.calls[c].Waiting?)
    case AskFor(c) => c in w.calls && w.calls[c].Asking?
    case Wake(c) => c in w.calls && w.calls[c].Waiting? && w.calls[c].channel in w.once.closed
    case End(c, _, _) => c in w.calls && w.calls[c].Taking? && w.once.inflight.Some?
    case PrimeIt(_) => true
  }

  function Apply<V>(w: World<V>, e: Event<V>): World<V> {
    if !Enabled(w, e) then w else
    match e
    case Arrive(c) => w.(calls := w.calls[c := Asking])
    case Leave(c) => w.(calls := w.calls[c := CallerCancelled])
    case AskFor(c) =>
      var (once, asked) := Ask(w.once);
      w.(once := once, calls := w.calls[c := match asked
                                             case Answered(a) => Returned(a)
                                             case Take => Taking
                                             case Wait(channel) => Waiting(channel)])
    case Wake(c) => w.(calls := w.calls[c := Asking])
    case End(c, ending, contextEnded) =>
      w.(once := Complete(w.once, ending, contextEnded),
         calls := w.calls[c := if ending.Panics? then Panicked
                               else if Cancels(ending, contextEnded) then CallerCancelled
                               else Returned(ending.answer)],
         stored := if ending.Returns? && !Cancels(ending, contextEnded) then w.stored + [ending.answer] else w.stored)
    case PrimeIt(v) => w.(once := Prime(w.once, v), stored := w.stored + [Answer(v, w.once.err)])
  }

  function After<V>(zero: V, events: seq<Event<V>>): World<V> {
    if events == [] then Beginning(zero) else Apply(After(zero, events[..|events| - 1]), events[|events| - 1])
  }

  /** One take at a time, on the channel in flight; and no waiter on a channel that can no longer close. */
  ghost predicate TakeInv<V(!new)>(w: World<V>) {
    var s := w.once;
    && (forall c, d :: c in w.calls && d in w.calls && w.calls[c].Taking? && w.calls[d].Taking? ==> c == d)
    && (s.inflight.Some? <==> exists c :: c in w.calls && w.calls[c].Taking?)
    && (s.inflight.Some? ==> s.inflight.value < s.made && s.inflight.value !in s.closed)
    && (forall c :: c in w.calls && w.calls[c].Waiting? ==> s.inflight == Some(w.calls[c].channel) || w.calls[c].channel in s.closed)
    && (forall ch :: ch in s.closed ==> ch < s.made)
    && (s.taken <==> w.stored != [])
    && (s.taken ==> w.stored[|w.stored| - 1] == s.Held())
    && (!s.taken ==> s.err == None)
  }

  lemma TakeInvHolds<V(!new)>(w: World<V>, e: Event<V>)
    requires TakeInv(w)
    ensures TakeInv(Apply(w, e))
  {
    var w' := Apply(w, e);
    if w.once.inflight.Some? {
      var t :| t in w.calls && w.calls[t].Taking?;
      if !(e.End? && Enabled(w, e)) { assert w'.calls[t].Taking?; }
    } else if e.AskFor? && Enabled(w, e) && !w.once.taken {
      assert w'.calls[e.call].Taking?;
    }
  }

  lemma {:induction false} InvHolds<V(!new)>(zero: V, events: seq<Event<V>>)
    ensures TakeInv(After(zero, events))
  {
    if events != [] {
      InvHolds(zero, events[..|events| - 1]);
      TakeInvHolds(After(zero, events[..|events| - 1]), events[|events| - 1]);
    }
  }

  // ----- One answer -----

  /** Priming before any ask: the holder neither holds an answer nor has one on the way. */
  predicate Untouched<V>(s: State<V>) {
    !s.taken && s.inflight.None?
  }

  ghost predicate PrimedInTime<V>(zero: V, events: seq<Event<V>>) {
    forall k :: 0 <= k < |events| && events[k].PrimeIt? ==> Untouched(After(zero, events[..k]).once)
  }

  ghost predicate OneAnswer<V(!new)>(w: World<V>) {
    && |w.stored| <= 1
    && (w.once.taken ==> w.once.inflight.None?)
    && (forall c :: c in w.calls && w.calls[c].Returned? ==> w.once.taken && w.stored == [w.calls[c].answer])
  }

  lemma StepKeepsOneAnswer<V(!new)>(w: World<V>, e: Event<V>)
    requires TakeInv(w) && OneAnswer(w) && (e.PrimeIt? ==> Untouched(w.once))
    ensures OneAnswer(Apply(w, e))
  {
    TakeInvHolds(w, e);
  }

  /** Primed in time, if at all, a holder stores at most one answer, and every call that returns without a
      cancellation returns that answer. */
  lemma {:induction false} OneAnswerEver<V(!new)>(zero: V, events: seq<Event<V>>)
    requires PrimedInTime(zero, events)
    ensures OneAnswer(After(zero, events))
  {
    if events != [] {
      var last := |events| - 1;
      forall k | 0 <= k < last && events[..last][k].PrimeIt?
        ensures Untouched(After(zero, events[..last][..k]).once)
      {
        assert events[..last][..k] == events[..k];
      }
      OneAnswerEver(zero, events[..last]);
      InvHolds(zero, events[..last]);
      StepKeepsOneAnswer(After(zero, events[..last]), events[last]);
    }
  }

  /** Priming any other holder costs the single answer: exactly when it holds an answer, or one is on the
      way, some continuation stores a second. */
  lemma LatePrimeStoresTwo<V(!new)>(zero: V, events: seq<Event<V>>, v: V)
    requires PrimedInTime(zero, events)
    ensures !Untouched(After(zero, events).once) <==>
      exists more: seq<Event<V>> :: (forall k :: 0 <= k < |more| ==> !more[k].PrimeIt?)
        && |After(zero, events + [PrimeIt(v)] + more).stored| > 1
  {
    var w := After(zero, events);
    InvHolds(zero, events);
    OneAnswerEver(zero, events);
    AfterOne(zero, events, PrimeIt(v));
    if w.once.taken {
      assert events + [PrimeIt(v)] + [] == events + [PrimeIt(v)];
    } else if w.once.inflight.Some? {
      var t :| t in w.calls && w.calls[t].Taking?;
      var end := End(t, Returns(Answer(v, None)), false);
      AfterOne(zero, events + [PrimeIt(v)], end);
      assert |After(zero, events + [PrimeIt(v)] + [end]).stored| > 1;
    } else {
      forall more: seq<Event<V>> | forall k :: 0 <= k < |more| ==> !more[k].PrimeIt?
        ensures |After(zero, events + [PrimeIt(v)] + more).stored| <= 1
      {
        TimelyPrime(zero, events, v, more);
        OneAnswerEver(zero, events + [PrimeIt(v)] + more);
      }
    }
  }

  lemma AfterOne<V(!new)>(zero: V, events: seq<Event<V>>, e: Event<V>)
    ensures After(zero, events + [e]) == Apply(After(zero, events), e)
  {
    assert (events + [e])[..|events + [e]| - 1] == events;
  }

  lemma TimelyPrime<V(!new)>(zero: V, events: seq<Event<V>>, v: V, more: seq<Event<V>>)
    requires PrimedInTime(zero, events) && Untouched(After(zero, events).once)
    requires forall k :: 0 <= k < |more| ==> !more[k].PrimeIt?
    ensures PrimedInTime(zero, events + [PrimeIt(v)] + more)
  {
    var all := events + [PrimeIt(v)] + more;
    forall k | 0 <= k < |all| && all[k].PrimeIt?
      ensures Untouched(After(zero, all[..k]).once)
    {
      if k < |events| {
        assert all[..k] == events[..k];
      } else {
        assert all[..|events|] == events;
      }
    }
  }

  /** The misuse made concrete: primed while a take runs, two calls return two answers. */
  lemma PrimeDuringTake(zero: int)
    ensures var events := [Arrive(0), AskFor(0), Event<int>.PrimeIt(1), Arrive(1), AskFor(1), End(0, Returns(Answer(2, None)), false)];
      var w := After(zero, events);
      Stands(w, 0, Returned(Answer(2, None))) && Stands(w, 1, Returned(Answer(1, None)))
  {
    var e0: seq<Event<int>> := [];
    var w0 := After(zero, e0);
    AfterOne(zero, e0, Arrive(0));
    AfterOne(zero, e0 + [Arrive(0)], AskFor(0));
    AfterOne(zero, e0 + [Arrive(0)] + [AskFor(0)], PrimeIt(1));
    var e3 := e0 + [Arrive(0)] + [AskFor(0)] + [PrimeIt(1)];
    AfterOne(zero, e3, Arrive(1));
    AfterOne(zero, e3 + [Arrive(1)], AskFor(1));
    AfterOne(zero, e3 + [Arrive(1)] + [AskFor(1)], End(0, Returns(Answer(2, None)), false));
    assert e3 + [Arrive(1)] + [AskFor(1)] + [End(0, Returns(Answer(2, None)), false)]
      == [Arrive(0), AskFor(0), Event<int>.PrimeIt(1), Arrive(1), AskFor(1), End(0, Returns(Answer(2, None)), false)];
  }

  // ----- Takes and waiters -----

  /** At most one caller runs fn, and a take that was cancelled or panicked stores nothing. */
  lemma OneTake<V(!new)>(zero: V, events: seq<Event<V>>, c: Call, d: Call, ending: Ending<V>, contextEnded: bool)
    requires var w := After(zero, events); c in w.calls && d in w.calls && w.calls[c].Taking? && w.calls[d].Taking?
    ensures c == d
    ensures var w, w' := After(zero, events), After(zero, events + [End(c, ending, contextEnded)]);
      && w'.once.inflight.None? && c in w'.calls && !w'.calls[c].Taking?
      && (Cancels(ending, contextEnded) || ending.Panics? ==> w'.stored == w.stored && w'.once.Held() == w.once.Held() && w'.once.taken == w.once.taken)
  {
    InvHolds(zero, events);
    AfterOne(zero, events, End(c, ending, contextEnded));
  }

  /** How a take ends. An answer is stored and returned, a failure like any other, unless the caller's own
      context has ended over a failure; a cancellation and a panic leave the holder as it was, and every
      ending closes the channel its waiters wait on. */
  lemma TakeEndsExactly<V(!new)>(zero: V, events: seq<Event<V>>, c: Call, ending: Ending<V>, contextEnded: bool)
    requires Enabled(After(zero, events), End(c, ending, contextEnded))
    ensures var w, w' := After(zero, events), After(zero, events + [End(c, ending, contextEnded)]);
      && w'.once.inflight.None? && w.once.inflight.value in w'.once.closed && c in w'.calls
      && (if ending.Panics? then w'.calls[c] == Panicked
          else if ending.answer.err.Some? && contextEnded then w'.calls[c] == CallerCancelled
          else w'.calls[c] == Returned(ending.answer))
      && (if w'.calls[c].Returned?
          then w'.once.taken && w'.once.value == ending.answer.value && w'.once.err == ending.answer.err && w'.stored == w.stored + [ending.answer]
          else w'.once.taken == w.once.taken && w'.once.value == w.once.value && w'.once.err == w.once.err && w'.stored == w.stored)
  {
    AfterOne(zero, events, End(c, ending, contextEnded));
  }

  /** No wakeup is lost: a waiter's channel is closed already, or is the one the running take will close. */
  lemma WaitersWake<V(!new)>(zero: V, events: seq<Event<V>>, c: Call, ending: Ending<V>, contextEnded: bool) returns (t: Call)
    requires c in After(zero, events).calls && After(zero, events).calls[c].Waiting?
    ensures var w := After(zero, events);
      || Enabled(w, Wake(c))
      || (Enabled(w, End(t, ending, contextEnded)) && t != c && Enabled(After(zero, events + [End(t, ending, contextEnded)]), Wake(c)))
  {
    InvHolds(zero, events);
    var w := After(zero, events);
    t := c;
    if w.calls[c].channel !in w.once.closed {
      t :| t in w.calls && w.calls[t].Taking?;
      AfterOne(zero, events, End(t, ending, contextEnded));
    }
  }
}
