/** A walk that resolves at one endpoint and finds a component absent at the other: exactly when its two
    accounts contradict (runtimeinput/pathfacts.go, runtimeinput/bracket.go). */
module Absence {
  import opened Paths
  import opened PathFacts
  import opened Walk
  import opened WalkLaws
  import opened WalkFacts
  import opened Lookups

  /** The account records no absence. */
  ghost predicate NoGone(values: map<Key, set<Value>>) {
    forall k :: !Records(values, k, Gone)
  }

  /** Some object is recorded at p. */
  ghost predicate Found(values: map<Key, set<Value>>, p: Path) {
    exists v :: v != Gone && Records(values, Key(p, Namespace), v)
  }

  /** p's own namespace is recorded as found, or its last name is still to be looked up. */
  ghost predicate SelfAhead(p: Path, pending: seq<string>, values: map<Key, set<Value>>) {
    && NoGone(values)
    && (Knows(values, Key(p, Namespace)) || (pending != [] && IsName(pending[|pending| - 1])))
  }

  lemma KnownIsFound(values: map<Key, set<Value>>, p: Path)
    requires NoGone(values) && Knows(values, Key(p, Namespace))
    ensures Found(values, p)
  {
    var v :| v in values[Key(p, Namespace)];
    assert Records(values, Key(p, Namespace), v);
  }

  /** A lookup that finds something records no absence, and keeps p ahead or known. */
  lemma SeeingKeepsAhead(p: Path, next: Path, node: Node, pending: seq<string>, values: map<Key, set<Value>>)
    requires pending != [] && IsName(pending[0]) && SelfAhead(p, pending, values) && !node.Missing? && !node.Unreadable?
    ensures SelfAhead(p, pending[1..], Seeing(p, next, node, pending[1..] == [], values))
    ensures pending[1..] == [] ==> Knows(Seeing(p, next, node, true, values), Key(p, Namespace))
  {
    SeeingKnows(p, next, node, pending[1..] == [], values);
    if pending[1..] != [] { assert pending[1..][|pending[1..]| - 1] == pending[|pending| - 1]; }
  }

  /** A followed link's parts go in front of what is pending. */
  lemma FollowingKeepsAhead(p: Path, next: Path, target: Target, rest: seq<string>, values: map<Key, set<Value>>)
    requires SelfAhead(p, rest, values)
    ensures SelfAhead(p, target.parts + rest, Recorded(values, Key(next, LinkText), Points(target)))
  {
    if Knows(values, Key(p, Namespace)) { KnowledgeGrows(values, Key(next, LinkText), Points(target), Key(p, Namespace)); }
    if rest != [] { assert (target.parts + rest)[|target.parts + rest| - 1] == rest[|rest| - 1]; }
  }

  /** A walk that resolves records its own path as found. */
  lemma {:induction false} ResolvedFindsItself(fs: FileSystem, p: Path, cur: Path, pending: seq<string>, links: seq<Path>, values: map<Key, set<Value>>)
    requires SelfAhead(p, pending, values) && Steps(fs, MAX_LINK_HOPS, cur, pending, links).Resolved?
    ensures Found(Observed(fs, p, cur, pending, links, values), p)
    decreases if |links| <= MAX_LINK_HOPS then MAX_LINK_HOPS - |links| else 0, |pending|
  {
    if pending == [] {
      KnownIsFound(values, p);
      var v :| v != Gone && Records(values, Key(p, Namespace), v);
      assert Records(Observed(fs, p, cur, pending, links, values), Key(p, Namespace), v);
    } else {
      var part, rest := pending[0], pending[1..];
      if Skipped(part) || part == ".." {
        if rest != [] { assert rest[|rest| - 1] == pending[|pending| - 1]; }
        ResolvedFindsItself(fs, p, if Skipped(part) then cur else Parent(cur), rest, links, values);
      } else {
        var next := cur + [part];
        SeeingKeepsAhead(p, next, fs(next), pending, values);
        var seen := Seeing(p, next, fs(next), rest == [], values);
        if fs(next).Link? {
          var target := fs(next).target;
          FollowingKeepsAhead(p, next, target, rest, seen);
          ResolvedFindsItself(fs, p, if target.absolute then [] else cur, target.parts + rest, links + [next],
                              Recorded(seen, Key(next, LinkText), Points(target)));
        } else {
          ResolvedFindsItself(fs, p, next, rest, links, seen);
        }
      }
    }
  }

  ghost predicate Within(less: map<Key, set<Value>>, more: map<Key, set<Value>>) {
    forall k, v :: Records(less, k, v) ==> Records(more, k, v)
  }

  /** The two accounts part at a lookup with two answers, or at an absence that is recorded; otherwise the
      shorter walk's account is part of the longer one's. */
  lemma {:induction false} AbsentWalk(fs: FileSystem, fs': FileSystem, p: Path, cur: Path, pending: seq<string>, links: seq<Path>,
                                      values: map<Key, set<Value>>)
    requires SelfAhead(p, pending, values)
    requires Steps(fs, MAX_LINK_HOPS, cur, pending, links).Resolved? && Steps(fs', MAX_LINK_HOPS, cur, pending, links).Absent?
    ensures var at := Steps(fs', MAX_LINK_HOPS, cur, pending, links).at;
      var a, b := Observed(fs, p, cur, pending, links, values), Observed(fs', p, cur, pending, links, values);
      if Agrees(fs, fs', Looked(fs', MAX_LINK_HOPS, cur, pending, links) - {at}) && NoGone(b) then Within(b, a) else Differ(a, b)
    ensures fs'(Steps(fs', MAX_LINK_HOPS, cur, pending, links).at).Missing?
    decreases if |links| <= MAX_LINK_HOPS then MAX_LINK_HOPS - |links| else 0, |pending|
  {
    var part, rest := pending[0], pending[1..];
    if Skipped(part) || part == ".." {
      if rest != [] { assert rest[|rest| - 1] == pending[|pending| - 1]; }
      AbsentWalk(fs, fs', p, if Skipped(part) then cur else Parent(cur), rest, links, values);
    } else {
      var next := cur + [part];
      var node, node' := fs(next), fs'(next);
      if node'.Missing? {
        AbsentHere(fs, fs', p, cur, pending, links, values);
      } else if node != node' {
        FoundIsObserved(fs, p, cur, pending, links, values);
        FoundIsObserved(fs', p, cur, pending, links, values);
        OtherAnswerParts(fs, fs', p, cur, pending, links, values);
      } else {
        SeeingKeepsAhead(p, next, node, pending, values);
        var seen := Seeing(p, next, node, rest == [], values);
        if node.Link? {
          var target := node.target;
          var base, more := if target.absolute then [] else cur, Recorded(seen, Key(next, LinkText), Points(target));
          FollowingKeepsAhead(p, next, target, rest, seen);
          AbsentWalk(fs, fs', p, base, target.parts + rest, links + [next], more);
          AgreesFrom(fs, fs', next, Looked(fs', MAX_LINK_HOPS, base, target.parts + rest, links + [next]),
                     Steps(fs', MAX_LINK_HOPS, base, target.parts + rest, links + [next]).at);
        } else {
          AbsentWalk(fs, fs', p, next, rest, links, seen);
          AgreesFrom(fs, fs', next, Looked(fs', MAX_LINK_HOPS, next, rest, links), Steps(fs', MAX_LINK_HOPS, next, rest, links).at);
        }
      }
    }
  }

  lemma AgreesFrom(fs: FileSystem, fs': FileSystem, next: Path, later: set<Path>, at: Path)
    requires fs(next) == fs'(next)
    ensures Agrees(fs, fs', {next} + later - {at}) <==> Agrees(fs, fs', later - {at})
  {
  }

  /** Two different finds at one lookup: the walks disagree there, and their accounts differ. */
  lemma OtherAnswerParts(fs: FileSystem, fs': FileSystem, p: Path, cur: Path, pending: seq<string>, links: seq<Path>, values: map<Key, set<Value>>)
    requires pending != [] && IsName(pending[0])
    requires var next := cur + [pending[0]]; fs(next) != fs'(next) && !fs'(next).Missing?
    requires Steps(fs, MAX_LINK_HOPS, cur, pending, links).Resolved? && Steps(fs', MAX_LINK_HOPS, cur, pending, links).Absent?
    ensures Differ(Observed(fs, p, cur, pending, links, values), Observed(fs', p, cur, pending, links, values))
    ensures var at := Steps(fs', MAX_LINK_HOPS, cur, pending, links).at;
      fs'(at).Missing? && !Agrees(fs, fs', Looked(fs', MAX_LINK_HOPS, cur, pending, links) - {at})
  {
    var next := cur + [pending[0]];
    FoundIsObserved(fs, p, cur, pending, links, values);
    FoundIsObserved(fs', p, cur, pending, links, values);
    if TypeOf(fs(next)) == TypeOf(fs'(next)) { assert Points(fs(next).target) != Points(fs'(next).target); }
    AbsentIsMissing(fs', MAX_LINK_HOPS, cur, pending, links);
    assert next in Looked(fs', MAX_LINK_HOPS, cur, pending, links);
  }

  lemma {:induction false} AbsentIsMissing(fs: FileSystem, budget: nat, cur: Path, pending: seq<string>, links: seq<Path>)
    ensures var w := Steps(fs, budget, cur, pending, links); w.Absent? ==> fs(w.at).Missing?
    decreases if |links| <= budget then budget - |links| else 0, |pending|
  {
    if pending != [] {
      var part, rest := pending[0], pending[1..];
      if Skipped(part) {
        AbsentIsMissing(fs, budget, cur, rest, links);
      } else if part == ".." {
        AbsentIsMissing(fs, budget, Parent(cur), rest, links);
      } else {
        var next := cur + [part];
        match fs(next)
        case Missing =>
        case Unreadable =>
        case File => AbsentIsMissing(fs, budget, next, rest, links);
        case Dir => AbsentIsMissing(fs, budget, next, rest, links);
        case Link(target) =>
          if |links| < budget {
            AbsentIsMissing(fs, budget, if target.absolute then [] else cur, target.parts + rest, links + [next]);
          }
      }
    }
  }

  /** The absent lookup itself: silent when p is known already and more is pending, telling otherwise. */
  lemma AbsentHere(fs: FileSystem, fs': FileSystem, p: Path, cur: Path, pending: seq<string>, links: seq<Path>, values: map<Key, set<Value>>)
    requires pending != [] && IsName(pending[0]) && SelfAhead(p, pending, values) && fs'(cur + [pending[0]]).Missing?
    requires Steps(fs, MAX_LINK_HOPS, cur, pending, links).Resolved?
    ensures var a, b := Observed(fs, p, cur, pending, links, values), Observed(fs', p, cur, pending, links, values);
      if NoGone(b) then Within(b, a) else Differ(a, b)
  {
    var next, rest := cur + [pending[0]], pending[1..];
    var a, b := Observed(fs, p, cur, pending, links, values), Observed(fs', p, cur, pending, links, values);
    assert b == Seeing(p, next, Missing, rest == [], values);
    FoundIsObserved(fs, p, cur, pending, links, values);
    ResolvedFindsItself(fs, p, cur, pending, links, values);
    if rest == [] {
      assert Records(b, Key(next, Namespace), Gone);
    } else if Knows(values, Key(p, Namespace)) {
      forall k, v | Records(b, k, v)
        ensures Records(a, k, v)
      {
        ObservedGrows(fs, p, cur, pending, links, values, k, v);
      }
    } else {
      assert Records(b, Key(p, Namespace), Gone);
    }
  }

  function WalkAccount(fs: FileSystem, p: Path): Account {
    Account(Observed(fs, p, [], p, [], map[]), map[])
  }

  /** A path that resolved at one endpoint and is absent at the other is found to have moved exactly when
      some lookup before the absence has two answers, or the absence is recorded. It goes unrecorded when
      more was pending at it and the path's own last name had been found before. */
  lemma AbsenceMovesExactly(fs: FileSystem, fs': FileSystem, p: Path, id: PathId, exclusions: seq<PathId>)
    requires Clean(p) && p != [] && Trip(fs, p).Resolved? && Trip(fs', p).Absent?
    ensures var before, after := [BracketRoot(id, Some(WalkAccount(fs, p)))], [BracketRoot(id, Some(WalkAccount(fs', p)))];
      Satisfiable(before, after, exclusions) <==>
        Agrees(fs, fs', LookedUp(fs', p) - {Trip(fs', p).at}) && NoGone(WalkAccount(fs', p).values)
  {
    hide Observed, Looked, Steps, Satisfiable, Agrees;
    var a, b := WalkAccount(fs, p), WalkAccount(fs', p);
    var before, after := [BracketRoot(id, Some(a))], [BracketRoot(id, Some(b))];
    AbsentWalk(fs, fs', p, [], p, [], map[]);
    WalkRecordsTruth(fs, p, map[]);
    if Agrees(fs, fs', LookedUp(fs', p) - {Trip(fs', p).at}) && NoGone(b.values) {
      UnchangedNeverMoves(fs, before, after, exclusions);
    } else {
      DifferingMoves(before, after, exclusions, 0);
    }
  }

  lemma DifferingMoves(before: seq<BracketRoot>, after: seq<BracketRoot>, exclusions: seq<PathId>, i: nat)
    requires i < |after| <= |before| && before[i].facts.Some? && after[i].facts.Some?
    requires Differ(before[i].facts.value.values, after[i].facts.value.values)
    ensures !Satisfiable(before, after, exclusions)
  {
    var k, v, w :| v != w && Records(before[i].facts.value.values, k, v) && Records(after[i].facts.value.values, k, w);
    assert Made(before, after, i, Scalar(k, v)) && Made(before, after, i, Scalar(k, w));
    assert Contradicts(before, after, exclusions, i, Scalar(k, v), i, Scalar(k, w));
    ContradictionIsInvolved(before, after, exclusions, i);
  }

  /** A link whose target's parent vanishes: the walk resolves, then finds an absence, and the accounts
      agree. */
  lemma VanishedParentIsSilent(fs: FileSystem, fs': FileSystem, l: string, d: string, f: string, id: PathId, exclusions: seq<PathId>)
    requires IsName(l) && IsName(d) && IsName(f) && l != d
    requires fs([l]) == fs'([l]) == Link(Target(false, [d, f])) && fs([d]) == Dir && fs([d, f]) == File && fs'([d]) == Missing
    ensures Trip(fs, [l]) == Resolved([d, f], [[l]]) && Trip(fs', [l]) == Absent([d], [f], [[l]])
    ensures Satisfiable([BracketRoot(id, Some(WalkAccount(fs, [l])))], [BracketRoot(id, Some(WalkAccount(fs', [l])))], exclusions)
  {
    LinkFollowed(fs, l, d, f);
    LinkThenAbsent(fs', l, d, f);
    assert [] + [d] == [d] && [d] + [f] == [d, f] && [d, f][1..] == [f] && [f][1..] == [];
    assert Steps(fs, MAX_LINK_HOPS, [], [d, f], [[l]]) == Steps(fs, MAX_LINK_HOPS, [d], [f], [[l]]) == Resolved([d, f], [[l]]);
    AbsenceMovesExactly(fs, fs', [l], id, exclusions);
  }

  lemma LinkFollowed(fs: FileSystem, l: string, d: string, f: string)
    requires IsName(l) && fs([l]) == Link(Target(false, [d, f]))
    ensures Trip(fs, [l]) == Steps(fs, MAX_LINK_HOPS, [], [d, f], [[l]])
    ensures LookedUp(fs, [l]) == {[l]} + Looked(fs, MAX_LINK_HOPS, [], [d, f], [[l]])
    ensures var more := Recorded(Seeing([l], [l], fs([l]), true, map[]), Key([l], LinkText), Points(Target(false, [d, f])));
      WalkAccount(fs, [l]).values == Observed(fs, [l], [], [d, f], [[l]], more)
  {
    assert [] + [l] == [l] && [l][1..] == [] && [d, f] + [] == [d, f];
    assert [] + [[l]] == [[l]];
  }

  lemma LinkThenAbsent(fs: FileSystem, l: string, d: string, f: string)
    requires IsName(l) && IsName(d) && IsName(f) && l != d && fs([l]) == Link(Target(false, [d, f])) && fs([d]) == Missing
    ensures Trip(fs, [l]) == Absent([d], [f], [[l]]) && LookedUp(fs, [l]) == {[l], [d]} && NoGone(WalkAccount(fs, [l]).values)
  {
    LinkFollowed(fs, l, d, f);
    assert [] + [d] == [d] && [d, f][1..] == [f];
    var seen := Seeing([l], [l], fs([l]), true, map[]);
    assert Knows(seen, Key([l], Namespace)) by { assert Records(seen, Key([l], Namespace), TypeLink); }
    var more := Recorded(seen, Key([l], LinkText), Points(Target(false, [d, f])));
    KnowledgeGrows(seen, Key([l], LinkText), Points(Target(false, [d, f])), Key([l], Namespace));
    assert Observed(fs, [l], [], [d, f], [[l]], more) == Seeing([l], [d], Missing, false, more) == more;
  }

  /** It does not matter which endpoint was first. */
  lemma AppearanceMovesAlike(a: Account, b: Account, id: PathId, exclusions: seq<PathId>)
    ensures var x, y := [BracketRoot(id, Some(a))], [BracketRoot(id, Some(b))];
      Satisfiable(x, y, exclusions) <==> Satisfiable(y, x, exclusions)
  {
    var x, y := [BracketRoot(id, Some(a))], [BracketRoot(id, Some(b))];
    assert forall w :: Explains(w, x, y, exclusions) <==> Explains(w, y, x, exclusions);
  }
}
