/** What a walk looks up, and exactly what it learns about its own result (runtimeinput/bracket.go,
    chainResolve). */
module Lookups {
  import opened Paths
  import opened Walk
  import opened WalkLaws

  /** The paths the rest of the walk looks up. */
  function Looked(fs: FileSystem, budget: nat, cur: Path, pending: seq<string>, links: seq<Path>): set<Path>
    decreases if |links| <= budget then budget - |links| else 0, |pending|
  {
    if pending == [] then {}
    else
      var part, rest := pending[0], pending[1..];
      if Skipped(part) then Looked(fs, budget, cur, rest, links)
      else if part == ".." then Looked(fs, budget, Parent(cur), rest, links)
      else
        var next := cur + [part];
        {next} + match fs(next)
                 case Missing => {}
                 case Unreadable => {}
                 case File => Looked(fs, budget, next, rest, links)
                 case Dir => Looked(fs, budget, next, rest, links)
                 case Link(target) =>
                   if |links| >= budget then {}
                   else Looked(fs, budget, if target.absolute then [] else cur, target.parts + rest, links + [next])
  }

  function LookedUp(fs: FileSystem, p: seq<string>): set<Path> {
    Looked(fs, MAX_LINK_HOPS, [], p, [])
  }

  ghost predicate Agrees(fs: FileSystem, fs': FileSystem, known: set<Path>) {
    forall q :: q in known ==> fs'(q) == fs(q)
  }

  /** A walk depends on nothing but its lookups. */
  lemma {:induction false} WalkReadsItsLookups(fs: FileSystem, fs': FileSystem, budget: nat, cur: Path, pending: seq<string>, links: seq<Path>)
    requires Agrees(fs, fs', Looked(fs, budget, cur, pending, links))
    ensures Steps(fs', budget, cur, pending, links) == Steps(fs, budget, cur, pending, links)
    ensures Looked(fs', budget, cur, pending, links) == Looked(fs, budget, cur, pending, links)
    decreases if |links| <= budget then budget - |links| else 0, |pending|
  {
    if pending != [] {
      var part, rest := pending[0], pending[1..];
      if Skipped(part) {
        WalkReadsItsLookups(fs, fs', budget, cur, rest, links);
      } else if part == ".." {
        WalkReadsItsLookups(fs, fs', budget, Parent(cur), rest, links);
      } else {
        var next := cur + [part];
        assert fs'(next) == fs(next);
        match fs(next)
        case Missing =>
        case Unreadable =>
        case File => WalkReadsItsLookups(fs, fs', budget, next, rest, links);
        case Dir => WalkReadsItsLookups(fs, fs', budget, next, rest, links);
        case Link(target) =>
          if |links| < budget {
            WalkReadsItsLookups(fs, fs', budget, if target.absolute then [] else cur, target.parts + rest, links + [next]);
          }
      }
    }
  }

  /** Every prefix of cur but the root was looked up. */
  ghost predicate PrefixesIn(cur: Path, known: set<Path>) {
    forall i :: 0 < i <= |cur| ==> cur[..i] in known
  }

  lemma PrefixesOfChild(cur: Path, name: string, known: set<Path>)
    requires PrefixesIn(cur, known) && cur + [name] in known
    ensures PrefixesIn(cur + [name], known)
  {
    var next := cur + [name];
    forall i | 0 < i <= |next|
      ensures next[..i] in known
    {
      if i < |next| { assert next[..i] == cur[..i]; } else { assert next[..i] == next; }
    }
  }

  lemma PrefixesOfParent(cur: Path, known: set<Path>)
    requires PrefixesIn(cur, known)
    ensures PrefixesIn(Parent(cur), known)
  {
    forall i | 0 < i <= |Parent(cur)|
      ensures Parent(cur)[..i] in known
    {
      assert Parent(cur)[..i] == cur[..i];
    }
  }

  /** A walk that is not refused read everything it looked up, and looked up every prefix of where it
      landed: of the object, or of the absent component. */
  lemma {:induction false} LandingWasLookedUp(fs: FileSystem, budget: nat, cur: Path, pending: seq<string>, links: seq<Path>, known: set<Path>)
    requires PrefixesIn(cur, known) && Looked(fs, budget, cur, pending, links) <= known
    requires !Steps(fs, budget, cur, pending, links).Refused?
    ensures var w := Steps(fs, budget, cur, pending, links); PrefixesIn(if w.Resolved? then w.path else w.at, known)
    ensures forall q :: q in Looked(fs, budget, cur, pending, links) ==> !fs(q).Unreadable?
    decreases if |links| <= budget then budget - |links| else 0, |pending|
  {
    if pending != [] {
      var part, rest := pending[0], pending[1..];
      if Skipped(part) {
        LandingWasLookedUp(fs, budget, cur, rest, links, known);
      } else if part == ".." {
        PrefixesOfParent(cur, known);
        LandingWasLookedUp(fs, budget, Parent(cur), rest, links, known);
      } else {
        var next := cur + [part];
        PrefixesOfChild(cur, part, known);
        match fs(next)
        case Missing =>
        case Unreadable =>
        case File => LandingWasLookedUp(fs, budget, next, rest, links, known);
        case Dir => LandingWasLookedUp(fs, budget, next, rest, links, known);
        case Link(target) =>
          LandingWasLookedUp(fs, budget, if target.absolute then [] else cur, target.parts + rest, links + [next], known);
      }
    }
  }

  // ----- What the walk learned about its result -----

  /** Every prefix of r, up to the first absent one, is known and is no link. */
  ghost predicate Certain(fs: FileSystem, known: set<Path>, r: Path) {
    forall i :: 0 < i <= |r| && ReachedBefore(fs, r, i) ==> r[..i] in known && !fs(r[..i]).Link?
  }

  /** No proper prefix of r shorter than i is absent. */
  ghost predicate ReachedBefore(fs: FileSystem, r: Path, i: nat)
    requires i <= |r|
  {
    forall j :: 0 < j < i ==> fs(r[..j]) != Missing
  }

  lemma {:induction false} CertainMeetsNoLink(fs: FileSystem, known: set<Path>, r: Path, n: nat)
    requires Certain(fs, known, r) && Clean(r) && forall q :: q in known ==> !fs(q).Unreadable?
    requires n <= |r| && LinkFree(fs, r[..n])
    ensures MeetsNoLink(fs, r)
    decreases |r| - n
  {
    if n == |r| {
      assert r[..n] == r;
    } else {
      forall j | 0 < j < n + 1
        ensures fs(r[..j]) != Missing
      {
        assert r[..n][..j] == r[..j];
      }
      assert ReachedBefore(fs, r, n + 1);
      assert r[..n + 1] == r[..n] + [r[n]] && r[..n + 1 - 1] == r[..n];
      if fs(r[..n + 1]) != Missing {
        LinkFreeChild(fs, r[..n], r[n]);
        CertainMeetsNoLink(fs, known, r, n + 1);
      }
    }
  }

  /** The filesystem with a link in q's place. */
  ghost function Linked(fs: FileSystem, q: Path): FileSystem {
    (x: Path) => if x == q then Link(Target(true, [])) else fs(x)
  }

  lemma LinkedIsMet(fs: FileSystem, r: Path, i: nat)
    requires 0 < i <= |r| && ReachedBefore(fs, r, i)
    ensures !MeetsNoLink(Linked(fs, r[..i]), r)
  {
    var fs' := Linked(fs, r[..i]);
    assert !LinkFree(fs', r);
    forall m | i <= m <= |r|
      ensures !LinkFree(fs', r[..m])
    {
      assert r[..m][..i] == r[..i];
    }
    forall k | 0 < k < i
      ensures fs'(r[..k]) != Missing
    {
      assert |r[..k]| != |r[..i]|;
    }
  }

  lemma MetIsNoLink(fs: FileSystem, r: Path, i: nat)
    requires 0 < i <= |r| && ReachedBefore(fs, r, i) && MeetsNoLink(fs, r)
    ensures !fs(r[..i]).Link?
  {
    if !LinkFree(fs, r) {
      var k :| 0 < k <= |r| && LinkFree(fs, r[..k - 1]) && fs(r[..k]) == Missing;
      assert i <= k;
      if i < k { assert r[..k - 1][..i] == r[..i]; }
    }
  }

  /** What a resolution is worth: its result resolves to itself, with no links, in every filesystem that
      answers this walk's lookups the same, exactly when the walk looked up each prefix of the result as
      far as the first absent one and found no link there. Without a climb over an absent component it
      always did. */
  lemma ResultIsStableExactly(fs: FileSystem, p: seq<string>)
    requires Answered(Trip(fs, p)).ok
    ensures var r, known := Answered(Trip(fs, p)).resolved, LookedUp(fs, p);
      && ((forall fs' :: Agrees(fs, fs', known) ==> Answered(Trip(fs', r)) == Answer(r, [], true)) <==> Certain(fs, known, r))
      && (!ClimbsOverAbsence(fs, p) ==> Certain(fs, known, r))
  {
    hide Certain, Agrees, ClimbsOverAbsence, MeetsNoLink;
    var r, known := Answered(Trip(fs, p)).resolved, LookedUp(fs, p);
    ReresolutionIsStable(fs, p);
    if Certain(fs, known, r) {
      forall fs' | Agrees(fs, fs', known)
        ensures Answered(Trip(fs', r)) == Answer(r, [], true)
      {
        CertainIsStable(fs, fs', p);
      }
    } else {
      UncertainIsUnstable(fs, p);
    }
    if !ClimbsOverAbsence(fs, p) { NoClimbIsCertain(fs, p); }
  }

  lemma CertainIsStable(fs: FileSystem, fs': FileSystem, p: seq<string>)
    requires Answered(Trip(fs, p)).ok && Agrees(fs, fs', LookedUp(fs, p)) && Certain(fs, LookedUp(fs, p), Answered(Trip(fs, p)).resolved)
    ensures var r := Answered(Trip(fs, p)).resolved; Answered(Trip(fs', r)) == Answer(r, [], true)
  {
    var r, known := Answered(Trip(fs, p)).resolved, LookedUp(fs, p);
    WalkReadsItsLookups(fs, fs', MAX_LINK_HOPS, [], p, []);
    LandingWasLookedUp(fs, MAX_LINK_HOPS, [], p, [], known);
    ReresolutionIsStable(fs, p);
    CertaintyTravels(fs, fs', known, r);
    assert r[..0] == [];
    CertainMeetsNoLink(fs', known, r, 0);
    PlainTrip(fs', r);
  }

  lemma CertaintyTravels(fs: FileSystem, fs': FileSystem, known: set<Path>, r: Path)
    requires Certain(fs, known, r) && Agrees(fs, fs', known)
    ensures Certain(fs', known, r)
  {
    forall i | 0 < i <= |r| && ReachedBefore(fs', r, i)
      ensures r[..i] in known && !fs'(r[..i]).Link?
    {
      ReachedTravels(fs, fs', known, r, i);
    }
  }

  lemma {:induction false} ReachedTravels(fs: FileSystem, fs': FileSystem, known: set<Path>, r: Path, i: nat)
    requires Certain(fs, known, r) && Agrees(fs, fs', known) && i <= |r| && ReachedBefore(fs', r, i)
    ensures ReachedBefore(fs, r, i)
  {
    if i > 0 {
      ReachedTravels(fs, fs', known, r, i - 1);
      if i > 1 { assert r[..i - 1] in known; }
    }
  }

  lemma UncertainIsUnstable(fs: FileSystem, p: seq<string>)
    requires Answered(Trip(fs, p)).ok && !Certain(fs, LookedUp(fs, p), Answered(Trip(fs, p)).resolved)
    ensures var r, known := Answered(Trip(fs, p)).resolved, LookedUp(fs, p);
      exists fs' :: Agrees(fs, fs', known) && Answered(Trip(fs', r)) != Answer(r, [], true)
  {
    var r, known := Answered(Trip(fs, p)).resolved, LookedUp(fs, p);
    ReresolutionIsStable(fs, p);
    var i :| 0 < i <= |r| && ReachedBefore(fs, r, i) && !(r[..i] in known && !fs(r[..i]).Link?);
    if MeetsNoLink(fs, r) {
      MetIsNoLink(fs, r, i);
      var fs' := Linked(fs, r[..i]);
      LinkedIsMet(fs, r, i);
      if Answered(Trip(fs', r)) == Answer(r, [], true) {
        assert r[..0] == [];
        StableMeetsNoLink(fs', r, 0);
      }
      assert Agrees(fs, fs', known);
    } else {
      assert Agrees(fs, fs, known);
    }
  }

  lemma NoClimbIsCertain(fs: FileSystem, p: seq<string>)
    requires Answered(Trip(fs, p)).ok && !ClimbsOverAbsence(fs, p)
    ensures Certain(fs, LookedUp(fs, p), Answered(Trip(fs, p)).resolved)
  {
    var w, known := Trip(fs, p), LookedUp(fs, p);
    var r := Answered(w).resolved;
    ReresolutionIsStable(fs, p);
    LandingWasLookedUp(fs, MAX_LINK_HOPS, [], p, [], known);
    StepsLand(fs, MAX_LINK_HOPS, [], p, []);
    if w.Absent? {
      NoClimbStaysUnder(w.at, w.rest, 0);
      assert w.at <= r && r[..|w.at|] == w.at;
    }
    forall i | 0 < i <= |r| && ReachedBefore(fs, r, i)
      ensures r[..i] in known && !fs(r[..i]).Link?
    {
      MetIsNoLink(fs, r, i);
      if w.Absent? {
        assert i <= |w.at|;
        assert w.at[..i] == r[..i];
      }
    }
  }

  /** Climbing over an absence back onto the same name is certain; onto a name never looked up it is not,
      whatever that name is. */
  lemma ClimbsDiffer(fs: FileSystem, gone: string, other: string)
    requires IsName(gone) && IsName(other) && gone != other && fs([gone]) == Missing
    ensures ClimbsOverAbsence(fs, [gone, "..", gone, other])
    ensures Certain(fs, LookedUp(fs, [gone, "..", gone, other]), Answered(Trip(fs, [gone, "..", gone, other])).resolved)
    ensures !Certain(fs, LookedUp(fs, [gone, "..", other]), Answered(Trip(fs, [gone, "..", other])).resolved)
  {
    assert [gone] + ["..", gone, other] == [gone, "..", gone, other] && [gone] + ["..", other] == [gone, "..", other];
    AbsentAtOnce(fs, gone, ["..", gone, other]);
    AbsentAtOnce(fs, gone, ["..", other]);
    assert CleanJoin([gone], ["..", gone, other]) == [gone, other] by {
      assert CleanJoin([gone], ["..", gone, other]) == CleanJoin([], [gone, other]) == CleanJoin([gone], [other]);
      CleanJoinNames([gone], [other]);
    }
    assert CleanJoin([gone], ["..", other]) == [other] by {
      assert CleanJoin([gone], ["..", other]) == CleanJoin([], [other]);
      CleanJoinNames([], [other]);
    }
    assert [gone, other][..1] == [gone] && [other][..1] == [other] && [other] != [gone];
    assert ReachedBefore(fs, [other], 1);
  }

  lemma AbsentAtOnce(fs: FileSystem, gone: string, rest: seq<string>)
    requires IsName(gone) && fs([gone]) == Missing
    ensures Trip(fs, [gone] + rest) == Absent([gone], rest, []) && LookedUp(fs, [gone] + rest) == {[gone]}
  {
    assert ([gone] + rest)[1..] == rest && [] + [gone] == [gone];
  }
}
