/** What resolution guarantees (runtimeinput/bracket.go, chainResolve): how walks compose, where they land,
    and when a result resolves to itself. */
module WalkLaws {
  import opened Paths
  import opened PathFacts
  import opened Walk

  // ----- Composition -----

  lemma {:induction false} StepsAppend(fs: FileSystem, budget: nat, cur: Path, a: seq<string>, b: seq<string>, links: seq<Path>)
    ensures Steps(fs, budget, cur, a + b, links) == match Steps(fs, budget, cur, a, links)
                                                    case Resolved(path, more) => Steps(fs, budget, path, b, more)
                                                    case Absent(at, rest, more) => Absent(at, rest + b, more)
                                                    case Refused => Refused
    decreases if |links| <= budget then budget - |links| else 0, |a|
  {
    if a == [] {
      assert a + b == b;
    } else {
      var part, rest := a[0], a[1..];
      assert (a + b)[1..] == rest + b;
      if Skipped(part) {
        StepsAppend(fs, budget, cur, rest, b, links);
      } else if part == ".." {
        StepsAppend(fs, budget, Parent(cur), rest, b, links);
      } else {
        var next := cur + [part];
        match fs(next)
        case Missing =>
        case Unreadable =>
        case File => StepsAppend(fs, budget, next, rest, b, links);
        case Dir => StepsAppend(fs, budget, next, rest, b, links);
        case Link(target) =>
          if |links| < budget {
            assert target.parts + rest + b == target.parts + (rest + b);
            StepsAppend(fs, budget, if target.absolute then [] else cur, target.parts + rest, b, links + [next]);
          }
      }
    }
  }

  /** Every component along p is an existing file or directory. */
  ghost predicate LinkFree(fs: FileSystem, p: Path) {
    Clean(p) && forall i :: 0 < i <= |p| ==> fs(p[..i]) == File || fs(p[..i]) == Dir
  }

  lemma LinkFreeParent(fs: FileSystem, p: Path)
    requires LinkFree(fs, p)
    ensures LinkFree(fs, Parent(p))
  {
    forall i | 0 < i <= |Parent(p)|
      ensures fs(Parent(p)[..i]) == File || fs(Parent(p)[..i]) == Dir
    {
      assert Parent(p)[..i] == p[..i];
    }
  }

  lemma LinkFreeChild(fs: FileSystem, p: Path, name: string)
    requires LinkFree(fs, p) && IsName(name) && (fs(p + [name]) == File || fs(p + [name]) == Dir)
    ensures LinkFree(fs, p + [name])
  {
    var q := p + [name];
    forall i | 0 < i <= |q|
      ensures fs(q[..i]) == File || fs(q[..i]) == Dir
    {
      if i < |q| { assert q[..i] == p[..i]; } else { assert q[..i] == q; }
    }
  }

  /** Where a walk can end: at a link-free path, or one name past one; and what it traversed are links. */
  ghost predicate Landed(fs: FileSystem, w: Walked) {
    match w
    case Resolved(path, links) => LinkFree(fs, path) && AllLinks(fs, links)
    case Absent(at, _, links) => at != [] && Clean(at) && LinkFree(fs, Parent(at)) && fs(at) == Missing && AllLinks(fs, links)
    case Refused => true
  }

  /** Each traversed link is a link, reached through a link-free directory path. */
  ghost predicate AllLinks(fs: FileSystem, links: seq<Path>) {
    forall i :: 0 <= i < |links| ==> links[i] != [] && fs(links[i]).Link? && Clean(links[i]) && LinkFree(fs, Parent(links[i]))
  }

  lemma {:induction false} StepsLand(fs: FileSystem, budget: nat, cur: Path, pending: seq<string>, links: seq<Path>)
    requires LinkFree(fs, cur) && AllLinks(fs, links)
    ensures Landed(fs, Steps(fs, budget, cur, pending, links))
    decreases if |links| <= budget then budget - |links| else 0, |pending|
  {
    if pending != [] {
      var part, rest := pending[0], pending[1..];
      if Skipped(part) {
        StepsLand(fs, budget, cur, rest, links);
      } else if part == ".." {
        LinkFreeParent(fs, cur);
        StepsLand(fs, budget, Parent(cur), rest, links);
      } else {
        var next := cur + [part];
        assert Parent(next) == cur;
        match fs(next)
        case Missing =>
        case Unreadable =>
        case File => LinkFreeChild(fs, cur, part); StepsLand(fs, budget, next, rest, links);
        case Dir => LinkFreeChild(fs, cur, part); StepsLand(fs, budget, next, rest, links);
        case Link(target) =>
          if |links| < budget {
            StepsLand(fs, budget, if target.absolute then [] else cur, target.parts + rest, links + [next]);
          }
      }
    }
  }

  /** Walking names along a link-free path stays on it. */
  lemma {:induction false} PlainSteps(fs: FileSystem, budget: nat, cur: Path, names: Path, links: seq<Path>)
    requires LinkFree(fs, cur + names)
    ensures Steps(fs, budget, cur, names, links) == Resolved(cur + names, links)
    decreases |names|
  {
    if names == [] {
      assert cur + names == cur;
    } else {
      var next := cur + [names[0]];
      assert next == (cur + names)[..|cur| + 1];
      assert IsName((cur + names)[|cur|]);
      assert next + names[1..] == cur + names;
      PlainSteps(fs, budget, next, names[1..], links);
    }
  }

  // ----- Resolving a result again -----

  /** The parts step back over the position they start from. */
  predicate Climbs(parts: seq<string>, depth: nat)
    decreases |parts|
  {
    && parts != []
    && (if Skipped(parts[0]) then Climbs(parts[1..], depth)
        else if parts[0] == ".." then depth == 0 || Climbs(parts[1..], depth - 1)
        else Climbs(parts[1..], depth + 1))
  }

  lemma {:induction false} NoClimbStaysUnder(base: Path, parts: seq<string>, depth: nat)
    requires !Climbs(parts, depth) && depth <= |base| && Clean(base)
    ensures base[..|base| - depth] <= CleanJoin(base, parts) && Clean(CleanJoin(base, parts))
    decreases |parts|
  {
    if parts != [] {
      if Skipped(parts[0]) {
        NoClimbStaysUnder(base, parts[1..], depth);
      } else if parts[0] == ".." {
        NoClimbStaysUnder(Parent(base), parts[1..], depth - 1);
        assert Parent(base)[..|base| - depth] == base[..|base| - depth];
      } else {
        NoClimbStaysUnder(base + [parts[0]], parts[1..], depth + 1);
        assert (base + [parts[0]])[..|base| - depth] == base[..|base| - depth];
      }
    }
  }

  /** The walk of p met an absent component and lexical joining stepped back over it. */
  predicate ClimbsOverAbsence(fs: FileSystem, p: seq<string>) {
    var w := Trip(fs, p);
    w.Absent? && Climbs(w.rest, 0)
  }

  /** No component of p, up to the first absent one, is a link or unreadable. */
  ghost predicate MeetsNoLink(fs: FileSystem, p: Path) {
    || LinkFree(fs, p)
    || (exists i :: 0 < i <= |p| && LinkFree(fs, p[..i - 1]) && fs(p[..i]) == Missing)
  }

  lemma {:induction false} PlainTrip(fs: FileSystem, p: Path)
    requires Clean(p) && MeetsNoLink(fs, p)
    ensures Answered(Trip(fs, p)) == Answer(p, [], true)
    ensures LinkFree(fs, p) ==> Trip(fs, p) == Resolved(p, [])
  {
    if LinkFree(fs, p) {
      assert [] + p == p;
      PlainSteps(fs, MAX_LINK_HOPS, [], p, []);
    } else {
      var i :| 0 < i <= |p| && LinkFree(fs, p[..i - 1]) && fs(p[..i]) == Missing;
      var head, tail := p[..i - 1], p[i - 1..];
      assert [] + head == head && head + tail == p;
      PlainSteps(fs, MAX_LINK_HOPS, [], head, []);
      StepsAppend(fs, MAX_LINK_HOPS, [], head, tail, []);
      assert head + [tail[0]] == p[..i] && tail[1..] == p[i..];
      CleanJoinNames(p[..i], p[i..]);
      assert p[..i] + p[i..] == p;
    }
  }

  /** A path whose resolution is itself with no link traversed meets no link on the way. */
  lemma {:induction false} StableMeetsNoLink(fs: FileSystem, p: Path, n: nat)
    requires Clean(p) && Answered(Trip(fs, p)) == Answer(p, [], true)
    requires n <= |p| && LinkFree(fs, p[..n])
    ensures MeetsNoLink(fs, p)
    decreases |p| - n
  {
    if n == |p| {
      assert p[..n] == p;
    } else {
      var head, tail := p[..n], p[n..];
      assert [] + head == head && head + tail == p;
      PlainSteps(fs, MAX_LINK_HOPS, [], head, []);
      StepsAppend(fs, MAX_LINK_HOPS, [], head, tail, []);
      var next := p[..n + 1];
      assert next == head + [tail[0]];
      assert p[..n + 1 - 1] == head;
      match fs(next)
      case Missing =>
      case Unreadable =>
      case File => LinkFreeChild(fs, head, tail[0]); StableMeetsNoLink(fs, p, n + 1);
      case Dir => LinkFreeChild(fs, head, tail[0]); StableMeetsNoLink(fs, p, n + 1);
      case Link(target) => LinksGrow(fs, MAX_LINK_HOPS, if target.absolute then [] else head, target.parts + tail[1..], [] + [next]);
    }
  }

  lemma {:induction false} LinksGrow(fs: FileSystem, budget: nat, cur: Path, pending: seq<string>, links: seq<Path>)
    ensures var w := Steps(fs, budget, cur, pending, links); w.Refused? || links <= w.links
    decreases if |links| <= budget then budget - |links| else 0, |pending|
  {
    if pending != [] {
      var part, rest := pending[0], pending[1..];
      if Skipped(part) {
        LinksGrow(fs, budget, cur, rest, links);
      } else if part == ".." {
        LinksGrow(fs, budget, Parent(cur), rest, links);
      } else {
        var next := cur + [part];
        match fs(next)
        case Missing =>
        case Unreadable =>
        case File => LinksGrow(fs, budget, next, rest, links);
        case Dir => LinksGrow(fs, budget, next, rest, links);
        case Link(target) =>
          if |links| < budget {
            LinksGrow(fs, budget, if target.absolute then [] else cur, target.parts + rest, links + [next]);
          }
      }
    }
  }

  /** Resolving a resolution again returns it with no links, exactly when it meets no link on the way;
      and it does unless the walk stepped back over an absent component. */
  lemma ReresolutionIsStable(fs: FileSystem, p: seq<string>)
    requires Answered(Trip(fs, p)).ok
    ensures var r := Answered(Trip(fs, p)).resolved;
            && Clean(r)
            && (Answered(Trip(fs, r)) == Answer(r, [], true) <==> MeetsNoLink(fs, r))
            && (!ClimbsOverAbsence(fs, p) ==> MeetsNoLink(fs, r))
            && (Trip(fs, p).Resolved? ==> LinkFree(fs, r))
  {
    var w := Trip(fs, p);
    var r := Answered(w).resolved;
    StepsLand(fs, MAX_LINK_HOPS, [], p, []);
    if w.Absent? {
      CleanJoinIsClean(w.at, w.rest);
      if !ClimbsOverAbsence(fs, p) {
        NoClimbStaysUnder(w.at, w.rest, 0);
        var i := |w.at|;
        assert w.at[..i] == w.at && w.at <= r && r[..i] == w.at;
        assert r[..i - 1] == Parent(w.at);
      }
    }
    if MeetsNoLink(fs, r) { PlainTrip(fs, r); }
    if Answered(Trip(fs, r)) == Answer(r, [], true) {
      assert r[..0] == [];
      StableMeetsNoLink(fs, r, 0);
    }
  }

  /** Stepping back over an absent component onto a link: the answer is an existing path that is a link,
      returned with no link traversed, whatever else the filesystem holds. */
  lemma ClimbReturnsALink(fs: FileSystem, gone: string, link: string)
    requires IsName(gone) && IsName(link) && fs([gone]) == Missing && fs([link]).Link?
    ensures Answered(Trip(fs, [gone, "..", link])) == Answer([link], [], true)
    ensures ClimbsOverAbsence(fs, [gone, "..", link]) && !MeetsNoLink(fs, [link])
    ensures Answered(Trip(fs, [link])) != Answer([link], [], true)
  {
    assert [gone, "..", link][1..] == ["..", link] && [] + [gone] == [gone];
    assert Steps(fs, MAX_LINK_HOPS, [], [gone, "..", link], []) == Absent([] + [gone], ["..", link], []);
    assert CleanJoin([gone], ["..", link]) == CleanJoin([], [link]) == CleanJoin([link], []);
    assert !LinkFree(fs, [link]) by { assert [link][..1] == [link]; }
    forall i | 0 < i <= 1
      ensures fs([link][..i]) != Missing
    {
      assert [link][..i] == [link];
    }
    if Answered(Trip(fs, [link])) == Answer([link], [], true) {
      assert [link][..0] == [];
      StableMeetsNoLink(fs, [link], 0);
      assert false;
    }
  }
}
