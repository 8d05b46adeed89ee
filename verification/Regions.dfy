/** What bracket coverage amounts to, in terms of the declared roots and exclusions themselves
    (runtimeinput/bracket.go, runtimeinput/testlog.go). */
module Regions {
  import opened Paths
  import opened Walk
  import opened WalkLaws
  import opened Congruence
  import opened Coverage
  import opened GuardCover

  /** Nothing declared excluded stands at or above p as root i spells it. */
  ghost predicate Spared(c: View, i: nat, offset: Path)
    requires c.Valid() && i < |c.bracket.roots|
  {
    var root := c.bracket.roots[i];
    forall e, rest: Path :: e in c.bracket.exclusions && e.kind == root.kind && (e.path == [] ==> rest == []) ==>
      root.path + offset != e.path + rest
  }

  /** A root holds exactly what stands at or below its resolved position and, spelled below the root as
      declared, at or below no exclusion. */
  lemma HeldExactly(c: View, i: nat, target: Path, absOnly: bool)
    requires c.Valid() && i < |c.resolved|
    ensures Held(c, i, target, absOnly) <==>
      && c.resolved[i].Some? && (absOnly ==> c.bracket.roots[i].kind == Abs)
      && exists offset: Path :: target == c.resolved[i].value + offset && (c.resolved[i].value == [] ==> offset == []) && Spared(c, i, offset)
  {
    if c.resolved[i].Some? {
      var at, root := c.resolved[i].value, c.bracket.roots[i];
      forall offset: Path
        ensures ExcludesIdentity(c.bracket.exclusions, WalkIdentity(root, offset)) <==> !Spared(c, i, offset)
      {
        ExcludesExactly(c.bracket.exclusions, WalkIdentity(root, offset));
      }
      forall offset: Path
        ensures PathOffset(at, target) == Some(offset) <==> target == at + offset && (at == [] ==> offset == [])
      {
        OffsetExactly(at, target, offset);
      }
    }
  }

  /** In particular what the fingerprint leaves out is never held: neither an excluded subtree nor anything
      in it. */
  lemma ExcludedIsNotHeld(c: View, i: nat, e: PathId, offset: Path, rest: Path, absOnly: bool)
    requires c.Valid() && i < |c.resolved| && c.resolved[i].Some? && c.resolved[i].value != []
    requires e in c.bracket.exclusions && e.kind == c.bracket.roots[i].kind && e.path != []
    requires c.bracket.roots[i].path + offset == e.path + rest
    ensures !Held(c, i, c.resolved[i].value + offset, absOnly)
  {
    HeldExactly(c, i, c.resolved[i].value + offset, absOnly);
    var at := c.resolved[i].value;
    forall offset': Path | at + offset == at + offset'
      ensures offset' == offset
    {
      assert (at + offset)[|at|..] == offset && (at + offset')[|at|..] == offset';
    }
    assert !Spared(c, i, offset);
  }

  /** The walk ends, and ends and passes only where some root holds. */
  ghost predicate WalksInside(fs: FileSystem, c: View, start: Path, absOnly: bool)
    requires c.Valid()
  {
    && !Trip(fs, start).Refused?
    && (exists i: nat :: i < |c.resolved| && Held(c, i, Answered(Trip(fs, start)).resolved, absOnly))
    && forall link :: link in Answered(Trip(fs, start)).links ==> exists i: nat :: i < |c.resolved| && Held(c, i, link, false)
  }

  lemma SpannedExactly(fs: FileSystem, c: View, start: Path, absOnly: bool)
    requires c.Valid()
    ensures Spanned(fs, c, start, absOnly) <==> WalksInside(fs, c, start, absOnly)
  {
    var a := Answered(Trip(fs, start));
    forall target, only
      ensures InRegion(c, target, only) <==> exists i: nat :: i < |c.resolved| && Held(c, i, target, only)
    {
    }
    if WalksInside(fs, c, start, absOnly) {
      assert forall k :: 0 <= k < |a.links| ==> a.links[k] in a.links;
    }
  }

  /** A relative identity is covered exactly when the walk below the resolved module root stays inside; an
      absolute one exactly when, under some absolute root declared at or above it, the walk from that
      root's own resolved position does, ending under an absolute root. */
  lemma CoveredExactly(fs: FileSystem, c: View, id: PathId)
    requires c.Valid() && Clean(id.path)
    ensures id.kind == Rel ==> (Covered(fs, c, id) <==> WalksInside(fs, c, c.moduleRoot + id.path, false))
    ensures id.kind == Abs ==> (Covered(fs, c, id) <==>
      exists i: nat, offset: Path :: i < |c.resolved| && Under(c, i, id, offset) && WalksInside(fs, c, c.resolved[i].value + offset, true))
  {
    CleanJoinNames(c.moduleRoot, id.path);
    if id.kind == Rel {
      SpannedExactly(fs, c, c.moduleRoot + id.path, false);
      assert StartOf(c, id, c.moduleRoot + id.path);
    } else {
      if Covered(fs, c, id) {
        var start :| StartOf(c, id, start) && Spanned(fs, c, start, true);
        var i :| 0 <= i < |c.resolved| && StartUnder(c, i, id) == Some(start);
        var offset := PathOffset(c.bracket.roots[i].path, id.path).value;
        StartExactly(c, i, id, offset);
        SpannedExactly(fs, c, start, true);
        assert Under(c, i, id, offset);
      }
      if i: nat, offset: Path :| i < |c.resolved| && Under(c, i, id, offset) && WalksInside(fs, c, c.resolved[i].value + offset, true) {
        StartExactly(c, i, id, offset);
        SpannedExactly(fs, c, c.resolved[i].value + offset, true);
        assert StartOf(c, id, c.resolved[i].value + offset);
      }
    }
  }

  /** id stands at offset below absolute root i as declared, which resolves. */
  ghost predicate Under(c: View, i: nat, id: PathId, offset: Path)
    requires c.Valid() && i < |c.resolved|
  {
    && c.bracket.roots[i].kind == Abs && c.resolved[i].Some?
    && id.path == c.bracket.roots[i].path + offset && (c.bracket.roots[i].path == [] ==> offset == [])
  }

  lemma StartExactly(c: View, i: nat, id: PathId, offset: Path)
    requires c.Valid() && i < |c.resolved| && Clean(id.path)
    ensures Under(c, i, id, offset) <==>
      c.bracket.roots[i].kind == Abs && c.resolved[i].Some? && PathOffset(c.bracket.roots[i].path, id.path) == Some(offset)
    ensures Under(c, i, id, offset) ==> StartUnder(c, i, id) == Some(c.resolved[i].value + offset)
  {
    OffsetExactly(c.bracket.roots[i].path, id.path, offset);
    if Under(c, i, id, offset) {
      assert offset == id.path[|c.bracket.roots[i].path|..];
      CleanJoinNames(c.resolved[i].value, offset);
    }
  }

  /** Clean identities never leave the module: the escape error is for spellings that climb. */
  lemma CleanStaysInside(moduleDir: Path, id: PathId)
    requires Clean(id.path)
    ensures Materialized(moduleDir, id) == Some(if id.kind == Rel then moduleDir + id.path else id.path)
  {
    CleanJoinNames(moduleDir, id.path);
    CleanJoinNames([], id.path);
    assert [] + id.path == id.path;
  }

  // ----- Where relative names and roots stand -----

  /** Links already traversed count towards the budget and lead the list; nothing else depends on them. */
  lemma {:induction false} StepsForget(fs: FileSystem, budget: nat, cur: Path, pending: seq<string>, links: seq<Path>, fewer: seq<Path>)
    requires |fewer| <= |links| && !Steps(fs, budget, cur, pending, links).Refused?
    ensures var w, v := Steps(fs, budget, cur, pending, links), Steps(fs, budget, cur, pending, fewer);
      && !v.Refused? && w.Resolved? == v.Resolved? && Answered(v).resolved == Answered(w).resolved
      && exists more :: w.links == links + more && v.links == fewer + more
    decreases if |links| <= budget then budget - |links| else 0, |pending|
  {
    if pending == [] {
      assert links == links + [] && fewer == fewer + [];
    } else {
      var part, rest := pending[0], pending[1..];
      if Skipped(part) {
        StepsForget(fs, budget, cur, rest, links, fewer);
      } else if part == ".." {
        StepsForget(fs, budget, Parent(cur), rest, links, fewer);
      } else {
        var next := cur + [part];
        match fs(next)
        case Missing => assert links == links + [] && fewer == fewer + [];
        case Unreadable =>
        case File => StepsForget(fs, budget, next, rest, links, fewer);
        case Dir => StepsForget(fs, budget, next, rest, links, fewer);
        case Link(target) =>
          var base, parts := if target.absolute then [] else cur, target.parts + rest;
          StepsForget(fs, budget, base, parts, links + [next], fewer + [next]);
          var more :| Steps(fs, budget, base, parts, links + [next]).links == links + [next] + more
                      && Steps(fs, budget, base, parts, fewer + [next]).links == fewer + [next] + more;
          assert links + [next] + more == links + ([next] + more) && fewer + [next] + more == fewer + ([next] + more);
      }
    }
  }

  /** A relative name leads where it leads below the declared module directory, and the links of its walk
      are those traversed below that directory: what the module directory itself traverses does not count. */
  lemma RelativeExactly(fs: FileSystem, moduleDir: Path, path: seq<string>)
    requires Trip(fs, moduleDir).Resolved? && !Trip(fs, moduleDir + path).Refused?
    ensures var whole, below := Answered(Trip(fs, moduleDir + path)), Answered(Trip(fs, ModuleRoot(fs, moduleDir) + path));
      below.ok && below.resolved == whole.resolved && whole.links == Trip(fs, moduleDir).links + below.links
  {
    var at, links := Trip(fs, moduleDir).path, Trip(fs, moduleDir).links;
    StepsLand(fs, MAX_LINK_HOPS, [], moduleDir, []);
    StepsAppend(fs, MAX_LINK_HOPS, [], moduleDir, path, []);
    assert [] + at == at;
    PlainSteps(fs, MAX_LINK_HOPS, [], at, []);
    StepsAppend(fs, MAX_LINK_HOPS, [], at, path, []);
    StepsForget(fs, MAX_LINK_HOPS, at, path, links, []);
    var more :| Steps(fs, MAX_LINK_HOPS, at, path, links).links == links + more && Steps(fs, MAX_LINK_HOPS, at, path, []).links == [] + more;
    assert [] + more == more;
  }

  /** Every root stands where its declared path leads, a relative one from the module directory; a root
      whose absolute path leads nowhere has no position. */
  lemma PositionExactly(fs: FileSystem, moduleDir: Path, root: PathId)
    requires Clean(root.path)
    ensures root.kind == Abs ==>
      RootPosition(fs, ModuleRoot(fs, moduleDir), root)
        == if Trip(fs, root.path).Refused? then None else Some(Answered(Trip(fs, root.path)).resolved)
    ensures root.kind == Rel && Trip(fs, moduleDir).Resolved? && !Trip(fs, moduleDir + root.path).Refused? ==>
      RootPosition(fs, ModuleRoot(fs, moduleDir), root) == Some(Answered(Trip(fs, moduleDir + root.path)).resolved)
  {
    CleanJoinNames(ModuleRoot(fs, moduleDir), root.path);
    if root.kind == Rel && Trip(fs, moduleDir).Resolved? && !Trip(fs, moduleDir + root.path).Refused? {
      RelativeExactly(fs, moduleDir, root.path);
    }
  }

  /** The link that escaped is named below the module root when it stands there, and by its whole path
      otherwise. */
  lemma EscapeExactly(moduleRoot: Path, link: Path, rel: Path)
    ensures EscapeOf(moduleRoot, link) == Inside(rel) <==> link == moduleRoot + rel
    ensures EscapeOf(moduleRoot, link) == Outside(link) <==> forall rest: Path :: link != moduleRoot + rest
  {
    if moduleRoot <= link {
      assert link == moduleRoot + link[|moduleRoot|..];
      if link == moduleRoot + rel { assert link[|moduleRoot|..] == rel; }
    }
  }

  // ----- Guard roots -----

  /** A path whose object does not exist needs a record, whatever root holds it. */
  lemma AbsentIsNotCovered(fs: FileSystem, p: Path, r: GuardRoot)
    requires Trip(fs, p).Absent? && !ClimbsOverAbsence(fs, p)
    ensures !CoveredBy(fs, p, r)
  {
    var q := Answered(Trip(fs, p)).resolved;
    ReresolutionIsStable(fs, p);
    StepsLand(fs, MAX_LINK_HOPS, [], p, []);
    NoClimbStaysUnder(Trip(fs, p).at, Trip(fs, p).rest, 0);
    var at := Trip(fs, p).at;
    assert at[..|at|] == at && at <= q && q[..|at|] == at;
    MissingPrefix(fs, q, |at|);
  }

  /** lstat finds nothing at or below an absent component. */
  lemma MissingPrefix(fs: FileSystem, q: Path, i: nat)
    requires 0 < i <= |q| && Clean(q) && LinkFree(fs, Parent(q[..i])) && fs(q[..i]) == Missing
    ensures !Exists(fs, q)
  {
    var head := Parent(q);
    StepsFollowKernel(fs, MAX_LINK_HOPS, [], head, []);
    if i == |q| {
      assert q[..i] == q && [] + head == head && head + [q[|q| - 1]] == q;
      PlainSteps(fs, MAX_LINK_HOPS, [], head, []);
    } else {
      assert head[..i] == q[..i] && head[..i - 1] == Parent(q[..i]);
      assert MeetsNoLink(fs, head);
      PlainTrip(fs, head);
      StepsLand(fs, MAX_LINK_HOPS, [], head, []);
      assert !LinkFree(fs, head);
    }
  }

  /** Every component of p but the last is a directory. */
  ghost predicate Reached(fs: FileSystem, p: Path) {
    forall i :: 0 <= i < |p| ==> IsDirectory(fs, p[..i])
  }

  /** The kernel walks a path of directories to its end. */
  lemma {:induction false} ReachedIsFound(fs: FileSystem, p: Path, k: nat)
    requires LinkFree(fs, p) && Reached(fs, p) && k <= |p|
    ensures KernelSteps(fs, MAX_LINK_HOPS, p[..k], p[k..], []) == Found(p, [])
    decreases |p| - k
  {
    if k == |p| {
      assert p[..k] == p;
    } else {
      assert IsDirectory(fs, p[..k]) && IsName(p[k]) && p[..k] + [p[k]] == p[..k + 1] && p[k..][1..] == p[k + 1..];
      ReachedIsFound(fs, p, k + 1);
    }
  }

  /** A path whose walk ends at an object, reached through directories, is covered by a root exactly when
      that root admits the path, the object, and every link of the walk. */
  lemma GuardCoveredExactly(fs: FileSystem, p: Path, r: GuardRoot)
    requires Trip(fs, p).Resolved? && Reached(fs, Trip(fs, p).path)
    ensures CoveredBy(fs, p, r) <==>
      Admitted(r, p) && Admitted(r, Trip(fs, p).path) && forall link :: link in Trip(fs, p).links ==> Admitted(r, link)
  {
    var q, links := Trip(fs, p).path, Trip(fs, p).links;
    StepsLand(fs, MAX_LINK_HOPS, [], p, []);
    if q != [] {
      LinkFreeParent(fs, q);
      assert Parent(q)[..0] == [] && Parent(q)[0..] == Parent(q) && Parent(q) + [q[|q| - 1]] == q == q[..|q|];
      assert forall i :: 0 <= i < |Parent(q)| ==> Parent(q)[..i] == q[..i];
      ReachedIsFound(fs, Parent(q), 0);
      assert IsDirectory(fs, q[..|q| - 1]);
    }
    assert Exists(fs, q);
    assert (forall link :: link in links ==> Admitted(r, link)) <==> forall k :: 0 <= k < |links| ==> Admitted(r, links[k]) by {
      forall link | (forall k :: 0 <= k < |links| ==> Admitted(r, links[k])) && link in links
        ensures Admitted(r, link)
      {
        var k :| 0 <= k < |links| && links[k] == link;
      }
      assert forall k :: 0 <= k < |links| ==> links[k] in links;
    }
  }

  /** path stands at or below base, and not at or below its one uncovered direct subtree. */
  ghost predicate InForm(r: GuardRoot, base: Path, path: Path) {
    exists rest: Path :: path == base + rest && (r.excludeSub.Some? ==> rest == [] || rest[0] != r.excludeSub.value)
  }

  ghost predicate Below(base: Path, path: Path) {
    exists rest: Path :: path == base + rest
  }

  /** A guard root admits what stands in its lexical form's covered region, or outside that form altogether
      and in its resolved form's. */
  lemma AdmittedExactly(r: GuardRoot, path: Path)
    ensures Admitted(r, path) <==> InForm(r, r.lexical, path) || (!Below(r.lexical, path) && InForm(r, r.resolved, path))
  {
    WithinExactly(r, r.lexical, path);
    WithinExactly(r, r.resolved, path);
  }

  lemma WithinExactly(r: GuardRoot, base: Path, path: Path)
    ensures Within(base, path) <==> Below(base, path)
    ensures Within(base, path) && !Excluded(r, base, path) <==> InForm(r, base, path)
  {
    if base <= path {
      var rest := path[|base|..];
      assert path == base + rest;
      if r.excludeSub.Some? {
        var sub := base + [r.excludeSub.value];
        if rest != [] && rest[0] == r.excludeSub.value { assert sub == path[..|sub|]; }
        if sub <= path { assert path[|base|] == sub[|base|]; }
      }
      forall other: Path | path == base + other
        ensures other == rest
      {
        assert (base + other)[|base|..] == other;
      }
    }
  }
}
