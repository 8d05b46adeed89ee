/** Guard-covered roots: reads that need no record because a guard already binds them
    (runtimeinput/testlog.go, guardCovered). */
module GuardCover {
  import opened Paths
  import opened Walk
  import opened WalkLaws
  import opened Congruence
  import opened Coverage

  /** A declared root in its lexical and resolved forms, and its one uncovered direct subtree. */
  datatype GuardRoot = GuardRoot(lexical: Path, resolved: Path, excludeSub: Option<string>)

  /** pathWithin: the filesystem root holds every absolute path. */
  predicate Within(root: Path, target: Path) {
    root <= target
  }

  predicate Excluded(r: GuardRoot, base: Path, path: Path) {
    r.excludeSub.Some? && Within(base + [r.excludeSub.value], path)
  }

  /** The first form that holds the path decides. */
  predicate Admitted(r: GuardRoot, path: Path) {
    if Within(r.lexical, path) then !Excluded(r, r.lexical, path)
    else Within(r.resolved, path) && !Excluded(r, r.resolved, path)
  }

  method Admits(r: GuardRoot, path: Path) returns (admitted: bool)
    ensures admitted <==> Admitted(r, path)
  {
    var bases := [r.lexical, r.resolved];
    for i := 0 to |bases|
      invariant forall k :: 0 <= k < i ==> !Within(bases[k], path)
    {
      if !Within(bases[i], path) { continue; }
      assert i > 0 ==> !Within(bases[0], path);
      return !Excluded(r, bases[i], path);
    }
    assert !Within(bases[0], path) && !Within(bases[1], path);
    return false;
  }

  predicate Exists(fs: FileSystem, path: Path) {
    var node := Lstat(fs, MAX_LINK_HOPS, path);
    !node.Missing? && !node.Unreadable?
  }

  /** r alone admits the whole walk: the path, the existing object it ends at, and every link on the way. */
  predicate CoveredBy(fs: FileSystem, p: Path, r: GuardRoot) {
    var a := Answered(Trip(fs, p));
    && Admitted(r, p) && a.ok && Exists(fs, a.resolved) && Admitted(r, a.resolved)
    && forall k :: 0 <= k < |a.links| ==> Admitted(r, a.links[k])
  }

  /** One root's failed leg is that root's verdict, never the walk's. */
  method GuardCovered(fs: FileSystem, p: Path, roots: seq<GuardRoot>) returns (covered: bool)
    ensures covered <==> exists i :: 0 <= i < |roots| && CoveredBy(fs, p, roots[i])
  {
    hide Lstat, Trip, Answered;
    var answer := Answer([], [], false);
    var resolvedOnce := false;
    for i := 0 to |roots|
      invariant forall k :: 0 <= k < i ==> !CoveredBy(fs, p, roots[k])
      invariant resolvedOnce ==> answer == Answered(Trip(fs, p)) && answer.ok && Exists(fs, answer.resolved)
    {
      var r := roots[i];
      var here := Admits(r, p);
      if !here { continue; }
      if !resolvedOnce {
        answer := ChainResolve(fs, p);
        if !answer.ok { return false; }
        if !Exists(fs, answer.resolved) { return false; }
        resolvedOnce := true;
      }
      var inside := Admits(r, answer.resolved);
      if !inside { continue; }
      var admitted := true;
      for k := 0 to |answer.links|
        invariant admitted <==> forall j :: 0 <= j < k ==> Admitted(r, answer.links[j])
      {
        var link := Admits(r, answer.links[k]);
        if !link {
          admitted := false;
          break;
        }
      }
      if admitted {
        assert CoveredBy(fs, p, r);
        return true;
      }
    }
    return false;
  }

  /** The links a root does not admit can be pointed anywhere: a covered path walks to the same object
      through the same links, and when that object is where the walk ends, it stays covered. */
  lemma GuardCoveredCannotRebind(fs: FileSystem, fs': FileSystem, p: Path, r: GuardRoot)
    requires CoveredBy(fs, p, r) && Retargets(fs, fs', path => Admitted(r, path))
    ensures Trip(fs', p) == Trip(fs, p)
    ensures Trip(fs, p).Resolved? ==> CoveredBy(fs', p, r)
  {
    StepsIgnoreRetargets(fs, fs', path => Admitted(r, path), MAX_LINK_HOPS, [], p, []);
    StepsLand(fs, MAX_LINK_HOPS, [], p, []);
    if Trip(fs, p).Resolved? { SameLstat(fs, fs', path => Admitted(r, path), Trip(fs, p).path); }
  }

  lemma SameLstat(fs: FileSystem, fs': FileSystem, region: Path -> bool, q: Path)
    requires LinkFree(fs, q) && Retargets(fs, fs', region)
    ensures Lstat(fs', MAX_LINK_HOPS, q) == Lstat(fs, MAX_LINK_HOPS, q)
  {
    if q != [] {
      LinkFreeParent(fs, q);
      assert [] + Parent(q) == Parent(q);
      PlainKernel(fs, fs', region, MAX_LINK_HOPS, [], Parent(q), []);
      assert Parent(q) + [q[|q| - 1]] == q == q[..|q|];
    }
  }

  /** The kernel's walk along a link-free path meets nothing retargeting can change. */
  lemma {:induction false} PlainKernel(fs: FileSystem, fs': FileSystem, region: Path -> bool, budget: nat, cur: Path, names: Path, links: seq<Path>)
    requires LinkFree(fs, cur + names) && Retargets(fs, fs', region)
    ensures KernelSteps(fs', budget, cur, names, links) == KernelSteps(fs, budget, cur, names, links)
    ensures KernelSteps(fs, budget, cur, names, links).Found? ==> KernelSteps(fs, budget, cur, names, links).path == cur + names
    decreases |names|
  {
    var whole := cur + names;
    assert cur != [] ==> cur == whole[..|cur|];
    if names == [] {
      assert whole == cur;
    } else {
      var next := cur + [names[0]];
      assert next == whole[..|cur| + 1] && IsName(whole[|cur|]) && next + names[1..] == whole;
      PlainKernel(fs, fs', region, budget, next, names[1..], links);
    }
  }
}
