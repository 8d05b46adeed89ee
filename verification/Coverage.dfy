/** Per-identity bracket coverage (runtimeinput/bracket.go, bracketCoverage) and why a covered
    identity cannot be silently rebound. */
module Coverage {
  import opened Paths
  import opened Walk
  import opened WalkLaws

  datatype Bracket = Bracket(moduleDir: Path, roots: seq<PathId>, exclusions: seq<PathId>)

  /** resolved is aligned with the roots; None for a root that does not resolve and covers nothing. */
  datatype View = View(bracket: Bracket, moduleRoot: Path, resolved: seq<Option<Path>>) {
    predicate Valid() {
      |resolved| == |bracket.roots|
    }
  }

  // ----- The coverage view -----

  function ModuleRoot(fs: FileSystem, moduleDir: Path): Path {
    var a := Answered(Trip(fs, moduleDir));
    if a.ok then a.resolved else moduleDir
  }

  function RootPosition(fs: FileSystem, moduleRoot: Path, root: PathId): Option<Path> {
    var a := Answered(Trip(fs, if root.kind == Rel then CleanJoin(moduleRoot, root.path) else root.path));
    if a.ok then Some(a.resolved) else None
  }

  method CoverageOf(fs: FileSystem, b: Bracket) returns (c: View)
    ensures c.Valid() && c.bracket == b && c.moduleRoot == ModuleRoot(fs, b.moduleDir)
    ensures forall i :: 0 <= i < |b.roots| ==> c.resolved[i] == RootPosition(fs, c.moduleRoot, b.roots[i])
  {
    var answer := ChainResolve(fs, b.moduleDir);
    var moduleRoot := if answer.ok then answer.resolved else b.moduleDir;
    var resolved: seq<Option<Path>> := [];
    for i := 0 to |b.roots|
      invariant |resolved| == i
      invariant forall k :: 0 <= k < i ==> resolved[k] == RootPosition(fs, moduleRoot, b.roots[k])
    {
      var root := b.roots[i];
      var start := root.path;
      if root.kind == Rel { start := CleanJoin(moduleRoot, root.path); }
      answer := ChainResolve(fs, start);
      resolved := resolved + [if answer.ok then Some(answer.resolved) else None];
    }
    c := View(b, moduleRoot, resolved);
  }

  // ----- The region the fingerprint spans -----

  /** Root i holds target at or under its resolved path, outside every excluded subtree. */
  predicate Held(c: View, i: nat, target: Path, absOnly: bool)
    requires c.Valid() && i < |c.resolved|
  {
    && c.resolved[i].Some?
    && (absOnly ==> c.bracket.roots[i].kind == Abs)
    && var offset := PathOffset(c.resolved[i].value, target);
       offset.Some? && !ExcludesIdentity(c.bracket.exclusions, WalkIdentity(c.bracket.roots[i], offset.value))
  }

  ghost predicate InRegion(c: View, target: Path, absOnly: bool)
    requires c.Valid()
  {
    exists i :: 0 <= i < |c.resolved| && Held(c, i, target, absOnly)
  }

  method Contains(c: View, target: Path, absOnly: bool) returns (inside: bool)
    requires c.Valid()
    ensures inside <==> InRegion(c, target, absOnly)
  {
    for i := 0 to |c.resolved|
      invariant forall k :: 0 <= k < i ==> !Held(c, k, target, absOnly)
    {
      if c.resolved[i].None? { continue; }
      if absOnly && c.bracket.roots[i].kind != Abs { continue; }
      var offset := PathOffset(c.resolved[i].value, target);
      if offset.None? { continue; }
      if ExcludesIdentity(c.bracket.exclusions, WalkIdentity(c.bracket.roots[i], offset.value)) { continue; }
      assert Held(c, i, target, absOnly);
      return true;
    }
    return false;
  }

  // ----- covers -----

  /** The walk from start is spanned: where it ends, and every link it traverses. */
  ghost predicate Spanned(fs: FileSystem, c: View, start: Path, absOnly: bool)
    requires c.Valid()
  {
    var a := Answered(Trip(fs, start));
    && a.ok && InRegion(c, a.resolved, absOnly)
    && forall k :: 0 <= k < |a.links| ==> InRegion(c, a.links[k], false)
  }

  /** The position an absolute identity is walked from under absolute root i. */
  function StartUnder(c: View, i: nat, id: PathId): Option<Path>
    requires c.Valid() && i < |c.resolved|
  {
    if c.bracket.roots[i].kind != Abs || c.resolved[i].None? then None
    else match PathOffset(c.bracket.roots[i].path, id.path)
         case None => None
         case Some(offset) => Some(CleanJoin(c.resolved[i].value, offset))
  }

  /** Some start of id has a spanned walk. */
  ghost predicate Covered(fs: FileSystem, c: View, id: PathId)
    requires c.Valid()
  {
    exists start :: StartOf(c, id, start) && Spanned(fs, c, start, id.kind == Abs)
  }

  ghost predicate StartOf(c: View, id: PathId, start: Path)
    requires c.Valid()
  {
    if id.kind == Rel then start == CleanJoin(c.moduleRoot, id.path)
    else exists i :: 0 <= i < |c.resolved| && StartUnder(c, i, id) == Some(start)
  }

  /** An identity's own object under the module view; None when a relative one escapes it. */
  function Materialized(moduleDir: Path, id: PathId): Option<Path> {
    match id.kind
    case Rel => var p := CleanJoin(moduleDir, id.path); if moduleDir <= p then Some(p) else None
    case Abs => Some(CleanJoin([], id.path))
  }

  /** The offending link, spelled under the module root when it lies there. */
  datatype Escape = NoEscape | Inside(rel: Path) | Outside(link: Path)

  function EscapeOf(moduleRoot: Path, link: Path): Escape {
    if moduleRoot <= link then Inside(link[|moduleRoot|..]) else Outside(link)
  }

  /** The first link outside the region, if any. */
  method FirstEscape(c: View, links: seq<Path>) returns (escape: Option<Path>)
    requires c.Valid()
    ensures escape.None? <==> forall k :: 0 <= k < |links| ==> InRegion(c, links[k], false)
    ensures escape.Some? ==> escape.value in links && !InRegion(c, escape.value, false)
  {
    for i := 0 to |links|
      invariant forall k :: 0 <= k < i ==> InRegion(c, links[k], false)
    {
      var inside := Contains(c, links[i], false);
      if !inside { return Some(links[i]); }
    }
    return None;
  }

  /** link is what keeps a walk of id from being spanned. */
  ghost predicate Offends(fs: FileSystem, c: View, id: PathId, link: Path)
    requires c.Valid()
  {
    && !InRegion(c, link, false)
    && exists start :: StartOf(c, id, start) && link in Answered(Trip(fs, start)).links
  }

  method CoversAbsolute(fs: FileSystem, c: View, id: PathId) returns (covered: bool, escaped: Escape)
    requires c.Valid() && id.kind == Abs
    ensures covered <==> Covered(fs, c, id)
    ensures escaped.NoEscape? || (escaped.Outside? && !covered && Offends(fs, c, id, escaped.link))
  {
    escaped := NoEscape;
    for i := 0 to |c.resolved|
      invariant forall k :: 0 <= k < i && StartUnder(c, k, id).Some? ==> !Spanned(fs, c, StartUnder(c, k, id).value, true)
      invariant escaped.NoEscape? || (escaped.Outside? && Offends(fs, c, id, escaped.link))
    {
      var begin := StartUnder(c, i, id);
      if begin.None? { continue; }
      var start := begin.value;
      assert StartOf(c, id, start);
      var answer := ChainResolve(fs, start);
      if !answer.ok { continue; }
      var inside := Contains(c, answer.resolved, true);
      if !inside { continue; }
      var rootEscaped := FirstEscape(c, answer.links);
      if rootEscaped.None? { return true, NoEscape; }
      if escaped.NoEscape? { escaped := Outside(rootEscaped.value); }
    }
    return false, escaped;
  }

  /** err reports a relative identity outside the module. */
  method Covers(fs: FileSystem, c: View, id: PathId) returns (covered: bool, escaped: Escape, err: bool)
    requires c.Valid()
    ensures err <==> !ExcludesIdentity(c.bracket.exclusions, id) && Materialized(c.bracket.moduleDir, id).None?
    ensures covered <==> !ExcludesIdentity(c.bracket.exclusions, id) && !err && Covered(fs, c, id)
    ensures escaped != NoEscape ==> !covered && exists link :: Offends(fs, c, id, link)
                                                               && escaped == if id.kind == Abs then Outside(link) else EscapeOf(c.moduleRoot, link)
    ensures (exists e, rest: Path :: e in c.bracket.exclusions && e.kind == id.kind && id.path == e.path + rest && (e.path == [] ==> rest == []))
            ==> !covered && !err
  {
    ExcludesExactly(c.bracket.exclusions, id);
    if ExcludesIdentity(c.bracket.exclusions, id) { return false, NoEscape, false; }
    if Materialized(c.bracket.moduleDir, id).None? { return false, NoEscape, true; }
    if id.kind == Abs {
      covered, escaped := CoversAbsolute(fs, c, id);
      return covered, escaped, false;
    }
    var start := CleanJoin(c.moduleRoot, id.path);
    assert StartOf(c, id, start);
    var answer := ChainResolve(fs, start);
    if !answer.ok { return false, NoEscape, false; }
    var inside := Contains(c, answer.resolved, false);
    if !inside { return false, NoEscape, false; }
    var link := FirstEscape(c, answer.links);
    if link.Some? {
      assert Offends(fs, c, id, link.value);
      return false, EscapeOf(c.moduleRoot, link.value), false;
    }
    return true, NoEscape, false;
  }

  // ----- No silent rebinding -----

  /** fs' is fs but for the targets of links outside region. */
  ghost predicate Retargets(fs: FileSystem, fs': FileSystem, region: Path -> bool) {
    forall p :: fs'(p) == fs(p) || (fs(p).Link? && fs'(p).Link? && !region(p))
  }

  lemma {:induction false} StepsIgnoreRetargets(fs: FileSystem, fs': FileSystem, region: Path -> bool, budget: nat,
                                                cur: Path, pending: seq<string>, links: seq<Path>)
    requires Retargets(fs, fs', region)
    requires var w := Steps(fs, budget, cur, pending, links);
             !w.Refused? && forall k :: |links| <= k < |w.links| ==> region(w.links[k])
    ensures Steps(fs', budget, cur, pending, links) == Steps(fs, budget, cur, pending, links)
    decreases if |links| <= budget then budget - |links| else 0, |pending|
  {
    if pending != [] {
      var part, rest := pending[0], pending[1..];
      if Skipped(part) {
        StepsIgnoreRetargets(fs, fs', region, budget, cur, rest, links);
      } else if part == ".." {
        StepsIgnoreRetargets(fs, fs', region, budget, Parent(cur), rest, links);
      } else {
        var next := cur + [part];
        match fs(next)
        case Missing =>
        case Unreadable =>
        case File => StepsIgnoreRetargets(fs, fs', region, budget, next, rest, links);
        case Dir => StepsIgnoreRetargets(fs, fs', region, budget, next, rest, links);
        case Link(target) =>
          var base := if target.absolute then [] else cur;
          LinksGrow(fs, budget, base, target.parts + rest, links + [next]);
          assert Steps(fs, budget, cur, pending, links).links[|links|] == next;
          StepsIgnoreRetargets(fs, fs', region, budget, base, target.parts + rest, links + [next]);
      }
    }
  }

  ghost function Region(c: View): Path -> bool
    requires c.Valid()
  {
    (p: Path) => InRegion(c, p, false)
  }

  /** A covered identity walks to the same object through the same links whatever becomes of the
      targets of links outside the region, and stays covered. */
  lemma CoveredCannotRebind(fs: FileSystem, fs': FileSystem, c: View, id: PathId)
    requires c.Valid() && Covered(fs, c, id) && Retargets(fs, fs', Region(c))
    ensures exists start :: StartOf(c, id, start) && Spanned(fs, c, start, id.kind == Abs)
                            && Trip(fs', start) == Trip(fs, start)
    ensures Covered(fs', c, id)
  {
    var start :| StartOf(c, id, start) && Spanned(fs, c, start, id.kind == Abs);
    StepsIgnoreRetargets(fs, fs', Region(c), MAX_LINK_HOPS, [], start, []);
    assert Spanned(fs', c, start, id.kind == Abs);
  }

  // ----- And the residence rule refuses no walk needlessly -----

  /** A link that names its own position walks in circles until the hop budget ends. */
  lemma {:induction false} LoopRefuses(fs: FileSystem, link: Path, rest: seq<string>, links: seq<Path>)
    requires link != [] && Clean(link) && LinkFree(fs, Parent(link)) && fs(link) == Link(Target(true, link))
    ensures Steps(fs, MAX_LINK_HOPS, [], link + rest, links).Refused?
    decreases if |links| <= MAX_LINK_HOPS then MAX_LINK_HOPS - |links| else 0
  {
    var name := link[|link| - 1];
    var head, tail := Parent(link), [name] + rest;
    assert [] + head == head && head + tail == link + rest && head + [name] == link && tail[1..] == rest;
    PlainSteps(fs, MAX_LINK_HOPS, [], head, links);
    StepsAppend(fs, MAX_LINK_HOPS, [], head, tail, links);
    if |links| < MAX_LINK_HOPS {
      LoopRefuses(fs, link, rest, links + [link]);
    }
  }

  ghost function Looped(fs: FileSystem, link: Path): FileSystem {
    (p: Path) => if p == link then Link(Target(true, link)) else fs(p)
  }

  /** Some traversed link outside the region, turned onto itself, makes the whole walk fail. */
  lemma {:induction false} EscapeRebinds(fs: FileSystem, link: Path, cur: Path, pending: seq<string>, links: seq<Path>)
    requires LinkFree(fs, cur) && AllLinks(fs, links) && link !in links
    requires var w := Steps(fs, MAX_LINK_HOPS, cur, pending, links); !w.Refused? && link in w.links
    ensures Steps(Looped(fs, link), MAX_LINK_HOPS, cur, pending, links).Refused?
    decreases if |links| <= MAX_LINK_HOPS then MAX_LINK_HOPS - |links| else 0, |pending|
  {
    var fs' := Looped(fs, link);
    var part, rest := pending[0], pending[1..];
    if Skipped(part) {
      EscapeRebinds(fs, link, cur, rest, links);
    } else if part == ".." {
      LinkFreeParent(fs, cur);
      EscapeRebinds(fs, link, Parent(cur), rest, links);
    } else {
      var next := cur + [part];
      assert Parent(next) == cur;
      if next == link {
        if fs(next).Link? {
          assert forall i :: 0 < i <= |cur| ==> cur[..i] != link;
          assert LinkFree(fs', cur);
          LoopRefuses(fs', link, rest, links + [link]);
        } else {
          StepsLand(fs, MAX_LINK_HOPS, cur, pending, links);
          assert false;
        }
      } else {
        match fs(next)
        case File => LinkFreeChild(fs, cur, part); EscapeRebinds(fs, link, next, rest, links);
        case Dir => LinkFreeChild(fs, cur, part); EscapeRebinds(fs, link, next, rest, links);
        case Link(target) =>
          EscapeRebinds(fs, link, if target.absolute then [] else cur, target.parts + rest, links + [next]);
        case Missing =>
        case Unreadable =>
      }
    }
  }

  /** A walk that ends is proof against every retargeting outside a region exactly when every link it
      traverses lies in the region. */
  lemma ResidenceIsExact(fs: FileSystem, p: Path, region: Path -> bool)
    requires !Trip(fs, p).Refused?
    ensures (forall fs' :: Retargets(fs, fs', region) ==> Trip(fs', p) == Trip(fs, p))
            <==> (forall k :: 0 <= k < |Trip(fs, p).links| ==> region(Trip(fs, p).links[k]))
  {
    if forall k :: 0 <= k < |Trip(fs, p).links| ==> region(Trip(fs, p).links[k]) {
      forall fs' | Retargets(fs, fs', region)
        ensures Trip(fs', p) == Trip(fs, p)
      {
        StepsIgnoreRetargets(fs, fs', region, MAX_LINK_HOPS, [], p, []);
      }
    } else {
      var k :| 0 <= k < |Trip(fs, p).links| && !region(Trip(fs, p).links[k]);
      var link := Trip(fs, p).links[k];
      StepsLand(fs, MAX_LINK_HOPS, [], p, []);
      EscapeRebinds(fs, link, [], p, []);
      assert Retargets(fs, Looped(fs, link), region);
    }
  }
}
