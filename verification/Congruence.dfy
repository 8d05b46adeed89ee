/** Pathname resolution as the kernel does it, and the proof that lexical cleaning matches it
    (runtimeinput/testlog.go, congruentTraversal). */
module Congruence {
  import opened Paths
  import opened Walk
  import opened WalkLaws

  // ----- POSIX.1-2017 Base Definitions, section 4.13 -----

  datatype Errno = ENOENT | ENOTDIR | ELOOP | EACCES

  datatype Kernel = Found(path: Path, links: seq<Path>) | Failed(errno: Errno)

  predicate IsDirectory(fs: FileSystem, p: Path) {
    p == [] || fs(p) == Dir
  }

  predicate EmptyTarget(target: Target) {
    !target.absolute && target.parts == [""]
  }

  /** Every further part, an empty one after a trailing slash included, is looked up in a directory. */
  function KernelSteps(fs: FileSystem, budget: nat, cur: Path, pending: seq<string>, links: seq<Path>): Kernel
    decreases if |links| <= budget then budget - |links| else 0, |pending|
  {
    if pending == [] then Found(cur, links)
    else if !IsDirectory(fs, cur) then Failed(ENOTDIR)
    else
      var part, rest := pending[0], pending[1..];
      if Skipped(part) then KernelSteps(fs, budget, cur, rest, links)
      else if part == ".." then KernelSteps(fs, budget, Parent(cur), rest, links)
      else
        var next := cur + [part];
        match fs(next)
        case Missing => Failed(ENOENT)
        case Unreadable => Failed(EACCES)
        case File => KernelSteps(fs, budget, next, rest, links)
        case Dir => KernelSteps(fs, budget, next, rest, links)
        case Link(target) =>
          if EmptyTarget(target) then Failed(ENOENT)
          else if |links| >= budget then Failed(ELOOP)
          else KernelSteps(fs, budget, if target.absolute then [] else cur, target.parts + rest, links + [next])
  }

  function Resolve(fs: FileSystem, budget: nat, p: seq<string>): Kernel {
    KernelSteps(fs, budget, [], p, [])
  }

  /** chainResolve against the kernel: whatever the kernel resolves within its own, lower, budget it
      resolves to the same object through the same links, and what it reports absent or refused the
      kernel does not resolve. */
  lemma {:induction false} StepsFollowKernel(fs: FileSystem, budget: nat, cur: Path, pending: seq<string>, links: seq<Path>)
    requires budget <= MAX_LINK_HOPS
    ensures var k, w := KernelSteps(fs, budget, cur, pending, links), Steps(fs, MAX_LINK_HOPS, cur, pending, links);
            && (k.Found? ==> w == Resolved(k.path, k.links))
            && (w.Absent? ==> k.Failed? && k.errno != EACCES)
            && (w.Resolved? && k.Failed? ==> k.errno != EACCES)
    decreases if |links| <= MAX_LINK_HOPS then MAX_LINK_HOPS - |links| else 0, |pending|
  {
    if pending != [] && IsDirectory(fs, cur) {
      var part, rest := pending[0], pending[1..];
      if Skipped(part) {
        StepsFollowKernel(fs, budget, cur, rest, links);
      } else if part == ".." {
        StepsFollowKernel(fs, budget, Parent(cur), rest, links);
      } else {
        var next := cur + [part];
        match fs(next)
        case Missing =>
        case Unreadable =>
        case File => StepsFollowKernel(fs, budget, next, rest, links);
        case Dir => StepsFollowKernel(fs, budget, next, rest, links);
        case Link(target) =>
          if |links| < budget {
            StepsFollowKernel(fs, budget, if target.absolute then [] else cur, target.parts + rest, links + [next]);
          }
      }
    }
  }

  lemma {:induction false} KernelAppend(fs: FileSystem, budget: nat, cur: Path, a: seq<string>, b: seq<string>, links: seq<Path>)
    ensures KernelSteps(fs, budget, cur, a + b, links) == match KernelSteps(fs, budget, cur, a, links)
                                                          case Found(path, more) => KernelSteps(fs, budget, path, b, more)
                                                          case Failed(errno) => Failed(errno)
    decreases if |links| <= budget then budget - |links| else 0, |a|
  {
    if a == [] {
      assert a + b == b;
    } else if IsDirectory(fs, cur) {
      var part, rest := a[0], a[1..];
      assert (a + b)[1..] == rest + b;
      if Skipped(part) {
        KernelAppend(fs, budget, cur, rest, b, links);
      } else if part == ".." {
        KernelAppend(fs, budget, Parent(cur), rest, b, links);
      } else {
        var next := cur + [part];
        match fs(next)
        case Missing =>
        case Unreadable =>
        case File => KernelAppend(fs, budget, next, rest, b, links);
        case Dir => KernelAppend(fs, budget, next, rest, b, links);
        case Link(target) =>
          if |links| < budget {
            assert target.parts + rest + b == target.parts + (rest + b);
            KernelAppend(fs, budget, if target.absolute then [] else cur, target.parts + rest, b, links + [next]);
          }
      }
    }
  }

  /** lstat: the kernel resolves the parent and looks the last name up without following it. */
  function Lstat(fs: FileSystem, budget: nat, p: Path): Node {
    if p == [] then Dir
    else match Resolve(fs, budget, Parent(p))
         case Found(dir, _) => if IsDirectory(fs, dir) then fs(dir + [p[|p| - 1]]) else Unreadable
         case Failed(errno) => if errno == ENOENT then Missing else Unreadable
  }

  // ----- congruentTraversal -----

  /** Whether lexical cleaning of the parts from cur matches the walk: every directory stepped back over
      is really one. volatile is the purely lexical judgment of kernel-fabricated paths. */
  predicate Congruent(fs: FileSystem, budget: nat, volatile: Path -> bool, cur: Path, parts: seq<string>)
    decreases |parts|
  {
    || parts == []
    || (Skipped(parts[0]) && Congruent(fs, budget, volatile, cur, parts[1..]))
    || (parts[0] == ".."
        && (cur == [] || (!volatile(cur) && Lstat(fs, budget, cur) == Dir))
        && Congruent(fs, budget, volatile, Parent(cur), parts[1..]))
    || (IsName(parts[0]) && Congruent(fs, budget, volatile, cur + [parts[0]], parts[1..]))
  }

  datatype Logged = Logged(absolute: bool, parts: seq<string>)

  /** cwd is None for a working directory that is no absolute path. */
  method CongruentTraversal(fs: FileSystem, budget: nat, volatile: Path -> bool, cwd: Option<Path>, name: Logged) returns (ok: bool)
    ensures ok <==> (name.absolute || cwd.Some?)
                    && Congruent(fs, budget, volatile, if name.absolute then [] else cwd.value, name.parts)
  {
    var cur: Path := [];
    if !name.absolute {
      if cwd.None? { return false; }
      cur := cwd.value;
    }
    ghost var start := cur;
    for i := 0 to |name.parts|
      invariant Congruent(fs, budget, volatile, start, name.parts) <==> Congruent(fs, budget, volatile, cur, name.parts[i..])
    {
      var component := name.parts[i];
      assert name.parts[i..][1..] == name.parts[i + 1..];
      if component == "" || component == "." {
      } else if component == ".." {
        var parent := Parent(cur);
        if parent == cur { continue; }
        if volatile(cur) { return false; }
        if Lstat(fs, budget, cur) != Dir { return false; }
        cur := parent;
      } else {
        cur := cur + [component];
      }
    }
    return true;
  }

  predicate HasParentTraversal(name: Logged) {
    ".." in name.parts
  }

  method AmbiguousTraversal(fs: FileSystem, budget: nat, volatile: Path -> bool, cwd: Option<Path>, name: Logged) returns (ambiguous: bool)
    ensures ambiguous <==> ".." in name.parts && !((name.absolute || cwd.Some?)
                           && Congruent(fs, budget, volatile, if name.absolute then [] else cwd.value, name.parts))
    ensures !ambiguous && budget <= MAX_LINK_HOPS && (name.absolute || (cwd.Some? && Clean(cwd.value))) ==>
      ResolvesAlike(fs, budget, if name.absolute then [] else cwd.value, name.parts)
  {
    hide Congruent, ResolvesAlike;
    if budget <= MAX_LINK_HOPS && (name.absolute || (cwd.Some? && Clean(cwd.value))) {
      UnambiguousResolvesAlike(fs, budget, volatile, if name.absolute then [] else cwd.value, name.parts);
    }
    if !HasParentTraversal(name) { return false; }
    var ok := CongruentTraversal(fs, budget, volatile, cwd, name);
    return !ok;
  }

  // ----- What congruence proves -----

  /** Raw and cleaned, the parts under base are one answer to the resolver, and one to the kernel up to the
      directory a final "." or slash demands. */
  ghost predicate ResolvesAlike(fs: FileSystem, budget: nat, base: Path, parts: seq<string>) {
    var raw, clean := Resolve(fs, budget, base + parts), Resolve(fs, budget, CleanJoin(base, parts));
    && Answered(Trip(fs, base + parts)) == Answered(Trip(fs, CleanJoin(base, parts)))
    && (raw == clean || (parts != [] && (parts[|parts| - 1] == "" || parts[|parts| - 1] == ".") && clean.Found? && raw == Failed(ENOTDIR)))
  }

  /** What never climbs, and what climbs congruently, resolves alike. */
  lemma UnambiguousResolvesAlike(fs: FileSystem, budget: nat, volatile: Path -> bool, base: Path, parts: seq<string>)
    requires budget <= MAX_LINK_HOPS && Clean(base)
    ensures ".." !in parts || Congruent(fs, budget, volatile, base, parts) ==> ResolvesAlike(fs, budget, base, parts)
  {
    CongruentExactly(fs, budget, volatile, base, parts);
    if ".." !in parts || Congruent(fs, budget, volatile, base, parts) {
      CongruentAnswersAgree(fs, budget, volatile, base, parts);
      CongruentKernelAgrees(fs, budget, volatile, base, parts);
    }
  }

  /** Stepping back at part k is proved: from the root, or out of a real directory that is not volatile. */
  predicate Crosses(fs: FileSystem, budget: nat, volatile: Path -> bool, cur: Path, parts: seq<string>, k: nat)
    requires k < |parts|
  {
    var at := CleanJoin(cur, parts[..k]);
    at == [] || (!volatile(at) && Lstat(fs, budget, at) == Dir)
  }

  /** A name is congruent exactly when each of its ".." is proved where cleaning stands at it. */
  lemma {:induction false} CongruentExactly(fs: FileSystem, budget: nat, volatile: Path -> bool, cur: Path, parts: seq<string>)
    ensures Congruent(fs, budget, volatile, cur, parts) <==>
      forall k :: 0 <= k < |parts| && parts[k] == ".." ==> Crosses(fs, budget, volatile, cur, parts, k)
    decreases |parts|
  {
    if parts != [] {
      var rest := parts[1..];
      var next := if Skipped(parts[0]) then cur else if parts[0] == ".." then Parent(cur) else cur + [parts[0]];
      CongruentExactly(fs, budget, volatile, next, rest);
      assert parts[0] == ".." ==> (Crosses(fs, budget, volatile, cur, parts, 0) <==> cur == [] || (!volatile(cur) && Lstat(fs, budget, cur) == Dir)) by {
        assert parts[..0] == [];
      }
      hide Crosses, Lstat;
      if forall k :: 0 <= k < |parts| && parts[k] == ".." ==> Crosses(fs, budget, volatile, cur, parts, k) {
        forall k | 0 <= k < |rest| && rest[k] == ".."
          ensures Crosses(fs, budget, volatile, next, rest, k)
        {
          CrossesLater(fs, budget, volatile, cur, parts, k);
          assert parts[k + 1] == ".." && Crosses(fs, budget, volatile, cur, parts, k + 1);
        }
      }
      if forall k :: 0 <= k < |rest| && rest[k] == ".." ==> Crosses(fs, budget, volatile, next, rest, k) {
        forall k | 1 <= k < |parts| && parts[k] == ".."
          ensures Crosses(fs, budget, volatile, cur, parts, k)
        {
          CrossesLater(fs, budget, volatile, cur, parts, k - 1);
          assert rest[k - 1] == ".." && Crosses(fs, budget, volatile, next, rest, k - 1);
        }
      }
    }
  }

  lemma CrossesLater(fs: FileSystem, budget: nat, volatile: Path -> bool, cur: Path, parts: seq<string>, k: nat)
    requires k + 1 < |parts|
    ensures var next := if Skipped(parts[0]) then cur else if parts[0] == ".." then Parent(cur) else cur + [parts[0]];
      Crosses(fs, budget, volatile, cur, parts, k + 1) <==> Crosses(fs, budget, volatile, next, parts[1..], k)
  {
    assert parts[..k + 1][1..] == parts[1..][..k];
  }

  /** Stepping into a real directory and back out changes nothing. */
  lemma CrossingIsNeutral(fs: FileSystem, budget: nat, cur: Path, rest: seq<string>)
    requires budget <= MAX_LINK_HOPS && Clean(cur) && cur != [] && Lstat(fs, budget, cur) == Dir
    ensures Trip(fs, cur + [".."] + rest) == Trip(fs, Parent(cur) + rest)
    ensures Resolve(fs, budget, cur + [".."] + rest) == Resolve(fs, budget, Parent(cur) + rest)
  {
    var head, name := Parent(cur), cur[|cur| - 1];
    var k := Resolve(fs, budget, head);
    StepsFollowKernel(fs, budget, [], head, []);
    var tail := [name, ".."] + rest;
    assert cur + [".."] + rest == head + tail;
    StepsAppend(fs, MAX_LINK_HOPS, [], head, tail, []);
    StepsAppend(fs, MAX_LINK_HOPS, [], head, rest, []);
    KernelAppend(fs, budget, [], head, tail, []);
    KernelAppend(fs, budget, [], head, rest, []);
    assert tail[1..] == [".."] + rest && ([".."] + rest)[1..] == rest;
    assert Parent(k.path + [name]) == k.path;
  }

  /** Under chainResolve's own walk a skipped part is nothing at all. */
  lemma SkippingIsNeutral(fs: FileSystem, cur: Path, part: string, rest: seq<string>)
    requires Skipped(part)
    ensures Answered(Trip(fs, cur + [part] + rest)) == Answered(Trip(fs, cur + rest))
  {
    assert cur + [part] + rest == cur + ([part] + rest) && ([part] + rest)[1..] == rest;
    StepsAppend(fs, MAX_LINK_HOPS, [], cur, [part] + rest, []);
    StepsAppend(fs, MAX_LINK_HOPS, [], cur, rest, []);
    var w := Trip(fs, cur);
    if w.Absent? {
      CleanJoinAppend(w.at, w.rest, [part] + rest);
      CleanJoinAppend(w.at, w.rest, rest);
    }
  }

  lemma RootIsItsParent(fs: FileSystem, budget: nat, rest: seq<string>)
    ensures Trip(fs, [".."] + rest) == Trip(fs, rest)
    ensures Resolve(fs, budget, [".."] + rest) == Resolve(fs, budget, rest)
  {
    assert ([".."] + rest)[1..] == rest;
  }

  /** A congruent name resolves, raw or cleaned, to the same answer through the same links. */
  lemma {:induction false} CongruentAnswersAgree(fs: FileSystem, budget: nat, volatile: Path -> bool, cur: Path, parts: seq<string>)
    requires budget <= MAX_LINK_HOPS && Clean(cur) && Congruent(fs, budget, volatile, cur, parts)
    ensures Answered(Trip(fs, cur + parts)) == Answered(Trip(fs, CleanJoin(cur, parts)))
    decreases |parts|
  {
    if parts == [] {
      assert cur + parts == cur;
    } else {
      var part, rest := parts[0], parts[1..];
      assert cur + parts == cur + [part] + rest;
      if Skipped(part) {
        SkippingIsNeutral(fs, cur, part, rest);
        CongruentAnswersAgree(fs, budget, volatile, cur, rest);
      } else if part == ".." {
        if cur == [] {
          assert cur + parts == [".."] + rest && cur + rest == rest;
          RootIsItsParent(fs, budget, rest);
        } else {
          CrossingIsNeutral(fs, budget, cur, rest);
        }
        CongruentAnswersAgree(fs, budget, volatile, Parent(cur), rest);
      } else {
        CongruentAnswersAgree(fs, budget, volatile, cur + [part], rest);
      }
    }
  }

  /** After the last name or step back the parts still name a directory: a final "." or slash. */
  predicate EndsInSkip(parts: seq<string>) {
    parts != [] && Skipped(parts[|parts| - 1])
  }

  /** The kernel agrees up to the one thing a final "." or slash adds: the object must be a directory. */
  ghost function Directed(fs: FileSystem, must: bool, k: Kernel): Kernel {
    if must && k.Found? && !IsDirectory(fs, k.path) then Failed(ENOTDIR) else k
  }

  lemma {:induction false} CongruentKernelAgrees(fs: FileSystem, budget: nat, volatile: Path -> bool, cur: Path, parts: seq<string>)
    requires budget <= MAX_LINK_HOPS && Clean(cur) && Congruent(fs, budget, volatile, cur, parts)
    ensures Resolve(fs, budget, cur + parts) == Directed(fs, EndsInSkip(parts), Resolve(fs, budget, CleanJoin(cur, parts)))
    decreases |parts|
  {
    if parts == [] {
      assert cur + parts == cur;
    } else {
      var part, rest := parts[0], parts[1..];
      assert cur + parts == cur + [part] + rest;
      assert rest != [] ==> rest[|rest| - 1] == parts[|parts| - 1];
      if Skipped(part) {
        CongruentKernelAgrees(fs, budget, volatile, cur, rest);
        SkippedStep(fs, budget, cur, part, rest);
      } else if part == ".." {
        if cur == [] {
          assert cur + parts == [".."] + rest && cur + rest == rest;
          RootIsItsParent(fs, budget, rest);
        } else {
          CrossingIsNeutral(fs, budget, cur, rest);
        }
        CongruentKernelAgrees(fs, budget, volatile, Parent(cur), rest);
      } else {
        CongruentKernelAgrees(fs, budget, volatile, cur + [part], rest);
      }
    }
  }

  /** A skipped part only matters to the kernel when nothing follows it. */
  lemma SkippedStep(fs: FileSystem, budget: nat, cur: Path, part: string, rest: seq<string>)
    requires Skipped(part)
    ensures rest != [] ==> Resolve(fs, budget, cur + [part] + rest) == Resolve(fs, budget, cur + rest)
    ensures rest == [] ==> Resolve(fs, budget, cur + [part] + rest) == Directed(fs, true, Resolve(fs, budget, cur))
  {
    assert cur + [part] + rest == cur + ([part] + rest) && ([part] + rest)[1..] == rest;
    KernelAppend(fs, budget, [], cur, [part] + rest, []);
    KernelAppend(fs, budget, [], cur, rest, []);
  }

  /** Exactly when cleaning is what the kernel does, for a congruent name: unless the raw spelling ends
      by demanding a directory where there is none. */
  lemma CongruenceIsExact(fs: FileSystem, budget: nat, volatile: Path -> bool, cwd: Path, parts: seq<string>)
    requires budget <= MAX_LINK_HOPS && Clean(cwd) && Congruent(fs, budget, volatile, cwd, parts)
    ensures var raw, clean := Resolve(fs, budget, cwd + parts), Resolve(fs, budget, CleanJoin(cwd, parts));
            && (raw == clean <==> !(EndsInSkip(parts) && clean.Found? && !IsDirectory(fs, clean.path)))
            && (raw != clean ==> raw == Failed(ENOTDIR))
  {
    CongruentKernelAgrees(fs, budget, volatile, cwd, parts);
  }

  /** Such a name: up out of a real directory, then a file with a slash after it. */
  lemma SlashAfterFile()
    ensures exists fs: FileSystem, cwd: Path, parts: seq<string> ::
              && Congruent(fs, 40, _ => false, cwd, parts)
              && Resolve(fs, 40, cwd + parts) == Failed(ENOTDIR)
              && Resolve(fs, 40, CleanJoin(cwd, parts)) == Found(["f"], [])
  {
    var fs := (p: Path) => if p == ["d"] then Dir else if p == ["f"] then File else Missing;
    var cwd, parts := ["d"], ["..", "f", ""];
    assert parts[1..] == ["f", ""] && ["f", ""][1..] == [""] && [""][1..] == [];
    assert Parent(cwd) == [] && [] + ["d"] == ["d"] && [] + ["f"] == ["f"];
    assert Resolve(fs, 40, []) == Found([], []);
    assert Lstat(fs, 40, ["d"]) == Dir;
    assert Congruent(fs, 40, _ => false, ["f"], [""]);
    assert Congruent(fs, 40, _ => false, [], ["f", ""]);
    assert Congruent(fs, 40, _ => false, cwd, parts);
    assert CleanJoin(["f"], [""]) == ["f"];
    assert CleanJoin([], ["f", ""]) == CleanJoin(["f"], [""]);
    assert CleanJoin(cwd, parts) == CleanJoin([], ["f", ""]);
    assert Resolve(fs, 40, ["f"]) == Found(["f"], []);
    CongruentKernelAgrees(fs, 40, _ => false, cwd, parts);
  }
}
