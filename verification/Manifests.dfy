/** The manifest's canonical form: sorted records, one for each identity, with the digests a world gives
    them (runtimeinput/manifest.go). */
module Manifests {
  import opened Paths
  import opened Orders
  import opened Outcomes
  import opened ManifestGrammar

  datatype EnvInput = EnvInput(name: string, digest: string)
  datatype Identity = Identity(kind: string, path: string)

  /** metadata marks an identity some stat observed: its digest binds the whole object state. */
  datatype PathInput = PathInput(id: Identity, digest: string, metadata: bool)

  const VERSION := 4

  datatype Manifest = Manifest(version: int, outcome: string, subjects: seq<string>, env: seq<EnvInput>, paths: seq<PathInput>,
                               bracketMoved: bool, reasons: seq<string>)
  const Empty := Manifest(VERSION, "", [], [], [], false, [])

  /** What the inputs currently are: their digests as hashing renders them, and why an object cannot be
      digested faithfully, which its class does not change. */
  datatype World = World(env: string -> Digest, path: (Identity, bool) -> Digest, trouble: Identity -> Option<string>)

  // ----- Orders -----

  function ByString(): (string, string) -> bool { (a, b) => StringLeq(a, b) }

  function ByName(): (EnvInput, EnvInput) -> bool { (a: EnvInput, b: EnvInput) => StringLeq(a.name, b.name) }

  predicate IdentityLeq(a: Identity, b: Identity) {
    if a.kind != b.kind then StringLeq(a.kind, b.kind) else StringLeq(a.path, b.path)
  }

  function ByIdentity(): (PathInput, PathInput) -> bool { (a: PathInput, b: PathInput) => IdentityLeq(a.id, b.id) }

  lemma StringsAreOrdered()
    ensures TotalOrder(ByString()) && forall a, b :: StringLeq(a, b) && StringLeq(b, a) ==> a == b
    ensures TotalOrder(ByName())
  {
    forall a, b
      ensures (StringLeq(a, b) || StringLeq(b, a)) && (StringLeq(a, b) && StringLeq(b, a) ==> a == b)
    {
      StringLeqTotal(a, b);
    }
    forall a, b, c | StringLeq(a, b) && StringLeq(b, c)
      ensures StringLeq(a, c)
    {
      StringLeqTransitive(a, b, c);
    }
  }

  lemma IdentitiesAreOrdered()
    ensures TotalOrder(ByIdentity()) && forall a, b :: IdentityLeq(a, b) && IdentityLeq(b, a) ==> a == b
  {
    StringsAreOrdered();
    forall a, b
      ensures (IdentityLeq(a, b) || IdentityLeq(b, a)) && (IdentityLeq(a, b) && IdentityLeq(b, a) ==> a == b)
    {
      StringLeqTotal(a.kind, b.kind);
      StringLeqTotal(a.path, b.path);
    }
    forall a, b, c | IdentityLeq(a, b) && IdentityLeq(b, c)
      ensures IdentityLeq(a, c)
    {
      if StringLeq(a.kind, b.kind) && StringLeq(b.kind, c.kind) { StringLeqTransitive(a.kind, b.kind, c.kind); }
      if a.kind == c.kind && a.kind != b.kind { StringLeqTotal(a.kind, b.kind); }
      if a.kind == b.kind == c.kind { StringLeqTransitive(a.path, b.path, c.path); }
    }
  }

  // ----- Compaction -----

  /** Equal neighbours collapse. */
  function CompactOf<T(==,!new)>(s: seq<T>): (out: seq<T>)
    ensures (out == []) == (s == [])
    ensures s != [] ==> out[|out| - 1] == s[|s| - 1]
    ensures forall x :: x in out <==> x in s
  {
    if |s| <= 1 then s
    else
      assert s == s[..|s| - 1] + [s[|s| - 1]];
      if s[|s| - 1] == s[|s| - 2] then CompactOf(s[..|s| - 1]) else CompactOf(s[..|s| - 1]) + [s[|s| - 1]]
  }

  method Compact<T(==,!new)>(values: seq<T>) returns (out: seq<T>)
    ensures out == CompactOf(values)
  {
    if |values| == 0 { return []; }
    out := values[..1];
    for i := 1 to |values|
      invariant out == CompactOf(values[..i])
    {
      assert values[..i + 1][..i] == values[..i];
      if values[i] != out[|out| - 1] { out := out + [values[i]]; }
    }
    assert values[..|values|] == values;
  }

  lemma LastIsNew<T(!new)>(leq: (T, T) -> bool, s: seq<T>)
    requires Sorted(leq, s) && Distinguishes(leq, multiset(s)) && |s| > 1 && s[|s| - 1] != s[|s| - 2]
    ensures s[|s| - 1] !in s[..|s| - 1]
  {
    var last, before := s[|s| - 1], s[|s| - 2];
    assert last in multiset(s) && before in multiset(s) && leq(before, last);
    forall k | 0 <= k < |s| - 1
      ensures s[k] != last
    {
      if k < |s| - 2 { assert leq(s[k], before); }
    }
  }

  lemma FrontOf<T(!new)>(leq: (T, T) -> bool, s: seq<T>)
    requires s != [] && Sorted(leq, s) && Distinguishes(leq, multiset(s))
    ensures var front := s[..|s| - 1];
      && Sorted(leq, front) && Distinguishes(leq, multiset(front))
      && forall x :: x in front ==> leq(x, s[|s| - 1])
  {
    var front := s[..|s| - 1];
    assert s == front + [s[|s| - 1]];
    forall x | x in front
      ensures leq(x, s[|s| - 1])
    {
      var k :| 0 <= k < |front| && front[k] == x;
      assert s[k] == x;
    }
  }

  lemma AppendLast<T(!new)>(leq: (T, T) -> bool, out: seq<T>, last: T)
    requires Sorted(leq, out) && NoDuplicates(out) && last !in out && forall x :: x in out ==> leq(x, last)
    ensures Sorted(leq, out + [last]) && NoDuplicates(out + [last])
  {
    assert forall i :: 0 <= i < |out| ==> out[i] in out;
  }

  /** Sorting and compacting leaves each element once, in order. */
  lemma {:induction false} CompactSorted<T(!new)>(leq: (T, T) -> bool, s: seq<T>)
    requires Sorted(leq, s) && Distinguishes(leq, multiset(s))
    ensures Sorted(leq, CompactOf(s)) && NoDuplicates(CompactOf(s))
  {
    if |s| > 1 {
      hide Sorted, Distinguishes, NoDuplicates;
      var front, last := s[..|s| - 1], s[|s| - 1];
      FrontOf(leq, s);
      CompactSorted(leq, front);
      if last != s[|s| - 2] {
        LastIsNew(leq, s);
        AppendLast(leq, CompactOf(front), last);
      }
    }
  }

  function Arranged<T(==,!new)>(leq: (T, T) -> bool, s: seq<T>): seq<T> {
    CompactOf(Sort(leq, s))
  }

  lemma ArrangedIsCanonical<T(!new)>(leq: (T, T) -> bool, s: seq<T>)
    requires TotalOrder(leq) && Distinguishes(leq, multiset(s))
    ensures Sorted(leq, Arranged(leq, s)) && NoDuplicates(Arranged(leq, s))
    ensures forall x :: x in Arranged(leq, s) <==> x in s
  {
    SortSorts(leq, s);
    CompactSorted(leq, Sort(leq, s));
    forall x
      ensures x in Sort(leq, s) <==> x in s
    {
      assert x in multiset(Sort(leq, s)) <==> x in multiset(s);
    }
  }

  // ----- The canonical manifest -----

  function SortedForm(m: Manifest): Manifest {
    m.(subjects := Arranged(ByString(), m.subjects), env := Arranged(ByName(), m.env),
       paths := Arranged(ByIdentity(), m.paths), reasons := Arranged(ByString(), m.reasons))
  }

  method SortManifest(m: Manifest) returns (sorted: Manifest)
    ensures sorted == SortedForm(m)
  {
    var subjects := Compact(Sort(ByString(), m.subjects));
    var env := Compact(Sort(ByName(), m.env));
    var paths := Compact(Sort(ByIdentity(), m.paths));
    var reasons := Compact(Sort(ByString(), m.reasons));
    sorted := m.(subjects := subjects, env := env, paths := paths, reasons := reasons);
  }

  /** One entry for each identity. */
  ghost predicate OneEach(m: Manifest) {
    && (forall i, j :: 0 <= i < j < |m.env| ==> m.env[i].name != m.env[j].name)
    && (forall i, j :: 0 <= i < j < |m.paths| ==> m.paths[i].id != m.paths[j].id)
  }

  ghost predicate Canonical(m: Manifest) {
    && Sorted(ByString(), m.subjects) && NoDuplicates(m.subjects)
    && Sorted(ByName(), m.env) && Sorted(ByIdentity(), m.paths) && OneEach(m)
    && Sorted(ByString(), m.reasons) && NoDuplicates(m.reasons)
  }

  lemma OneEachDistinguishes(m: Manifest)
    requires OneEach(m)
    ensures Distinguishes(ByName(), multiset(m.env)) && Distinguishes(ByIdentity(), multiset(m.paths))
  {
    StringsAreOrdered();
    IdentitiesAreOrdered();
    forall a, b | a in multiset(m.env) && b in multiset(m.env) && ByName()(a, b) && ByName()(b, a)
      ensures a == b
    {
      assert a in m.env && b in m.env;
    }
    forall a, b | a in multiset(m.paths) && b in multiset(m.paths) && ByIdentity()(a, b) && ByIdentity()(b, a)
      ensures a == b
    {
      assert a in m.paths && b in m.paths;
    }
  }

  lemma StringsDistinguish(s: seq<string>)
    ensures Distinguishes(ByString(), multiset(s))
  {
    StringsAreOrdered();
  }

  /** The sorted form of a manifest with one entry for each identity is canonical, with the same records. */
  lemma SortedFormIsCanonical(m: Manifest)
    requires OneEach(m)
    ensures Canonical(SortedForm(m))
    ensures forall x :: x in SortedForm(m).subjects <==> x in m.subjects
    ensures forall x :: x in SortedForm(m).env <==> x in m.env
    ensures forall x :: x in SortedForm(m).paths <==> x in m.paths
    ensures forall x :: x in SortedForm(m).reasons <==> x in m.reasons
  {
    hide Arranged;
    var s := SortedForm(m);
    StringsAreOrdered();
    IdentitiesAreOrdered();
    OneEachDistinguishes(m);
    StringsDistinguish(m.subjects);
    StringsDistinguish(m.reasons);
    ArrangedIsCanonical(ByString(), m.subjects);
    ArrangedIsCanonical(ByName(), m.env);
    ArrangedIsCanonical(ByIdentity(), m.paths);
    ArrangedIsCanonical(ByString(), m.reasons);
    forall i, j | 0 <= i < j < |s.env|
      ensures s.env[i].name != s.env[j].name
    {
      assert s.env[i] in m.env && s.env[j] in m.env && s.env[i] != s.env[j];
    }
    forall i, j | 0 <= i < j < |s.paths|
      ensures s.paths[i].id != s.paths[j].id
    {
      assert s.paths[i] in m.paths && s.paths[j] in m.paths && s.paths[i] != s.paths[j];
    }
  }

  // ----- Digests -----

  function RefreshEnv(world: World, env: seq<EnvInput>): seq<EnvInput> {
    seq(|env|, i requires 0 <= i < |env| => EnvInput(env[i].name, world.env(env[i].name)))
  }

  function RefreshPaths(world: World, paths: seq<PathInput>): seq<PathInput> {
    seq(|paths|, i requires 0 <= i < |paths| => paths[i].(digest := world.path(paths[i].id, paths[i].metadata)))
  }

  /** The reason of the first input in canonical order that cannot be digested faithfully. */
  function FirstTrouble(world: World, paths: seq<PathInput>): Option<string> {
    if paths == [] then None
    else if world.trouble(paths[0].id).Some? then world.trouble(paths[0].id)
    else FirstTrouble(world, paths[1..])
  }

  function Refresh(world: World, m: Manifest): Manifest {
    m.(env := RefreshEnv(world, m.env), paths := RefreshPaths(world, m.paths))
  }

  /** A finalized state: the manifest stands for its own encoding and digest. */
  datatype State = State(manifest: Manifest, unverifiable: bool, reason: string)

  function FirstReason(reasons: seq<string>): string {
    if |reasons| == 0 then "" else reasons[0]
  }

  function Finalize(m: Manifest, trouble: Option<string>): State {
    var sorted := SortedForm(m);
    State(sorted, sorted.reasons != [] || trouble.Some?,
          if FirstReason(sorted.reasons) != "" then FirstReason(sorted.reasons) else if trouble.Some? then trouble.value else "")
  }

  function StateOf(world: World, m: Manifest): State {
    var sorted := SortedForm(m);
    Finalize(Refresh(world, sorted), FirstTrouble(world, sorted.paths))
  }

  method DigestEnv(world: World, recorded: seq<EnvInput>) returns (env: seq<EnvInput>)
    ensures env == RefreshEnv(world, recorded)
  {
    env := recorded;
    for i := 0 to |recorded|
      invariant |env| == |recorded|
      invariant forall k :: 0 <= k < |env| ==> env[k] == if k < i then EnvInput(recorded[k].name, world.env(recorded[k].name)) else recorded[k]
    {
      env := env[i := EnvInput(env[i].name, world.env(env[i].name))];
    }
  }

  method DigestPaths(world: World, recorded: seq<PathInput>) returns (paths: seq<PathInput>, trouble: Option<string>)
    ensures paths == RefreshPaths(world, recorded) && trouble == FirstTrouble(world, recorded)
  {
    paths, trouble := recorded, None;
    for i := 0 to |recorded|
      invariant |paths| == |recorded|
      invariant forall k :: 0 <= k < |paths| ==>
        paths[k] == if k < i then recorded[k].(digest := world.path(recorded[k].id, recorded[k].metadata)) else recorded[k]
      invariant FirstTrouble(world, recorded) == if trouble.Some? then trouble else FirstTrouble(world, recorded[i..])
    {
      var entry := paths[i];
      assert recorded[i..][1..] == recorded[i + 1..];
      paths := paths[i := entry.(digest := world.path(entry.id, entry.metadata))];
      var here := world.trouble(entry.id);
      if here.Some? && trouble.None? { trouble := here; }
    }
  }

  /** Digests every input in canonical order. */
  method Populate(world: World, m: Manifest) returns (populated: Manifest, trouble: Option<string>)
    ensures populated == Refresh(world, SortedForm(m)) && trouble == FirstTrouble(world, SortedForm(m).paths)
  {
    var sorted := SortManifest(m);
    var env := DigestEnv(world, sorted.env);
    var paths;
    paths, trouble := DigestPaths(world, sorted.paths);
    populated := sorted.(env := env, paths := paths);
  }

  method ComputeState(world: World, m: Manifest) returns (state: State)
    ensures state == StateOf(world, m)
    ensures state.unverifiable <==> m.reasons != [] || exists p :: p in m.paths && world.trouble(p.id).Some?
    ensures OneEach(m) ==> Explained(world, m, state.reason)
  {
    var populated, trouble := Populate(world, m);
    var sorted := SortManifest(populated);
    var unverifiable := |sorted.reasons| > 0 || trouble.Some?;
    var reason := FirstReason(sorted.reasons);
    if reason == "" && trouble.Some? { reason := trouble.value; }
    state := State(sorted, unverifiable, reason);
    StateExactly(world, m);
  }

  // ----- What a state says of its inputs -----

  /** reason is the least recorded one, if that says anything; otherwise that of the troubled object whose
      identity is least, by kind and then by path; otherwise there is none. */
  ghost predicate Explained(world: World, m: Manifest, reason: string) {
    && (forall r :: r in m.reasons && r != "" && (forall s :: s in m.reasons ==> StringLeq(r, s)) ==> reason == r)
    && (m.reasons == [] || "" in m.reasons ==>
          && (forall p :: p in m.paths && LeastTroubled(world, m, p) ==> Some(reason) == world.trouble(p.id))
          && ((forall p :: p in m.paths ==> world.trouble(p.id).None?) ==> reason == ""))
  }

  ghost predicate LeastTroubled(world: World, m: Manifest, p: PathInput) {
    && world.trouble(p.id).Some?
    && forall q :: q in m.paths && world.trouble(q.id).Some? ==>
         if p.id.kind != q.id.kind then StringLeq(p.id.kind, q.id.kind) else StringLeq(p.id.path, q.id.path)
  }

  lemma ArrangedKeeps<T(!new)>(leq: (T, T) -> bool, s: seq<T>)
    ensures forall x :: x in Arranged(leq, s) <==> x in s
    ensures Arranged(leq, s) == [] <==> s == []
  {
    forall x
      ensures x in Sort(leq, s) <==> x in s
    {
      assert x in multiset(Sort(leq, s)) <==> x in multiset(s);
    }
    if Arranged(leq, s) != [] { assert Arranged(leq, s)[0] in s; }
    if s != [] { assert s[0] in Arranged(leq, s); }
  }

  lemma {:induction false} TroubleExactly(world: World, paths: seq<PathInput>)
    ensures FirstTrouble(world, paths).Some? <==> exists p :: p in paths && world.trouble(p.id).Some?
  {
    if paths != [] {
      TroubleExactly(world, paths[1..]);
      assert forall p :: p in paths <==> p == paths[0] || p in paths[1..];
    }
  }

  /** In a list by identity the first trouble is the least one's. */
  lemma {:induction false} FirstTroubleIsLeast(world: World, paths: seq<PathInput>, p: PathInput)
    requires Sorted(ByIdentity(), paths) && p in paths && world.trouble(p.id).Some?
    requires forall q :: q in paths && world.trouble(q.id).Some? ==> IdentityLeq(p.id, q.id)
    ensures FirstTrouble(world, paths) == world.trouble(p.id)
  {
    if world.trouble(paths[0].id).Some? {
      IdentitiesAreOrdered();
      var k :| 0 <= k < |paths| && paths[k] == p;
      assert ByIdentity()(paths[0], paths[k]) || k == 0;
      assert IdentityLeq(p.id, paths[0].id) && IdentityLeq(paths[0].id, p.id);
    } else {
      assert p in paths[1..];
      FirstTroubleIsLeast(world, paths[1..], p);
    }
  }

  lemma ReasonIsLeast(reasons: seq<string>, r: string)
    requires r in reasons && forall s :: s in reasons ==> StringLeq(r, s)
    ensures FirstReason(Arranged(ByString(), reasons)) == r
  {
    var sorted := Arranged(ByString(), reasons);
    StringsAreOrdered();
    StringsDistinguish(reasons);
    ArrangedIsCanonical(ByString(), reasons);
    assert r in sorted && sorted[0] in reasons;
    var k :| 0 <= k < |sorted| && sorted[k] == r;
    assert ByString()(sorted[0], sorted[k]) || k == 0;
  }

  /** A manifest's state is unverifiable exactly when a reason is recorded or some object it names cannot
      be digested faithfully; and it reports the least of them. */
  lemma StateExactly(world: World, m: Manifest)
    ensures StateOf(world, m).unverifiable <==> m.reasons != [] || exists p :: p in m.paths && world.trouble(p.id).Some?
    ensures OneEach(m) ==> Explained(world, m, StateOf(world, m).reason)
  {
    hide Arranged, CompactOf, Sort;
    var sorted := SortedForm(m);
    ArrangedKeeps(ByIdentity(), m.paths);
    ArrangedKeeps(ByString(), m.reasons);
    TroubleExactly(world, sorted.paths);
    ReasonsTwice(m.reasons);
    if OneEach(m) { StateIsExplained(world, m); }
  }

  /** Finalizing sorts again, which changes nothing. */
  lemma ReasonsTwice(reasons: seq<string>)
    ensures Arranged(ByString(), Arranged(ByString(), reasons)) == Arranged(ByString(), reasons)
  {
    var once := Arranged(ByString(), reasons);
    StringsAreOrdered();
    StringsDistinguish(reasons);
    StringsDistinguish(once);
    ArrangedIsCanonical(ByString(), reasons);
    ArrangedIsCanonical(ByString(), once);
    ArrangementIsUnique(ByString(), Arranged(ByString(), once), once);
  }

  lemma StateIsExplained(world: World, m: Manifest)
    requires OneEach(m)
    ensures Explained(world, m, StateOf(world, m).reason)
  {
    hide Arranged, CompactOf, Sort, StringLeq;
    var sorted := SortedForm(m);
    var reason := StateOf(world, m).reason;
    ArrangedKeeps(ByIdentity(), m.paths);
    ArrangedKeeps(ByString(), m.reasons);
    ReasonsTwice(m.reasons);
    TroubleExactly(world, sorted.paths);
    SortedFormIsCanonical(m);
    forall r | r in m.reasons && r != "" && forall s :: s in m.reasons ==> StringLeq(r, s)
      ensures reason == r
    {
      ReasonIsLeast(m.reasons, r);
    }
    if "" in m.reasons {
      EmptyIsLeast(m.reasons);
      ReasonIsLeast(m.reasons, "");
    }
    forall p | p in m.paths && LeastTroubled(world, m, p) && (m.reasons == [] || "" in m.reasons)
      ensures Some(reason) == world.trouble(p.id)
    {
      FirstTroubleIsLeast(world, sorted.paths, p);
    }
  }

  lemma EmptyIsLeast(reasons: seq<string>)
    ensures forall s :: s in reasons ==> StringLeq("", s)
  {
  }

  ghost predicate Current(world: World, m: Manifest) {
    && (forall e :: e in m.env ==> e.digest == world.env(e.name))
    && (forall p :: p in m.paths ==> p.digest == world.path(p.id, p.metadata))
  }

  /** A canonical manifest whose digests are current is its own state's manifest: unmoved inputs re-encode
      as they were recorded. */
  lemma CurrentStateStands(world: World, m: Manifest)
    requires Canonical(m)
    ensures SortedForm(m) == m
    ensures StateOf(world, m).manifest == Refresh(world, m) && Canonical(Refresh(world, m)) && Current(world, Refresh(world, m))
    ensures Current(world, m) <==> Refresh(world, m) == m
  {
    hide SortedForm;
    CanonicalStands(m);
    RefreshIsCanonical(world, m);
    CanonicalStands(Refresh(world, m));
    CurrentIsRefreshed(world, m);
  }

  lemma RefreshIsCanonical(world: World, m: Manifest)
    requires Canonical(m)
    ensures Canonical(Refresh(world, m)) && Current(world, Refresh(world, m))
  {
    hide StringLeq, IdentityLeq;
    var r := Refresh(world, m);
    forall i, j | 0 <= i < j < |r.env|
      ensures ByName()(r.env[i], r.env[j])
    {
      assert ByName()(m.env[i], m.env[j]);
    }
    forall i, j | 0 <= i < j < |r.paths|
      ensures ByIdentity()(r.paths[i], r.paths[j])
    {
      assert ByIdentity()(m.paths[i], m.paths[j]);
    }
  }

  lemma CurrentIsRefreshed(world: World, m: Manifest)
    ensures Current(world, m) <==> Refresh(world, m) == m
  {
    var r := Refresh(world, m);
    if Current(world, m) {
      assert forall i :: 0 <= i < |m.env| ==> m.env[i] in m.env;
      assert forall i :: 0 <= i < |m.paths| ==> m.paths[i] in m.paths;
      assert r.env == m.env;
      assert r.paths == m.paths;
    }
    if r == m {
      assert forall i :: 0 <= i < |m.env| ==> m.env[i] == r.env[i];
      assert forall i :: 0 <= i < |m.paths| ==> m.paths[i] == r.paths[i];
    }
  }

  lemma CanonicalStands(m: Manifest)
    requires Canonical(m)
    ensures SortedForm(m) == m
  {
    hide Arranged;
    SortedFormIsCanonical(m);
    CanonicalIsUnique(SortedForm(m), m);
  }

  /** A canonical manifest is determined by its records. */
  lemma CanonicalIsUnique(a: Manifest, b: Manifest)
    requires Canonical(a) && Canonical(b)
    requires a.version == b.version && a.outcome == b.outcome && a.bracketMoved == b.bracketMoved
    requires forall x :: x in a.subjects <==> x in b.subjects
    requires forall x :: x in a.env <==> x in b.env
    requires forall x :: x in a.paths <==> x in b.paths
    requires forall x :: x in a.reasons <==> x in b.reasons
    ensures a == b
  {
    StringsAreOrdered();
    IdentitiesAreOrdered();
    OneEachDistinguishes(a);
    StringsDistinguish(a.subjects);
    StringsDistinguish(a.reasons);
    ArrangementIsUnique(ByString(), a.subjects, b.subjects);
    ArrangementIsUnique(ByName(), a.env, b.env);
    ArrangementIsUnique(ByIdentity(), a.paths, b.paths);
    ArrangementIsUnique(ByString(), a.reasons, b.reasons);
  }

  // ----- What an encoding accepts -----

  /** The manifest's rules, each record's and those across records. */
  ghost predicate Accepted(m: Manifest) {
    && m.version == VERSION
    && (m.outcome == "" <==> m.subjects == []) && (m.outcome == "" || m.outcome == METHOD)
    && (m.outcome == METHOD ==> m.paths == [])
    && (forall i :: 0 <= i < |m.subjects| ==> ValidSubject(m.subjects[i]))
    && OneEach(m)
    && (forall i :: 0 <= i < |m.env| ==> ValidText(m.env[i].name) && ValidDigest(m.env[i].digest))
    && (forall i :: 0 <= i < |m.paths| ==> ValidDigest(m.paths[i].digest) && ValidIdentity(m.paths[i].id.kind, m.paths[i].id.path))
    && (forall i :: 0 <= i < |m.reasons| ==> ValidText(m.reasons[i]))
  }

  /** Neighbours are compared only; over a sorted manifest that finds every duplicate identity. */
  method Validate(m: Manifest) returns (ok: bool)
    requires Sorted(ByName(), m.env) && Sorted(ByIdentity(), m.paths)
    ensures ok <==> Accepted(m)
  {
    hide ValidIdentity, ValidDigest, ValidText, Sorted;
    if m.version != VERSION { return false; }
    if (m.outcome == "") != (|m.subjects| == 0) || (m.outcome != "" && m.outcome != METHOD) { return false; }
    if m.outcome == METHOD && |m.paths| != 0 { return false; }
    for i := 0 to |m.subjects|
      invariant forall k :: 0 <= k < i ==> ValidSubject(m.subjects[k])
    {
      var subject := m.subjects[i];
      if |subject| != 64 { return false; }
      var first := ValidEntryDigest(subject[..32]);
      var second := ValidEntryDigest(subject[32..]);
      if !first || !second { return false; }
    }
    for i := 0 to |m.env|
      invariant forall k :: 0 <= k < i ==> ValidText(m.env[k].name) && ValidDigest(m.env[k].digest)
      invariant forall k :: 0 < k < i ==> m.env[k - 1].name != m.env[k].name
    {
      if !ValidText(m.env[i].name) { return false; }
      var digested := ValidEntryDigest(m.env[i].digest);
      if !digested { return false; }
      if i > 0 && m.env[i - 1].name == m.env[i].name { return false; }
    }
    for i := 0 to |m.paths|
      invariant forall k :: 0 <= k < i ==> ValidDigest(m.paths[k].digest)
      invariant forall k :: 0 < k < i ==> m.paths[k - 1].id != m.paths[k].id
    {
      var digested := ValidEntryDigest(m.paths[i].digest);
      if !digested { return false; }
      if i > 0 && m.paths[i - 1].id == m.paths[i].id { return false; }
    }
    for i := 0 to |m.paths|
      invariant forall k :: 0 <= k < i ==> ValidIdentity(m.paths[k].id.kind, m.paths[k].id.path)
    {
      var canonical := ValidatePathID(m.paths[i].id.kind, m.paths[i].id.path);
      if !canonical { return false; }
    }
    for i := 0 to |m.reasons|
      invariant forall k :: 0 <= k < i ==> ValidText(m.reasons[k])
    {
      if !ValidText(m.reasons[i]) { return false; }
    }
    NeighboursSuffice(m);
    return true;
  }

  lemma NeighboursSuffice(m: Manifest)
    requires Sorted(ByName(), m.env) && Sorted(ByIdentity(), m.paths)
    requires forall k :: 0 < k < |m.env| ==> m.env[k - 1].name != m.env[k].name
    requires forall k :: 0 < k < |m.paths| ==> m.paths[k - 1].id != m.paths[k].id
    ensures OneEach(m)
  {
    StringsAreOrdered();
    IdentitiesAreOrdered();
    forall i, j | 0 <= i < j < |m.env|
      ensures m.env[i].name != m.env[j].name
    {
      assert ByName()(m.env[i], m.env[i + 1]);
      if i + 1 < j { assert ByName()(m.env[i + 1], m.env[j]); }
    }
    forall i, j | 0 <= i < j < |m.paths|
      ensures m.paths[i].id != m.paths[j].id
    {
      assert ByIdentity()(m.paths[i], m.paths[i + 1]);
      if i + 1 < j { assert ByIdentity()(m.paths[i + 1], m.paths[j]); }
    }
  }
}
