/** Merge computes the union, and nothing its inputs can hold makes it refuse but movement and a conflict
    of processes (runtimeinput/observation.go). */
module MergeMethod {
  import opened Paths
  import opened Orders
  import opened Outcomes
  import opened Manifests
  import opened Merging
  import opened ManifestGrammar

  /** What the collecting loop holds, before it is put in order. */
  datatype Collected = Collected(env: seq<EnvInput>, paths: seq<PathInput>, reasons: seq<string>, subjects: seq<string>,
                                 bracketMoved: bool, supported: bool)

  ghost predicate Hashed(c: Collected) {
    EnvHashed(c.env) && PathsHashed(c.paths)
  }

  ghost predicate Collects(inputs: seq<Observation>, c: Collected) {
    && EnvNames(c.env) == Union(inputs, NamesIn())
    && Ids(c.paths) == Union(inputs, IdsIn()) && BoundIds(c.paths) == Union(inputs, BoundIn())
    && Elements(c.reasons) == Union(inputs, ReasonsIn())
    && Elements(c.subjects) == Union(inputs, SubjectsIn())
    && (c.bracketMoved <==> AnyMoved(inputs))
    && (c.supported <==> EverySupported(inputs))
  }

  lemma UnionStep<T>(inputs: seq<Observation>, i: nat, f: Observation -> set<T>)
    requires i < |inputs|
    ensures Union(inputs[..i + 1], f) == Union(inputs[..i], f) + f(inputs[i])
  {
    var more, less := inputs[..i + 1], inputs[..i];
    assert more[i] == inputs[i] && forall k :: 0 <= k < i ==> more[k] == less[k];
  }

  lemma InUnion<T>(inputs: seq<Observation>, i: nat, f: Observation -> set<T>, x: T)
    requires i < |inputs| && x in f(inputs[i])
    ensures x in Union(inputs, f)
  {
  }

  lemma NothingCollected()
    ensures Collects([], Collected([], [], [], [], false, true)) && Union([], RecordsIn()) == {}
  {
  }

  lemma CollectsStep(inputs: seq<Observation>, i: nat, c: Collected, c': Collected)
    requires i < |inputs| && Collects(inputs[..i], c)
    requires var o := inputs[i]; var m := o.state.manifest;
      && EnvNames(c'.env) == EnvNames(c.env) + EnvNames(m.env)
      && Ids(c'.paths) == Ids(c.paths) + Ids(m.paths) && BoundIds(c'.paths) == BoundIds(c.paths) + BoundIds(m.paths)
      && Elements(c'.reasons) == Elements(c.reasons) + Elements(m.reasons)
      && Elements(c'.subjects) == Elements(c.subjects) + SupportedSubjects(o)
      && c'.bracketMoved == (c.bracketMoved || m.bracketMoved)
      && c'.supported == (c.supported && (o.processes != [] ==> m.outcome == METHOD))
    ensures Collects(inputs[..i + 1], c')
  {
    hide Union;
    UnionStep(inputs, i, NamesIn());
    UnionStep(inputs, i, IdsIn());
    UnionStep(inputs, i, BoundIn());
    UnionStep(inputs, i, ReasonsIn());
    UnionStep(inputs, i, SubjectsIn());
    MovedStep(inputs, i);
    SupportedStep(inputs, i);
  }

  lemma MovedStep(inputs: seq<Observation>, i: nat)
    requires i < |inputs|
    ensures AnyMoved(inputs[..i + 1]) <==> AnyMoved(inputs[..i]) || inputs[i].state.manifest.bracketMoved
  {
    var more, less := inputs[..i + 1], inputs[..i];
    assert more[i] == inputs[i] && forall k :: 0 <= k < i ==> more[k] == less[k];
    if AnyMoved(less) {
      var k :| 0 <= k < i && less[k].state.manifest.bracketMoved;
      assert more[k].state.manifest.bracketMoved;
    }
  }

  lemma SupportedStep(inputs: seq<Observation>, i: nat)
    requires i < |inputs|
    ensures EverySupported(inputs[..i + 1]) <==>
      EverySupported(inputs[..i]) && (inputs[i].processes != [] ==> inputs[i].state.manifest.outcome == METHOD)
  {
    var more, less := inputs[..i + 1], inputs[..i];
    assert more[i] == inputs[i] && forall k :: 0 <= k < i ==> more[k] == less[k];
    if EverySupported(more) {
      forall k | 0 <= k < i && less[k].processes != []
        ensures less[k].state.manifest.outcome == METHOD
      {
        assert more[k].processes != [];
      }
    }
  }

  /** One input's evidence, added to what is collected. */
  method Collect(c: Collected, index: map<Identity, nat>, o: Observation) returns (c': Collected, index': map<Identity, nat>)
    requires Indexed(c.paths, index) && OneEachName(c.env) && Hashed(c) && Sealed(o)
    ensures Indexed(c'.paths, index') && OneEachName(c'.env) && Hashed(c')
    ensures var m := o.state.manifest;
      && EnvNames(c'.env) == EnvNames(c.env) + EnvNames(m.env)
      && Ids(c'.paths) == Ids(c.paths) + Ids(m.paths) && BoundIds(c'.paths) == BoundIds(c.paths) + BoundIds(m.paths)
      && Elements(c'.reasons) == Elements(c.reasons) + Elements(m.reasons)
      && Elements(c'.subjects) == Elements(c.subjects) + SupportedSubjects(o)
      && c'.bracketMoved == (c.bracketMoved || m.bracketMoved)
      && c'.supported == (c.supported && (o.processes != [] ==> m.outcome == METHOD))
  {
    var m := o.state.manifest;
    var supported, subjects := c.supported, c.subjects;
    if |o.processes| > 0 {
      supported := supported && m.outcome == METHOD;
      subjects := subjects + m.subjects;
    }
    var env := CollectEnv(c.env, m.env);
    var paths;
    paths, index' := CollectPaths(c.paths, index, m.paths);
    var reasons := CollectReasons(c.reasons, m.reasons);
    c' := Collected(env, paths, reasons, subjects, c.bracketMoved || m.bracketMoved, supported);
  }

  /** Outcome support or nothing of it. */
  function Raw(c: Collected): Manifest {
    if c.supported && |c.subjects| > 0 then Manifest(VERSION, METHOD, c.subjects, c.env, c.paths, c.bracketMoved, c.reasons)
    else Manifest(VERSION, "", [], c.env, c.paths, c.bracketMoved, c.reasons)
  }

  ghost predicate AllSealed(inputs: seq<Observation>) {
    forall i :: 0 <= i < |inputs| ==> Sealed(inputs[i])
  }

  lemma RawIsOneEach(c: Collected, index: map<Identity, nat>)
    requires Indexed(c.paths, index) && OneEachName(c.env)
    ensures OneEach(Raw(c))
  {
  }

  /** The collected manifest is always one an encoding accepts: support leaves no paths, for no supported
      input has any, and an input without a process has no evidence. */
  lemma RawIsAccepted(inputs: seq<Observation>, c: Collected)
    requires AllSealed(inputs) && Collects(inputs, c) && OneEach(Raw(c)) && Hashed(c)
    ensures Accepted(Raw(c))
  {
    hide ValidText, ValidDigest, ValidIdentity, ValidSubject, Canonical;
    if Raw(c).outcome == METHOD { SupportLeavesNoPaths(inputs, c); }
    forall k | 0 <= k < |c.env|
      ensures ValidText(c.env[k].name)
    {
      assert c.env[k] in c.env && c.env[k].name in Union(inputs, NamesIn());
      var i, n :| 0 <= i < |inputs| && n in EnvNames(inputs[i].state.manifest.env) && n == c.env[k].name;
      assert Sealed(inputs[i]);
    }
    forall k | 0 <= k < |c.reasons|
      ensures ValidText(c.reasons[k])
    {
      assert c.reasons[k] in Elements(c.reasons) && c.reasons[k] in Union(inputs, ReasonsIn());
      var i, r :| 0 <= i < |inputs| && r in Elements(inputs[i].state.manifest.reasons) && r == c.reasons[k];
      assert Sealed(inputs[i]);
    }
    RawIdentities(inputs, c);
  }

  lemma SupportLeavesNoPaths(inputs: seq<Observation>, c: Collected)
    requires AllSealed(inputs) && Collects(inputs, c) && c.supported
    ensures c.paths == []
  {
    hide ValidText, ValidDigest, ValidIdentity, ValidSubject, Canonical;
    forall i | 0 <= i < |inputs|
      ensures inputs[i].state.manifest.paths == []
    {
      assert Sealed(inputs[i]);
    }
    assert Union(inputs, IdsIn()) == {};
    SomeId(c.paths);
  }

  lemma RawIdentities(inputs: seq<Observation>, c: Collected)
    requires AllSealed(inputs) && Collects(inputs, c)
    ensures forall k :: 0 <= k < |c.paths| ==> ValidIdentity(c.paths[k].id.kind, c.paths[k].id.path)
    ensures forall k :: 0 <= k < |c.subjects| ==> ValidSubject(c.subjects[k])
  {
    hide ValidText, ValidDigest, ValidIdentity, ValidSubject, Canonical;
    forall k | 0 <= k < |c.paths|
      ensures ValidIdentity(c.paths[k].id.kind, c.paths[k].id.path)
    {
      assert c.paths[k] in c.paths && c.paths[k].id in Union(inputs, IdsIn());
      var i, id :| 0 <= i < |inputs| && id in Ids(inputs[i].state.manifest.paths) && id == c.paths[k].id;
      assert Sealed(inputs[i]);
    }
    forall k | 0 <= k < |c.subjects|
      ensures ValidSubject(c.subjects[k])
    {
      assert c.subjects[k] in Elements(c.subjects) && c.subjects[k] in Union(inputs, SubjectsIn());
      var i, s :| 0 <= i < |inputs| && s in SupportedSubjects(inputs[i]) && s == c.subjects[k];
      assert Sealed(inputs[i]);
    }
  }

  lemma SomeId(paths: seq<PathInput>)
    ensures paths != [] ==> paths[0].id in Ids(paths)
  {
  }

  lemma RawUnites(inputs: seq<Observation>, c: Collected)
    requires Collects(inputs, c)
    ensures Unites(inputs, Raw(c))
  {
    hide Union, AnyMoved, EverySupported;
    if c.subjects != [] { assert c.subjects[0] in Elements(c.subjects); }
  }

  // ----- Order and digests keep the content -----

  ghost predicate SameContent(a: Manifest, b: Manifest) {
    && EnvNames(a.env) == EnvNames(b.env) && Ids(a.paths) == Ids(b.paths) && BoundIds(a.paths) == BoundIds(b.paths)
    && Elements(a.reasons) == Elements(b.reasons) && Elements(a.subjects) == Elements(b.subjects)
    && a.bracketMoved == b.bracketMoved && a.outcome == b.outcome && a.version == b.version
  }

  lemma SortingKeepsContent(m: Manifest)
    requires OneEach(m)
    ensures SameContent(SortedForm(m), m) && Canonical(SortedForm(m))
  {
    hide Arranged;
    SortedFormIsCanonical(m);
  }

  lemma RefreshKeepsContent(world: World, m: Manifest)
    ensures SameContent(Refresh(world, m), m)
  {
    var r := Refresh(world, m);
    StrongerIds(m.paths, r.paths);
    forall n
      ensures n in EnvNames(r.env) <==> n in EnvNames(m.env)
    {
      if n in EnvNames(m.env) {
        var k :| 0 <= k < |m.env| && m.env[k].name == n;
        assert r.env[k] in r.env;
      }
      if n in EnvNames(r.env) {
        var k :| 0 <= k < |m.env| && r.env[k].name == n;
        assert m.env[k] in m.env;
      }
    }
    forall id
      ensures id in BoundIds(r.paths) <==> id in BoundIds(m.paths)
    {
      if id in BoundIds(m.paths) {
        var k :| 0 <= k < |m.paths| && m.paths[k].id == id && m.paths[k].metadata;
        assert r.paths[k] in r.paths;
      }
      if id in BoundIds(r.paths) {
        var k :| 0 <= k < |m.paths| && r.paths[k].id == id && r.paths[k].metadata;
        assert m.paths[k] in m.paths;
      }
    }
  }

  lemma AcceptedByContent(a: Manifest, b: Manifest)
    requires Accepted(a) && SameContent(a, b) && OneEach(b) && EnvHashed(b.env) && PathsHashed(b.paths)
    ensures Accepted(b)
  {
    hide ValidText, ValidDigest, ValidIdentity, ValidSubject;
    if a.subjects != [] { assert a.subjects[0] in Elements(b.subjects); }
    if b.subjects != [] { assert b.subjects[0] in Elements(a.subjects); }
    SomeId(b.paths);
    forall k | 0 <= k < |b.subjects|
      ensures ValidSubject(b.subjects[k])
    {
      assert b.subjects[k] in Elements(b.subjects) && b.subjects[k] in a.subjects;
    }
    forall k | 0 <= k < |b.paths|
      ensures ValidIdentity(b.paths[k].id.kind, b.paths[k].id.path)
    {
      assert b.paths[k] in b.paths && b.paths[k].id in Ids(a.paths);
    }
    forall k | 0 <= k < |b.env|
      ensures ValidText(b.env[k].name)
    {
      assert b.env[k] in b.env && b.env[k].name in EnvNames(a.env);
    }
    forall k | 0 <= k < |b.reasons|
      ensures ValidText(b.reasons[k])
    {
      assert b.reasons[k] in Elements(b.reasons) && b.reasons[k] in a.reasons;
    }
  }

  /** Sorting keeps the digests there were; hashing renders its own. */
  lemma DigestsStayValid(world: World, m: Manifest)
    requires OneEach(m) && EnvHashed(m.env) && PathsHashed(m.paths)
    ensures EnvHashed(SortedForm(m).env) && PathsHashed(SortedForm(m).paths)
    ensures EnvHashed(Refresh(world, m).env) && PathsHashed(Refresh(world, m).paths)
  {
    hide Arranged, ValidDigest;
    SortedFormIsCanonical(m);
    var s := SortedForm(m);
    assert forall i :: 0 <= i < |s.env| ==> s.env[i] in s.env;
    assert forall i :: 0 <= i < |s.paths| ==> s.paths[i] in s.paths;
  }

  /** Digesting again changes nothing in a fixed world. */
  lemma StateIsStable(world: World, m: Manifest)
    requires Canonical(m)
    ensures StateOf(world, Refresh(world, m)) == StateOf(world, m)
    ensures StateOf(world, m).manifest == Refresh(world, m)
  {
    hide SortedForm;
    CurrentStateStands(world, m);
    var r := Refresh(world, m);
    CurrentStateStands(world, r);
    CurrentIsRefreshed(world, r);
    SameTrouble(world, m.paths, r.paths);
  }

  lemma {:induction false} SameTrouble(world: World, a: seq<PathInput>, b: seq<PathInput>)
    requires |a| == |b| && forall k :: 0 <= k < |a| ==> a[k].id == b[k].id && a[k].metadata == b[k].metadata
    ensures FirstTrouble(world, a) == FirstTrouble(world, b)
  {
    if a != [] { SameTrouble(world, a[1..], b[1..]); }
  }

  // ----- Records -----

  method SortRecords(processes: map<string, Record>) returns (records: seq<Record>)
    requires Keyed(processes)
    ensures Sorted(ByProcess(), records) && OneEachProcess(records) && Elements(records) == processes.Values
  {
    var gathered: seq<Record> := [];
    var left := processes.Keys;
    while left != {}
      invariant left <= processes.Keys && OneEachProcess(gathered)
      invariant forall r :: r in gathered <==> r.process in processes.Keys - left && processes[r.process] == r
      decreases left
    {
      var p :| p in left;
      assert forall k :: 0 <= k < |gathered| ==> gathered[k] in gathered;
      gathered, left := gathered + [processes[p]], left - {p};
    }
    records := Sort(ByProcess(), gathered);
    RecordsInOrder(gathered);
    forall r
      ensures r in records <==> r in processes.Values
    {
      assert r in gathered <==> r in processes.Values;
    }
  }

  lemma ProcessesAreOrdered()
    ensures TotalOrder(ByProcess())
  {
    var leq := ByProcess();
    forall a: Record, b: Record
      ensures leq(a, b) || leq(b, a)
    {
      StringLeqTotal(a.process, b.process);
    }
    forall a: Record, b: Record, c: Record | leq(a, b) && leq(b, c)
      ensures leq(a, c)
    {
      StringLeqTransitive(a.process, b.process, c.process);
    }
  }

  lemma RecordsInOrder(gathered: seq<Record>)
    requires OneEachProcess(gathered)
    ensures var records := Sort(ByProcess(), gathered);
      Sorted(ByProcess(), records) && OneEachProcess(records) && forall r :: r in records <==> r in gathered
  {
    var records := Sort(ByProcess(), gathered);
    ProcessesAreOrdered();
    SortSorts(ByProcess(), gathered);
    RearrangingKeepsDistinct(gathered, records);
    hide Sort;
    forall i, j | 0 <= i < j < |records|
      ensures records[i].process != records[j].process
    {
      assert records[i] in gathered && records[j] in gathered;
    }
  }

  // ----- Merge -----

  lemma ConflictStands(inputs: seq<Observation>, i: nat, values: set<Record>)
    requires i < |inputs| && values == Union(inputs[..i], RecordsIn()) && !Agree(values + Elements(inputs[i].processes))
    ensures !Agree(Union(inputs, RecordsIn()))
  {
    UnionStep(inputs, i, RecordsIn());
    var all := Union(inputs, RecordsIn());
    forall r | r in Union(inputs[..i + 1], RecordsIn())
      ensures r in all
    {
      var k :| 0 <= k < i + 1 && r in Elements(inputs[..i + 1][k].processes);
      assert inputs[..i + 1][k] == inputs[k];
    }
  }

  /** What collecting an accepted batch comes to. */
  lemma CollectedIsMerge(world: World, inputs: seq<Observation>, c: Collected, index: map<Identity, nat>, records: seq<Record>)
    requires AllSealed(inputs) && Collects(inputs, c) && Indexed(c.paths, index) && OneEachName(c.env) && Hashed(c)
    requires Sorted(ByProcess(), records) && OneEachProcess(records) && Elements(records) == Union(inputs, RecordsIn())
    ensures var encoded := SortedForm(Raw(c)); Accepted(encoded) && IsMerge(world, inputs, Observation(StateOf(world, encoded), records))
  {
    hide Collects, Accepted, Hashed, Canonical, SortedForm, Refresh, Indexed, Raw, EnvNames, Ids, BoundIds, Union;
    var raw := Raw(c);
    var encoded := SortedForm(raw);
    RawIsOneEach(c, index);
    RawIsAccepted(inputs, c);
    RawUnites(inputs, c);
    SortingKeepsContent(raw);
    CanonicalIsOneEach(encoded);
    ContentIsSymmetric(encoded, raw);
    HashedRaw(c);
    DigestsStayValid(world, raw);
    AcceptedByContent(raw, encoded);
    DigestsStayValid(world, encoded);
    CurrentStateStands(world, encoded);
    StateIsStable(world, encoded);
    RefreshKeepsContent(world, encoded);
    var m := Refresh(world, encoded);
    CanonicalIsOneEach(m);
    ContentIsSymmetric(m, encoded);
    AcceptedByContent(encoded, m);
    if records == [] { ProcesslessIsEmpty(inputs, m, records); }
  }

  lemma HashedRaw(c: Collected)
    requires Hashed(c)
    ensures EnvHashed(Raw(c).env) && PathsHashed(Raw(c).paths)
  {
  }

  lemma CanonicalIsOneEach(m: Manifest)
    requires Canonical(m)
    ensures OneEach(m)
  {
  }

  lemma ContentIsSymmetric(a: Manifest, b: Manifest)
    requires SameContent(a, b)
    ensures SameContent(b, a)
  {
  }

  /** Without a process there is no evidence. */
  lemma ProcesslessIsEmpty(inputs: seq<Observation>, m: Manifest, records: seq<Record>)
    requires AllSealed(inputs) && Unites(inputs, m) && records == [] && Elements(records) == Union(inputs, RecordsIn())
    ensures m == Empty
  {
    forall i | 0 <= i < |inputs|
      ensures inputs[i].state.manifest == Empty && inputs[i].processes == []
    {
      assert Sealed(inputs[i]);
      if inputs[i].processes != [] {
        InUnion(inputs, i, RecordsIn(), inputs[i].processes[0]);
      }
    }
    NothingIn(m);
  }

  lemma NothingIn(m: Manifest)
    ensures EnvNames(m.env) == {} ==> m.env == []
    ensures Ids(m.paths) == {} ==> m.paths == []
    ensures Elements(m.reasons) == {} ==> m.reasons == []
    ensures Elements(m.subjects) == {} ==> m.subjects == []
  {
    if m.env != [] { assert m.env[0].name in EnvNames(m.env); }
    SomeId(m.paths);
    if m.reasons != [] { assert m.reasons[0] in Elements(m.reasons); }
    if m.subjects != [] { assert m.subjects[0] in Elements(m.subjects); }
  }

  /** Nothing that leaves an input unverifiable is lost in the merge, and nothing else is found. */
  lemma MergeIsUnverifiableExactly(world: World, inputs: seq<Observation>, o: Observation)
    requires IsMerge(world, inputs, o) && forall i :: 0 <= i < |inputs| ==> Revalidates(world, inputs[i])
    ensures o.state.unverifiable <==> exists i :: 0 <= i < |inputs| && inputs[i].state.unverifiable
  {
    hide StateOf, Sealed;
    StateExactly(world, o.state.manifest);
    if o.state.unverifiable {
      var i := SomeInputIsUnverifiable(world, inputs, o.state.manifest);
      StateExactly(world, inputs[i].state.manifest);
    }
    if i :| 0 <= i < |inputs| && inputs[i].state.unverifiable {
      StateExactly(world, inputs[i].state.manifest);
      TroubleSurvives(world, inputs, o.state.manifest, i);
    }
  }

  ghost predicate Troubled(world: World, m: Manifest) {
    m.reasons != [] || exists p :: p in m.paths && world.trouble(p.id).Some?
  }

  lemma SomeInputIsUnverifiable(world: World, inputs: seq<Observation>, m: Manifest) returns (i: nat)
    requires Unites(inputs, m) && Troubled(world, m)
    ensures i < |inputs| && Troubled(world, inputs[i].state.manifest)
  {
    if m.reasons != [] {
      assert m.reasons[0] in Elements(m.reasons) && m.reasons[0] in Union(inputs, ReasonsIn());
      i :| 0 <= i < |inputs| && m.reasons[0] in ReasonsIn()(inputs[i]);
    } else {
      var p :| p in m.paths && world.trouble(p.id).Some?;
      assert p.id in Ids(m.paths) && p.id in Union(inputs, IdsIn());
      i :| 0 <= i < |inputs| && p.id in IdsIn()(inputs[i]);
      var q :| q in inputs[i].state.manifest.paths && q.id == p.id;
    }
  }

  lemma TroubleSurvives(world: World, inputs: seq<Observation>, m: Manifest, i: nat)
    requires Unites(inputs, m) && i < |inputs| && Troubled(world, inputs[i].state.manifest)
    ensures Troubled(world, m)
  {
    var n := inputs[i].state.manifest;
    if n.reasons != [] {
      InUnion(inputs, i, ReasonsIn(), n.reasons[0]);
      assert n.reasons[0] in Elements(m.reasons);
    } else {
      var p :| p in n.paths && world.trouble(p.id).Some?;
      InUnion(inputs, i, IdsIn(), p.id);
      assert p.id in Ids(m.paths);
      var q :| q in m.paths && q.id == p.id;
    }
  }

  /** The union of the inputs, unless one of them has moved or two disagree on a process. */
  method Merge(world: World, inputs: seq<Observation>) returns (outcome: Outcome)
    requires AllSealed(inputs)
    ensures outcome.Merged? <==> (forall i :: 0 <= i < |inputs| ==> Revalidates(world, inputs[i])) && Agree(Union(inputs, RecordsIn()))
    ensures outcome.Merged? ==> IsMerge(world, inputs, outcome.observation)
    ensures outcome.Merged? ==>
      (outcome.observation.state.unverifiable <==> exists i :: 0 <= i < |inputs| && inputs[i].state.unverifiable)
    ensures outcome.Failed? ==> outcome.failure != Refused
  {
    hide Collects, Indexed, OneEachName, Union, Explained, OneEach, StateOf, Agree, Canonical, Sealed, IsMerge, Raw, SortedForm, Keyed;
    var c := Collected([], [], [], [], false, true);
    var index: map<Identity, nat> := map[];
    var processes: map<string, Record> := map[];
    Begin(processes);
    for i := 0 to |inputs|
      invariant Collects(inputs[..i], c) && Indexed(c.paths, index) && OneEachName(c.env) && Hashed(c)
      invariant Keyed(processes) && processes.Values == Union(inputs[..i], RecordsIn())
      invariant forall k :: 0 <= k < i ==> Revalidates(world, inputs[k])
    {
      var observation := inputs[i];
      var ok, processes' := CollectProcesses(processes, observation.processes);
      if !ok {
        ConflictStands(inputs, i, processes.Values);
        return Failed(Conflict);
      }
      UnionStep(inputs, i, RecordsIn());
      processes := processes';
      var current := ComputeState(world, observation.state.manifest);
      if current != observation.state { return Failed(Moved); }
      ghost var before := c;
      c, index := Collect(c, index, observation);
      CollectsStep(inputs, i, before, c);
    }
    assert inputs[..|inputs|] == inputs;
    KeyedAgree(processes);
    var encoded := SortManifest(Raw(c));
    var records := SortRecords(processes);
    CollectedIsMerge(world, inputs, c, index, records);
    SortedLists(Raw(c), index, c);
    var valid := Validate(encoded);
    if !valid { return Failed(Refused); }
    var state := ComputeState(world, encoded);
    MergeIsUnverifiableExactly(world, inputs, Observation(state, records));
    return Merged(Observation(state, records));
  }

  lemma Begin(processes: map<string, Record>)
    requires processes == map[]
    ensures Collects([], Collected([], [], [], [], false, true)) && Indexed([], map[]) && OneEachName([]) && Hashed(Collected([], [], [], [], false, true))
    ensures Keyed(processes) && processes.Values == Union([], RecordsIn())
    ensures forall inputs: seq<Observation> :: inputs[..0] == []
  {
    NothingCollected();
  }

  lemma SortedLists(raw: Manifest, index: map<Identity, nat>, c: Collected)
    requires raw == Raw(c) && Indexed(c.paths, index) && OneEachName(c.env)
    ensures Sorted(ByName(), SortedForm(raw).env) && Sorted(ByIdentity(), SortedForm(raw).paths)
  {
    hide SortedForm;
    RawIsOneEach(c, index);
    SortedFormIsCanonical(raw);
  }
}
