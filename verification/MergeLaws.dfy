/** Merge is a join: one result for a set of inputs however they are ordered, repeated or grouped
    (runtimeinput/observation.go). */
module MergeLaws {
  import opened Paths
  import opened Orders
  import opened Outcomes
  import opened Manifests
  import opened Merging
  import opened MergeMethod

  // ----- The content determines the observation -----

  lemma RevalidatedIsCurrent(world: World, o: Observation)
    requires Sealed(o) && Revalidates(world, o)
    ensures Current(world, o.state.manifest)
  {
    CurrentStateStands(world, o.state.manifest);
  }

  lemma EnvDetermined(world: World, a: Manifest, b: Manifest, e: EnvInput)
    requires Current(world, a) && Current(world, b) && EnvNames(a.env) == EnvNames(b.env) && e in a.env
    ensures e in b.env
  {
    assert e.name in EnvNames(b.env);
    var e' :| e' in b.env && e'.name == e.name;
    assert e' == e;
  }

  lemma BoundExactly(m: Manifest, p: PathInput)
    requires OneEach(m) && p in m.paths
    ensures p.metadata <==> p.id in BoundIds(m.paths)
  {
    if p.id in BoundIds(m.paths) {
      var q :| q in m.paths && q.metadata && q.id == p.id;
      var i :| 0 <= i < |m.paths| && m.paths[i] == p;
      var j :| 0 <= j < |m.paths| && m.paths[j] == q;
      assert i == j;
    }
  }

  lemma PathDetermined(world: World, a: Manifest, b: Manifest, p: PathInput)
    requires OneEach(a) && OneEach(b) && Current(world, a) && Current(world, b)
    requires Ids(a.paths) == Ids(b.paths) && BoundIds(a.paths) == BoundIds(b.paths) && p in a.paths
    ensures p in b.paths
  {
    assert p.id in Ids(b.paths);
    var q :| q in b.paths && q.id == p.id;
    BoundExactly(a, p);
    BoundExactly(b, q);
    assert q == p;
  }

  lemma ContentDetermines(world: World, a: Manifest, b: Manifest)
    requires Canonical(a) && Canonical(b) && Current(world, a) && Current(world, b) && SameContent(a, b)
    ensures a == b
  {
    forall e
      ensures e in a.env <==> e in b.env
    {
      if e in a.env { EnvDetermined(world, a, b, e); }
      if e in b.env { EnvDetermined(world, b, a, e); }
    }
    forall p
      ensures p in a.paths <==> p in b.paths
    {
      if p in a.paths { PathDetermined(world, a, b, p); }
      if p in b.paths { PathDetermined(world, b, a, p); }
    }
    forall x
      ensures (x in a.subjects <==> x in b.subjects) && (x in a.reasons <==> x in b.reasons)
    {
      assert x in Elements(a.subjects) <==> x in Elements(b.subjects);
      assert x in Elements(a.reasons) <==> x in Elements(b.reasons);
    }
    CanonicalIsUnique(a, b);
  }

  lemma RecordsDetermined(a: seq<Record>, b: seq<Record>)
    requires Sorted(ByProcess(), a) && Sorted(ByProcess(), b) && OneEachProcess(a) && OneEachProcess(b) && Elements(a) == Elements(b)
    ensures a == b
  {
    ProcessesAreOrdered();
    forall r
      ensures r in a <==> r in b
    {
      assert r in Elements(a) <==> r in Elements(b);
    }
    forall r, r' | r in multiset(a) && r' in multiset(a) && ByProcess()(r, r') && ByProcess()(r', r)
      ensures r == r'
    {
      StringLeqTotal(r.process, r'.process);
      assert r in a && r' in a;
    }
    assert NoDuplicates(a) && NoDuplicates(b);
    ArrangementIsUnique(ByProcess(), a, b);
  }

  /** Sealed, current observations with the same content and processes are the same observation. */
  lemma SameEvidenceSameObservation(world: World, a: Observation, b: Observation)
    requires Sealed(a) && Sealed(b) && Revalidates(world, a) && Revalidates(world, b)
    requires SameContent(a.state.manifest, b.state.manifest) && Elements(a.processes) == Elements(b.processes)
    ensures a == b
  {
    hide StateOf;
    RevalidatedIsCurrent(world, a);
    RevalidatedIsCurrent(world, b);
    ContentDetermines(world, a.state.manifest, b.state.manifest);
    RecordsDetermined(a.processes, b.processes);
  }

  // ----- Order and repetition -----

  lemma UnionOfSet<T>(xs: seq<Observation>, ys: seq<Observation>, f: Observation -> set<T>)
    requires forall o :: o in xs ==> o in ys
    ensures Union(xs, f) <= Union(ys, f)
  {
    forall x | x in Union(xs, f)
      ensures x in Union(ys, f)
    {
      var i :| 0 <= i < |xs| && x in f(xs[i]);
      assert xs[i] in ys;
      var j :| 0 <= j < |ys| && ys[j] == xs[i];
    }
  }

  ghost predicate SameUnions(xs: seq<Observation>, ys: seq<Observation>) {
    && Union(xs, NamesIn()) == Union(ys, NamesIn()) && Union(xs, IdsIn()) == Union(ys, IdsIn())
    && Union(xs, BoundIn()) == Union(ys, BoundIn()) && Union(xs, ReasonsIn()) == Union(ys, ReasonsIn())
    && Union(xs, RecordsIn()) == Union(ys, RecordsIn()) && AnyMoved(xs) == AnyMoved(ys)
    && Supported(xs) == Supported(ys) && (Supported(xs) ==> Union(xs, SubjectsIn()) == Union(ys, SubjectsIn()))
  }

  lemma SameSetSameUnions(xs: seq<Observation>, ys: seq<Observation>)
    requires forall o :: o in xs <==> o in ys
    ensures SameUnions(xs, ys)
  {
    UnionOfSet(xs, ys, NamesIn());
    UnionOfSet(ys, xs, NamesIn());
    UnionOfSet(xs, ys, IdsIn());
    UnionOfSet(ys, xs, IdsIn());
    UnionOfSet(xs, ys, BoundIn());
    UnionOfSet(ys, xs, BoundIn());
    UnionOfSet(xs, ys, ReasonsIn());
    UnionOfSet(ys, xs, ReasonsIn());
    UnionOfSet(xs, ys, RecordsIn());
    UnionOfSet(ys, xs, RecordsIn());
    UnionOfSet(xs, ys, SubjectsIn());
    UnionOfSet(ys, xs, SubjectsIn());
    FlagsOfSet(xs, ys);
    FlagsOfSet(ys, xs);
  }

  lemma FlagsOfSet(xs: seq<Observation>, ys: seq<Observation>)
    requires forall o :: o in xs ==> o in ys
    ensures AnyMoved(xs) ==> AnyMoved(ys)
    ensures EverySupported(ys) ==> EverySupported(xs)
  {
    forall i | 0 <= i < |xs|
      ensures exists j :: 0 <= j < |ys| && ys[j] == xs[i]
    {
      assert xs[i] in ys;
    }
    if EverySupported(ys) {
      forall i | 0 <= i < |xs| && xs[i].processes != []
        ensures xs[i].state.manifest.outcome == METHOD
      {
        var j :| 0 <= j < |ys| && ys[j] == xs[i];
        assert ys[j].processes != [];
      }
    }
  }

  lemma SameUnionsSameMerge(world: World, xs: seq<Observation>, ys: seq<Observation>, a: Observation, b: Observation)
    requires IsMerge(world, xs, a) && IsMerge(world, ys, b) && SameUnions(xs, ys)
    ensures a == b
  {
    hide Union, AnyMoved, Supported, Sealed, Revalidates, EnvNames, Ids, BoundIds, Elements;
    SameEvidenceSameObservation(world, a, b);
  }

  /** The merge is a function of the set of its inputs: no order and no repetition changes it. */
  lemma MergeIgnoresOrder(world: World, xs: seq<Observation>, ys: seq<Observation>, a: Observation, b: Observation)
    requires IsMerge(world, xs, a) && IsMerge(world, ys, b) && forall o :: o in xs <==> o in ys
    ensures a == b
  {
    hide *;
    SameSetSameUnions(xs, ys);
    SameUnionsSameMerge(world, xs, ys, a, b);
  }

  /** A merge of one observation, however often repeated, is that observation. */
  lemma MergeIsIdempotent(world: World, xs: seq<Observation>, o: Observation, a: Observation)
    requires IsMerge(world, xs, a) && xs != [] && (forall i :: 0 <= i < |xs| ==> xs[i] == o) && Sealed(o) && Revalidates(world, o)
    ensures a == o
  {
    UnionOfOne(xs, o, NamesIn());
    UnionOfOne(xs, o, IdsIn());
    UnionOfOne(xs, o, BoundIn());
    UnionOfOne(xs, o, ReasonsIn());
    UnionOfOne(xs, o, RecordsIn());
    UnionOfOne(xs, o, SubjectsIn());
    hide Union, Revalidates, EnvNames, Ids, BoundIds;
    assert xs[0] == o;
    OneSupport(o);
    SameEvidenceSameObservation(world, a, o);
  }

  lemma UnionOfOne<T>(xs: seq<Observation>, o: Observation, f: Observation -> set<T>)
    requires xs != [] && forall i :: 0 <= i < |xs| ==> xs[i] == o
    ensures Union(xs, f) == f(o)
  {
    assert xs[0] == o;
  }

  /** A sealed observation's support is its subjects'. */
  lemma OneSupport(o: Observation)
    requires Sealed(o)
    ensures o.state.manifest.outcome == METHOD <==> SupportedSubjects(o) != {}
    ensures SupportedSubjects(o) == Elements(o.state.manifest.subjects)
    ensures o.state.manifest.outcome == METHOD || o.state.manifest.outcome == ""
  {
    var m := o.state.manifest;
    if m.subjects != [] { assert m.subjects[0] in Elements(m.subjects); }
    assert m.subjects == [] ==> Elements(m.subjects) == {};
  }

  // ----- Grouping -----

  lemma UnionAppend<T>(xs: seq<Observation>, ys: seq<Observation>, f: Observation -> set<T>)
    ensures Union(xs + ys, f) == Union(xs, f) + Union(ys, f)
  {
    var all := xs + ys;
    assert forall i :: 0 <= i < |xs| ==> all[i] == xs[i];
    assert forall i :: 0 <= i < |ys| ==> all[|xs| + i] == ys[i];
    forall x | x in Union(xs, f) + Union(ys, f)
      ensures x in Union(all, f)
    {
      if x in Union(xs, f) {
        var i :| 0 <= i < |xs| && x in f(xs[i]);
        assert x in f(all[i]);
      } else {
        var i :| 0 <= i < |ys| && x in f(ys[i]);
        assert x in f(all[|xs| + i]);
      }
    }
    forall x | x in Union(all, f)
      ensures x in Union(xs, f) + Union(ys, f)
    {
      var i :| 0 <= i < |all| && x in f(all[i]);
      if i >= |xs| { assert all[i] == ys[i - |xs|]; }
    }
  }

  lemma UnionOfTwo<T>(a: Observation, b: Observation, f: Observation -> set<T>)
    ensures Union([a, b], f) == f(a) + f(b)
  {
    assert [a, b][0] == a && [a, b][1] == b;
  }

  lemma FlagsAppend(xs: seq<Observation>, ys: seq<Observation>)
    ensures AnyMoved(xs + ys) <==> AnyMoved(xs) || AnyMoved(ys)
    ensures EverySupported(xs + ys) <==> EverySupported(xs) && EverySupported(ys)
  {
    var all := xs + ys;
    assert forall i :: 0 <= i < |xs| ==> all[i] == xs[i];
    assert forall i :: 0 <= i < |ys| ==> all[|xs| + i] == ys[i];
    forall i | 0 <= i < |all|
      ensures if i < |xs| then all[i] == xs[i] else all[i] == ys[i - |xs|]
    {
    }
    if EverySupported(all) {
      forall i | 0 <= i < |xs| && xs[i].processes != []
        ensures xs[i].state.manifest.outcome == METHOD
      {
        assert all[i].processes != [];
      }
      forall i | 0 <= i < |ys| && ys[i].processes != []
        ensures ys[i].state.manifest.outcome == METHOD
      {
        assert all[|xs| + i].processes != [];
      }
    }
    if AnyMoved(xs) {
      var i :| 0 <= i < |xs| && xs[i].state.manifest.bracketMoved;
      assert all[i].state.manifest.bracketMoved;
    }
    if AnyMoved(ys) {
      var i :| 0 <= i < |ys| && ys[i].state.manifest.bracketMoved;
      assert all[|xs| + i].state.manifest.bracketMoved;
    }
  }

  /** Any group's part in the support of the whole: a merged group supports exactly when its members do,
      or has no subjects to lose. */
  lemma GroupSupport(world: World, xs: seq<Observation>, a: Observation)
    requires AllSealed(xs) && IsMerge(world, xs, a)
    ensures (a.processes != [] ==> a.state.manifest.outcome == METHOD) <==> EverySupported(xs)
    ensures EverySupported(xs) ==> SupportedSubjects(a) == Union(xs, SubjectsIn())
  {
    SomeProcess(xs, a);
    OneSupport(a);
    if EverySupported(xs) {
      if a.processes == [] { NoProcessNoSubject(xs); }
    }
  }

  /** A merged group has a process exactly when a member has; if all those are supported, it has subjects. */
  lemma SomeProcess(xs: seq<Observation>, a: Observation)
    requires AllSealed(xs) && Elements(a.processes) == Union(xs, RecordsIn())
    ensures a.processes == [] <==> forall i :: 0 <= i < |xs| ==> xs[i].processes == []
    ensures EverySupported(xs) && a.processes != [] ==> Union(xs, SubjectsIn()) != {}
  {
    if a.processes != [] {
      assert a.processes[0] in Elements(a.processes);
      var i :| 0 <= i < |xs| && a.processes[0] in RecordsIn()(xs[i]);
      assert xs[i].processes != [];
      if EverySupported(xs) {
        assert Sealed(xs[i]);
        OneSupport(xs[i]);
        var s :| s in SupportedSubjects(xs[i]);
        InUnion(xs, i, SubjectsIn(), s);
      }
    }
    forall i | 0 <= i < |xs| && a.processes == []
      ensures xs[i].processes == []
    {
      if xs[i].processes != [] { InUnion(xs, i, RecordsIn(), xs[i].processes[0]); }
    }
  }

  lemma NoProcessNoSubject(xs: seq<Observation>)
    requires forall i :: 0 <= i < |xs| ==> xs[i].processes == []
    ensures Union(xs, SubjectsIn()) == {}
  {
  }

  lemma GroupedUnions(world: World, xs: seq<Observation>, ys: seq<Observation>, a: Observation, b: Observation)
    requires AllSealed(xs) && AllSealed(ys) && IsMerge(world, xs, a) && IsMerge(world, ys, b)
    ensures SameUnions([a, b], xs + ys)
  {
    hide Union, EnvNames, Ids, BoundIds, Elements, Sealed, Revalidates, EverySupported, Supported, AnyMoved;
    GroupedPart(a, b, xs, ys, NamesIn());
    GroupedPart(a, b, xs, ys, IdsIn());
    GroupedPart(a, b, xs, ys, BoundIn());
    GroupedPart(a, b, xs, ys, ReasonsIn());
    GroupedPart(a, b, xs, ys, RecordsIn());
    FlagsAppend(xs, ys);
    TwoFlags(a, b);
    GroupedSupport(world, xs, ys, a, b);
  }

  lemma GroupedPart<T>(a: Observation, b: Observation, xs: seq<Observation>, ys: seq<Observation>, f: Observation -> set<T>)
    ensures f(a) == Union(xs, f) && f(b) == Union(ys, f) ==> Union([a, b], f) == Union(xs + ys, f)
  {
    UnionOfTwo(a, b, f);
    UnionAppend(xs, ys, f);
  }

  lemma GroupedSupport(world: World, xs: seq<Observation>, ys: seq<Observation>, a: Observation, b: Observation)
    requires AllSealed(xs) && AllSealed(ys) && IsMerge(world, xs, a) && IsMerge(world, ys, b)
    ensures Supported([a, b]) == Supported(xs + ys)
    ensures Supported([a, b]) ==> Union([a, b], SubjectsIn()) == Union(xs + ys, SubjectsIn())
  {
    GroupSupport(world, xs, a);
    GroupSupport(world, ys, b);
    FlagsAppend(xs, ys);
    TwoFlags(a, b);
    hide Union, EverySupported, IsMerge, AllSealed, SupportedSubjects;
    GroupedPart(a, b, xs, ys, SubjectsIn());
  }

  lemma TwoFlags(a: Observation, b: Observation)
    ensures AnyMoved([a, b]) <==> a.state.manifest.bracketMoved || b.state.manifest.bracketMoved
    ensures EverySupported([a, b]) <==>
      (a.processes != [] ==> a.state.manifest.outcome == METHOD) && (b.processes != [] ==> b.state.manifest.outcome == METHOD)
  {
    assert [a, b][0] == a && [a, b][1] == b;
  }

  /** Merging merged groups is merging all their members. */
  lemma MergeIsAssociative(world: World, xs: seq<Observation>, ys: seq<Observation>, a: Observation, b: Observation,
                           grouped: Observation, whole: Observation)
    requires AllSealed(xs) && AllSealed(ys) && IsMerge(world, xs, a) && IsMerge(world, ys, b)
    requires IsMerge(world, [a, b], grouped) && IsMerge(world, xs + ys, whole)
    ensures grouped == whole
  {
    hide *;
    GroupedUnions(world, xs, ys, a, b);
    SameUnionsSameMerge(world, [a, b], xs + ys, grouped, whole);
  }

  /** Nor does grouping change whether there is a merge: the whole conflicts exactly when a group does, or
      the groups do with each other. */
  lemma ConflictsAreTheSame(world: World, xs: seq<Observation>, ys: seq<Observation>, a: Observation, b: Observation)
    requires IsMerge(world, xs, a) && IsMerge(world, ys, b)
    ensures Agree(Union([a, b], RecordsIn())) <==> Agree(Union(xs + ys, RecordsIn()))
    ensures Revalidates(world, a) && Revalidates(world, b) && Sealed(a) && Sealed(b)
  {
    UnionOfTwo(a, b, RecordsIn());
    UnionAppend(xs, ys, RecordsIn());
    hide Union, Agree;
  }
}
