/** Merge: the union of completed observations over one current view (runtimeinput/observation.go). */
module Merging {
  import opened Paths
  import opened Orders
  import opened Outcomes
  import opened Manifests
  import opened ManifestGrammar

  /** One contributing process: its identity, where its evidence came from, and the view it is in. */
  datatype Record = Record(process: string, origin: string, view: string)

  /** A sealed observation: its state, and its contributing processes in order of identity. */
  datatype Observation = Observation(state: State, processes: seq<Record>)

  datatype Failure = Moved | Conflict | Refused
  datatype Outcome = Merged(observation: Observation) | Failed(failure: Failure)

  function ByProcess(): (Record, Record) -> bool {
    (a: Record, b: Record) => StringLeq(a.process, b.process)
  }

  ghost predicate OneEachProcess(records: seq<Record>) {
    forall i, j :: 0 <= i < j < |records| ==> records[i].process != records[j].process
  }

  /** What sealing guarantees of every observation there is: canonical accepted evidence, processes sorted
      and distinct, and no evidence without a process. */
  ghost predicate Sealed(o: Observation) {
    && Canonical(o.state.manifest) && Accepted(o.state.manifest)
    && Sorted(ByProcess(), o.processes) && OneEachProcess(o.processes)
    && (o.processes == [] ==> o.state.manifest == Empty)
  }

  /** It still says what its inputs say. */
  predicate Revalidates(world: World, o: Observation) {
    o.state == StateOf(world, o.state.manifest)
  }

  /** No process comes with two records. */
  ghost predicate Agree(records: set<Record>) {
    forall r, r' :: r in records && r' in records && r.process == r'.process ==> r == r'
  }

  // ----- Content, as sets -----

  function Elements<T(==)>(s: seq<T>): set<T> {
    set x | x in s
  }

  function EnvNames(env: seq<EnvInput>): set<string> {
    set e | e in env :: e.name
  }

  function Ids(paths: seq<PathInput>): set<Identity> {
    set p | p in paths :: p.id
  }

  /** The identities bound to their metadata. */
  function BoundIds(paths: seq<PathInput>): set<Identity> {
    set p | p in paths && p.metadata :: p.id
  }

  function SupportedSubjects(o: Observation): set<string> {
    if o.processes == [] then {} else Elements(o.state.manifest.subjects)
  }

  function Union<T(==)>(inputs: seq<Observation>, f: Observation -> set<T>): set<T> {
    set i, x | 0 <= i < |inputs| && x in f(inputs[i]) :: x
  }

  function NamesIn(): Observation -> set<string> { (o: Observation) => EnvNames(o.state.manifest.env) }
  function IdsIn(): Observation -> set<Identity> { (o: Observation) => Ids(o.state.manifest.paths) }
  function BoundIn(): Observation -> set<Identity> { (o: Observation) => BoundIds(o.state.manifest.paths) }
  function ReasonsIn(): Observation -> set<string> { (o: Observation) => Elements(o.state.manifest.reasons) }
  function SubjectsIn(): Observation -> set<string> { (o: Observation) => SupportedSubjects(o) }
  function RecordsIn(): Observation -> set<Record> { (o: Observation) => Elements(o.processes) }

  predicate AnyMoved(inputs: seq<Observation>) {
    exists i :: 0 <= i < |inputs| && inputs[i].state.manifest.bracketMoved
  }

  predicate EverySupported(inputs: seq<Observation>) {
    forall i :: 0 <= i < |inputs| && inputs[i].processes != [] ==> inputs[i].state.manifest.outcome == METHOD
  }

  /** Outcome support survives when there is some and every process-backed input has it. */
  predicate Supported(inputs: seq<Observation>) {
    EverySupported(inputs) && Union(inputs, SubjectsIn()) != {}
  }

  /** The manifest holds exactly the union: an identity is metadata-bound when some input bound it so, a
      bracket moved once has moved, and support is all or none. */
  ghost predicate Unites(inputs: seq<Observation>, m: Manifest) {
    && m.version == VERSION
    && EnvNames(m.env) == Union(inputs, NamesIn())
    && Ids(m.paths) == Union(inputs, IdsIn()) && BoundIds(m.paths) == Union(inputs, BoundIn())
    && Elements(m.reasons) == Union(inputs, ReasonsIn())
    && (m.bracketMoved <==> AnyMoved(inputs))
    && m.outcome == (if Supported(inputs) then METHOD else "")
    && Elements(m.subjects) == (if Supported(inputs) then Union(inputs, SubjectsIn()) else {})
  }

  ghost predicate IsMerge(world: World, inputs: seq<Observation>, o: Observation) {
    && Sealed(o) && Revalidates(world, o)
    && Unites(inputs, o.state.manifest)
    && Elements(o.processes) == Union(inputs, RecordsIn())
  }

  // ----- Collecting -----

  /** index names each identity's one place. */
  ghost predicate Indexed(paths: seq<PathInput>, index: map<Identity, nat>) {
    && (forall id :: id in index ==> index[id] < |paths| && paths[index[id]].id == id)
    && (forall k :: 0 <= k < |paths| ==> paths[k].id in index && index[paths[k].id] == k)
  }

  predicate EnvHashed(env: seq<EnvInput>) {
    forall i :: 0 <= i < |env| ==> ValidDigest(env[i].digest)
  }

  predicate PathsHashed(paths: seq<PathInput>) {
    forall i :: 0 <= i < |paths| ==> ValidDigest(paths[i].digest)
  }

  /** One identity, one class: a seen identity keeps its first entry and takes the stronger class; a new
      one is appended. */
  method UpsertPath(paths: seq<PathInput>, index: map<Identity, nat>, entry: PathInput)
    returns (paths': seq<PathInput>, index': map<Identity, nat>)
    requires Indexed(paths, index)
    ensures Indexed(paths', index')
    ensures paths' == if entry.id in index then paths[index[entry.id] := Stronger(paths[index[entry.id]], entry)] else paths + [entry]
    ensures Ids(paths') == Ids(paths) + {entry.id}
    ensures BoundIds(paths') == BoundIds(paths) + if entry.metadata then {entry.id} else {}
    ensures PathsHashed(paths) && ValidDigest(entry.digest) ==> PathsHashed(paths')
  {
    hide ValidDigest;
    if entry.id in index {
      var at := index[entry.id];
      paths', index' := paths, index;
      if entry.metadata { paths' := paths[at := paths[at].(metadata := true)]; }
      assert paths' == paths[at := Stronger(paths[at], entry)];
      StrongerSets(paths, at, entry);
      return;
    }
    index' := index[entry.id := |paths|];
    paths' := paths + [entry];
    AppendedSets(paths, entry);
  }

  function Stronger(first: PathInput, entry: PathInput): PathInput {
    if entry.metadata then first.(metadata := true) else first
  }

  lemma StrongerSets(paths: seq<PathInput>, at: nat, entry: PathInput)
    requires at < |paths| && paths[at].id == entry.id
    ensures var paths' := paths[at := Stronger(paths[at], entry)];
      Ids(paths') == Ids(paths) + {entry.id} && BoundIds(paths') == BoundIds(paths) + if entry.metadata then {entry.id} else {}
  {
    var paths' := paths[at := Stronger(paths[at], entry)];
    assert forall k :: 0 <= k < |paths| ==> paths'[k].id == paths[k].id;
    assert forall k :: 0 <= k < |paths| ==> paths'[k] in paths' && paths[k] in paths;
    StrongerIds(paths, paths');
    forall id
      ensures id in BoundIds(paths') <==> id in BoundIds(paths) || (entry.metadata && id == entry.id)
    {
      StrongerBound(paths, at, entry, id);
    }
  }

  lemma StrongerIds(paths: seq<PathInput>, paths': seq<PathInput>)
    requires |paths| == |paths'| && forall k :: 0 <= k < |paths| ==> paths'[k].id == paths[k].id
    ensures Ids(paths') == Ids(paths)
  {
    forall id
      ensures id in Ids(paths) <==> id in Ids(paths')
    {
      if id in Ids(paths) {
        var k :| 0 <= k < |paths| && paths[k].id == id;
        assert paths'[k] in paths';
      }
      if id in Ids(paths') {
        var k :| 0 <= k < |paths| && paths'[k].id == id;
        assert paths[k] in paths;
      }
    }
  }

  lemma StrongerBound(paths: seq<PathInput>, at: nat, entry: PathInput, id: Identity)
    requires at < |paths| && paths[at].id == entry.id
    ensures var paths' := paths[at := Stronger(paths[at], entry)];
      id in BoundIds(paths') <==> id in BoundIds(paths) || (entry.metadata && id == entry.id)
  {
    var paths' := paths[at := Stronger(paths[at], entry)];
    if id in BoundIds(paths) {
      var k :| 0 <= k < |paths| && paths[k].id == id && paths[k].metadata;
      assert paths'[k] in paths' && paths'[k].metadata;
    }
    if entry.metadata && id == entry.id { assert paths'[at] in paths' && paths'[at].metadata; }
    if id in BoundIds(paths') {
      var k :| 0 <= k < |paths| && paths'[k].id == id && paths'[k].metadata;
      if k != at || !entry.metadata { assert paths[k] in paths && paths[k].metadata; }
    }
  }

  lemma AppendedSets(paths: seq<PathInput>, entry: PathInput)
    ensures Ids(paths + [entry]) == Ids(paths) + {entry.id}
    ensures BoundIds(paths + [entry]) == BoundIds(paths) + if entry.metadata then {entry.id} else {}
  {
    assert forall p :: p in paths + [entry] <==> p in paths || p == entry;
  }

  lemma NoPathSets()
    ensures Ids([]) == {} && BoundIds([]) == {}
  {
  }

  method CollectPaths(paths: seq<PathInput>, index: map<Identity, nat>, entries: seq<PathInput>)
    returns (paths': seq<PathInput>, index': map<Identity, nat>)
    requires Indexed(paths, index)
    ensures Indexed(paths', index')
    ensures Ids(paths') == Ids(paths) + Ids(entries) && BoundIds(paths') == BoundIds(paths) + BoundIds(entries)
    ensures PathsHashed(paths) && PathsHashed(entries) ==> PathsHashed(paths')
  {
    assert PathsHashed(entries) ==> forall k :: 0 <= k < |entries| ==> ValidDigest(entries[k].digest);
    NoPathSets();
    hide Ids, BoundIds, Indexed, PathsHashed, ValidDigest;
    paths', index' := paths, index;
    for k := 0 to |entries|
      invariant PathsHashed(paths) && PathsHashed(entries) ==> PathsHashed(paths')
      invariant Indexed(paths', index')
      invariant Ids(paths') == Ids(paths) + Ids(entries[..k]) && BoundIds(paths') == BoundIds(paths) + BoundIds(entries[..k])
    {
      AppendedSets(entries[..k], entries[k]);
      assert entries[..k + 1] == entries[..k] + [entries[k]];
      paths', index' := UpsertPath(paths', index', entries[k]);
    }
    assert entries[..|entries|] == entries;
  }

  ghost predicate OneEachName(env: seq<EnvInput>) {
    forall i, j :: 0 <= i < j < |env| ==> env[i].name != env[j].name
  }

  method CollectEnv(env: seq<EnvInput>, entries: seq<EnvInput>) returns (env': seq<EnvInput>)
    requires OneEachName(env)
    ensures OneEachName(env') && EnvNames(env') == EnvNames(env) + EnvNames(entries)
    ensures EnvHashed(env) && EnvHashed(entries) ==> EnvHashed(env')
  {
    env' := env;
    var seen := EnvNames(env);
    for k := 0 to |entries|
      invariant EnvHashed(env) && EnvHashed(entries) ==> EnvHashed(env')
      invariant OneEachName(env') && seen == EnvNames(env') == EnvNames(env) + EnvNames(entries[..k])
    {
      var entry := entries[k];
      assert entries[..k + 1] == entries[..k] + [entry];
      NameAppended(entries[..k], entry);
      NameAppended(env', entry);
      if entry.name !in seen {
        NewName(env', entry);
        seen := seen + {entry.name};
        env' := env' + [entry];
      }
    }
    assert entries[..|entries|] == entries;
  }

  lemma NameAppended(env: seq<EnvInput>, entry: EnvInput)
    ensures EnvNames(env + [entry]) == EnvNames(env) + {entry.name}
  {
    assert forall e :: e in env + [entry] <==> e in env || e == entry;
  }

  lemma NewName(env: seq<EnvInput>, entry: EnvInput)
    requires OneEachName(env) && entry.name !in EnvNames(env)
    ensures OneEachName(env + [entry])
  {
    assert forall k :: 0 <= k < |env| ==> env[k] in env;
  }

  method CollectReasons(reasons: seq<string>, entries: seq<string>) returns (reasons': seq<string>)
    ensures Elements(reasons') == Elements(reasons) + Elements(entries)
  {
    reasons' := reasons;
    var seen := Elements(reasons);
    for k := 0 to |entries|
      invariant seen == Elements(reasons') == Elements(reasons) + Elements(entries[..k])
    {
      assert entries[..k + 1] == entries[..k] + [entries[k]];
      if entries[k] !in seen {
        seen := seen + {entries[k]};
        reasons' := reasons' + [entries[k]];
      }
    }
    assert entries[..|entries|] == entries;
  }

  ghost predicate Keyed(processes: map<string, Record>) {
    forall p :: p in processes ==> processes[p].process == p
  }

  /** A process seen before must come with the very same record. */
  method CollectProcesses(processes: map<string, Record>, records: seq<Record>) returns (ok: bool, processes': map<string, Record>)
    requires Keyed(processes)
    ensures ok <==> Agree(processes.Values + Elements(records))
    ensures ok ==> Keyed(processes') && processes'.Values == processes.Values + Elements(records)
  {
    processes' := processes;
    for k := 0 to |records|
      invariant Keyed(processes') && processes'.Values == processes.Values + Elements(records[..k])
    {
      var r := records[k];
      assert r in records;
      assert records[..k + 1] == records[..k] + [r];
      if r.process in processes' && processes'[r.process] != r {
        assert processes'[r.process] in processes'.Values;
        assert forall x :: x in records[..k] ==> x in records;
        return false, processes';
      }
      ValueAdded(processes', r);
      processes' := processes'[r.process := r];
    }
    assert records[..|records|] == records;
    KeyedAgree(processes');
    ok := true;
  }

  lemma ValueAdded(processes: map<string, Record>, r: Record)
    requires Keyed(processes) && (r.process in processes ==> processes[r.process] == r)
    ensures processes[r.process := r].Values == processes.Values + {r}
  {
    var after := processes[r.process := r];
    forall x | x in processes.Values + {r}
      ensures x in after.Values
    {
      assert after[r.process] == r;
      if x in processes.Values {
        var p :| p in processes && processes[p] == x;
        assert after[p] == x;
      }
    }
  }

  lemma KeyedAgree(processes: map<string, Record>)
    requires Keyed(processes)
    ensures Agree(processes.Values)
  {
  }
}
