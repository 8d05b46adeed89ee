/** The store itself, with renames landing at any moment, inside a pass as well as between them
    (internal/cachefile/cachefile.go). */
module CacheStore {
  import opened Orders
  import opened CacheFile

  // ----- Sums over finite sets -----

  ghost function Sum<T>(s: set<T>, f: T -> nat): nat {
    if s == {} then 0
    else
      var x :| x in s;
      f(x) + Sum(s - {x}, f)
  }

  lemma {:induction false} SumPick<T>(s: set<T>, f: T -> nat, x: T)
    requires x in s
    ensures Sum(s, f) == f(x) + Sum(s - {x}, f)
    decreases |s|
  {
    var y :| y in s && Sum(s, f) == f(y) + Sum(s - {y}, f);
    if y != x {
      SumPick(s - {y}, f, x);
      SumPick(s - {x}, f, y);
      assert s - {y} - {x} == s - {x} - {y};
    }
  }

  lemma {:induction false} SumLeq<T>(s: set<T>, f: T -> nat, s': set<T>, f': T -> nat)
    requires s <= s' && forall x :: x in s ==> f(x) <= f'(x)
    ensures Sum(s, f) <= Sum(s', f')
    decreases |s|
  {
    if s != {} {
      var x :| x in s;
      SumPick(s, f, x);
      SumPick(s', f', x);
      SumLeq(s - {x}, f, s' - {x}, f');
    }
  }

  // ----- What is on disk -----

  function SizeAt(disk: map<string, File>): string -> nat {
    p => if p in disk then disk[p].size else 0
  }

  function SizeOf(pending: map<nat, Write>): nat -> nat {
    w => if w in pending then pending[w].size else 0
  }

  /** The paths whose file is from a write already recorded. */
  function SettledPaths(disk: map<string, File>, pending: map<nat, Write>): set<string> {
    set p | p in disk && disk[p].write !in pending
  }

  ghost function SettledBytes(disk: map<string, File>, pending: map<nat, Write>): nat {
    Sum(SettledPaths(disk, pending), SizeAt(disk))
  }

  ghost function DiskBytes(disk: map<string, File>): nat {
    Sum(disk.Keys, SizeAt(disk))
  }

  ghost function PendingBytes(pending: map<nat, Write>): nat {
    Sum(pending.Keys, SizeOf(pending))
  }

  ghost predicate Consistent(disk: map<string, File>, pending: map<nat, Write>, nextWrite: nat) {
    && (forall w :: w in pending ==> w < nextWrite)
    && (forall p :: p in disk ==> disk[p].write < nextWrite)
    && (forall p :: p in disk && disk[p].write in pending ==> pending[disk[p].write] == Write(p, disk[p].size))
  }

  /** Every file not yet recorded is paid for by its own pending write. */
  lemma {:induction false} UnsettledIsPending(s: set<string>, disk: map<string, File>, pending: map<nat, Write>, ws: set<nat>, nextWrite: nat)
    requires Consistent(disk, pending, nextWrite) && s <= disk.Keys && ws <= pending.Keys
    requires forall p :: p in s ==> disk[p].write in ws
    ensures Sum(s, SizeAt(disk)) <= Sum(ws, SizeOf(pending))
    decreases |s|
  {
    if s != {} {
      var p :| p in s;
      var w := disk[p].write;
      SumPick(s, SizeAt(disk), p);
      SumPick(ws, SizeOf(pending), w);
      forall q | q in s - {p}
        ensures disk[q].write in ws - {w}
      {
      }
      UnsettledIsPending(s - {p}, disk, pending, ws - {w}, nextWrite);
    }
  }

  lemma {:induction false} SumSplit<T>(s: set<T>, t: set<T>, f: T -> nat)
    requires s !! t
    ensures Sum(s + t, f) == Sum(s, f) + Sum(t, f)
    decreases |s|
  {
    if s == {} {
      assert s + t == t;
    } else {
      var x :| x in s;
      SumPick(s, f, x);
      SumPick(s + t, f, x);
      assert s + t - {x} == (s - {x}) + t;
      SumSplit(s - {x}, t, f);
    }
  }

  lemma DiskIsBounded(disk: map<string, File>, pending: map<nat, Write>, nextWrite: nat)
    requires Consistent(disk, pending, nextWrite)
    ensures DiskBytes(disk) <= SettledBytes(disk, pending) + PendingBytes(pending)
  {
    var settled := SettledPaths(disk, pending);
    assert disk.Keys == settled + (disk.Keys - settled);
    SumSplit(settled, disk.Keys - settled, SizeAt(disk));
    UnsettledIsPending(disk.Keys - settled, disk, pending, pending.Keys, nextWrite);
  }

  /** Nothing settles by itself: between two records, renames and removals only take settled files away. */
  ghost predicate OnlyUnsettles(disk: map<string, File>, pending: map<nat, Write>, disk': map<string, File>, pending': map<nat, Write>) {
    forall p :: p in SettledPaths(disk', pending') ==> p in SettledPaths(disk, pending) && disk'[p] == disk[p]
  }

  /** What other goroutines may have done between two moments of a pass. */
  ghost predicate Rely(disk: map<string, File>, pending: map<nat, Write>, nextWrite: nat,
                       disk': map<string, File>, pending': map<nat, Write>, nextWrite': nat) {
    && OnlyUnsettles(disk, pending, disk', pending')
    && nextWrite <= nextWrite' && (forall w :: w in pending' && w !in pending ==> w >= nextWrite)
    && (forall p :: p in disk' ==> (p in disk && disk'[p] == disk[p]) || disk'[p].write >= nextWrite)
  }

  function PathsOf(entries: seq<DiskEntry>): set<string> {
    set i | 0 <= i < |entries| :: entries[i].path
  }

  /** The entries gone were removed and no others: what is on disk under their paths was renamed there
      since. */
  ghost predicate RemovedExactly(disk: map<string, File>, nextWrite: nat, disk': map<string, File>, gone: seq<DiskEntry>) {
    && disk.Keys - PathsOf(gone) <= disk'.Keys
    && forall p :: p in PathsOf(gone) && p in disk' ==> disk'[p].write >= nextWrite
  }

  lemma UnsettlingLowers(disk: map<string, File>, pending: map<nat, Write>, disk': map<string, File>, pending': map<nat, Write>)
    requires OnlyUnsettles(disk, pending, disk', pending')
    ensures SettledBytes(disk', pending') <= SettledBytes(disk, pending)
  {
    SumLeq(SettledPaths(disk', pending'), SizeAt(disk'), SettledPaths(disk, pending), SizeAt(disk));
  }

  ghost predicate Listed(entries: seq<DiskEntry>, p: string, f: File) {
    exists i :: 0 <= i < |entries| && entries[i].path == p && entries[i].size == f.size && entries[i].modTime == f.modTime
  }

  ghost predicate Covers(entries: seq<DiskEntry>, disk: map<string, File>, s: set<string>) {
    forall p :: p in s ==> p in disk && Listed(entries, p, disk[p])
  }

  lemma {:induction false} CoveredBytes(entries: seq<DiskEntry>, disk: map<string, File>, s: set<string>)
    requires Covers(entries, disk, s)
    ensures Sum(s, SizeAt(disk)) <= Total(entries)
    decreases |entries|
  {
    if entries == [] {
      assert s == {};
    } else {
      var p := entries[0].path;
      var fits := p in s && disk[p].size == entries[0].size;
      var rest := if fits then s - {p} else s;
      forall q | q in rest
        ensures Listed(entries[1..], q, disk[q])
      {
        assert Listed(entries, q, disk[q]);
        var i :| 0 <= i < |entries| && entries[i].path == q && entries[i].size == disk[q].size && entries[i].modTime == disk[q].modTime;
        assert i > 0 && entries[1..][i - 1] == entries[i];
      }
      CoveredBytes(entries[1..], disk, rest);
      if fits { SumPick(s, SizeAt(disk), p); }
    }
  }

  // ----- The store -----

  class Store {
    /** A negative limit disables retention on write. */
    const limit: int
    var disk: map<string, File>
    var pending: map<nat, Write>
    var nextWrite: nat
    var knownBytes: nat
    var knownValid: bool
    var nextSeq: nat
    var writeSeq: map<string, nat>
    /** A write has been recorded under this limit. */
    ghost var enforced: bool

    ghost predicate Valid()
      reads this
    {
      && Consistent(disk, pending, nextWrite)
      && (limit >= 0 && knownValid ==> SettledBytes(disk, pending) <= knownBytes)
      && (limit >= 0 && enforced ==> SettledBytes(disk, pending) <= limit)
    }

    constructor (limit: int, disk: map<string, File>)
      requires forall p :: p in disk ==> disk[p].write == 0
      ensures Valid() && this.limit == limit && this.disk == disk && !enforced
    {
      this.limit, this.disk := limit, disk;
      pending, nextWrite, knownBytes, knownValid, nextSeq, writeSeq := map[], 1, 0, false, 0, map[];
      enforced := false;
    }

    /** Store's rename: the new file is on disk, its write not yet recorded. */
    method Rename(path: string, size: nat, modTime: int) returns (write: nat)
      requires Valid()
      modifies this`disk, this`pending, this`nextWrite
      ensures Valid() && write == old(nextWrite) && nextWrite == write + 1
      ensures disk == old(disk)[path := File(write, size, modTime)] && pending == old(pending)[write := Write(path, size)]
    {
      write := Land(path, size, modTime);
      UnsettlingLowers(old(disk), old(pending), disk, pending);
    }

    /** One rename, at whatever point of whatever pass. */
    method Land(path: string, size: nat, modTime: int) returns (write: nat)
      requires Consistent(disk, pending, nextWrite)
      modifies this`disk, this`pending, this`nextWrite
      ensures Consistent(disk, pending, nextWrite) && Rely(old(disk), old(pending), old(nextWrite), disk, pending, nextWrite)
      ensures write == old(nextWrite) && nextWrite == write + 1
      ensures disk == old(disk)[path := File(write, size, modTime)] && pending == old(pending)[write := Write(path, size)]
    {
      write := nextWrite;
      nextWrite := nextWrite + 1;
      disk := disk[path := File(write, size, modTime)];
      pending := pending[write := Write(path, size)];
    }

    /** Any number of other goroutines' renames. */
    method Interfere()
      requires Consistent(disk, pending, nextWrite)
      modifies this`disk, this`pending, this`nextWrite
      ensures Consistent(disk, pending, nextWrite) && Rely(old(disk), old(pending), old(nextWrite), disk, pending, nextWrite)
      ensures old(disk).Keys <= disk.Keys && old(nextWrite) <= nextWrite
    {
      var renames: nat := *;
      while renames > 0
        invariant Consistent(disk, pending, nextWrite) && Rely(old(disk), old(pending), old(nextWrite), disk, pending, nextWrite)
        invariant old(disk).Keys <= disk.Keys
      {
        var path: string, size: nat, modTime: int := *, *, *;
        var _ := Land(path, size, modTime);
        renames := renames - 1;
      }
    }

    function SeqOf(path: string): nat
      reads this
    {
      if path in writeSeq then writeSeq[path] else 0
    }

    /** The walk: entries present throughout are visited, in any order; entries that appear meanwhile may
        be. Each is read as it is when it is reached. */
    method Scan() returns (entries: seq<DiskEntry>)
      requires Consistent(disk, pending, nextWrite)
      modifies this`disk, this`pending, this`nextWrite
      ensures Consistent(disk, pending, nextWrite) && Rely(old(disk), old(pending), old(nextWrite), disk, pending, nextWrite)
      ensures Distinct(entries) && Covers(entries, disk, SettledPaths(disk, pending)) && old(disk).Keys <= disk.Keys
      ensures forall i :: 0 <= i < |entries| ==> entries[i].path in disk && entries[i].seqNo == SeqOf(entries[i].path)
    {
      entries := [];
      var todo, late := disk.Keys, *;
      RelyRefl(disk, pending, nextWrite);
      while todo != {}
        invariant Consistent(disk, pending, nextWrite) && Rely(old(disk), old(pending), old(nextWrite), disk, pending, nextWrite)
        invariant Distinct(entries) && todo <= disk.Keys && old(disk).Keys <= disk.Keys
        invariant forall i :: 0 <= i < |entries| ==> entries[i].path in disk && entries[i].path !in todo
        invariant forall i :: 0 <= i < |entries| ==> entries[i].seqNo == SeqOf(entries[i].path)
        invariant Covers(entries, disk, SettledPaths(disk, pending) - todo)
        decreases late, todo
      {
        hide Rely, Consistent, Covers, Distinct, SettledPaths;
        var path :| path in todo;
        ghost var disk0, pending0, next0 := disk, pending, nextWrite;
        Interfere();
        RelyTransitive(old(disk), old(pending), old(nextWrite), disk0, pending0, next0, disk, pending, nextWrite);
        var found := DiskEntry(path, disk[path].size, disk[path].modTime, SeqOf(path));
        StillCovered(entries, disk0, pending0, next0, disk, pending, nextWrite, todo, found);
        DistinctAppend(entries, found);
        entries, todo := entries + [found], todo - {path};
        if late > 0 {
          var more := Appeared(entries);
          CoversLess(entries, disk, SettledPaths(disk, pending) - todo, SettledPaths(disk, pending) - (todo + more));
          todo, late := todo + more, late - 1;
        }
      }
    }

    /** Some entries not yet visited. */
    method Appeared(entries: seq<DiskEntry>) returns (more: set<string>)
      ensures more <= disk.Keys && forall i :: 0 <= i < |entries| ==> entries[i].path !in more
    {
      var any: set<string> := *;
      more := any * disk.Keys - set i | 0 <= i < |entries| :: entries[i].path;
    }

    method Remove(path: string) returns (gone: bool)
      requires Consistent(disk, pending, nextWrite)
      modifies this`disk, this`writeSeq
      ensures disk == old(disk) - {path} && gone == (path in old(disk)) && writeSeq == old(writeSeq) - {path}
      ensures Consistent(disk, pending, nextWrite) && Rely(old(disk), pending, nextWrite, disk, pending, nextWrite)
    {
      RemovalRelies(disk, pending, nextWrite, path);
      gone := path in disk;
      assert !gone ==> disk - {path} == disk;
      if gone { disk := disk - {path}; }
      writeSeq := writeSeq - {path};
    }

    /** The removals, oldest first, until what remains is within the target. */
    method Evict(ordered: seq<DiskEntry>, target: nat, dryRun: bool) returns (count: nat, remaining: nat, removed: nat)
      requires Consistent(disk, pending, nextWrite) && Distinct(ordered)
      requires forall i :: 0 <= i < |ordered| ==> ordered[i].path in disk
      requires Covers(ordered, disk, SettledPaths(disk, pending))
      modifies this`disk, this`pending, this`nextWrite, this`writeSeq
      ensures Consistent(disk, pending, nextWrite) && Rely(old(disk), old(pending), old(nextWrite), disk, pending, nextWrite)
      ensures count == Evicted(ordered, Total(ordered), target) == removed && count <= |ordered|
      ensures remaining == Total(ordered[count..])
      ensures if dryRun then old(disk).Keys <= disk.Keys && writeSeq == old(writeSeq)
              else Covers(ordered[count..], disk, SettledPaths(disk, pending))
                   && RemovedExactly(old(disk), old(nextWrite), disk, ordered[..count])
                   && writeSeq == old(writeSeq) - PathsOf(ordered[..count])
    {
      hide Evicted, Covers, Rely, Consistent, Total, SettledPaths, Distinct, RemovedExactly;
      NothingRemoved(disk, pending, nextWrite, disk, pending, nextWrite);
      count, remaining, removed := 0, Total(ordered), 0;
      assert PathsOf([]) == {} && writeSeq - {} == writeSeq;
      assert ordered[0..] == ordered;
      RelyRefl(disk, pending, nextWrite);
      while count < |ordered| && remaining > target
        invariant old(nextWrite) <= nextWrite
        invariant count == removed <= |ordered| && remaining == Total(ordered[count..])
        invariant Evicted(ordered, Total(ordered), target) == count + Evicted(ordered[count..], remaining, target)
        invariant Consistent(disk, pending, nextWrite) && Rely(old(disk), old(pending), old(nextWrite), disk, pending, nextWrite)
        invariant forall i :: count <= i < |ordered| ==> ordered[i].path in disk
        invariant if dryRun then old(disk).Keys <= disk.Keys && writeSeq == old(writeSeq)
                  else Covers(ordered[count..], disk, SettledPaths(disk, pending))
                       && RemovedExactly(old(disk), old(nextWrite), disk, ordered[..count])
                       && writeSeq == old(writeSeq) - PathsOf(ordered[..count])
      {
        var entry := ordered[count];
        EvictedStep(ordered, count, target);
        DistinctAfter(ordered, count);
        ghost var disk0, pending0, next0 := disk, pending, nextWrite;
        Interfere();
        RelyTransitive(old(disk), old(pending), old(nextWrite), disk0, pending0, next0, disk, pending, nextWrite);
        if dryRun {
          removed := removed + 1;
        } else {
          ghost var disk1 := disk;
          LessToCover(ordered[count..], disk0, pending0, next0, disk, pending, nextWrite);
          RemovesNoMore(old(disk), old(nextWrite), disk0, pending0, next0, disk, pending, nextWrite, ordered, count);
          var gone := Remove(entry.path);
          PathsOfNext(ordered, count);
          if gone { removed := removed + 1; }
          RelyTransitive(old(disk), old(pending), old(nextWrite), disk1, pending, nextWrite, disk, pending, nextWrite);
        }
        remaining := remaining - entry.size;
        count := count + 1;
      }
      EvictionEnds(ordered, count, target);
    }

    method PruneLocked(target: nat, preserve: string, dryRun: bool) returns (report: Report, entries: seq<DiskEntry>)
      requires Consistent(disk, pending, nextWrite)
      modifies this`disk, this`pending, this`nextWrite, this`writeSeq, this`knownBytes, this`knownValid
      ensures Consistent(disk, pending, nextWrite) && Rely(old(disk), old(pending), old(nextWrite), disk, pending, nextWrite)
      ensures Distinct(entries) && Reports(report, entries, target, preserve)
      ensures !dryRun ==> knownValid && knownBytes == report.remaining && SettledBytes(disk, pending) <= knownBytes
      ensures !dryRun ==> RemovedExactly(old(disk), old(nextWrite), disk, Plan(entries, target, preserve))
      ensures !dryRun ==> writeSeq == old(writeSeq) - PathsOf(Plan(entries, target, preserve))
      ensures dryRun ==> knownValid == old(knownValid) && knownBytes == old(knownBytes) && writeSeq == old(writeSeq)
      ensures dryRun ==> old(disk).Keys <= disk.Keys
    {
      hide Evicted, Covers, Rely, Total, Sort, Before, Consistent, RemovedExactly;
      entries := Scan();
      ghost var disk0, pending0, next0 := disk, pending, nextWrite;
      var used := Total(entries);
      var remaining, removed := used, 0;
      PlanIsShortestPrefix(entries, target, preserve);
      PlanReports(entries, target, preserve);
      if used > target {
        var ordered := Sort(Order(target, preserve), entries);
        SortedStillCovers(entries, ordered, disk, SettledPaths(disk, pending));
        SortKeepsTotal(Order(target, preserve), entries);
        DistinctSurvivesReordering(entries, ordered);
        var count;
        count, remaining, removed := Evict(ordered, target, dryRun);
        RelyTransitive(old(disk), old(pending), old(nextWrite), disk0, pending0, next0, disk, pending, nextWrite);
        assert ordered[..count] == Plan(entries, target, preserve);
        if !dryRun {
          CoveredBytes(ordered[count..], disk, SettledPaths(disk, pending));
          RemovedSince(old(disk), old(pending), old(nextWrite), disk0, pending0, next0, disk, Plan(entries, target, preserve));
        }
      } else {
        CoveredBytes(entries, disk, SettledPaths(disk, pending));
        NothingRemoved(old(disk), old(pending), old(nextWrite), disk, pending, nextWrite);
        assert PathsOf([]) == {} && writeSeq - {} == writeSeq;
      }
      report := Report(used, used - remaining, remaining, removed);
      if !dryRun { knownBytes, knownValid := remaining, true; }
    }

    /** Store's last step. The write counts as recorded from here on; a counter that would pass the limit is
        replaced by a pass that keeps the entry just written if it can. */
    method Record(write: nat) returns (ghost found: seq<DiskEntry>)
      requires Valid() && write in pending
      modifies this
      ensures Valid()
      ensures Distinct(found)
      ensures RemovedExactly(old(disk), old(nextWrite), disk, Plan(found, if limit < 0 then 0 else limit, old(pending[write].path)))
      ensures limit >= 0 ==> enforced && knownValid && knownBytes <= limit
      ensures nextSeq == old(nextSeq) + 1 && write !in pending
      ensures var path := old(pending[write].path);
        && writeSeq == old(writeSeq)[path := nextSeq] - PathsOf(Plan(found, if limit < 0 then 0 else limit, path))
        && OldestGo(found, Plan(found, if limit < 0 then 0 else limit, path), if limit < 0 then 0 else limit, path)
    {
      var path, size := pending[write].path, pending[write].size;
      SettlingAdds(disk, pending, nextWrite, write);
      found := [];
      NothingRemoved(disk, pending, nextWrite, disk, pending, nextWrite);
      nextSeq := nextSeq + 1;
      writeSeq := writeSeq[path := nextSeq];
      assert PathsOf([]) == {} && writeSeq - {} == writeSeq;
      pending := pending - {write};
      if limit < 0 { return; }
      enforced := true;
      if knownValid && knownBytes + size <= limit {
        knownBytes := knownBytes + size;
        return;
      }
      var report, entries := PruneLocked(limit, path, false);
      found := entries;
    }

    /** An explicit pass to any ceiling. */
    method Prune(maxBytes: int) returns (report: Report, entries: seq<DiskEntry>)
      requires Valid()
      modifies this
      ensures Valid() && enforced == old(enforced)
      ensures Distinct(entries) && Reports(report, entries, if maxBytes > 0 then maxBytes else 0, "")
      ensures knownValid && knownBytes == report.remaining
      ensures RemovedExactly(old(disk), old(nextWrite), disk, Plan(entries, if maxBytes > 0 then maxBytes else 0, ""))
    {
      hide Reports, RemovedExactly, Rely, Plan, Distinct;
      ghost var before, pendingBefore, nextBefore := disk, pending, nextWrite;
      report, entries := PruneLocked(if maxBytes > 0 then maxBytes else 0, "", false);
      RelyUnsettles(before, pendingBefore, nextBefore, disk, pending, nextWrite);
    }

    /** What Prune would report, with nothing removed by it. */
    method PreviewPrune(maxBytes: int) returns (report: Report, entries: seq<DiskEntry>)
      requires Valid()
      modifies this
      ensures Valid() && enforced == old(enforced) && knownValid == old(knownValid) && knownBytes == old(knownBytes)
      ensures old(disk).Keys <= disk.Keys && writeSeq == old(writeSeq)
      ensures Distinct(entries) && Reports(report, entries, if maxBytes > 0 then maxBytes else 0, "")
    {
      hide Reports, RemovedExactly, Rely, Plan, Distinct;
      ghost var before, pendingBefore, nextBefore := disk, pending, nextWrite;
      report, entries := PruneLocked(if maxBytes > 0 then maxBytes else 0, "", true);
      RelyUnsettles(before, pendingBefore, nextBefore, disk, pending, nextWrite);
    }

    /** On disk, entry bytes never exceed the counter by more than the writes not yet recorded; nor, once a
        write was recorded, the limit. A quiescent store is within its limit. */
    lemma WithinLimit()
      requires Valid() && limit >= 0
      ensures knownValid ==> DiskBytes(disk) <= knownBytes + PendingBytes(pending)
      ensures enforced ==> DiskBytes(disk) <= limit + PendingBytes(pending)
      ensures enforced && pending == map[] ==> DiskBytes(disk) <= limit
    {
      DiskIsBounded(disk, pending, nextWrite);
    }
  }

  /** Recording a write settles at most its own bytes: its file may have been replaced already. */
  lemma SettlingAdds(disk: map<string, File>, pending: map<nat, Write>, nextWrite: nat, w: nat)
    requires Consistent(disk, pending, nextWrite) && w in pending
    ensures SettledBytes(disk, pending - {w}) <= SettledBytes(disk, pending) + pending[w].size
  {
    var p := pending[w].path;
    var before, after := SettledPaths(disk, pending), SettledPaths(disk, pending - {w});
    if p in disk && disk[p].write == w {
      assert after - {p} == before;
      SumPick(after, SizeAt(disk), p);
    } else {
      assert after == before;
    }
  }

  /** A preview and a pass that find the same entries, in any order, report the same counts. */
  lemma PreviewAgrees(report: Report, report': Report, entries: seq<DiskEntry>, entries': seq<DiskEntry>, target: nat, preserve: string)
    requires Reports(report, entries, target, preserve) && Reports(report', entries', target, preserve)
    requires Distinct(entries) && multiset(entries) == multiset(entries')
    ensures report == report'
  {
    PlanIgnoresScanOrder(entries, entries', target, preserve);
    SortKeepsTotal(Order(target, preserve), entries);
    SortKeepsTotal(Order(target, preserve), entries');
    OrderIsTotal(target, preserve);
    PathsDistinguish(entries, target, preserve);
    SortIgnoresOrder(Order(target, preserve), entries, entries');
  }

  lemma PlanReports(entries: seq<DiskEntry>, target: nat, preserve: string)
    requires Distinct(entries)
    ensures var gone := Plan(entries, target, preserve);
      && Total(gone) <= Total(entries)
      && Reports(Report(Total(entries), Total(gone), Total(entries) - Total(gone), |gone|), entries, target, preserve)
      && (Total(entries) <= target ==> gone == [] && Total(gone) == 0)
  {
    PlanIsShortestPrefix(entries, target, preserve);
    PlanEvictsOldest(entries, target, preserve);
  }

  lemma EvictedStep(ordered: seq<DiskEntry>, count: nat, target: nat)
    requires count < |ordered| && Total(ordered[count..]) > target
    ensures Total(ordered[count..]) == ordered[count].size + Total(ordered[count + 1..])
    ensures Evicted(ordered[count..], Total(ordered[count..]), target) == 1 + Evicted(ordered[count + 1..], Total(ordered[count + 1..]), target)
    ensures ordered[count..][1..] == ordered[count + 1..] && ordered[count..][0] == ordered[count]
  {
    assert ordered[count..][1..] == ordered[count + 1..];
  }

  lemma EvictionEnds(ordered: seq<DiskEntry>, count: nat, target: nat)
    requires count <= |ordered| && (count == |ordered| || Total(ordered[count..]) <= target)
    ensures Evicted(ordered[count..], Total(ordered[count..]), target) == 0
  {
  }

  /** What a pass reports about the entries it found: used is reclaimed and remaining, what is reclaimed is
      the plan's, the oldest as far as they must go, and what remains is within the target. */
  ghost predicate Reports(report: Report, entries: seq<DiskEntry>, target: nat, preserve: string) {
    var gone := Plan(entries, target, preserve);
    && report.used == Total(entries) == report.reclaimed + report.remaining
    && report.reclaimed == Total(gone) && report.removed == |gone| && report.remaining <= target
    && OldestGo(entries, gone, target, preserve)
  }

  lemma NothingRemoved(disk: map<string, File>, pending: map<nat, Write>, next: nat, disk': map<string, File>, pending': map<nat, Write>, next': nat)
    requires disk.Keys <= disk'.Keys
    ensures RemovedExactly(disk, next, disk', []) && Rely(disk', pending', next', disk', pending', next')
  {
  }

  /** After other goroutines' renames, taking the next entry's path off the disk removes it and no more. */
  lemma RemovesNoMore(disk: map<string, File>, next: nat, disk0: map<string, File>, pending0: map<nat, Write>, next0: nat,
                      disk1: map<string, File>, pending1: map<nat, Write>, next1: nat, ordered: seq<DiskEntry>, count: nat)
    requires count < |ordered| && RemovedExactly(disk, next, disk0, ordered[..count]) && next <= next0
    requires Rely(disk0, pending0, next0, disk1, pending1, next1) && disk0.Keys <= disk1.Keys
    ensures RemovedExactly(disk, next, disk1 - {ordered[count].path}, ordered[..count + 1])
  {
    forall p | p in PathsOf(ordered[..count + 1])
      ensures p in PathsOf(ordered[..count]) || p == ordered[count].path
    {
      var i :| 0 <= i < count + 1 && ordered[..count + 1][i].path == p;
      if i < count { assert ordered[..count][i].path == p; }
    }
    forall p | p in PathsOf(ordered[..count])
      ensures p in PathsOf(ordered[..count + 1])
    {
      var i :| 0 <= i < count && ordered[..count][i].path == p;
      assert ordered[..count + 1][i].path == p;
    }
    assert ordered[..count + 1][count].path in PathsOf(ordered[..count + 1]);
  }

  lemma RemovedSince(disk: map<string, File>, pending: map<nat, Write>, next: nat, disk0: map<string, File>, pending0: map<nat, Write>, next0: nat,
                     disk': map<string, File>, gone: seq<DiskEntry>)
    requires Rely(disk, pending, next, disk0, pending0, next0) && disk.Keys <= disk0.Keys
    requires RemovedExactly(disk0, next0, disk', gone)
    ensures RemovedExactly(disk, next, disk', gone)
  {
  }

  lemma PathsOfNext(ordered: seq<DiskEntry>, count: nat)
    requires count < |ordered|
    ensures PathsOf(ordered[..count + 1]) == PathsOf(ordered[..count]) + {ordered[count].path}
  {
    var less, more := ordered[..count], ordered[..count + 1];
    assert forall i :: 0 <= i < count ==> more[i] == less[i];
    assert more[count] == ordered[count];
  }

  lemma RelyUnsettles(disk: map<string, File>, pending: map<nat, Write>, next: nat,
                      disk': map<string, File>, pending': map<nat, Write>, next': nat)
    requires Rely(disk, pending, next, disk', pending', next')
    ensures SettledBytes(disk', pending') <= SettledBytes(disk, pending)
  {
    UnsettlingLowers(disk, pending, disk', pending');
  }

  lemma RelyRefl(disk: map<string, File>, pending: map<nat, Write>, nextWrite: nat)
    ensures Rely(disk, pending, nextWrite, disk, pending, nextWrite)
  {
  }

  lemma RelyTransitive(disk: map<string, File>, pending: map<nat, Write>, next: nat,
                       disk': map<string, File>, pending': map<nat, Write>, next': nat,
                       disk'': map<string, File>, pending'': map<nat, Write>, next'': nat)
    requires Rely(disk, pending, next, disk', pending', next') && Rely(disk', pending', next', disk'', pending'', next'')
    ensures Rely(disk, pending, next, disk'', pending'', next'')
  {
  }

  lemma RemovalRelies(disk: map<string, File>, pending: map<nat, Write>, next: nat, path: string)
    requires Consistent(disk, pending, next)
    ensures Consistent(disk - {path}, pending, next) && Rely(disk, pending, next, disk - {path}, pending, next)
    ensures Rely(disk, pending, next, disk, pending, next)
  {
  }

  lemma CoversLess(entries: seq<DiskEntry>, disk: map<string, File>, s: set<string>, s': set<string>)
    requires Covers(entries, disk, s) && s' <= s
    ensures Covers(entries, disk, s')
  {
  }

  lemma DistinctAfter(ordered: seq<DiskEntry>, count: nat)
    requires Distinct(ordered) && count < |ordered|
    ensures forall i :: count < i < |ordered| ==> ordered[i].path != ordered[count].path
  {
  }

  lemma DistinctAppend(entries: seq<DiskEntry>, found: DiskEntry)
    requires Distinct(entries) && forall i :: 0 <= i < |entries| ==> entries[i].path != found.path
    ensures Distinct(entries + [found])
  {
  }

  lemma StillCovered(entries: seq<DiskEntry>, disk: map<string, File>, pending: map<nat, Write>, next: nat,
                     disk': map<string, File>, pending': map<nat, Write>, next': nat, todo: set<string>, found: DiskEntry)
    requires Covers(entries, disk, SettledPaths(disk, pending) - todo) && Rely(disk, pending, next, disk', pending', next')
    requires found.path in disk' && found.size == disk'[found.path].size && found.modTime == disk'[found.path].modTime
    ensures Covers(entries + [found], disk', SettledPaths(disk', pending') - (todo - {found.path}))
  {
    forall p | p in SettledPaths(disk', pending') - (todo - {found.path})
      ensures Listed(entries + [found], p, disk'[p])
    {
      if p == found.path {
        assert (entries + [found])[|entries|] == found;
      } else {
        assert Listed(entries, p, disk[p]);
        var i :| 0 <= i < |entries| && entries[i].path == p && entries[i].size == disk[p].size && entries[i].modTime == disk[p].modTime;
        assert (entries + [found])[i] == entries[i];
      }
    }
  }

  /** Taking the first entry's path off the disk leaves the rest covered. */
  lemma LessToCover(entries: seq<DiskEntry>, disk: map<string, File>, pending: map<nat, Write>, next: nat,
                    disk': map<string, File>, pending': map<nat, Write>, next': nat)
    requires entries != [] && Covers(entries, disk, SettledPaths(disk, pending)) && Rely(disk, pending, next, disk', pending', next')
    ensures var left := disk' - {entries[0].path}; Covers(entries[1..], left, SettledPaths(left, pending'))
  {
    var left := disk' - {entries[0].path};
    forall p | p in SettledPaths(left, pending')
      ensures Listed(entries[1..], p, left[p])
    {
      assert p in SettledPaths(disk', pending');
      assert Listed(entries, p, disk[p]);
      var i :| 0 <= i < |entries| && entries[i].path == p && entries[i].size == disk[p].size && entries[i].modTime == disk[p].modTime;
      assert entries[1..][i - 1] == entries[i];
    }
  }

  lemma SortedStillCovers(entries: seq<DiskEntry>, ordered: seq<DiskEntry>, disk: map<string, File>, s: set<string>)
    requires Covers(entries, disk, s) && multiset(ordered) == multiset(entries)
    requires forall i :: 0 <= i < |entries| ==> entries[i].path in disk
    ensures Covers(ordered, disk, s) && forall i :: 0 <= i < |ordered| ==> ordered[i].path in disk
  {
    forall p | p in s
      ensures Listed(ordered, p, disk[p])
    {
      assert Listed(entries, p, disk[p]);
      var i :| 0 <= i < |entries| && entries[i].path == p && entries[i].size == disk[p].size && entries[i].modTime == disk[p].modTime;
      assert entries[i] in multiset(ordered);
      var j :| 0 <= j < |ordered| && ordered[j] == entries[i];
    }
    forall j | 0 <= j < |ordered|
      ensures ordered[j].path in disk
    {
      assert ordered[j] in multiset(entries);
      var i :| 0 <= i < |entries| && entries[i] == ordered[j];
    }
  }
}
