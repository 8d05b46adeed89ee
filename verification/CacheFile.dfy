/** The byte-bounded memo store: renames that outrun their records, an approximate counter, and ordered
    eviction (internal/cachefile/cachefile.go). */
module CacheFile {
  import opened Orders

  /** An entry on disk: which write put it there, its size and its modification time. */
  datatype File = File(write: nat, size: nat, modTime: int)

  /** A write already renamed into place and not yet recorded. */
  datatype Write = Write(path: string, size: nat)

  datatype DiskEntry = DiskEntry(path: string, size: nat, modTime: int, seqNo: nat)

  datatype Report = Report(used: nat, reclaimed: nat, remaining: nat, removed: nat)

  // ----- The eviction plan -----

  predicate Preserved(e: DiskEntry, target: nat, preserve: string) {
    e.path == preserve && target >= e.size
  }

  /** The order of eviction: the entry just written last if it fits, then oldest, then earliest recorded,
      then by path. */
  predicate Before(a: DiskEntry, b: DiskEntry, target: nat, preserve: string) {
    if Preserved(a, target, preserve) != Preserved(b, target, preserve) then Preserved(b, target, preserve)
    else if a.modTime != b.modTime then a.modTime < b.modTime
    else if a.seqNo != b.seqNo then a.seqNo < b.seqNo
    else StringLeq(a.path, b.path)
  }

  function Order(target: nat, preserve: string): (DiskEntry, DiskEntry) -> bool {
    (a, b) => Before(a, b, target, preserve)
  }

  function Total(entries: seq<DiskEntry>): nat {
    if entries == [] then 0 else entries[0].size + Total(entries[1..])
  }

  /** How many of the ordered entries go: the fewest whose removal brings remaining down to the target. */
  function Evicted(ordered: seq<DiskEntry>, remaining: nat, target: nat): nat
    requires remaining == Total(ordered)
  {
    if remaining <= target || ordered == [] then 0
    else 1 + Evicted(ordered[1..], remaining - ordered[0].size, target)
  }

  function Plan(entries: seq<DiskEntry>, target: nat, preserve: string): seq<DiskEntry> {
    if Total(entries) <= target then []
    else
      var ordered := Sort(Order(target, preserve), entries);
      SortKeepsTotal(Order(target, preserve), entries);
      EvictedIsPrefix(ordered, target);
      ordered[..Evicted(ordered, Total(entries), target)]
  }

  ghost predicate Distinct(entries: seq<DiskEntry>) {
    forall i, j :: 0 <= i < j < |entries| ==> entries[i].path != entries[j].path
  }

  lemma TotalAppend(a: seq<DiskEntry>, b: seq<DiskEntry>)
    ensures Total(a + b) == Total(a) + Total(b)
  {
    if a == [] {
      assert a + b == b;
    } else {
      assert (a + b)[1..] == a[1..] + b;
    }
  }

  lemma {:induction false} InsertAddsTotal(leq: (DiskEntry, DiskEntry) -> bool, x: DiskEntry, s: seq<DiskEntry>)
    ensures Total(Insert(leq, x, s)) == x.size + Total(s)
  {
    if s == [] || leq(x, s[0]) {
      assert ([x] + s)[1..] == s;
    } else {
      InsertAddsTotal(leq, x, s[1..]);
    }
  }

  lemma {:induction false} SortKeepsTotal(leq: (DiskEntry, DiskEntry) -> bool, s: seq<DiskEntry>)
    ensures Total(Sort(leq, s)) == Total(s)
  {
    if s != [] {
      SortKeepsTotal(leq, s[1..]);
      InsertAddsTotal(leq, s[0], Sort(leq, s[1..]));
    }
  }

  /** What is evicted is a prefix that reaches the target, and no shorter prefix does. */
  lemma {:induction false} EvictedIsPrefix(ordered: seq<DiskEntry>, target: nat)
    ensures var n := Evicted(ordered, Total(ordered), target);
      && n <= |ordered| && Total(ordered[n..]) <= target
      && (n > 0 ==> Total(ordered[n - 1..]) > target)
  {
    if Total(ordered) > target && ordered != [] {
      EvictedIsPrefix(ordered[1..], target);
      var n := Evicted(ordered[1..], Total(ordered[1..]), target);
      assert ordered[1..][n..] == ordered[n + 1..];
      if n > 0 { assert ordered[1..][n - 1..] == ordered[n..]; }
    } else if ordered != [] {
      assert ordered[0..] == ordered;
    }
  }

  lemma OrderIsTotal(target: nat, preserve: string)
    ensures TotalOrder(Order(target, preserve))
  {
    var leq := Order(target, preserve);
    forall a: DiskEntry, b: DiskEntry
      ensures leq(a, b) || leq(b, a)
    {
      StringLeqTotal(a.path, b.path);
    }
    forall a: DiskEntry, b: DiskEntry, c: DiskEntry | leq(a, b) && leq(b, c)
      ensures leq(a, c)
    {
      if StringLeq(a.path, b.path) && StringLeq(b.path, c.path) { StringLeqTransitive(a.path, b.path, c.path); }
    }
  }

  lemma PathsDistinguish(entries: seq<DiskEntry>, target: nat, preserve: string)
    requires Distinct(entries)
    ensures Distinguishes(Order(target, preserve), multiset(entries))
  {
    var leq := Order(target, preserve);
    forall a, b | a in multiset(entries) && b in multiset(entries) && leq(a, b) && leq(b, a)
      ensures a == b
    {
      StringLeqTotal(a.path, b.path);
      var i :| 0 <= i < |entries| && entries[i] == a;
      var j :| 0 <= j < |entries| && entries[j] == b;
    }
  }

  /** The pass removes exactly the shortest prefix of the eviction order that reaches the target: what is
      left fits, one entry fewer would not have been enough, and nothing removed comes after anything kept. */
  lemma PlanIsShortestPrefix(entries: seq<DiskEntry>, target: nat, preserve: string)
    ensures var gone, ordered := Plan(entries, target, preserve), Sort(Order(target, preserve), entries);
      && multiset(ordered) == multiset(entries) && Sorted(Order(target, preserve), ordered)
      && gone <= ordered
      && Total(ordered[|gone|..]) <= target && Total(gone) + Total(ordered[|gone|..]) == Total(entries)
      && (gone != [] ==> Total(ordered[|gone| - 1..]) > target)
  {
    hide Sort, Before, Total, Evicted, Sorted, TotalOrder;
    var ordered := Sort(Order(target, preserve), entries);
    OrderIsTotal(target, preserve);
    SortSorts(Order(target, preserve), entries);
    SortKeepsTotal(Order(target, preserve), entries);
    EvictedIsPrefix(ordered, target);
    var n := |Plan(entries, target, preserve)|;
    assert ordered == ordered[..n] + ordered[n..];
    TotalAppend(ordered[..n], ordered[n..]);
    if Total(entries) <= target { assert ordered[0..] == ordered; }
  }

  /** The walk's order does not matter. */
  lemma PlanIgnoresScanOrder(entries: seq<DiskEntry>, entries': seq<DiskEntry>, target: nat, preserve: string)
    requires multiset(entries) == multiset(entries') && Distinct(entries)
    ensures Plan(entries, target, preserve) == Plan(entries', target, preserve)
  {
    OrderIsTotal(target, preserve);
    PathsDistinguish(entries, target, preserve);
    SortIgnoresOrder(Order(target, preserve), entries, entries');
    SortKeepsTotal(Order(target, preserve), entries);
    SortKeepsTotal(Order(target, preserve), entries');
  }

  /** The entry just written stays, if it fits at all. */
  lemma JustWrittenStays(entries: seq<DiskEntry>, target: nat, preserve: string, e: DiskEntry)
    requires Distinct(entries) && Preserved(e, target, preserve)
    ensures e !in Plan(entries, target, preserve)
  {
    PlanIsShortestPrefix(entries, target, preserve);
    var ordered := Sort(Order(target, preserve), entries);
    assert [e][1..] == [] && Total([e]) == e.size;
    forall k | 0 <= k < |ordered| && ordered[k] == e
      ensures Total(ordered[k..]) <= target && k == |ordered| - 1
    {
      PreservedIsLast(entries, target, preserve, ordered, k);
      assert ordered[k..] == [e];
    }
    NotInPrefix(ordered, Plan(entries, target, preserve), target, e);
  }

  lemma NotInPrefix(ordered: seq<DiskEntry>, gone: seq<DiskEntry>, target: nat, e: DiskEntry)
    requires gone <= ordered && (gone != [] ==> Total(ordered[|gone| - 1..]) > target)
    requires forall k :: 0 <= k < |ordered| && ordered[k] == e ==> Total(ordered[k..]) <= target && k == |ordered| - 1
    ensures e !in gone
  {
    hide Total;
  }

  lemma PreservedIsLast(entries: seq<DiskEntry>, target: nat, preserve: string, ordered: seq<DiskEntry>, k: nat)
    requires Distinct(entries) && multiset(ordered) == multiset(entries) && Sorted(Order(target, preserve), ordered)
    requires k < |ordered| && Preserved(ordered[k], target, preserve)
    ensures k == |ordered| - 1
  {
    if k + 1 < |ordered| {
      assert Order(target, preserve)(ordered[k], ordered[k + 1]);
      OnlyOnePreserved(entries, ordered, k, k + 1);
    }
  }

  lemma OnlyOnePreserved(entries: seq<DiskEntry>, ordered: seq<DiskEntry>, k: nat, j: nat)
    requires Distinct(entries) && multiset(ordered) == multiset(entries) && k < j < |ordered|
    ensures ordered[k].path != ordered[j].path
  {
    DistinctSurvivesReordering(entries, ordered);
  }

  lemma DistinctSurvivesReordering(a: seq<DiskEntry>, b: seq<DiskEntry>)
    requires Distinct(a) && multiset(a) == multiset(b)
    ensures Distinct(b)
  {
    assert NoDuplicates(a);
    RearrangingKeepsDistinct(a, b);
    forall i, j | 0 <= i < j < |b|
      ensures b[i].path != b[j].path
    {
      assert b[i] in a && b[j] in a;
    }
  }

  // ----- What goes, in terms of the entries themselves -----

  /** Written earlier; of two written at once, recorded earlier; and else lesser by path. */
  predicate Older(x: DiskEntry, y: DiskEntry) {
    || x.modTime < y.modTime
    || (x.modTime == y.modTime && (x.seqNo < y.seqNo || (x.seqNo == y.seqNo && StringLeq(x.path, y.path))))
  }

  /** gone is as much of entries as must go, and no more: every entry gone is older than every entry kept,
      but for the one just written if it fits, and that one is kept. */
  ghost predicate OldestGo(entries: seq<DiskEntry>, gone: seq<DiskEntry>, target: nat, preserve: string) {
    && (forall x :: x in gone ==> x in entries && !(x.path == preserve && x.size <= target))
    && Total(gone) <= Total(entries) <= target + Total(gone)
    && (gone != [] ==> Total(entries) > target + Total(gone[..|gone| - 1]))
    && (forall x, y :: x in gone && y in entries && y !in gone && !(y.path == preserve && y.size <= target) ==> Older(x, y))
    && (forall i, j :: 0 <= i < j < |gone| ==> Older(gone[i], gone[j]))
  }

  lemma PrefixIsOlder(ordered: seq<DiskEntry>, target: nat, preserve: string, i: nat, j: nat)
    requires i < j < |ordered| && Sorted(Order(target, preserve), ordered)
    requires !Preserved(ordered[i], target, preserve) && !Preserved(ordered[j], target, preserve)
    ensures Older(ordered[i], ordered[j])
  {
    assert Order(target, preserve)(ordered[i], ordered[j]);
  }

  lemma SortHolds(entries: seq<DiskEntry>, target: nat, preserve: string)
    ensures forall x :: x in Sort(Order(target, preserve), entries) <==> x in entries
  {
    forall x
      ensures x in Sort(Order(target, preserve), entries) <==> x in entries
    {
      assert x in multiset(Sort(Order(target, preserve), entries)) <==> x in multiset(entries);
    }
  }

  lemma NonePreserved(entries: seq<DiskEntry>, target: nat, preserve: string, x: DiskEntry)
    requires Distinct(entries) && x in Plan(entries, target, preserve)
    ensures !(x.path == preserve && x.size <= target)
  {
    hide Plan;
    if Preserved(x, target, preserve) { JustWrittenStays(entries, target, preserve, x); }
  }

  lemma PlanEvictsOldest(entries: seq<DiskEntry>, target: nat, preserve: string)
    requires Distinct(entries)
    ensures OldestGo(entries, Plan(entries, target, preserve), target, preserve)
  {
    hide Evicted, Plan, Sort, StringLeq, Sorted, Older, Total, Distinct;
    var gone, ordered := Plan(entries, target, preserve), Sort(Order(target, preserve), entries);
    PlanIsShortestPrefix(entries, target, preserve);
    PlanTotals(ordered, gone, target);
    SortHolds(entries, target, preserve);
    SortKeepsTotal(Order(target, preserve), entries);
    forall x | x in gone
      ensures x in entries && !(x.path == preserve && x.size <= target)
    {
      assert x in ordered;
      NonePreserved(entries, target, preserve, x);
    }
    forall x, y | x in gone && y in entries && y !in gone && !(y.path == preserve && y.size <= target)
      ensures Older(x, y)
    {
      var i :| 0 <= i < |gone| && gone[i] == x;
      var j :| 0 <= j < |ordered| && ordered[j] == y;
      assert forall l :: 0 <= l < |gone| ==> gone[l] in gone && gone[l] == ordered[l];
      PrefixIsOlder(ordered, target, preserve, i, j);
    }
    forall i, j | 0 <= i < j < |gone|
      ensures Older(gone[i], gone[j])
    {
      assert gone[i] in gone && gone[j] in gone;
      PrefixIsOlder(ordered, target, preserve, i, j);
    }
  }

  lemma PlanTotals(ordered: seq<DiskEntry>, gone: seq<DiskEntry>, target: nat)
    requires gone <= ordered
    ensures Total(ordered) == Total(gone) + Total(ordered[|gone|..])
    ensures gone != [] ==> Total(ordered) == Total(gone[..|gone| - 1]) + Total(ordered[|gone| - 1..])
  {
    assert ordered == gone + ordered[|gone|..];
    TotalAppend(gone, ordered[|gone|..]);
    if gone != [] {
      assert ordered == gone[..|gone| - 1] + ordered[|gone| - 1..];
      TotalAppend(gone[..|gone| - 1], ordered[|gone| - 1..]);
    }
  }
}
