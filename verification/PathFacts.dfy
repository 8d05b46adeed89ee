/** The facts of a hashing pass and the two-endpoint contradiction detector
    (runtimeinput/pathfacts.go). */
module PathFacts {
  import opened Paths

  datatype FactKind = FollowedStat | NamespaceStat | Content | LinkText | Namespace | Resolution | Machine

  datatype Value = Gone | TypeFile | TypeDir | TypeLink | Points(target: Target) | Reaches(path: Path) | Digest(text: string)

  datatype Key = Key(path: Path, kind: FactKind)

  datatype Listing = Listing(offset: Path, names: set<string>, complete: bool)

  /** The two tables by value. A key's values and a directory's listings are kept sorted and free of
      duplicates by the code, so each row is the set of its elements. */
  datatype Account = Account(values: map<Key, set<Value>>, listings: map<Path, set<Listing>>)

  predicate Knows(values: map<Key, set<Value>>, key: Key) {
    key in values && values[key] != {}
  }

  predicate Records<K, V(==)>(rows: map<K, set<V>>, key: K, value: V) {
    key in rows && value in rows[key]
  }

  function Recorded<K(!new), V(==, !new)>(rows: map<K, set<V>>, key: K, value: V): (r: map<K, set<V>>)
    ensures forall k, v :: Records(r, k, v) <==> Records(rows, k, v) || (k == key && v == value)
  {
    rows[key := (if key in rows then rows[key] else {}) + {value}]
  }

  /** The mutable tables a capture fills. */
  class Facts {
    var values: map<Key, set<Value>>
    var listings: map<Path, set<Listing>>

    constructor ()
      ensures values == map[] && listings == map[]
    {
      values, listings := map[], map[];
    }

    method Put(path: Path, kind: FactKind, value: Value)
      modifies this`values
      ensures values == Recorded(old(values), Key(path, kind), value)
    {
      var key := Key(path, kind);
      var known := if key in values then values[key] else {};
      if value !in known {
        values := values[key := known + {value}];
      } else {
        assert known + {value} == known;
      }
    }

    method AddListing(directory: Path, offset: Path, names: seq<string>, complete: bool)
      modifies this`listings
      ensures listings == Recorded(old(listings), directory, Listing(offset, (set n | n in names), complete))
    {
      var row := Listing(offset, (set n | n in names), complete);
      var known := if directory in listings then listings[directory] else {};
      if row in known {
        assert known + {row} == known;
        return;
      }
      listings := listings[directory := known + {row}];
    }
  }

  /** A declared root; None when the root is itself excluded and contributes no facts. */
  datatype BracketRoot = BracketRoot(id: PathId, facts: Option<Account>)

  // ----- What the facts of one account claim -----

  datatype Claim =
    | Scalar(key: Key, value: Value)
    | Entry(directory: Path, name: string)
    | Exhaustive(dir: Path, listing: Listing)

  ghost predicate Claims(account: Account, c: Claim) {
    match c
    case Scalar(key, value) => Records(account.values, key, value)
    case Entry(directory, name) =>
      || (exists v :: Records(account.values, Key(directory + [name], Namespace), v) && v != Gone)
      || (exists l :: Records(account.listings, directory, l) && name in l.names)
    case Exhaustive(directory, l) => Records(account.listings, directory, l) && l.complete
  }

  /** Root i makes claim c at one of the two endpoints. */
  ghost predicate Made(before: seq<BracketRoot>, after: seq<BracketRoot>, i: int, c: Claim) {
    || (0 <= i < |before| && before[i].facts.Some? && Claims(before[i].facts.value, c))
    || (0 <= i < |after| && after[i].facts.Some? && Claims(after[i].facts.value, c))
  }

  /** Root i's claim c cannot stand beside root j's claim d. */
  ghost predicate Clash(before: seq<BracketRoot>, exclusions: seq<PathId>, i: int, c: Claim, d: Claim) {
    match c
    case Scalar(key, value) => (d.Scalar? && d.key == key && d.value != value)
                               || (d.Entry? && key == Key(d.directory + [d.name], Namespace) && value == Gone)
    case Exhaustive(directory, l) =>
      && d.Entry? && d.directory == directory && d.name !in l.names
      && 0 <= i < |before| && !ExcludesIdentity(exclusions, WalkIdentity(before[i].id, l.offset + [d.name]))
    case Entry(_, _) => false
  }

  ghost predicate Contradicts(before: seq<BracketRoot>, after: seq<BracketRoot>, exclusions: seq<PathId>,
                              i: int, c: Claim, j: int, d: Claim) {
    Made(before, after, i, c) && Made(before, after, j, d) && Clash(before, exclusions, i, c, d)
  }

  /** Root i takes part in a contradiction, on either side of it. */
  ghost predicate Involved(before: seq<BracketRoot>, after: seq<BracketRoot>, exclusions: seq<PathId>, i: int) {
    exists j, c, d :: Contradicts(before, after, exclusions, i, c, j, d) || Contradicts(before, after, exclusions, j, c, i, d)
  }

  // ----- One abstract filesystem state satisfying every fact -----

  /** A state gives every key one value and every directory its names. */
  datatype World = World(scalar: Key -> Value, holds: (Path, string) -> bool)

  ghost predicate Coherent(w: World) {
    forall directory, name :: w.scalar(Key(directory + [name], Namespace)) == Gone <==> !w.holds(directory, name)
  }

  ghost predicate Satisfies(w: World, exclusions: seq<PathId>, root: PathId, account: Account) {
    && (forall k, v :: Records(account.values, k, v) ==> w.scalar(k) == v)
    && (forall d, l, n :: Records(account.listings, d, l) && n in l.names ==> w.holds(d, n))
    && (forall d, l, n :: Records(account.listings, d, l) && l.complete && w.holds(d, n) ==>
          n in l.names || ExcludesIdentity(exclusions, WalkIdentity(root, l.offset + [n])))
  }

  ghost predicate SatisfiesAll(w: World, exclusions: seq<PathId>, before: seq<BracketRoot>, roots: seq<BracketRoot>) {
    forall i :: 0 <= i < |roots| && i < |before| && roots[i].facts.Some? ==>
      Satisfies(w, exclusions, before[i].id, roots[i].facts.value)
  }

  ghost predicate Explains(w: World, before: seq<BracketRoot>, after: seq<BracketRoot>, exclusions: seq<PathId>) {
    Coherent(w) && SatisfiesAll(w, exclusions, before, before) && SatisfiesAll(w, exclusions, before, after)
  }

  ghost predicate Satisfiable(before: seq<BracketRoot>, after: seq<BracketRoot>, exclusions: seq<PathId>) {
    exists w :: Explains(w, before, after, exclusions)
  }

  /** The state the claims themselves describe: known values, claimed names present, nothing else. */
  ghost function Described(before: seq<BracketRoot>, after: seq<BracketRoot>): World {
    var holds := (d: Path, n: string) => exists i :: Made(before, after, i, Entry(d, n));
    World((k: Key) =>
            if exists i, v :: Made(before, after, i, Scalar(k, v)) then
              var i, v :| Made(before, after, i, Scalar(k, v)); v
            else if k.kind == Namespace && k.path != [] && holds(k.path[..|k.path| - 1], k.path[|k.path| - 1]) then TypeFile
            else Gone,
          holds)
  }

  ghost predicate Peaceful(before: seq<BracketRoot>, after: seq<BracketRoot>, exclusions: seq<PathId>) {
    forall i, c, j, d :: !Contradicts(before, after, exclusions, i, c, j, d)
  }

  lemma DescribedScalar(before: seq<BracketRoot>, after: seq<BracketRoot>, exclusions: seq<PathId>, i: int, k: Key, v: Value)
    requires Peaceful(before, after, exclusions)
    requires Made(before, after, i, Scalar(k, v))
    ensures Described(before, after).scalar(k) == v
  {
    var j, u :| Made(before, after, j, Scalar(k, u)) && Described(before, after).scalar(k) == u;
    assert !Contradicts(before, after, exclusions, i, Scalar(k, v), j, Scalar(k, u));
  }

  lemma DescribedIsCoherent(before: seq<BracketRoot>, after: seq<BracketRoot>, exclusions: seq<PathId>)
    requires Peaceful(before, after, exclusions)
    ensures Coherent(Described(before, after))
  {
    var w := Described(before, after);
    forall d: Path, n: string
      ensures w.scalar(Key(d + [n], Namespace)) == Gone <==> !w.holds(d, n)
    {
      var k := Key(d + [n], Namespace);
      assert k.path[..|k.path| - 1] == d;
      if i, v :| Made(before, after, i, Scalar(k, v)) {
        DescribedScalar(before, after, exclusions, i, k, v);
        if v != Gone {
          assert Made(before, after, i, Entry(d, n));
        } else if j :| Made(before, after, j, Entry(d, n)) {
          assert Contradicts(before, after, exclusions, i, Scalar(k, v), j, Entry(d, n));
          assert false;
        }
      }
    }
  }

  lemma DescribedSatisfies(before: seq<BracketRoot>, after: seq<BracketRoot>, exclusions: seq<PathId>, i: nat, account: Account)
    requires Peaceful(before, after, exclusions)
    requires i < |before|
    requires forall c :: Claims(account, c) ==> Made(before, after, i, c)
    ensures Satisfies(Described(before, after), exclusions, before[i].id, account)
  {
    var w := Described(before, after);
    forall k, v | Records(account.values, k, v)
      ensures w.scalar(k) == v
    {
      assert Claims(account, Scalar(k, v));
      DescribedScalar(before, after, exclusions, i, k, v);
    }
    forall d, l, n | Records(account.listings, d, l) && n in l.names
      ensures w.holds(d, n)
    {
      assert Claims(account, Entry(d, n));
    }
    forall d, l, n | Records(account.listings, d, l) && l.complete && w.holds(d, n)
      ensures n in l.names || ExcludesIdentity(exclusions, WalkIdentity(before[i].id, l.offset + [n]))
    {
      assert Claims(account, Exhaustive(d, l));
      var j :| Made(before, after, j, Entry(d, n));
      assert !Contradicts(before, after, exclusions, i, Exhaustive(d, l), j, Entry(d, n));
    }
  }

  lemma PeacefulIsSatisfiable(before: seq<BracketRoot>, after: seq<BracketRoot>, exclusions: seq<PathId>)
    requires |after| <= |before|
    requires Peaceful(before, after, exclusions)
    ensures Satisfiable(before, after, exclusions)
  {
    DescribedIsCoherent(before, after, exclusions);
    forall i | 0 <= i < |before| && before[i].facts.Some?
      ensures Satisfies(Described(before, after), exclusions, before[i].id, before[i].facts.value)
    {
      DescribedSatisfies(before, after, exclusions, i, before[i].facts.value);
    }
    forall i | 0 <= i < |after| && after[i].facts.Some?
      ensures Satisfies(Described(before, after), exclusions, before[i].id, after[i].facts.value)
    {
      DescribedSatisfies(before, after, exclusions, i, after[i].facts.value);
    }
    assert Explains(Described(before, after), before, after, exclusions);
  }

  /** In a state that satisfies its account, every claim is true. */
  lemma ClaimHolds(w: World, exclusions: seq<PathId>, root: PathId, account: Account, c: Claim)
    requires Coherent(w) && Satisfies(w, exclusions, root, account) && Claims(account, c)
    ensures c.Scalar? ==> w.scalar(c.key) == c.value
    ensures c.Entry? ==> w.holds(c.directory, c.name)
    ensures c.Exhaustive? ==> forall n :: w.holds(c.dir, n) ==>
      n in c.listing.names || ExcludesIdentity(exclusions, WalkIdentity(root, c.listing.offset + [n]))
  {
    if c.Entry? {
      if v :| Records(account.values, Key(c.directory + [c.name], Namespace), v) && v != Gone {
        assert w.scalar(Key(c.directory + [c.name], Namespace)) == v;
      }
    }
  }

  lemma MadeClaimHolds(w: World, before: seq<BracketRoot>, after: seq<BracketRoot>, exclusions: seq<PathId>, i: int, c: Claim)
    requires |after| <= |before|
    requires Explains(w, before, after, exclusions) && Made(before, after, i, c)
    ensures c.Scalar? ==> w.scalar(c.key) == c.value
    ensures c.Entry? ==> w.holds(c.directory, c.name)
    ensures c.Exhaustive? ==> forall n :: w.holds(c.dir, n) ==>
      n in c.listing.names || ExcludesIdentity(exclusions, WalkIdentity(before[i].id, c.listing.offset + [n]))
  {
    if 0 <= i < |before| && before[i].facts.Some? && Claims(before[i].facts.value, c) {
      ClaimHolds(w, exclusions, before[i].id, before[i].facts.value, c);
    } else {
      ClaimHolds(w, exclusions, before[i].id, after[i].facts.value, c);
    }
  }

  /** One state explains both endpoints exactly when no two claims clash: pairwise agreement suffices. */
  lemma SatisfiableIffPeaceful(before: seq<BracketRoot>, after: seq<BracketRoot>, exclusions: seq<PathId>)
    requires |after| <= |before|
    ensures Satisfiable(before, after, exclusions) <==> Peaceful(before, after, exclusions)
  {
    if w :| Explains(w, before, after, exclusions) {
      forall i, c, j, d
        ensures !Contradicts(before, after, exclusions, i, c, j, d)
      {
        if Contradicts(before, after, exclusions, i, c, j, d) {
          MadeClaimHolds(w, before, after, exclusions, i, c);
          MadeClaimHolds(w, before, after, exclusions, j, d);
          assert false;
        }
      }
    }
    if Peaceful(before, after, exclusions) {
      PeacefulIsSatisfiable(before, after, exclusions);
    }
  }

  // ----- The detector -----

  /** One observation and the root that made it. */
  datatype Seen<+T> = Seen(root: nat, what: T)

  predicate Holds<K, T(==)>(table: map<K, seq<Seen<T>>>, key: K, i: nat, what: T) {
    key in table && Seen(i, what) in table[key]
  }

  function Appended<K(!new), T(!new)>(table: map<K, seq<Seen<T>>>, key: K, i: nat, what: T): (r: map<K, seq<Seen<T>>>)
    ensures forall k, j, w :: Holds(r, k, j, w) <==> Holds(table, k, j, w) || (k == key && j == i && w == what)
  {
    table[key := (if key in table then table[key] else []) + [Seen(i, what)]]
  }

  ghost predicate NamesEntry(values: map<Key, set<Value>>, directory: Path, name: string) {
    exists v :: Records(values, Key(directory + [name], Namespace), v) && v != Gone
  }

  ghost predicate ListsEntry(listings: map<Path, set<Listing>>, directory: Path, name: string) {
    exists l :: Records(listings, directory, l) && name in l.names
  }

  /** values and presences hold what they held before and root i's facts in part. */
  ghost predicate GatheredValues(i: nat, part: map<Key, set<Value>>,
                                 values0: map<Key, seq<Seen<Value>>>, presences0: map<Path, seq<Seen<string>>>,
                                 values: map<Key, seq<Seen<Value>>>, presences: map<Path, seq<Seen<string>>>) {
    && (forall k, j: nat, v :: Holds(values, k, j, v) <==> Holds(values0, k, j, v) || (j == i && Records(part, k, v)))
    && (forall d, j: nat, n :: Holds(presences, d, j, n) <==> Holds(presences0, d, j, n) || (j == i && NamesEntry(part, d, n)))
  }

  lemma GatheredOne(i: nat, part: map<Key, set<Value>>, key: Key, value: Value,
                    values0: map<Key, seq<Seen<Value>>>, presences0: map<Path, seq<Seen<string>>>,
                    values: map<Key, seq<Seen<Value>>>, presences: map<Path, seq<Seen<string>>>)
    requires GatheredValues(i, part, values0, presences0, values, presences)
    ensures GatheredValues(i, Recorded(part, key, value), values0, presences0, Appended(values, key, i, value),
                           if key.kind == Namespace && value != Gone && key.path != []
                           then Appended(presences, Parent(key.path), i, key.path[|key.path| - 1]) else presences)
  {
    var more := Recorded(part, key, value);
    assert forall k, v :: Records(more, k, v) <==> Records(part, k, v) || (k == key && v == value);
    forall d, n
      ensures NamesEntry(more, d, n) <==> NamesEntry(part, d, n) || (key == Key(d + [n], Namespace) && value != Gone)
    {
      if NamesEntry(part, d, n) {
        var v :| Records(part, Key(d + [n], Namespace), v) && v != Gone;
        assert Records(more, Key(d + [n], Namespace), v);
      }
      if key == Key(d + [n], Namespace) && value != Gone {
        assert Records(more, Key(d + [n], Namespace), value);
      }
    }
    forall d: Path, n: string
      ensures key == Key(d + [n], Namespace) <==> key.kind == Namespace && key.path != [] && d == Parent(key.path) && n == key.path[|key.path| - 1]
    {
      if key.path != [] {
        assert key.path == Parent(key.path) + [key.path[|key.path| - 1]];
      }
      if key == Key(d + [n], Namespace) {
        assert Parent(key.path) == d;
      }
    }
  }

  method GatherValues(i: nat, observed: map<Key, set<Value>>,
                      values0: map<Key, seq<Seen<Value>>>, presences0: map<Path, seq<Seen<string>>>)
    returns (values: map<Key, seq<Seen<Value>>>, presences: map<Path, seq<Seen<string>>>, err: bool)
    ensures !err ==> GatheredValues(i, observed, values0, presences0, values, presences)
  {
    values, presences, err := values0, presences0, false;
    ghost var part: map<Key, set<Value>> := map[];
    var keys := observed.Keys;
    while keys != {}
      invariant keys <= observed.Keys
      invariant forall k, v :: Records(part, k, v) <==> k !in keys && Records(observed, k, v)
      invariant GatheredValues(i, part, values0, presences0, values, presences)
    {
      var ended: bool := *;
      if ended { err := true; return; }
      var key :| key in keys;
      keys := keys - {key};
      var rest := observed[key];
      while rest != {}
        invariant rest <= observed[key]
        invariant forall k, v :: Records(part, k, v) <==> k !in keys && Records(observed, k, v) && (k == key ==> v !in rest)
        invariant GatheredValues(i, part, values0, presences0, values, presences)
      {
        var stopped: bool := *;
        if stopped { err := true; return; }
        var value :| value in rest;
        rest := rest - {value};
        GatheredOne(i, part, key, value, values0, presences0, values, presences);
        values := Appended(values, key, i, value);
        if key.kind == Namespace && value != Gone {
          var parent := Parent(key.path);
          if parent != key.path {
            presences := Appended(presences, parent, i, key.path[|key.path| - 1]);
          }
        }
        part := Recorded(part, key, value);
      }
    }
    assert forall k, v :: Records(part, k, v) <==> Records(observed, k, v);
    assert forall d, n :: NamesEntry(part, d, n) <==> NamesEntry(observed, d, n);
  }

  ghost predicate GatheredListings(i: nat, part: map<Path, set<Listing>>,
                                   listings0: map<Path, seq<Seen<Listing>>>, presences0: map<Path, seq<Seen<string>>>,
                                   listings: map<Path, seq<Seen<Listing>>>, presences: map<Path, seq<Seen<string>>>) {
    && (forall d, j: nat, l :: Holds(listings, d, j, l) <==> Holds(listings0, d, j, l) || (j == i && Records(part, d, l)))
    && (forall d, j: nat, n :: Holds(presences, d, j, n) <==> Holds(presences0, d, j, n) || (j == i && ListsEntry(part, d, n)))
  }

  method GatherNames(i: nat, directory: Path, names: set<string>, presences0: map<Path, seq<Seen<string>>>)
    returns (presences: map<Path, seq<Seen<string>>>, err: bool)
    ensures !err ==> forall d, j: nat, n :: Holds(presences, d, j, n) <==>
                                       Holds(presences0, d, j, n) || (j == i && d == directory && n in names)
  {
    presences, err := presences0, false;
    var rest := names;
    while rest != {}
      invariant rest <= names
      invariant forall d, j: nat, n :: Holds(presences, d, j, n) <==>
                                  Holds(presences0, d, j, n) || (j == i && d == directory && n in names - rest)
    {
      var ended: bool := *;
      if ended { err := true; return; }
      var name :| name in rest;
      rest := rest - {name};
      presences := Appended(presences, directory, i, name);
    }
  }

  lemma GatheredRow(i: nat, part: map<Path, set<Listing>>, directory: Path, row: Listing,
                    listings0: map<Path, seq<Seen<Listing>>>, presences0: map<Path, seq<Seen<string>>>,
                    listings: map<Path, seq<Seen<Listing>>>, presences: map<Path, seq<Seen<string>>>,
                    grown: map<Path, seq<Seen<string>>>)
    requires GatheredListings(i, part, listings0, presences0, listings, presences)
    requires forall d, j: nat, n :: Holds(grown, d, j, n) <==>
                                    Holds(presences, d, j, n) || (j == i && d == directory && n in row.names)
    ensures GatheredListings(i, Recorded(part, directory, row), listings0, presences0, Appended(listings, directory, i, row), grown)
  {
    var more := Recorded(part, directory, row);
    forall d, n
      ensures ListsEntry(more, d, n) <==> ListsEntry(part, d, n) || (d == directory && n in row.names)
    {
      if d == directory && n in row.names { assert Records(more, d, row); }
      if l :| Records(part, d, l) && n in l.names { assert Records(more, d, l); }
    }
  }

  method GatherListings(i: nat, observed: map<Path, set<Listing>>,
                        listings0: map<Path, seq<Seen<Listing>>>, presences0: map<Path, seq<Seen<string>>>)
    returns (listings: map<Path, seq<Seen<Listing>>>, presences: map<Path, seq<Seen<string>>>, err: bool)
    ensures !err ==> GatheredListings(i, observed, listings0, presences0, listings, presences)
  {
    listings, presences, err := listings0, presences0, false;
    var directories := observed.Keys;
    ghost var part: map<Path, set<Listing>> := map[];
    while directories != {}
      invariant directories <= observed.Keys
      invariant forall d, l :: Records(part, d, l) <==> d !in directories && Records(observed, d, l)
      invariant GatheredListings(i, part, listings0, presences0, listings, presences)
    {
      var ended: bool := *;
      if ended { err := true; return; }
      var directory :| directory in directories;
      directories := directories - {directory};
      var rest := observed[directory];
      while rest != {}
        invariant rest <= observed[directory]
        invariant forall d, l :: Records(part, d, l) <==> d !in directories && Records(observed, d, l) && (d == directory ==> l !in rest)
        invariant GatheredListings(i, part, listings0, presences0, listings, presences)
      {
        var row :| row in rest;
        rest := rest - {row};
        var grown;
        grown, err := GatherNames(i, directory, row.names, presences);
        if err { return; }
        GatheredRow(i, part, directory, row, listings0, presences0, listings, presences, grown);
        listings, presences := Appended(listings, directory, i, row), grown;
        part := Recorded(part, directory, row);
      }
    }
    assert forall d, l :: Records(part, d, l) <==> Records(observed, d, l);
    assert forall d, n :: ListsEntry(part, d, n) <==> ListsEntry(observed, d, n);
  }

  /** The tables hold exactly the claims of the first n roots of one endpoint beside what they held. */
  method Gather(roots: seq<BracketRoot>, values0: map<Key, seq<Seen<Value>>>,
                listings0: map<Path, seq<Seen<Listing>>>, presences0: map<Path, seq<Seen<string>>>)
    returns (values: map<Key, seq<Seen<Value>>>, listings: map<Path, seq<Seen<Listing>>>,
             presences: map<Path, seq<Seen<string>>>, err: bool)
    ensures !err ==> forall k, j: nat, v :: Holds(values, k, j, v) <==> Holds(values0, k, j, v) || Made(roots, [], j, Scalar(k, v))
    ensures !err ==> forall d, j: nat, n :: Holds(presences, d, j, n) <==> Holds(presences0, d, j, n) || Made(roots, [], j, Entry(d, n))
    ensures !err ==> forall d, j: nat, l :: Holds(listings, d, j, l) <==>
                                       Holds(listings0, d, j, l) || ListedBy(roots, j, d, l)
  {
    values, listings, presences, err := values0, listings0, presences0, false;
    for i := 0 to |roots|
      invariant forall k, j: nat, v :: Holds(values, k, j, v) <==> Holds(values0, k, j, v) || (j < i && Made(roots, [], j, Scalar(k, v)))
      invariant forall d, j: nat, n :: Holds(presences, d, j, n) <==> Holds(presences0, d, j, n) || (j < i && Made(roots, [], j, Entry(d, n)))
      invariant forall d, j: nat, l :: Holds(listings, d, j, l) <==> Holds(listings0, d, j, l) || (j < i && ListedBy(roots, j, d, l))
    {
      var ended: bool := *;
      if ended { err := true; return; }
      if roots[i].facts.Some? {
        var account := roots[i].facts.value;
        values, presences, err := GatherValues(i, account.values, values, presences);
        if err { return; }
        listings, presences, err := GatherListings(i, account.listings, listings, presences);
        if err { return; }
        assert forall d, n :: Claims(account, Entry(d, n)) <==> NamesEntry(account.values, d, n) || ListsEntry(account.listings, d, n);
      }
    }
  }

  ghost predicate ListedBy(roots: seq<BracketRoot>, j: nat, d: Path, l: Listing) {
    && j < |roots| && roots[j].facts.Some?
    && Records(roots[j].facts.value.listings, d, l)
  }

  /** The tables hold the claims of both endpoints and nothing else. */
  ghost predicate Gathered(before: seq<BracketRoot>, after: seq<BracketRoot>, values: map<Key, seq<Seen<Value>>>,
                           listings: map<Path, seq<Seen<Listing>>>, presences: map<Path, seq<Seen<string>>>) {
    && (forall k, j: nat, v :: Holds(values, k, j, v) <==> Made(before, after, j, Scalar(k, v)))
    && (forall d, j: nat, n :: Holds(presences, d, j, n) <==> Made(before, after, j, Entry(d, n)))
    && (forall d, j: nat, l :: Holds(listings, d, j, l) && l.complete <==> Made(before, after, j, Exhaustive(d, l)))
  }

  /** Marks grow, and every mark set names a root that takes part in a contradiction. */
  twostate predicate MarksMore(moved: array<bool>, before: seq<BracketRoot>, after: seq<BracketRoot>, exclusions: seq<PathId>)
    reads moved
  {
    forall i :: 0 <= i < moved.Length ==>
      (old(moved[i]) ==> moved[i]) && (moved[i] ==> old(moved[i]) || Involved(before, after, exclusions, i))
  }

  predicate Marked(moved: array<bool>, i: int)
    reads moved
  {
    0 <= i < moved.Length && moved[i]
  }

  method MarkBoth(moved: array<bool>, i: nat, j: nat, ghost before: seq<BracketRoot>, ghost after: seq<BracketRoot>,
                  ghost exclusions: seq<PathId>, ghost c: Claim, ghost d: Claim)
    requires moved.Length == |before| && i < |before| && j < |before|
    requires Contradicts(before, after, exclusions, i, c, j, d)
    modifies moved
    ensures MarksMore(moved, before, after, exclusions) && moved[i] && moved[j]
  {
    moved[i], moved[j] := true, true;
  }

  /** Scalar comparison: every root observing a key on which the observations disagree is marked. */
  method MarkScalars(values: map<Key, seq<Seen<Value>>>, moved: array<bool>, ghost before: seq<BracketRoot>,
                     ghost after: seq<BracketRoot>, ghost exclusions: seq<PathId>)
    returns (err: bool)
    requires moved.Length == |before| && |after| <= |before|
    requires forall k, j: nat, v :: Holds(values, k, j, v) <==> Made(before, after, j, Scalar(k, v))
    modifies moved
    ensures MarksMore(moved, before, after, exclusions)
    ensures !err ==> forall k, i: nat, v, j: nat, w :: Holds(values, k, i, v) && Holds(values, k, j, w) && v != w ==> Marked(moved, i)
  {
    err := false;
    var keys := values.Keys;
    while keys != {}
      invariant keys <= values.Keys
      invariant MarksMore(moved, before, after, exclusions)
      invariant forall k, i: nat, v, j: nat, w :: k !in keys && Holds(values, k, i, v) && Holds(values, k, j, w) && v != w ==> Marked(moved, i)
    {
      var ended: bool := *;
      if ended { err := true; return; }
      var key :| key in keys;
      keys := keys - {key};
      var observations := values[key];
      var conflict := false;
      for a := 0 to |observations|
        invariant conflict <==> exists b :: 0 <= b < a && observations[b].what != observations[0].what
      {
        if observations[a].what != observations[0].what { conflict := true; }
      }
      if conflict {
        var odd :| 0 <= odd < |observations| && observations[odd].what != observations[0].what;
        for a := 0 to |observations|
          invariant MarksMore(moved, before, after, exclusions)
          invariant forall k, i: nat, v, j: nat, w :: k !in keys && k != key && Holds(values, k, i, v) && Holds(values, k, j, w) && v != w ==> Marked(moved, i)
          invariant forall b :: 0 <= b < a ==> Marked(moved, observations[b].root)
        {
          ghost var mine := observations[a];
          ghost var other := if mine.what != observations[0].what then observations[0] else observations[odd];
          assert Holds(values, key, mine.root, mine.what) && Holds(values, key, other.root, other.what);
          assert Contradicts(before, after, exclusions, mine.root, Scalar(key, mine.what), other.root, Scalar(key, other.what));
          assert Involved(before, after, exclusions, mine.root);
          moved[observations[a].root] := true;
        }
      } else {
        forall i: nat, v, j: nat, w | Holds(values, key, i, v) && Holds(values, key, j, w)
          ensures v == w
        {
          var a :| 0 <= a < |observations| && observations[a] == Seen(i, v);
          var b :| 0 <= b < |observations| && observations[b] == Seen(j, w);
        }
      }
    }
  }

  /** One present name against the observations of its namespace. */
  method MarkAbsence(directory: Path, presence: Seen<string>, absences: seq<Seen<Value>>, moved: array<bool>,
                     ghost before: seq<BracketRoot>, ghost after: seq<BracketRoot>, ghost exclusions: seq<PathId>)
    returns (err: bool)
    requires moved.Length == |before| && |after| <= |before|
    requires forall e :: 0 <= e < |absences| ==>
      Made(before, after, absences[e].root, Scalar(Key(directory + [presence.what], Namespace), absences[e].what))
    requires Made(before, after, presence.root, Entry(directory, presence.what))
    modifies moved
    ensures MarksMore(moved, before, after, exclusions)
    ensures !err ==> forall e :: 0 <= e < |absences| && absences[e].what == Gone ==>
      Marked(moved, absences[e].root) && Marked(moved, presence.root)
  {
    err := false;
    for c := 0 to |absences|
      invariant MarksMore(moved, before, after, exclusions)
      invariant forall e :: 0 <= e < c && absences[e].what == Gone ==> Marked(moved, absences[e].root) && Marked(moved, presence.root)
    {
      var ended: bool := *;
      if ended { err := true; return; }
      if absences[c].what == Gone {
        MarkBoth(moved, absences[c].root, presence.root, before, after, exclusions,
                 Scalar(Key(directory + [presence.what], Namespace), Gone), Entry(directory, presence.what));
      }
    }
  }

  /** The observations of one key. */
  function Row<K, T>(table: map<K, seq<Seen<T>>>, key: K): seq<Seen<T>> {
    if key in table then table[key] else []
  }

  ghost predicate AbsencesMarked(directory: Path, presence: Seen<string>, values: map<Key, seq<Seen<Value>>>, moved: array<bool>)
    reads moved
  {
    var absences := Row(values, Key(directory + [presence.what], Namespace));
    forall e :: 0 <= e < |absences| && absences[e].what == Gone ==> Marked(moved, absences[e].root) && Marked(moved, presence.root)
  }

  /** Explicit namespace absence against the names present in one directory. */
  method MarkAbsences(directory: Path, names: seq<Seen<string>>, values: map<Key, seq<Seen<Value>>>, moved: array<bool>,
                      ghost before: seq<BracketRoot>, ghost after: seq<BracketRoot>, ghost exclusions: seq<PathId>)
    returns (err: bool)
    requires moved.Length == |before| && |after| <= |before|
    requires forall k, e :: k in values && 0 <= e < |values[k]| ==> Made(before, after, values[k][e].root, Scalar(k, values[k][e].what))
    requires forall b :: 0 <= b < |names| ==> Made(before, after, names[b].root, Entry(directory, names[b].what))
    modifies moved
    ensures MarksMore(moved, before, after, exclusions)
    ensures !err ==> forall b :: 0 <= b < |names| ==> AbsencesMarked(directory, names[b], values, moved)
  {
    err := false;
    for a := 0 to |names|
      invariant MarksMore(moved, before, after, exclusions)
      invariant forall b :: 0 <= b < a ==> AbsencesMarked(directory, names[b], values, moved)
    {
      var absences := Row(values, Key(directory + [names[a].what], Namespace));
      err := MarkAbsence(directory, names[a], absences, moved, before, after, exclusions);
      if err { return; }
    }
  }

  ghost predicate Misses(before: seq<BracketRoot>, exclusions: seq<PathId>, directory: Path, row: Seen<Listing>, name: string) {
    row.what.complete && Clash(before, exclusions, row.root, Exhaustive(directory, row.what), Entry(directory, name))
  }

  /** One listing of a directory against the names present in it. */
  method MarkListing(directory: Path, names: seq<Seen<string>>, absence: Seen<Listing>, moved: array<bool>,
                     before: seq<BracketRoot>, ghost after: seq<BracketRoot>, exclusions: seq<PathId>)
    returns (err: bool)
    requires moved.Length == |before| && |after| <= |before|
    requires absence.what.complete ==> Made(before, after, absence.root, Exhaustive(directory, absence.what))
    requires forall b :: 0 <= b < |names| ==> Made(before, after, names[b].root, Entry(directory, names[b].what))
    modifies moved
    ensures MarksMore(moved, before, after, exclusions)
    ensures !err ==> forall e :: 0 <= e < |names| && Misses(before, exclusions, directory, absence, names[e].what) ==>
                                   Marked(moved, absence.root) && Marked(moved, names[e].root)
  {
    err := false;
    if !absence.what.complete { return; }
    for c := 0 to |names|
      invariant MarksMore(moved, before, after, exclusions)
      invariant forall e :: 0 <= e < c && Misses(before, exclusions, directory, absence, names[e].what) ==>
                              Marked(moved, absence.root) && Marked(moved, names[e].root)
    {
      var ended: bool := *;
      if ended { err := true; return; }
      var presence := names[c];
      if presence.what in absence.what.names { continue; }
      var identity := WalkIdentity(before[absence.root].id, absence.what.offset + [presence.what]);
      if ExcludesIdentity(exclusions, identity) { continue; }
      MarkBoth(moved, absence.root, presence.root, before, after, exclusions,
               Exhaustive(directory, absence.what), Entry(directory, presence.what));
    }
  }

  /** Complete listings of one directory against the names present in it, exclusions aside. */
  method MarkListings(directory: Path, names: seq<Seen<string>>, rows: seq<Seen<Listing>>, moved: array<bool>,
                      before: seq<BracketRoot>, ghost after: seq<BracketRoot>, exclusions: seq<PathId>)
    returns (err: bool)
    requires moved.Length == |before| && |after| <= |before|
    requires forall a :: 0 <= a < |rows| && rows[a].what.complete ==> Made(before, after, rows[a].root, Exhaustive(directory, rows[a].what))
    requires forall b :: 0 <= b < |names| ==> Made(before, after, names[b].root, Entry(directory, names[b].what))
    modifies moved
    ensures MarksMore(moved, before, after, exclusions)
    ensures !err ==> forall a, e :: 0 <= a < |rows| && 0 <= e < |names| && Misses(before, exclusions, directory, rows[a], names[e].what) ==>
                                      Marked(moved, rows[a].root) && Marked(moved, names[e].root)
  {
    err := false;
    for c := 0 to |rows|
      invariant MarksMore(moved, before, after, exclusions)
      invariant forall a, e :: 0 <= a < c && 0 <= e < |names| && Misses(before, exclusions, directory, rows[a], names[e].what) ==>
                                 Marked(moved, rows[a].root) && Marked(moved, names[e].root)
    {
      err := MarkListing(directory, names, rows[c], moved, before, after, exclusions);
      if err { return; }
    }
  }

  /** Both kinds of namespace absence, directory by directory. */
  method MarkPresences(values: map<Key, seq<Seen<Value>>>, listings: map<Path, seq<Seen<Listing>>>,
                       presences: map<Path, seq<Seen<string>>>, moved: array<bool>,
                       before: seq<BracketRoot>, ghost after: seq<BracketRoot>, exclusions: seq<PathId>)
    returns (err: bool)
    requires moved.Length == |before| && |after| <= |before|
    requires Gathered(before, after, values, listings, presences)
    modifies moved
    ensures MarksMore(moved, before, after, exclusions)
    ensures !err ==> forall i: nat, c, j: nat, d: Claim :: d.Entry? && Contradicts(before, after, exclusions, i, c, j, d) ==> Marked(moved, i) && Marked(moved, j)
  {
    err := false;
    var directories := presences.Keys;
    while directories != {}
      invariant directories <= presences.Keys
      invariant MarksMore(moved, before, after, exclusions)
      invariant forall i: nat, c, j: nat, d: Claim :: d.Entry? && d.directory !in directories && Contradicts(before, after, exclusions, i, c, j, d) ==>
                                                 Marked(moved, i) && Marked(moved, j)
    {
      var directory :| directory in directories;
      directories := directories - {directory};
      var names := presences[directory];
      assert forall b :: 0 <= b < |names| ==> Holds(presences, directory, names[b].root, names[b].what);
      forall k, e | k in values && 0 <= e < |values[k]|
        ensures Made(before, after, values[k][e].root, Scalar(k, values[k][e].what))
      {
        assert Holds(values, k, values[k][e].root, values[k][e].what);
      }
      err := MarkAbsences(directory, names, values, moved, before, after, exclusions);
      if err { return; }
      var rows := if directory in listings then listings[directory] else [];
      assert forall a :: 0 <= a < |rows| ==> Holds(listings, directory, rows[a].root, rows[a].what);
      err := MarkListings(directory, names, rows, moved, before, after, exclusions);
      if err { return; }
      forall i: nat, c, j: nat, d: Claim | d.Entry? && d.directory == directory && Contradicts(before, after, exclusions, i, c, j, d)
        ensures Marked(moved, i) && Marked(moved, j)
      {
        DirectoryIsMarked(values, listings, presences, moved, before, after, exclusions, directory, i, c, j, d);
      }
    }
  }

  /** A contradicted name in a directory whose absences and listings were all judged is marked, and so is
      what contradicts it. */
  lemma DirectoryIsMarked(values: map<Key, seq<Seen<Value>>>, listings: map<Path, seq<Seen<Listing>>>,
                          presences: map<Path, seq<Seen<string>>>, moved: array<bool>,
                          before: seq<BracketRoot>, after: seq<BracketRoot>, exclusions: seq<PathId>,
                          directory: Path, i: nat, c: Claim, j: nat, d: Claim)
    requires Gathered(before, after, values, listings, presences) && directory in presences
    requires d.Entry? && d.directory == directory && Contradicts(before, after, exclusions, i, c, j, d)
    requires forall b :: 0 <= b < |presences[directory]| ==> AbsencesMarked(directory, presences[directory][b], values, moved)
    requires var names, rows := presences[directory], if directory in listings then listings[directory] else [];
      forall a, e :: 0 <= a < |rows| && 0 <= e < |names| && Misses(before, exclusions, directory, rows[a], names[e].what) ==>
                       Marked(moved, rows[a].root) && Marked(moved, names[e].root)
    ensures Marked(moved, i) && Marked(moved, j)
  {
    var names, rows := presences[directory], if directory in listings then listings[directory] else [];
    assert Holds(presences, directory, j, d.name);
    var b :| 0 <= b < |names| && names[b] == Seen(j, d.name);
    if c.Scalar? {
      assert Holds(values, c.key, i, Gone);
      assert AbsencesMarked(directory, names[b], values, moved);
      var e :| 0 <= e < |values[c.key]| && values[c.key][e] == Seen(i, Gone);
    } else {
      assert Holds(listings, directory, i, c.listing);
      var a :| 0 <= a < |rows| && rows[a] == Seen(i, c.listing);
      assert Misses(before, exclusions, directory, rows[a], names[b].what);
    }
  }

  method GatherBoth(before: seq<BracketRoot>, after: seq<BracketRoot>)
    returns (values: map<Key, seq<Seen<Value>>>, listings: map<Path, seq<Seen<Listing>>>,
             presences: map<Path, seq<Seen<string>>>, err: bool)
    ensures !err ==> Gathered(before, after, values, listings, presences)
  {
    values, listings, presences, err := Gather(before, map[], map[], map[]);
    if err { return; }
    values, listings, presences, err := Gather(after, values, listings, presences);
    if err { return; }
    BothGathered(before, after, values, listings, presences);
  }

  /** Exactly the roots that take part in a contradiction end marked. */
  method MarkMoved(before: seq<BracketRoot>, after: seq<BracketRoot>, exclusions: seq<PathId>, moved: array<bool>)
    returns (err: bool)
    requires |after| <= |before| == moved.Length
    requires forall i :: 0 <= i < moved.Length ==> !moved[i]
    modifies moved
    ensures !err ==> forall i :: 0 <= i < moved.Length ==> (moved[i] <==> Involved(before, after, exclusions, i))
  {
    var values, listings, presences;
    values, listings, presences, err := GatherBoth(before, after);
    if err { return; }
    err := MarkScalars(values, moved, before, after, exclusions);
    if err { return; }
    err := MarkPresences(values, listings, presences, moved, before, after, exclusions);
    if err { return; }
    MarksAreExact(before, after, exclusions, moved, values);
  }

  /** The least root that takes part in a contradiction between the facts of all roots at both
      endpoints, or -1 when one state explains them all; the order in which maps are visited is
      arbitrary at every loop. err reports a context that ended before the answer. */
  method MovedBracketRoot(before: seq<BracketRoot>, after: seq<BracketRoot>, exclusions: seq<PathId>)
    returns (root: int, err: bool)
    requires |after| <= |before|
    ensures err ==> root == -1
    ensures !err ==> (root == -1 <==> Satisfiable(before, after, exclusions))
    ensures !err && root != -1 ==>
      0 <= root < |before| && Involved(before, after, exclusions, root) && forall i :: 0 <= i < root ==> !Involved(before, after, exclusions, i)
  {
    root := -1;
    var moved := new bool[|before|](_ => false);
    err := MarkMoved(before, after, exclusions, moved);
    if err { return; }
    for i := 0 to |before|
      invariant root == -1 && forall k :: 0 <= k < i ==> !moved[k]
    {
      if moved[i] {
        ContradictionIsInvolved(before, after, exclusions, i);
        root := i;
        return;
      }
    }
    NoneInvolvedIsPeaceful(before, after, exclusions);
    var ended: bool := *;
    err := ended;
  }

  lemma MarksAreExact(before: seq<BracketRoot>, after: seq<BracketRoot>, exclusions: seq<PathId>, moved: array<bool>,
                      values: map<Key, seq<Seen<Value>>>)
    requires |after| <= |before|
    requires forall k, j: nat, v :: Holds(values, k, j, v) <==> Made(before, after, j, Scalar(k, v))
    requires forall k, i: nat, v, j: nat, w :: Holds(values, k, i, v) && Holds(values, k, j, w) && v != w ==> Marked(moved, i)
    requires forall i: nat, c, j: nat, d: Claim :: d.Entry? && Contradicts(before, after, exclusions, i, c, j, d) ==> Marked(moved, i) && Marked(moved, j)
    ensures forall i :: 0 <= i < |before| && Involved(before, after, exclusions, i) ==> Marked(moved, i)
  {
    forall i | 0 <= i < |before| && Involved(before, after, exclusions, i)
      ensures Marked(moved, i)
    {
      var j, c, d :| Contradicts(before, after, exclusions, i, c, j, d) || Contradicts(before, after, exclusions, j, c, i, d);
      if d.Scalar? {
        assert Holds(values, c.key, i, c.value) || Holds(values, c.key, j, c.value);
        assert Holds(values, c.key, i, d.value) || Holds(values, c.key, j, d.value);
      }
    }
  }

  lemma BothGathered(before: seq<BracketRoot>, after: seq<BracketRoot>, values: map<Key, seq<Seen<Value>>>,
                     listings: map<Path, seq<Seen<Listing>>>, presences: map<Path, seq<Seen<string>>>)
    requires forall k, j: nat, v :: Holds(values, k, j, v) <==> Made(before, [], j, Scalar(k, v)) || Made(after, [], j, Scalar(k, v))
    requires forall d, j: nat, n :: Holds(presences, d, j, n) <==> Made(before, [], j, Entry(d, n)) || Made(after, [], j, Entry(d, n))
    requires forall d, j: nat, l :: Holds(listings, d, j, l) <==> ListedBy(before, j, d, l) || ListedBy(after, j, d, l)
    ensures Gathered(before, after, values, listings, presences)
  {
    forall d, j: nat, l
      ensures Holds(listings, d, j, l) && l.complete <==> Made(before, after, j, Exhaustive(d, l))
    {
    }
    forall j: nat, c: Claim
      ensures Made(before, after, j, c) <==> Made(before, [], j, c) || Made(after, [], j, c)
    {
    }
  }

  lemma ContradictionIsInvolved(before: seq<BracketRoot>, after: seq<BracketRoot>, exclusions: seq<PathId>, i: nat)
    requires |after| <= |before|
    requires Involved(before, after, exclusions, i)
    ensures !Satisfiable(before, after, exclusions)
  {
    var j, c, d :| Contradicts(before, after, exclusions, i, c, j, d) || Contradicts(before, after, exclusions, j, c, i, d);
    SatisfiableIffPeaceful(before, after, exclusions);
  }

  lemma NoneInvolvedIsPeaceful(before: seq<BracketRoot>, after: seq<BracketRoot>, exclusions: seq<PathId>)
    requires |after| <= |before|
    ensures (forall i :: 0 <= i < |before| ==> !Involved(before, after, exclusions, i)) ==> Satisfiable(before, after, exclusions)
  {
    if forall i :: 0 <= i < |before| ==> !Involved(before, after, exclusions, i) {
      forall i, c, j, d
        ensures !Contradicts(before, after, exclusions, i, c, j, d)
      {
        if Contradicts(before, after, exclusions, i, c, j, d) {
          assert Involved(before, after, exclusions, i);
          assert false;
        }
      }
      SatisfiableIffPeaceful(before, after, exclusions);
    }
  }

  // ----- Learning more never turns movement into agreement -----

  ghost predicate KnowsMore(less: seq<BracketRoot>, more: seq<BracketRoot>) {
    && |less| == |more|
    && forall i :: 0 <= i < |less| ==>
         && less[i].id == more[i].id
         && (less[i].facts.Some? ==> more[i].facts.Some? && Extended(less[i].facts.value, more[i].facts.value))
  }

  ghost predicate Extended(less: Account, more: Account) {
    && (forall k, v :: Records(less.values, k, v) ==> Records(more.values, k, v))
    && (forall d, l :: Records(less.listings, d, l) ==> Records(more.listings, d, l))
  }

  lemma MovementPersists(before: seq<BracketRoot>, after: seq<BracketRoot>, before': seq<BracketRoot>, after': seq<BracketRoot>,
                         exclusions: seq<PathId>)
    requires |after| <= |before|
    requires KnowsMore(before, before') && KnowsMore(after, after')
    ensures Satisfiable(before', after', exclusions) ==> Satisfiable(before, after, exclusions)
    ensures forall i :: Involved(before, after, exclusions, i) ==> Involved(before', after', exclusions, i)
  {
    forall i, c | Made(before, after, i, c)
      ensures Made(before', after', i, c)
    {
      if 0 <= i < |before| && before[i].facts.Some? && Claims(before[i].facts.value, c) {
        ClaimsPersist(before[i].facts.value, before'[i].facts.value, c);
      } else {
        ClaimsPersist(after[i].facts.value, after'[i].facts.value, c);
      }
    }
    forall i, c, j, d | Contradicts(before, after, exclusions, i, c, j, d)
      ensures Contradicts(before', after', exclusions, i, c, j, d)
    {
    }
    SatisfiableIffPeaceful(before, after, exclusions);
    SatisfiableIffPeaceful(before', after', exclusions);
  }

  lemma ClaimsPersist(less: Account, more: Account, c: Claim)
    requires Claims(less, c) && Extended(less, more)
    ensures Claims(more, c)
  {
    if c.Entry? {
      if v :| Records(less.values, Key(c.directory + [c.name], Namespace), v) && v != Gone {
        assert Records(more.values, Key(c.directory + [c.name], Namespace), v);
      } else {
        var l :| Records(less.listings, c.directory, l) && c.name in l.names;
        assert Records(more.listings, c.directory, l);
      }
    }
  }
}
