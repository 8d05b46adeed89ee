/** The key a judged run's memo files a directory and an environment under (gotool/memo.go, gotool/env.go).
    The directory's coordinate is given. */
module MemoKeys {
  import opened Paths
  import opened Strings
  import opened Orders

  // ----- Environments -----

  predicate WellFormed(entry: string) {
    IndexByte(entry, '=').Some? && IndexByte(entry, '=').value > 0
  }

  function NameOf(entry: string): string {
    if WellFormed(entry) then entry[..IndexByte(entry, '=').value] else ""
  }

  /** The policy's one order: by name, then by the whole entry. */
  predicate EntryLeq(a: string, b: string) {
    if NameOf(a) == NameOf(b) then StringLeq(a, b) else StringLeq(NameOf(a), NameOf(b))
  }

  function ByEntry(): (string, string) -> bool { (a: string, b: string) => EntryLeq(a, b) }

  /** Complete entries without NUL, each name once. */
  ghost predicate Admissible(env: seq<string>) {
    && (forall i :: 0 <= i < |env| ==> '\0' !in env[i] && WellFormed(env[i]))
    && (forall i, j :: 0 <= i < j < |env| ==> NameOf(env[i]) != NameOf(env[j]))
  }

  method NormalizeEnv(env: seq<string>) returns (normalized: Option<seq<string>>)
    ensures normalized.Some? <==> Admissible(env)
    ensures normalized.Some? ==> normalized.value == Sort(ByEntry(), env)
  {
    var seen: set<string> := {};
    for i := 0 to |env|
      invariant forall k :: 0 <= k < i ==> '\0' !in env[k] && WellFormed(env[k])
      invariant forall k, l :: 0 <= k < l < i ==> NameOf(env[k]) != NameOf(env[l])
      invariant forall n :: n in seen <==> exists k :: 0 <= k < i && NameOf(env[k]) == n
    {
      if '\0' in env[i] { return None; }
      if !WellFormed(env[i]) { return None; }
      if NameOf(env[i]) in seen { return None; }
      seen := seen + {NameOf(env[i])};
    }
    return Some(Sort(ByEntry(), env));
  }

  lemma EntriesAreOrdered()
    ensures TotalOrder(ByEntry()) && forall a, b :: EntryLeq(a, b) && EntryLeq(b, a) ==> a == b
  {
    forall a, b
      ensures (EntryLeq(a, b) || EntryLeq(b, a)) && (EntryLeq(a, b) && EntryLeq(b, a) ==> a == b)
    {
      StringLeqTotal(a, b);
      StringLeqTotal(NameOf(a), NameOf(b));
    }
    forall a, b, c | EntryLeq(a, b) && EntryLeq(b, c)
      ensures EntryLeq(a, c)
    {
      EntryLeqTransitive(a, b, c);
    }
  }

  lemma EntryLeqTransitive(a: string, b: string, c: string)
    requires EntryLeq(a, b) && EntryLeq(b, c)
    ensures EntryLeq(a, c)
  {
    hide NameOf;
    var x, y, z := NameOf(a), NameOf(b), NameOf(c);
    if x == y == z {
      StringLeqTransitive(a, b, c);
    } else if x != y && y != z {
      StringLeqTransitive(x, y, z);
      if x == z { StringLeqTotal(x, y); }
    }
  }

  // ----- The key -----

  const PWD := "PWD"

  function Without(entries: seq<string>, name: string): (left: seq<string>)
    ensures forall e :: e in left <==> e in entries && NameOf(e) != name
  {
    if entries == [] then []
    else if NameOf(entries[0]) == name then Without(entries[1..], name)
    else [entries[0]] + Without(entries[1..], name)
  }

  /** The entries a key carries: PWD only when no directory is named. */
  function Kept(dir: string, env: seq<string>): seq<string> {
    Left(dir, Sort(ByEntry(), env))
  }

  function Left(dir: string, entries: seq<string>): seq<string> {
    if dir != "" then Without(entries, PWD) else entries
  }

  function Tail(entries: seq<string>): string {
    if entries == [] then "" else "\0" + entries[0] + Tail(entries[1..])
  }

  function KeyOf(coordinate: string, entries: seq<string>): string {
    coordinate + Tail(entries)
  }

  method MemoKey(dir: string, coordinate: string, env: seq<string>) returns (key: Option<string>)
    ensures key.Some? <==> Admissible(env)
    ensures key.Some? ==> key.value == KeyOf(coordinate, Kept(dir, env))
  {
    var normalized := NormalizeEnv(env);
    if normalized.None? { return None; }
    var entries, built := normalized.value, coordinate;
    hide Tail, Left, NameOf, EntryLeq, Sort;
    assert entries[0..] == entries;
    for i := 0 to |entries|
      invariant built + Tail(Left(dir, entries[i..])) == coordinate + Tail(Left(dir, entries))
    {
      NextEntry(dir, entries, i, built);
      if dir != "" && NameOf(entries[i]) == PWD { continue; }
      built := built + ("\0" + entries[i]);
    }
    NoEntries(dir, built);
    assert entries[|entries|..] == [];
    return Some(built);
  }

  lemma NextEntry(dir: string, entries: seq<string>, i: nat, built: string)
    requires i < |entries|
    ensures built + Tail(Left(dir, entries[i..]))
      == (if dir != "" && NameOf(entries[i]) == PWD then built else built + ("\0" + entries[i])) + Tail(Left(dir, entries[i + 1..]))
  {
    hide Tail, NameOf;
    assert entries[i..][1..] == entries[i + 1..] && entries[i..][0] == entries[i];
    assert entries[i..] == [entries[i]] + entries[i + 1..];
    TailUnrolls(entries[i], Left(dir, entries[i + 1..]), built);
  }

  lemma NoEntries(dir: string, built: string)
    ensures built + Tail(Left(dir, [])) == built
  {
  }

  lemma TailUnrolls(entry: string, rest: seq<string>, built: string)
    ensures built + Tail([entry] + rest) == built + ("\0" + entry) + Tail(rest)
  {
    assert ([entry] + rest)[1..] == rest;
    assert built + ("\0" + entry + Tail(rest)) == built + ("\0" + entry) + Tail(rest);
  }

  // ----- What a key spells -----

  /** A complete entry is a nonempty name, "=" and a value, the name the text before the first "=". */
  lemma EntryExactly(entry: string, name: string)
    ensures WellFormed(entry) && NameOf(entry) == name <==>
      name != "" && '=' !in name && exists value: string :: entry == name + "=" + value
  {
    if WellFormed(entry) && NameOf(entry) == name {
      var k := IndexByte(entry, '=').value;
      assert entry == entry[..k] + "=" + entry[k + 1..];
    }
    if value: string :| entry == name + "=" + value && name != "" && '=' !in name {
      assert entry[|name|] == '=' && entry[..|name|] == name;
      assert forall i :: 0 <= i < |name| ==> entry[i] == name[i];
      assert IndexByte(entry, '=') == Some(|name|);
    }
  }

  /** A setting is left out of a key exactly when a directory is named and it sets PWD. */
  lemma CarriedExactly(dir: string, entry: string)
    requires WellFormed(entry)
    ensures !Carried(dir, entry) <==> dir != "" && exists value: string :: entry == "PWD=" + value
  {
    EntryExactly(entry, "PWD");
    forall value: string
      ensures "PWD" + "=" + value == "PWD=" + value
    {
    }
  }

  /** A key is its coordinate followed by each entry after a NUL. */
  lemma {:induction false} KeySpells(coordinate: string, entries: seq<string>, entry: string)
    ensures KeyOf(coordinate, []) == coordinate
    ensures KeyOf(coordinate, entries + [entry]) == KeyOf(coordinate, entries) + "\0" + entry
  {
    TailGrows(entries, entry);
  }

  lemma {:induction false} TailGrows(entries: seq<string>, entry: string)
    ensures Tail(entries + [entry]) == Tail(entries) + "\0" + entry
  {
    if entries == [] {
      assert [] + [entry] == [entry] && [entry][1..] == [];
    } else {
      assert (entries + [entry])[1..] == entries[1..] + [entry];
      TailGrows(entries[1..], entry);
    }
  }

  /** The entries a key carries stand in the byte order of their names. */
  lemma KeptInOrder(dir: string, env: seq<string>, i: nat, j: nat)
    requires Admissible(env) && i < j < |Kept(dir, env)|
    ensures var a, b := NameOf(Kept(dir, env)[i]), NameOf(Kept(dir, env)[j]); a != b && StringLeq(a, b)
  {
    hide EntryLeq, NameOf, StringLeq;
    KeptIsCanonical(dir, env);
    var a, b := Kept(dir, env)[i], Kept(dir, env)[j];
    assert ByEntry()(a, b) && a != b && a in Kept(dir, env) && b in Kept(dir, env);
    NamesApart(env, a, b);
    InNameOrder(a, b);
  }

  lemma InNameOrder(a: string, b: string)
    requires EntryLeq(a, b) && NameOf(a) != NameOf(b)
    ensures StringLeq(NameOf(a), NameOf(b))
  {
  }

  lemma NamesApart(env: seq<string>, a: string, b: string)
    requires Admissible(env) && a in env && b in env && a != b
    ensures NameOf(a) != NameOf(b)
  {
    var i :| 0 <= i < |env| && env[i] == a;
    var j :| 0 <= j < |env| && env[j] == b;
    if i < j { assert NameOf(env[i]) != NameOf(env[j]); } else { assert NameOf(env[j]) != NameOf(env[i]); }
  }

  // ----- What moves a key -----

  lemma {:induction false} SplitsAtNul(a: string, b: string, t: string, u: string)
    requires '\0' !in a && '\0' !in b && a + t == b + u
    requires (t == "" || t[0] == '\0') && (u == "" || u[0] == '\0')
    ensures a == b && t == u
    decreases |a|
  {
    First(a, t);
    First(b, u);
    if a != "" && b != "" {
      SplitsAtNul(a[1..], b[1..], t, u);
      assert a == [a[0]] + a[1..] && b == [b[0]] + b[1..];
    }
  }

  lemma First(a: string, t: string)
    ensures a == "" ==> a + t == t
    ensures a != "" ==> (a + t)[0] == a[0] && (a + t)[1..] == a[1..] + t
  {
    if a != "" { assert (a + t)[1..] == a[1..] + t; }
  }

  ghost predicate NulFree(entries: seq<string>) {
    forall i :: 0 <= i < |entries| ==> '\0' !in entries[i]
  }

  lemma {:induction false} TailsAreDistinct(a: seq<string>, b: seq<string>)
    requires NulFree(a) && NulFree(b) && Tail(a) == Tail(b)
    ensures a == b
  {
    if a != [] && b != [] {
      assert Tail(a) == "\0" + (a[0] + Tail(a[1..])) && Tail(b) == "\0" + (b[0] + Tail(b[1..]));
      assert Tail(a)[1..] == a[0] + Tail(a[1..]) && Tail(b)[1..] == b[0] + Tail(b[1..]);
      SplitsAtNul(a[0], b[0], Tail(a[1..]), Tail(b[1..]));
      TailsAreDistinct(a[1..], b[1..]);
      assert a == [a[0]] + a[1..] && b == [b[0]] + b[1..];
    }
  }

  /** A setting is in a key unless it is PWD with a directory named. */
  predicate Carried(dir: string, entry: string) {
    !(dir != "" && NameOf(entry) == PWD)
  }

  /** Keys are equal exactly when the coordinates are and the environments carry the same settings: two
      orderings key alike, and any other setting moves the key. */
  lemma KeysExactly(dir: string, coordinate: string, env: seq<string>, dir': string, coordinate': string, env': seq<string>)
    requires Admissible(env) && Admissible(env') && '\0' !in coordinate && '\0' !in coordinate'
    ensures KeyOf(coordinate, Kept(dir, env)) == KeyOf(coordinate', Kept(dir', env')) <==>
      coordinate == coordinate' && forall e :: e in env && Carried(dir, e) <==> e in env' && Carried(dir', e)
  {
    hide Tail, Kept, EntryLeq;
    var kept, kept' := Kept(dir, env), Kept(dir', env');
    KeptIsCanonical(dir, env);
    KeptIsCanonical(dir', env');
    EntriesAreOrdered();
    TailStarts(kept);
    TailStarts(kept');
    if KeyOf(coordinate, kept) == KeyOf(coordinate', kept') {
      SplitsAtNul(coordinate, coordinate', Tail(kept), Tail(kept'));
      TailsAreDistinct(kept, kept');
    }
    if forall e :: e in env && Carried(dir, e) <==> e in env' && Carried(dir', e) {
      ArrangementIsUnique(ByEntry(), kept, kept');
    }
  }

  lemma TailStarts(entries: seq<string>)
    ensures Tail(entries) == "" || Tail(entries)[0] == '\0'
  {
  }

  lemma KeptIsCanonical(dir: string, env: seq<string>)
    requires Admissible(env)
    ensures var kept := Kept(dir, env);
      && (forall e :: e in kept <==> e in env && Carried(dir, e))
      && Sorted(ByEntry(), kept) && NoDuplicates(kept) && NulFree(kept)
  {
    hide EntryLeq, WellFormed;
    var sorted := Sort(ByEntry(), env);
    EntriesAreOrdered();
    SortSorts(ByEntry(), env);
    assert NoDuplicates(env);
    RearrangingKeepsDistinct(env, sorted);
    if dir != "" { WithoutKeepsOrder(sorted, PWD); }
    forall i | 0 <= i < |Kept(dir, env)|
      ensures '\0' !in Kept(dir, env)[i]
    {
      assert Kept(dir, env)[i] in env;
    }
  }

  lemma {:induction false} WithoutKeepsOrder(entries: seq<string>, name: string)
    requires Sorted(ByEntry(), entries) && NoDuplicates(entries)
    ensures Sorted(ByEntry(), Without(entries, name)) && NoDuplicates(Without(entries, name))
  {
    hide NameOf, EntryLeq;
    if entries != [] {
      WithoutKeepsOrder(entries[1..], name);
      var rest := Without(entries[1..], name);
      forall k | 0 <= k < |rest|
        ensures ByEntry()(entries[0], rest[k]) && entries[0] != rest[k]
      {
        assert rest[k] in entries[1..];
        var i :| 0 <= i < |entries[1..]| && entries[1..][i] == rest[k];
        assert ByEntry()(entries[0], entries[i + 1]) && entries[0] != entries[i + 1];
      }
    }
  }

  /** A coordinate that carries NUL, which no directory's does, could pass for another with a setting. */
  lemma NulInCoordinateCollides(coordinate: string, entry: string)
    ensures KeyOf(coordinate + "\0" + entry, []) == KeyOf(coordinate, [entry])
  {
    assert [entry][1..] == [];
    assert coordinate + "\0" + entry + "" == coordinate + ("\0" + entry + "");
  }
}
