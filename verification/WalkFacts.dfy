/** The facts a walk records: true of the filesystem it walked, so that an unchanged filesystem never
    reads as moved, and telling, so that a rebinding between two walks always does. */
module WalkFacts {
  import opened Paths
  import opened PathFacts
  import opened Walk
  import opened WalkLaws

  /** The nonfollowing lookup of a clean path: its parent is walked, the last name is not followed. */
  function Lookup(fs: FileSystem, p: Path): Node {
    if p == [] then Dir
    else match Trip(fs, Parent(p))
         case Resolved(path, _) => fs(path + [p[|p| - 1]])
         case Absent(_, _, _) => Missing
         case Refused => Unreadable
  }

  /** The one value the filesystem gives a walk's key; the other kinds are none of a walk's business. */
  ghost predicate True(fs: FileSystem, key: Key, value: Value) {
    match key.kind
    case Namespace => !Lookup(fs, key.path).Unreadable? && value == TypeOf(Lookup(fs, key.path))
    case LinkText => Lookup(fs, key.path).Link? && value == Points(Lookup(fs, key.path).target)
    case Resolution => (match Trip(fs, key.path)
                        case Resolved(path, _) => value == Reaches(path)
                        case Absent(at, rest, _) => rest == [] && value == Reaches(at)
                        case Refused => false)
    case _ => false
  }

  ghost predicate AllTrue(fs: FileSystem, values: map<Key, set<Value>>) {
    forall k, v :: Records(values, k, v) ==> True(fs, k, v)
  }

  lemma LookupBeside(fs: FileSystem, cur: Path, name: string)
    requires LinkFree(fs, cur)
    ensures Lookup(fs, cur + [name]) == fs(cur + [name])
  {
    assert Parent(cur + [name]) == cur && [] + cur == cur;
    PlainSteps(fs, MAX_LINK_HOPS, [], cur, []);
  }

  /** Where in p the walk stands: the first i components are behind it but for the parts s that a link
      put in their place, and p's own namespace is known once its last component is behind. */
  ghost predicate Underway(fs: FileSystem, p: Path, i: nat, s: seq<string>, cur: Path, links: seq<Path>, values: map<Key, set<Value>>) {
    && i <= |p| && (p == [] ==> s == []) && LinkFree(fs, cur) && |links| <= MAX_LINK_HOPS
    && Trip(fs, p[..i]) == Steps(fs, MAX_LINK_HOPS, cur, s, links)
    && (i == |p| && p != [] ==> Knows(values, Key(p, Namespace)))
    && (s == [] && i == |p| ==> Trip(fs, p) == Resolved(cur, links))
  }

  lemma KnowledgeGrows(values: map<Key, set<Value>>, k: Key, v: Value, known: Key)
    requires Knows(values, known) || known == k
    ensures Knows(Recorded(values, k, v), known)
  {
    var value := if known == k then v else var value :| value in values[known]; value;
    assert Records(Recorded(values, k, v), known, value);
  }

  lemma SeeingKnows(p: Path, next: Path, node: Node, last: bool, values: map<Key, set<Value>>)
    ensures var seen := Seeing(p, next, node, last, values);
            (last || node.Missing? || Knows(values, Key(p, Namespace))) ==> Knows(seen, Key(p, Namespace))
  {
    var self := Key(p, Namespace);
    if Knows(values, self) {
      KnowledgeGrows(values, Key(next, Namespace), TypeOf(node), self);
      var named := Recorded(values, Key(next, Namespace), Gone);
      if node.Missing? && last { KnowledgeGrows(named, Key(p, Resolution), Reaches(next), self); }
    }
    var named :=
      if !node.Missing? then Recorded(values, Key(next, Namespace), TypeOf(node))
      else if last then Recorded(Recorded(values, Key(next, Namespace), Gone), Key(p, Resolution), Reaches(next))
      else values;
    KnowledgeGrows(named, self, TypeOf(node), self);
  }

  /** One lookup's facts are true. */
  lemma SeeingIsTrue(fs: FileSystem, p: Path, i: nat, s: seq<string>, cur: Path, links: seq<Path>, values: map<Key, set<Value>>)
    requires Clean(p) && AllTrue(fs, values) && Underway(fs, p, i, s, cur, links, values) && s + p[i..] != []
    requires var part := (s + p[i..])[0]; IsName(part) && !fs(cur + [part]).Unreadable?
    ensures var part, rest := (s + p[i..])[0], (s + p[i..])[1..];
            var next := cur + [part];
            var seen := Seeing(p, next, fs(next), rest == [], values);
            && AllTrue(fs, seen)
            && (i == |p| || rest == [] ==> Knows(seen, Key(p, Namespace)))
            && Lookup(fs, next) == fs(next)
  {
    var part, rest := (s + p[i..])[0], (s + p[i..])[1..];
    var next := cur + [part];
    LookupBeside(fs, cur, part);
    SeeingKnows(p, next, fs(next), rest == [], values);
    if s == [] {
      assert (s + p[i..])[0] == p[i] && rest == p[i + 1..];
      if rest == [] {
        assert p[..i] == Parent(p);
        assert Lookup(fs, p) == fs(next);
        assert p == p[..i] + [part];
        StepsAppend(fs, MAX_LINK_HOPS, [], p[..i], [part], []);
        assert fs(next).Missing? ==> Trip(fs, p) == Absent(next, [], links);
      } else if fs(next).Missing? {
        AbsentBefore(fs, p, i, s, cur, links);
      }
    } else {
      assert part == s[0] && rest == s[1..] + p[i..];
      if rest == [] {
        assert i == |p|;
        assert p[..i] == p && s == [part];
        assert fs(next).Missing? ==> Trip(fs, p) == Absent(next, [], links);
      } else if fs(next).Missing? && i < |p| {
        AbsentBefore(fs, p, i, s, cur, links);
      }
    }
  }

  /** The walk finds its next component absent with more of p still ahead: p's parent is not there. */
  lemma AbsentBefore(fs: FileSystem, p: Path, i: nat, s: seq<string>, cur: Path, links: seq<Path>)
    requires i < |p| && Trip(fs, p[..i]) == Steps(fs, MAX_LINK_HOPS, cur, s, links)
    requires s == [] ==> i + 1 < |p|
    requires var part := (s + p[i..])[0]; IsName(part) && fs(cur + [part]).Missing?
    ensures Lookup(fs, p) == Missing
  {
    var middle := p[i..|p| - 1];
    assert Parent(p) == p[..i] + middle;
    StepsAppend(fs, MAX_LINK_HOPS, [], p[..i], middle, []);
    StepsAppend(fs, MAX_LINK_HOPS, cur, s, middle, links);
    assert (s + middle)[0] == (s + p[i..])[0];
  }

  lemma {:induction false} ObservedIsTrue(fs: FileSystem, p: Path, i: nat, s: seq<string>, cur: Path, links: seq<Path>, values: map<Key, set<Value>>)
    requires Clean(p) && AllTrue(fs, values) && Underway(fs, p, i, s, cur, links, values)
    ensures AllTrue(fs, Observed(fs, p, cur, s + p[i..], links, values))
    decreases MAX_LINK_HOPS - |links|, |s| + |p| - i
  {
    var pending := s + p[i..];
    if pending == [] {
      assert p[..i] == p;
    } else {
      var part, rest := pending[0], pending[1..];
      var j, t := if s == [] then i + 1 else i, if s == [] then [] else s[1..];
      Advance(fs, p, i, s, cur, links);
      if Skipped(part) {
        ObservedIsTrue(fs, p, j, t, cur, links, values);
      } else if part == ".." {
        LinkFreeParent(fs, cur);
        ObservedIsTrue(fs, p, j, t, Parent(cur), links, values);
      } else if !fs(cur + [part]).Unreadable? {
        var next := cur + [part];
        var node := fs(next);
        SeeingIsTrue(fs, p, i, s, cur, links, values);
        var seen := Seeing(p, next, node, rest == [], values);
        if node.Link? {
          if |links| < MAX_LINK_HOPS {
            var target := node.target;
            var more := Recorded(seen, Key(next, LinkText), Points(target));
            if Knows(seen, Key(p, Namespace)) { KnowledgeGrows(seen, Key(next, LinkText), Points(target), Key(p, Namespace)); }
            assert target.parts + t + p[j..] == target.parts + rest;
            ObservedIsTrue(fs, p, j, target.parts + t, if target.absolute then [] else cur, links + [next], more);
          }
        } else if !node.Missing? {
          LinkFreeChild(fs, cur, part);
          ObservedIsTrue(fs, p, j, t, next, links, seen);
        }
      }
    }
  }

  /** Taking the next part off what is pending, whether p's own or a link's. */
  lemma {:induction false} Advance(fs: FileSystem, p: Path, i: nat, s: seq<string>, cur: Path, links: seq<Path>)
    requires Clean(p) && i <= |p| && (p == [] ==> s == []) && s + p[i..] != []
    requires Trip(fs, p[..i]) == Steps(fs, MAX_LINK_HOPS, cur, s, links)
    ensures var j, t := if s == [] then i + 1 else i, if s == [] then [] else s[1..];
            && j <= |p| && (s + p[i..])[1..] == t + p[j..]
            && Trip(fs, p[..j]) == Steps(fs, MAX_LINK_HOPS, cur, [(s + p[i..])[0]] + t, links)
            && ([(s + p[i..])[0]] + t)[1..] == t
            && (s == [] ==> IsName(p[i]) && (s + p[i..])[0] == p[i])
            && (j == |p| ==> p[..j] == p)
            && (t + p[j..] == [] <==> t == [] && j == |p|)
  {
    if s == [] {
      assert p[..i + 1] == p[..i] + [p[i]];
      StepsAppend(fs, MAX_LINK_HOPS, [], p[..i], [p[i]], []);
      assert [p[i]] + [] == [p[i]];
    } else {
      assert [s[0]] + s[1..] == s;
    }
  }

  /** Every fact the walk of p records, whatever was known before, is true of the filesystem. */
  lemma WalkRecordsTruth(fs: FileSystem, p: Path, values: map<Key, set<Value>>)
    requires Clean(p) && AllTrue(fs, values)
    ensures AllTrue(fs, Observed(fs, p, [], p, [], values))
  {
    assert p[..0] == [] && [] + p[0..] == p;
    ObservedIsTrue(fs, p, 0, [], [], [], values);
  }

  // ----- An unchanged filesystem never moves a bracket -----

  /** The state of observation keys that one filesystem is. */
  ghost function WorldOf(fs: FileSystem): World {
    var scalar := (k: Key) => ScalarOf(fs, k);
    World(scalar, (directory: Path, name: string) => ScalarOf(fs, Key(directory + [name], Namespace)) != Gone)
  }

  ghost function ScalarOf(fs: FileSystem, k: Key): Value {
    match k.kind
    case Namespace => if Lookup(fs, k.path).Unreadable? then TypeFile else TypeOf(Lookup(fs, k.path))
    case LinkText => if Lookup(fs, k.path).Link? then Points(Lookup(fs, k.path).target) else Gone
    case Resolution => (match Trip(fs, k.path)
                        case Resolved(path, _) => Reaches(path)
                        case Absent(at, _, _) => Reaches(at)
                        case Refused => Gone)
    case _ => Gone
  }

  ghost predicate WalkedOnly(fs: FileSystem, roots: seq<BracketRoot>) {
    forall i :: 0 <= i < |roots| && roots[i].facts.Some? ==>
      roots[i].facts.value.listings == map[] && AllTrue(fs, roots[i].facts.value.values)
  }

  /** Walk facts of one filesystem, however many roots and at both endpoints, never contradict. */
  lemma UnchangedNeverMoves(fs: FileSystem, before: seq<BracketRoot>, after: seq<BracketRoot>, exclusions: seq<PathId>)
    requires |after| <= |before|
    requires WalkedOnly(fs, before) && WalkedOnly(fs, after)
    ensures Satisfiable(before, after, exclusions)
  {
    var w := WorldOf(fs);
    assert forall k, v :: True(fs, k, v) ==> w.scalar(k) == v;
    assert Explains(w, before, after, exclusions);
  }

  // ----- A rebinding always moves it -----

  lemma {:induction false} ObservedGrows(fs: FileSystem, p: Path, cur: Path, pending: seq<string>, links: seq<Path>,
                                         values: map<Key, set<Value>>, k: Key, v: Value)
    requires Records(values, k, v)
    ensures Records(Observed(fs, p, cur, pending, links, values), k, v)
    decreases if |links| <= MAX_LINK_HOPS then MAX_LINK_HOPS - |links| else 0, |pending|
  {
    if pending != [] {
      var part, rest := pending[0], pending[1..];
      if Skipped(part) {
        ObservedGrows(fs, p, cur, rest, links, values, k, v);
      } else if part == ".." {
        ObservedGrows(fs, p, Parent(cur), rest, links, values, k, v);
      } else {
        var next := cur + [part];
        var node := fs(next);
        var seen := Seeing(p, next, node, rest == [], values);
        if node.Link? && |links| < MAX_LINK_HOPS {
          ObservedGrows(fs, p, if node.target.absolute then [] else cur, node.target.parts + rest, links + [next],
                        Recorded(seen, Key(next, LinkText), Points(node.target)), k, v);
        } else if node.File? || node.Dir? {
          ObservedGrows(fs, p, next, rest, links, seen, k, v);
        }
      }
    }
  }

  /** A lookup that finds an object leaves its type, and a followed link its text, in the account. */
  lemma FoundIsObserved(fs: FileSystem, p: Path, cur: Path, pending: seq<string>, links: seq<Path>, values: map<Key, set<Value>>)
    requires pending != [] && IsName(pending[0])
    requires var node := fs(cur + [pending[0]]); node.File? || node.Dir? || (node.Link? && |links| < MAX_LINK_HOPS)
    ensures var next := cur + [pending[0]];
            var seen := Observed(fs, p, cur, pending, links, values);
            && Records(seen, Key(next, Namespace), TypeOf(fs(next)))
            && (fs(next).Link? ==> Records(seen, Key(next, LinkText), Points(fs(next).target)))
  {
    var next, rest := cur + [pending[0]], pending[1..];
    var node := fs(next);
    var seen := Seeing(p, next, node, rest == [], values);
    assert Records(seen, Key(next, Namespace), TypeOf(node));
    if node.Link? {
      var more := Recorded(seen, Key(next, LinkText), Points(node.target));
      var base := if node.target.absolute then [] else cur;
      ObservedGrows(fs, p, base, node.target.parts + rest, links + [next], more, Key(next, Namespace), TypeOf(node));
      ObservedGrows(fs, p, base, node.target.parts + rest, links + [next], more, Key(next, LinkText), Points(node.target));
    } else {
      ObservedGrows(fs, p, next, rest, links, seen, Key(next, Namespace), TypeOf(node));
    }
  }

  ghost predicate Differ(a: map<Key, set<Value>>, b: map<Key, set<Value>>) {
    exists k, v, w :: v != w && Records(a, k, v) && Records(b, k, w)
  }

  lemma {:induction false} RebindingShows(fs: FileSystem, fs': FileSystem, p: Path, cur: Path, pending: seq<string>,
                                          links: seq<Path>, a: map<Key, set<Value>>, b: map<Key, set<Value>>)
    requires Steps(fs, MAX_LINK_HOPS, cur, pending, links).Resolved? && Steps(fs', MAX_LINK_HOPS, cur, pending, links).Resolved?
    requires Steps(fs, MAX_LINK_HOPS, cur, pending, links) != Steps(fs', MAX_LINK_HOPS, cur, pending, links)
    ensures Differ(Observed(fs, p, cur, pending, links, a), Observed(fs', p, cur, pending, links, b))
    decreases if |links| <= MAX_LINK_HOPS then MAX_LINK_HOPS - |links| else 0, |pending|
  {
    var part, rest := pending[0], pending[1..];
    if Skipped(part) {
      RebindingShows(fs, fs', p, cur, rest, links, a, b);
    } else if part == ".." {
      RebindingShows(fs, fs', p, Parent(cur), rest, links, a, b);
    } else {
      var next := cur + [part];
      var seen, seen' := Seeing(p, next, fs(next), rest == [], a), Seeing(p, next, fs'(next), rest == [], b);
      if fs(next) != fs'(next) {
        FoundIsObserved(fs, p, cur, pending, links, a);
        FoundIsObserved(fs', p, cur, pending, links, b);
        if TypeOf(fs(next)) == TypeOf(fs'(next)) {
          assert Points(fs(next).target) != Points(fs'(next).target);
        }
      } else if fs(next).Link? {
        var target := fs(next).target;
        RebindingShows(fs, fs', p, if target.absolute then [] else cur, target.parts + rest, links + [next],
                       Recorded(seen, Key(next, LinkText), Points(target)), Recorded(seen', Key(next, LinkText), Points(target)));
      } else {
        RebindingShows(fs, fs', p, next, rest, links, seen, seen');
      }
    }
  }

  /** When a root's walk resolves at both endpoints but to another object or through other links, no
      state explains the two accounts, whatever else they and the other roots recorded. */
  lemma RebindingAlwaysMoves(fs: FileSystem, fs': FileSystem, p: Path, a: map<Key, set<Value>>, b: map<Key, set<Value>>,
                             before: seq<BracketRoot>, after: seq<BracketRoot>, exclusions: seq<PathId>, i: nat)
    requires i < |after| <= |before| && before[i].facts.Some? && after[i].facts.Some?
    requires Trip(fs, p).Resolved? && Trip(fs', p).Resolved? && Trip(fs, p) != Trip(fs', p)
    requires forall k, v :: Records(Observed(fs, p, [], p, [], a), k, v) ==> Records(before[i].facts.value.values, k, v)
    requires forall k, v :: Records(Observed(fs', p, [], p, [], b), k, v) ==> Records(after[i].facts.value.values, k, v)
    ensures !Satisfiable(before, after, exclusions) && Involved(before, after, exclusions, i)
  {
    RebindingShows(fs, fs', p, [], p, [], a, b);
    var k, v, w :| v != w && Records(before[i].facts.value.values, k, v) && Records(after[i].facts.value.values, k, w);
    assert Made(before, after, i, Scalar(k, v)) && Made(before, after, i, Scalar(k, w));
    assert Contradicts(before, after, exclusions, i, Scalar(k, v), i, Scalar(k, w));
    ContradictionIsInvolved(before, after, exclusions, i);
  }
}
