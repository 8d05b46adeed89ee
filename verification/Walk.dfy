/** Symlink path resolution with a hop budget (runtimeinput/bracket.go, chainResolve), the pathname
    resolution it mirrors (POSIX.1-2017 Base Definitions, section 4.13), and the facts it records. */
module Walk {
  import opened Paths
  import opened PathFacts

  const MAX_LINK_HOPS: nat := 255

  /** How a walk ends: at an existing object, at the first absent component with the rest unwalked, or
      refused (unreadable, or out of hops). */
  datatype Walked =
    | Resolved(path: Path, links: seq<Path>)
    | Absent(at: Path, rest: seq<string>, links: seq<Path>)
    | Refused

  /** The walk from a link-free position, with the links traversed so far. */
  function Steps(fs: FileSystem, budget: nat, cur: Path, pending: seq<string>, links: seq<Path>): Walked
    decreases if |links| <= budget then budget - |links| else 0, |pending|
  {
    if pending == [] then Resolved(cur, links)
    else
      var part, rest := pending[0], pending[1..];
      if Skipped(part) then Steps(fs, budget, cur, rest, links)
      else if part == ".." then Steps(fs, budget, Parent(cur), rest, links)
      else
        var next := cur + [part];
        match fs(next)
        case Missing => Absent(next, rest, links)
        case Unreadable => Refused
        case File => Steps(fs, budget, next, rest, links)
        case Dir => Steps(fs, budget, next, rest, links)
        case Link(target) =>
          if |links| >= budget then Refused
          else Steps(fs, budget, if target.absolute then [] else cur, target.parts + rest, links + [next])
  }

  function Trip(fs: FileSystem, p: seq<string>): Walked {
    Steps(fs, MAX_LINK_HOPS, [], p, [])
  }

  /** The answer chainResolve gives for a walk: a missing suffix joins lexically. */
  datatype Answer = Answer(resolved: Path, links: seq<Path>, ok: bool)

  function Answered(w: Walked): Answer {
    match w
    case Resolved(path, links) => Answer(path, links, true)
    case Absent(at, rest, links) => Answer(CleanJoin(at, rest), links, true)
    case Refused => Answer([], [], false)
  }

  // ----- The method -----

  function TypeOf(node: Node): Value {
    match node
    case Missing => Gone
    case Link(_) => TypeLink
    case Dir => TypeDir
    case _ => TypeFile
  }

  /** The facts after observing the rest of p's walk from the given position. */
  function Observed(fs: FileSystem, p: Path, cur: Path, pending: seq<string>, links: seq<Path>, values: map<Key, set<Value>>)
    : map<Key, set<Value>>
    decreases if |links| <= MAX_LINK_HOPS then MAX_LINK_HOPS - |links| else 0, |pending|
  {
    if pending == [] then Recorded(values, Key(p, Resolution), Reaches(cur))
    else
      var part, rest := pending[0], pending[1..];
      if Skipped(part) then Observed(fs, p, cur, rest, links, values)
      else if part == ".." then Observed(fs, p, Parent(cur), rest, links, values)
      else
        var next := cur + [part];
        var node := fs(next);
        if node.Unreadable? then values
        else
          var seen := Seeing(p, next, node, rest == [], values);
          if node.Missing? then seen
          else if !node.Link? then Observed(fs, p, next, rest, links, seen)
          else if |links| >= MAX_LINK_HOPS then seen
          else
            var target := node.target;
            Observed(fs, p, if target.absolute then [] else cur, target.parts + rest, links + [next],
                     Recorded(seen, Key(next, LinkText), Points(target)))
  }

  /** The facts one successful lookup adds. */
  function Seeing(p: Path, next: Path, node: Node, last: bool, values: map<Key, set<Value>>): map<Key, set<Value>> {
    var named :=
      if !node.Missing? then Recorded(values, Key(next, Namespace), TypeOf(node))
      else if last then Recorded(Recorded(values, Key(next, Namespace), Gone), Key(p, Resolution), Reaches(next))
      else values;
    if (last || node.Missing?) && !Knows(named, Key(p, Namespace)) then Recorded(named, Key(p, Namespace), TypeOf(node))
    else named
  }

  /** chainResolveObserved over one unchanging filesystem. ended reports a context that ended first,
      which the background context never does. */
  method ChainResolveObserved(fs: FileSystem, p: Path, facts: Facts?, background: bool) returns (answer: Answer, ended: bool)
    modifies facts
    ensures ended ==> !answer.ok && !background
    ensures !ended ==> answer == Answered(Trip(fs, p))
    ensures !ended && facts != null ==> facts.values == Observed(fs, p, [], p, [], old(facts.values))
    ensures facts != null ==> facts.listings == old(facts.listings)
  {
    var resolved: Path := [];
    var pending: seq<string> := p;
    var links: seq<Path> := [];
    var hops := 0;
    while |pending| > 0
      invariant hops == |links| <= MAX_LINK_HOPS
      invariant Steps(fs, MAX_LINK_HOPS, resolved, pending, links) == Trip(fs, p)
      invariant facts != null ==> facts.listings == old(facts.listings)
      invariant facts != null ==>
        Observed(fs, p, resolved, pending, links, facts.values) == Observed(fs, p, [], p, [], old(facts.values))
      decreases MAX_LINK_HOPS - hops, |pending|
    {
      var stop: bool := *;
      if stop && !background { return Answer([], [], false), true; }
      var component := pending[0];
      pending := pending[1..];
      if component == "" || component == "." { continue; }
      if component == ".." {
        resolved := Parent(resolved);
        continue;
      }
      var next := resolved + [component];
      var node := fs(next);
      if node.Missing? {
        if facts != null {
          if |pending| == 0 {
            facts.Put(next, Namespace, Gone);
            facts.Put(p, Resolution, Reaches(next));
          }
          if !Knows(facts.values, Key(p, Namespace)) { facts.Put(p, Namespace, Gone); }
        }
        return Answer(CleanJoin(next, pending), links, true), false;
      }
      if node.Unreadable? { return Answer([], [], false), false; }
      if facts != null {
        facts.Put(next, Namespace, TypeOf(node));
        if |pending| == 0 && !Knows(facts.values, Key(p, Namespace)) { facts.Put(p, Namespace, TypeOf(node)); }
      }
      if !node.Link? {
        resolved := next;
        continue;
      }
      hops := hops + 1;
      if hops > MAX_LINK_HOPS { return Answer([], [], false), false; }
      links := links + [next];
      var target := node.target;
      if facts != null { facts.Put(next, LinkText, Points(target)); }
      if target.absolute { resolved := []; }
      pending := target.parts + pending;
    }
    if facts != null { facts.Put(p, Resolution, Reaches(resolved)); }
    return Answer(resolved, links, true), false;
  }

  /** chainResolve: no facts, and a context that never ends. */
  method ChainResolve(fs: FileSystem, p: Path) returns (answer: Answer)
    ensures answer == Answered(Trip(fs, p))
  {
    var ended;
    answer, ended := ChainResolveObserved(fs, p, null, true);
  }
}
