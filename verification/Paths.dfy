/** Lexical paths and the abstract filesystem that the observation bracket is judged over.

A clean absolute path is the sequence of its component names from the root. A raw path, a link
target or a pending walk is a sequence of parts as splitting at the separator leaves them: names,
"" for an empty part, "." and "..".
 */
module Paths {

  datatype Option<+T> = None | Some(value: T)

  type Path = seq<string>

  datatype Target = Target(absolute: bool, parts: seq<string>)

  /** What a nonfollowing lookup of one path answers. Unreadable stands for every error but absence. */
  datatype Node = Missing | File | Dir | Link(target: Target) | Unreadable

  type FileSystem = Path -> Node

  predicate Skipped(part: string) {
    part == "" || part == "."
  }

  predicate IsName(part: string) {
    !Skipped(part) && part != ".."
  }

  predicate Clean(p: Path) {
    forall i :: 0 <= i < |p| ==> IsName(p[i])
  }

  /** The lexical parent; the root is its own. */
  function Parent(p: Path): Path {
    if p == [] then [] else p[..|p| - 1]
  }

  /** Joining parts under base and cleaning the result lexically. */
  function CleanJoin(base: Path, parts: seq<string>): Path
    decreases |parts|
  {
    if parts == [] then base
    else if Skipped(parts[0]) then CleanJoin(base, parts[1..])
    else if parts[0] == ".." then CleanJoin(Parent(base), parts[1..])
    else CleanJoin(base + [parts[0]], parts[1..])
  }

  lemma CleanJoinIsClean(base: Path, parts: seq<string>)
    requires Clean(base)
    ensures Clean(CleanJoin(base, parts))
    decreases |parts|
  {
    if parts != [] {
      CleanJoinIsClean(if Skipped(parts[0]) then base else if parts[0] == ".." then Parent(base) else base + [parts[0]],
                       parts[1..]);
    }
  }

  lemma {:induction false} CleanJoinAppend(base: Path, a: seq<string>, b: seq<string>)
    ensures CleanJoin(base, a + b) == CleanJoin(CleanJoin(base, a), b)
    decreases |a|
  {
    if a == [] {
      assert a + b == b;
    } else {
      assert (a + b)[1..] == a[1..] + b;
      CleanJoinAppend(if Skipped(a[0]) then base else if a[0] == ".." then Parent(base) else base + [a[0]], a[1..], b);
    }
  }

  lemma {:induction false} CleanJoinNames(base: Path, names: Path)
    requires Clean(names)
    ensures CleanJoin(base, names) == base + names
    decreases |names|
  {
    if names == [] {
      assert base + names == base;
    } else {
      CleanJoinNames(base + [names[0]], names[1..]);
      assert base + [names[0]] + names[1..] == base + names;
    }
  }

  datatype IdKind = Rel | Abs

  /** A path identity: module-relative components, or a clean absolute path. */
  datatype PathId = PathId(kind: IdKind, path: Path)

  /** Equal, or extending the pattern past a separator. The pattern naming a whole namespace ("." or
      "/") ends in no separator-free prefix, so textually it excludes itself alone. */
  predicate Extends(pattern: PathId, id: PathId) {
    && pattern.kind == id.kind
    && (pattern.path == id.path || (pattern.path != [] && pattern.path <= id.path))
  }

  predicate ExcludesIdentity(exclusions: seq<PathId>, id: PathId) {
    exists i :: 0 <= i < |exclusions| && Extends(exclusions[i], id)
  }

  /** The identity a root's walk assigns to the object at offset beneath it. */
  function WalkIdentity(root: PathId, offset: Path): PathId {
    PathId(root.kind, root.path + offset)
  }

  /** The position of p at or under root; textually the filesystem root contains itself alone. */
  function PathOffset(root: Path, p: Path): Option<Path> {
    if p == root then Some([])
    else if root != [] && root <= p then Some(p[|root|..])
    else None
  }

  // ----- What exclusions and offsets are, by concatenation -----

  /** An exclusion leaves out itself and, unless it names a whole namespace, everything beneath it of its
      kind; and nothing else is left out. */
  lemma ExcludesExactly(exclusions: seq<PathId>, id: PathId)
    ensures ExcludesIdentity(exclusions, id) <==>
      exists e, rest: Path :: e in exclusions && e.kind == id.kind && id.path == e.path + rest && (e.path == [] ==> rest == [])
  {
    if i :| 0 <= i < |exclusions| && Extends(exclusions[i], id) {
      var e := exclusions[i];
      assert e in exclusions && id.path == e.path + id.path[|e.path|..];
    }
    if e, rest: Path :| e in exclusions && e.kind == id.kind && id.path == e.path + rest && (e.path == [] ==> rest == []) {
      var i :| 0 <= i < |exclusions| && exclusions[i] == e;
      if rest == [] { assert e.path + rest == e.path; }
      assert Extends(exclusions[i], id);
    }
  }

  /** p stands at the offset found, and any clean root's extension is found there. */
  lemma OffsetExactly(root: Path, p: Path, offset: Path)
    ensures PathOffset(root, p) == Some(offset) <==> p == root + offset && (root == [] ==> offset == [])
  {
    if PathOffset(root, p) == Some(offset) {
      assert p == root + p[|root|..];
      if p == root { assert root + [] == root; }
    }
    if p == root + offset {
      assert p[|root|..] == offset;
      if p == root { assert |offset| == 0; }
    }
  }
}
