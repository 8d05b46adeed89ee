/** What a manifest's texts may spell: digests, subject identities and path identities
    (runtimeinput/manifest.go). */
module ManifestGrammar {
  import opened Paths
  import opened Strings

  predicate ValidText(s: string) {
    s != "" && forall i :: 0 <= i < |s| ==> s[i] !in "\0\r\n"
  }

  // ----- Digests -----

  predicate LowerHex(c: char) {
    '0' <= c <= '9' || 'a' <= c <= 'f'
  }

  predicate ValidDigest(d: string) {
    |d| == 32 && forall i :: 0 <= i < |d| ==> LowerHex(d[i])
  }

  predicate ValidSubject(s: string) {
    |s| == 64 && ValidDigest(s[..32]) && ValidDigest(s[32..])
  }

  /** A truncated SHA-256 as it is rendered. */
  type Digest = d: string | ValidDigest(d) witness seq(32, _ => '0')

  method ValidEntryDigest(d: string) returns (ok: bool)
    ensures ok <==> ValidDigest(d)
  {
    if |d| != 32 { return false; }
    for i := 0 to |d|
      invariant forall k :: 0 <= k < i ==> LowerHex(d[k])
    {
      if (d[i] < '0' || d[i] > '9') && (d[i] < 'a' || d[i] > 'f') { return false; }
    }
    return true;
  }

  // ----- Lexical cleaning of slash paths -----

  function Split(s: string): (parts: seq<string>)
    ensures parts != [] && forall i :: 0 <= i < |parts| ==> '/' !in parts[i]
    decreases |s|
  {
    var k := IndexByte(s, '/');
    if k.None? then [s]
    else
      SlashFree(s, k.value);
      [s[..k.value]] + Split(s[k.value + 1..])
  }

  lemma SlashFree(s: string, k: nat)
    requires k <= |s| && forall i :: 0 <= i < k ==> s[i] != '/'
    ensures '/' !in s[..k]
  {
  }

  function Join(parts: seq<string>): string {
    if parts == [] then "" else if |parts| == 1 then parts[0] else parts[0] + "/" + Join(parts[1..])
  }

  /** Components already cleaned, and those to come; a climb past a relative start is kept. */
  function CleanParts(rooted: bool, done: seq<string>, parts: seq<string>): seq<string>
    decreases |parts|
  {
    if parts == [] then done
    else if Skipped(parts[0]) then CleanParts(rooted, done, parts[1..])
    else if parts[0] != ".." then CleanParts(rooted, done + [parts[0]], parts[1..])
    else if done != [] && done[|done| - 1] != ".." then CleanParts(rooted, done[..|done| - 1], parts[1..])
    else if rooted then CleanParts(rooted, done, parts[1..])
    else CleanParts(rooted, done + [".."], parts[1..])
  }

  predicate Absolute(s: string) {
    s != "" && s[0] == '/'
  }

  /** filepath.Clean. */
  function CleanPath(s: string): string {
    if Absolute(s) then "/" + Join(CleanParts(true, [], Split(s[1..])))
    else
      var parts := CleanParts(false, [], Split(s));
      if parts == [] then "." else Join(parts)
  }

  // ----- Path identities -----

  const REL := "rel"
  const ABS := "abs"

  predicate ValidIdentity(kind: string, path: string) {
    && ValidText(path)
    && if kind == REL then
         !Absolute(path) && CleanPath(path) != ".." && !("../" <= CleanPath(path)) && CleanPath(path) == path
       else kind == ABS && Absolute(path) && CleanPath(path) == path
  }

  /** The grammar, in the order it is judged. */
  method ValidatePathID(kind: string, path: string) returns (ok: bool)
    ensures ok <==> ValidIdentity(kind, path)
  {
    if !ValidText(path) { return false; }
    if kind == REL {
      if Absolute(path) { return false; }
      var clean := CleanPath(path);
      if clean == ".." || "../" <= clean { return false; }
      return clean == path;
    } else if kind == ABS {
      if !Absolute(path) { return false; }
      return CleanPath(path) == path;
    }
    return false;
  }

  /** The names of a canonical path. */
  ghost predicate Names(names: seq<string>) {
    forall i :: 0 <= i < |names| ==> IsName(names[i]) && '/' !in names[i]
  }

  lemma {:induction false} SplitJoin(names: seq<string>)
    requires Names(names) && names != []
    ensures Split(Join(names)) == names
  {
    if |names| > 1 {
      SplitHead(names[0], Join(names[1..]));
      SplitJoin(names[1..]);
      assert names == [names[0]] + names[1..];
    } else {
      NoSlash(names[0]);
      assert names == [names[0]];
    }
  }

  lemma NoSlash(name: string)
    requires '/' !in name
    ensures Split(name) == [name]
  {
  }

  lemma SplitHead(name: string, rest: string)
    requires '/' !in name
    ensures Split(name + "/" + rest) == [name] + Split(rest)
  {
    var s, k := name + "/" + rest, |name|;
    assert s[..k] == name && s[k] == '/' && s[k + 1..] == rest;
    FirstSlash(s, k);
  }

  lemma FirstSlash(s: string, k: nat)
    requires k < |s| && s[k] == '/' && '/' !in s[..k]
    ensures IndexByte(s, '/') == Some(k)
  {
    forall i | 0 <= i < k
      ensures s[i] != '/'
    {
      assert s[i] == s[..k][i];
    }
  }

  lemma {:induction false} CleanNames(rooted: bool, done: seq<string>, names: seq<string>)
    requires Names(names)
    ensures CleanParts(rooted, done, names) == done + names
    decreases |names|
  {
    if names == [] {
      assert done + names == done;
    } else {
      CleanNames(rooted, done + [names[0]], names[1..]);
      assert done + [names[0]] + names[1..] == done + names;
    }
  }

  /** Climbs first, if the path is relative, and then names. */
  ghost predicate Cleaned(rooted: bool, parts: seq<string>, k: nat) {
    && k <= |parts| && (rooted ==> k == 0)
    && (forall i :: 0 <= i < k ==> parts[i] == "..")
    && (forall i :: k <= i < |parts| ==> IsName(parts[i]) && '/' !in parts[i])
  }

  lemma {:induction false} CleaningCleans(rooted: bool, done: seq<string>, parts: seq<string>, k: nat) returns (l: nat)
    requires Cleaned(rooted, done, k) && forall i :: 0 <= i < |parts| ==> '/' !in parts[i]
    ensures Cleaned(rooted, CleanParts(rooted, done, parts), l)
    decreases |parts|
  {
    if parts == [] {
      l := k;
    } else if Skipped(parts[0]) {
      l := CleaningCleans(rooted, done, parts[1..], k);
    } else if parts[0] != ".." {
      l := CleaningCleans(rooted, done + [parts[0]], parts[1..], k);
    } else if done != [] && done[|done| - 1] != ".." {
      l := CleaningCleans(rooted, done[..|done| - 1], parts[1..], k);
    } else if rooted {
      l := CleaningCleans(rooted, done, parts[1..], k);
    } else {
      l := CleaningCleans(rooted, done + [".."], parts[1..], k + 1);
    }
  }

  /** A text is not empty and carries neither NUL nor a line end. */
  lemma TextExactly(s: string)
    ensures ValidText(s) <==> s != "" && '\0' !in s && '\r' !in s && '\n' !in s
  {
  }

  predicate Spells(kind: string, path: string, names: seq<string>) {
    || (kind == REL && path == if names == [] then "." else Join(names))
    || (kind == ABS && path == "/" + Join(names))
  }

  /** A relative identity is the module itself or names below it; an absolute one names from the root. So
      neither climbs, repeats a separator or carries an empty or dot component. */
  lemma IdentityExactly(kind: string, path: string)
    ensures ValidIdentity(kind, path) <==>
      && path != "" && '\0' !in path && '\r' !in path && '\n' !in path
      && exists names :: Names(names) && Spells(kind, path, names)
  {
    TextExactly(path);
    hide ValidText;
    if kind == REL { RelativeExactly(path); }
    if kind == ABS { AbsoluteExactly(path); }
  }

  lemma AbsoluteExactly(path: string)
    ensures Absolute(path) && CleanPath(path) == path <==> exists names :: Names(names) && path == "/" + Join(names)
  {
    if Absolute(path) && CleanPath(path) == path {
      var parts := CleanParts(true, [], Split(path[1..]));
      var l := CleaningCleans(true, [], Split(path[1..]), 0);
      assert Names(parts) && path == "/" + Join(parts);
    }
    if names :| Names(names) && path == "/" + Join(names) {
      assert path[1..] == Join(names);
      CleanNames(true, [], names);
      assert [] + names == names;
      if names == [] { OnePart("", true); } else { SplitJoin(names); }
    }
  }

  lemma OnePart(part: string, rooted: bool)
    requires Skipped(part)
    ensures CleanParts(rooted, [], Split(part)) == []
  {
    assert Split(part) == [part] && [part][1..] == [];
  }

  lemma RelativeExactly(path: string)
    ensures !Absolute(path) && CleanPath(path) != ".." && !("../" <= CleanPath(path)) && CleanPath(path) == path <==>
      exists names :: Names(names) && path == if names == [] then "." else Join(names)
  {
    if !Absolute(path) && CleanPath(path) != ".." && !("../" <= CleanPath(path)) && CleanPath(path) == path {
      var parts := CleanParts(false, [], Split(path));
      var l := CleaningCleans(false, [], Split(path), 0);
      if l > 0 {
        ClimbShows(parts);
      }
      assert Names(parts);
    }
    if names :| Names(names) && path == if names == [] then "." else Join(names) {
      if names == [] {
        OnePart(".", false);
      } else {
        SplitJoin(names);
        CleanNames(false, [], names);
        assert [] + names == names;
        NamesStartPlainly(names);
      }
    }
  }

  lemma ClimbShows(parts: seq<string>)
    requires parts != [] && parts[0] == ".."
    ensures Join(parts) == ".." || "../" <= Join(parts)
  {
    if |parts| > 1 { assert Join(parts)[..3] == "../"; }
  }

  lemma NamesStartPlainly(names: seq<string>)
    requires Names(names) && names != []
    ensures var s := Join(names); s != "" && s[0] != '/' && s != ".." && !("../" <= s)
  {
    var s := Join(names);
    assert s[..|names[0]|] == names[0] && s[0] == names[0][0];
    SplitJoin(names);
    if s == ".." || "../" <= s { ClimbSplits(s); }
  }

  lemma ClimbSplits(s: string)
    requires s == ".." || "../" <= s
    ensures Split(s)[0] == ".."
  {
    if s != ".." {
      assert s[..3] == "../" && s[0] == '.' && s[1] == '.' && s[2] == '/';
      FirstSlash(s, 2);
      assert s[..2] == "..";
    }
  }
}
