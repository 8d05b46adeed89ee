/** The blanks that divide arguments, and byte search. */
module Strings {
  import opened Paths

  predicate Space(c: char) {
    c == ' ' || c == '\t' || c == '\r' || c == '\n'
  }

  function TrimLeft(s: string): (trimmed: string)
    ensures |trimmed| <= |s| && (trimmed != "" ==> !Space(trimmed[0]))
  {
    if s != "" && Space(s[0]) then TrimLeft(s[1..]) else s
  }

  function IndexByte(s: string, c: char): (k: Option<nat>)
    ensures k.Some? ==> k.value < |s| && s[k.value] == c && forall i :: 0 <= i < k.value ==> s[i] != c
    ensures k.None? ==> c !in s
  {
    if s == "" then None
    else if s[0] == c then Some(0)
    else
      var k := IndexByte(s[1..], c);
      if k.None? then None else Some(k.value + 1)
  }
}
