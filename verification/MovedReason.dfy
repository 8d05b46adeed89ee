/** The moved-bracket reason: its member list, its clause, and the split of a whole reason
    (runtimeinput/attribution.go). */
module MovedReason {
  import opened Paths
  import opened Quoting
  import opened Attribution

  const LIST_CAP: nat := 3
  const PREFIX: string := "observation bracket moved: "
  const FRAMING: string := ['\n', '\r', '\0', '[', ']', '"']

  /** A name travels bare unless it carries the list's framing or bytes a reason cannot. */
  predicate NeedsQuote(name: string) {
    (exists k :: 0 <= k < |name| && name[k] in FRAMING) || (exists k :: 0 <= k < |name| && At(name, k, "; "))
  }

  function MemberListName(name: string): string {
    if NeedsQuote(name) then Quote(name) else name
  }

  function MovedBracketClause(root: string): string {
    PREFIX + MemberListName(root)
  }

  // ----- The list composer -----

  /** A shown member: its name, and the note in the recency list, " (" and a time and ")". */
  datatype Item = Item(name: string, note: string)

  function Text(item: Item): string {
    MemberListName(item.name) + item.note
  }

  function Joined(items: seq<Item>): string {
    if items == [] then "" else if |items| == 1 then Text(items[0]) else Text(items[0]) + ", " + Joined(items[1..])
  }

  function Decimal(n: nat): (text: string)
    ensures forall k :: 0 <= k < |text| ==> '0' <= text[k] <= '9'
    ensures text != ""
  {
    if n < 10 then [('0' as int + n) as char] else Decimal(n / 10) + [('0' as int + n % 10) as char]
  }

  function CappedList(items: seq<Item>): string {
    if |items| <= LIST_CAP then Joined(items)
    else Joined(items[..LIST_CAP]) + ", and " + Decimal(|items| - LIST_CAP) + " more"
  }

  function Plain(names: seq<string>): seq<Item> {
    seq(|names|, k requires 0 <= k < |names| => Item(names[k], ""))
  }

  /** What moved inside a root: members added and removed since capture, and when membership held, the
      recently touched ones; names sorted and stamps rendered beforehand. */
  datatype Motion = Motion(added: seq<string>, removed: seq<string>, touched: seq<Item>)

  function MotionParts(m: Motion): seq<string> {
    var added := if |m.added| > 0 then [LABELS[0] + CappedList(Plain(m.added))] else [];
    var removed := if |m.removed| > 0 then [LABELS[1] + CappedList(Plain(m.removed))] else [];
    var parts := added + removed;
    if |parts| > 0 then parts
    else if |m.touched| > 0 then [LABELS[2] + CappedList(m.touched)]
    else []
  }

  function JoinParts(parts: seq<string>): string {
    if parts == [] then "" else if |parts| == 1 then parts[0] else parts[0] + "; " + JoinParts(parts[1..])
  }

  function BracketMoveAttribution(m: Motion): string {
    if MotionParts(m) == [] then "" else " [" + JoinParts(MotionParts(m)) + "]"
  }

  // ----- The list splitter -----

  /** The parts of a list's inner text from the part begun at start, with the scan at i. */
  function PartsFrom(s: string, i: nat, start: nat): (parts: seq<string>)
    requires start <= i
    ensures parts != []
    decreases |s| - i
  {
    if i >= |s| then [if start <= |s| then s[start..] else ""]
    else if s[i] == '"' then PartsFrom(s, if LiteralEnd(s, i).None? then i + 1 else LiteralEnd(s, i).value, start)
    else if At(s, i, "; ") then [s[start..i]] + PartsFrom(s, i + 2, i + 2)
    else PartsFrom(s, i + 1, start)
  }

  method BracketAttributionParts(inner: string) returns (parts: seq<string>)
    ensures parts == PartsFrom(inner, 0, 0)
  {
    parts := [];
    var start, i := 0, 0;
    while i < |inner|
      invariant start <= i <= |inner|
      invariant parts + PartsFrom(inner, i, start) == PartsFrom(inner, 0, 0)
    {
      if inner[i] == '"' {
        var end := LiteralEnd(inner, i);
        if end.None? { i := i + 1; continue; }
        i := end.value;
      } else if At(inner, i, "; ") {
        assert parts + ([inner[start..i]] + PartsFrom(inner, i + 2, i + 2)) == (parts + [inner[start..i]]) + PartsFrom(inner, i + 2, i + 2);
        parts := parts + [inner[start..i]];
        i := i + 2;
        start := i;
      } else {
        i := i + 1;
      }
    }
    parts := parts + [inner[start..]];
  }

  predicate Labelled(part: string) {
    exists k :: 0 <= k < |LABELS| && LABELS[k] <= part
  }

  predicate ListWellFormed(s: string) {
    && |s| >= 2 && s[0] == '[' && s[|s| - 1] == ']'
    && AllLabelled(PartsFrom(s[1..|s| - 1], 0, 0))
  }

  predicate AllLabelled(parts: seq<string>) {
    forall k :: 0 <= k < |parts| ==> Labelled(parts[k])
  }

  method BracketAttributionWellFormed(s: string) returns (ok: bool)
    ensures ok <==> ListWellFormed(s)
  {
    if |s| < 1 || s[0] != '[' { return false; }
    var inner := s[1..];
    if |inner| < 1 || inner[|inner| - 1] != ']' { return false; }
    inner := inner[..|inner| - 1];
    assert inner == s[1..|s| - 1];
    var parts := BracketAttributionParts(inner);
    for k := 0 to |parts|
      invariant forall j :: 0 <= j < k ==> Labelled(parts[j])
    {
      var labelled := false;
      for j := 0 to |LABELS|
        invariant labelled <==> exists l :: 0 <= l < j && LABELS[l] <= parts[k]
      {
        if LABELS[j] <= parts[k] { labelled := true; }
      }
      if !labelled { return false; }
    }
    return true;
  }

  // ----- The split -----

  /** A bare root: the first " [" from i whose suffix is one well-formed list. */
  function BareSplit(reason: string, i: nat): Option<(string, string)>
    decreases |reason| - i
  {
    if i >= |reason| then None
    else if At(reason, i, " [") && ListWellFormed(reason[i + 1..]) then Some((reason[..i], reason[i + 2..|reason| - 1]))
    else BareSplit(reason, i + 1)
  }

  /** A quoted root is consumed whole; text that is no literal there falls to the bare scan. */
  function BracketSplit(reason: string): Option<(string, string)> {
    if !(MOVED <= reason) then None
    else if At(reason, |MOVED|, ": \"") && LiteralEnd(reason, |PREFIX|).Some? then
      var end := LiteralEnd(reason, |PREFIX|).value;
      if At(reason, end, " ") && ListWellFormed(reason[end + 1..]) then Some((reason[..end], reason[end + 2..|reason| - 1]))
      else None
    else BareSplit(reason, 0)
  }

  method SplitBracketAttribution(reason: string) returns (split: Option<(string, string)>)
    ensures split == BracketSplit(reason)
  {
    if !(MOVED <= reason) { return None; }
    if At(reason, |MOVED|, ": \"") {
      var end := LiteralEnd(reason, |PREFIX|);
      if end.Some? {
        if At(reason, end.value, " ") {
          var list := reason[end.value + 1..];
          var ok := BracketAttributionWellFormed(list);
          assert ok ==> list[1..|list| - 1] == reason[end.value + 2..|reason| - 1];
          if ok { return Some((reason[..end.value], list[1..|list| - 1])); }
          return None;
        }
        return None;
      }
    }
    split := SplitBare(reason);
  }

  method SplitBare(reason: string) returns (split: Option<(string, string)>)
    ensures split == BareSplit(reason, 0)
  {
    hide PartsFrom, AllLabelled, ListWellFormed, BareSplit;
    var i := IndexFrom(reason, " [", 0);
    BareSkips(reason, 0, if i.Some? then i.value else |reason|);
    BareEnds(reason);
    while i.Some?
      invariant i.Some? ==> At(reason, i.value, " [") && BareSplit(reason, i.value) == BareSplit(reason, 0)
      invariant i.None? ==> BareSplit(reason, 0) == None
      decreases if i.Some? then |reason| - i.value else 0, i.Some?
    {
      var suffix := reason[i.value + 1..];
      var ok := BracketAttributionWellFormed(suffix);
      BareHere(reason, i.value);
      if ok { return Some((reason[..i.value], suffix[1..|suffix| - 1])); }
      var next := IndexFrom(reason, " [", i.value + 1);
      BareSkips(reason, i.value + 1, if next.Some? then next.value else |reason|);
      i := next;
    }
    return None;
  }

  lemma BareEnds(reason: string)
    ensures BareSplit(reason, |reason|) == None
  {
  }

  lemma BareHere(reason: string, i: nat)
    requires At(reason, i, " [")
    ensures var suffix := reason[i + 1..];
      if ListWellFormed(suffix) then |suffix| >= 2 && BareSplit(reason, i) == Some((reason[..i], suffix[1..|suffix| - 1]))
      else BareSplit(reason, i) == BareSplit(reason, i + 1)
  {
    hide PartsFrom, AllLabelled;
    var suffix := reason[i + 1..];
    if ListWellFormed(suffix) { assert suffix[1..|suffix| - 1] == reason[i + 2..|reason| - 1]; }
  }

  lemma {:induction false} BareSkips(reason: string, i: nat, j: nat)
    requires i <= j <= |reason| && forall k :: i <= k < j ==> !At(reason, k, " [") || !ListWellFormed(reason[k + 1..])
    ensures BareSplit(reason, i) == BareSplit(reason, j)
    decreases j - i
  {
    if i < j { BareSkips(reason, i + 1, j); }
  }

  /** The one split RefusalClause and RefusalAttribution read. */
  function Split(reason: string): (string, string) {
    if BracketSplit(reason).Some? then BracketSplit(reason).value else DividedFrom(reason, 0)
  }

  method SplitAttribution(reason: string) returns (clause: string, attribution: string)
    ensures (clause, attribution) == Split(reason)
  {
    var bracket := SplitBracketAttribution(reason);
    if bracket.Some? { return bracket.value.0, bracket.value.1; }
    clause, attribution := SplitOperation(reason);
  }

  method SplitOperation(reason: string) returns (clause: string, attribution: string)
    ensures (clause, attribution) == DividedFrom(reason, 0)
  {
    hide AttributionAt, DividedFrom, Divides;
    var i := IndexFrom(reason, SEPARATOR, 0);
    DividedPast(reason, 0, if i.Some? then i.value else |reason|);
    DividedEnds(reason);
    while i.Some?
      invariant i.Some? ==> At(reason, i.value, SEPARATOR) && DividedFrom(reason, i.value) == DividedFrom(reason, 0)
      invariant i.None? ==> DividedFrom(reason, 0) == (reason, "")
      decreases if i.Some? then |reason| - i.value else 0, i.Some?
    {
      var ok := AttributionWellFormed(reason, i.value + |SEPARATOR|);
      DividedHere(reason, i.value);
      if ok { return reason[..i.value], reason[i.value + |SEPARATOR|..]; }
      var next := IndexFrom(reason, SEPARATOR, i.value + 1);
      DividedPast(reason, i.value + 1, if next.Some? then next.value else |reason|);
      i := next;
    }
    return reason, "";
  }

  lemma DividedEnds(reason: string)
    ensures DividedFrom(reason, |reason|) == (reason, "")
  {
  }

  lemma DividedHere(reason: string, i: nat)
    requires At(reason, i, SEPARATOR)
    ensures i + |SEPARATOR| <= |reason|
    ensures if AttributionAt(reason, i + |SEPARATOR|) then DividedFrom(reason, i) == (reason[..i], reason[i + |SEPARATOR|..])
            else DividedFrom(reason, i) == DividedFrom(reason, i + 1)
  {
    hide AttributionAt;
  }

  lemma DividedPast(reason: string, i: nat, j: nat)
    requires i <= j <= |reason| && forall k :: i <= k < j ==> !At(reason, k, SEPARATOR)
    ensures DividedFrom(reason, i) == DividedFrom(reason, j)
  {
    hide AttributionAt;
    DividedSkips(reason, i, j);
  }

  // ----- Reassembly, and the operation form through the whole split -----

  /** A split loses nothing: the two halves around their separator, or around " [" and "]". */
  lemma SplitReassembles(reason: string)
    ensures var (clause, attribution) := Split(reason);
            || (clause == reason && attribution == "")
            || clause + SEPARATOR + attribution == reason
            || clause + " [" + attribution + "]" == reason
  {
    if BracketSplit(reason).Some? {
      BracketReassembles(reason);
    } else {
      DividedReassembles(reason, 0);
    }
  }

  lemma {:induction false} DividedReassembles(reason: string, i: nat)
    ensures var (clause, attribution) := DividedFrom(reason, i);
            (clause == reason && attribution == "") || clause + SEPARATOR + attribution == reason
    decreases |reason| - i
  {
    if i < |reason| {
      if Divides(reason, i) {
        assert reason[..i] + SEPARATOR + reason[i + |SEPARATOR|..] == reason;
      } else {
        DividedReassembles(reason, i + 1);
      }
    }
  }

  lemma ListIsFramed(reason: string, i: nat)
    requires At(reason, i, " ") && ListWellFormed(reason[i + 1..])
    ensures |reason| >= i + 3 && reason[..i] + " [" + reason[i + 2..|reason| - 1] + "]" == reason
  {
    var list := reason[i + 1..];
    assert reason[i] == reason[i..i + 1][0] && reason[i + 1] == list[0] && reason[|reason| - 1] == list[|list| - 1];
  }

  lemma {:induction false} BareReassembles(reason: string, i: nat)
    ensures BareSplit(reason, i).Some? ==>
      BareSplit(reason, i).value.0 + " [" + BareSplit(reason, i).value.1 + "]" == reason
    decreases |reason| - i
  {
    if i < |reason| {
      if At(reason, i, " [") && ListWellFormed(reason[i + 1..]) {
        AtSplit(reason, i, " ", "[");
        assert " [" == " " + "[";
        ListIsFramed(reason, i);
      } else {
        BareReassembles(reason, i + 1);
      }
    }
  }

  lemma BracketReassembles(reason: string)
    requires BracketSplit(reason).Some?
    ensures BracketSplit(reason).value.0 + " [" + BracketSplit(reason).value.1 + "]" == reason
  {
    if At(reason, |MOVED|, ": \"") && LiteralEnd(reason, |PREFIX|).Some? {
      ListIsFramed(reason, LiteralEnd(reason, |PREFIX|).value);
    } else {
      BareReassembles(reason, 0);
    }
  }

  /** For every clause, recognised operation, name and directory: the split gives back exactly the
      clause and the attribution. */
  lemma OperationRoundTrip(clause: string, op: string, name: string, cwd: string)
    requires op in OPS
    ensures Split(clause + SEPARATOR + OperationAttribution(op, name, cwd)) == (clause, OperationAttribution(op, name, cwd))
  {
    var k :| 0 <= k < |OPS| && OPS[k] == op;
    var reason := clause + SEPARATOR + OperationAttribution(op, name, cwd);
    OperationDivides(clause, k, name, cwd);
    assert reason[|reason| - 1] == Quote(cwd)[|Quote(cwd)| - 1] == '"';
    if BracketSplit(reason).Some? { BracketedEnds(reason); }
  }

  lemma ResolvedTargetRoundTrip(clause: string, spelling: string, target: string)
    ensures Split(clause + SEPARATOR + ResolvedTargetAttribution(spelling, target)) == (clause, ResolvedTargetAttribution(spelling, target))
  {
    var reason := clause + SEPARATOR + ResolvedTargetAttribution(spelling, target);
    ResolvedTargetDivides(clause, spelling, target);
    assert reason[|reason| - 1] == OUTSIDE[|OUTSIDE| - 1] == 'e';
    if BracketSplit(reason).Some? { BracketedEnds(reason); }
  }

  /** A reason with a member list ends in its bracket. */
  lemma BracketedEnds(reason: string)
    requires BracketSplit(reason).Some?
    ensures reason != "" && reason[|reason| - 1] == ']'
  {
    BracketReassembles(reason);
    var (clause, attribution) := BracketSplit(reason).value;
    assert (clause + " [" + attribution + "]")[|clause| + 2 + |attribution|] == ']';
  }

  // ----- Re-keying a stored clause -----

  function CanonicalMovedBracketClause(clause: string): string {
    if !(PREFIX <= clause) then clause
    else
      var root := clause[|PREFIX|..];
      var name := Unquote(root);
      if name.Some? && MemberListName(name.value) == root then clause else MovedBracketClause(root)
  }

  /** Re-keying is idempotent on every string, and leaves every composed clause alone. */
  lemma CanonicalIsIdempotent(clause: string)
    ensures CanonicalMovedBracketClause(CanonicalMovedBracketClause(clause)) == CanonicalMovedBracketClause(clause)
  {
    if PREFIX <= clause {
      assert clause == PREFIX + clause[|PREFIX|..];
      ComposedIsCanonical(clause[|PREFIX|..]);
    }
  }

  lemma ComposedIsCanonical(root: string)
    ensures CanonicalMovedBracketClause(MovedBracketClause(root)) == MovedBracketClause(root)
  {
    var text := MemberListName(root);
    assert MovedBracketClause(root)[|PREFIX|..] == text;
    if NeedsQuote(root) { UnquoteQuote(root); } else { BareHoldsNoQuote(root, 0); }
  }

  lemma BareHoldsNoQuote(name: string, k: nat)
    requires !NeedsQuote(name)
    ensures k < |name| ==> name[k] != '"' && name[k] != '[' && !At(name, k, "; ")
  {
    assert FRAMING[5] == '"' && FRAMING[3] == '[';
  }

  // ----- What names and clauses spell -----

  /** A name is quoted exactly when it carries a NUL, a line end, a bracket or a quote, or "; " somewhere
      in it. */
  lemma NeedsQuoteExactly(name: string)
    ensures NeedsQuote(name) <==>
      || '\0' in name || '\n' in name || '\r' in name || '[' in name || ']' in name || '"' in name
      || exists before: string, rest: string :: name == before + "; " + rest
  {
    if k :| 0 <= k < |name| && At(name, k, "; ") {
      assert name == name[..k] + "; " + name[k + 2..];
    }
    if before: string, rest: string :| name == before + "; " + rest {
      assert At(name, |before|, "; ");
    }
  }

  /** Re-keying touches only a moved bracket's clause. There a root that is the quoted spelling of a name
      that must be quoted stays, a root that must be quoted re-keys to its quoted spelling, and any other
      stays. */
  lemma CanonicalExactly(clause: string, root: string)
    ensures !("observation bracket moved: " <= clause) ==> CanonicalMovedBracketClause(clause) == clause
    ensures CanonicalMovedBracketClause("observation bracket moved: " + root) == "observation bracket moved: "
      + if (exists name: string :: NeedsQuote(name) && root == Quote(name)) || !NeedsQuote(root) then root else Quote(root)
  {
    var whole := PREFIX + root;
    assert whole[|PREFIX|..] == root;
    if name: string :| NeedsQuote(name) && root == Quote(name) {
      UnquoteQuote(name);
    }
  }

  /** The composed texts, spelled out. */
  lemma ComposedSpell(op: string, name: string, cwd: string)
    ensures op == "open" || op == "stat" || op == "chdir" ==>
      OperationAttribution(op, name, cwd) == op + " " + Quote(name) + " in " + Quote(cwd)
    ensures op != "open" && op != "stat" && op != "chdir" ==> OperationAttribution(op, name, cwd) == ""
    ensures ResolvedTargetAttribution(name, cwd) == "recorded path " + Quote(name) + " resolves to " + Quote(cwd) + " outside the tree"
    ensures MovedBracketClause(name) == "observation bracket moved: " + if NeedsQuote(name) then Quote(name) else name
  {
    hide Quote, NeedsQuote;
    assert OPS[0] == "open" && OPS[1] == "stat" && OPS[2] == "chdir";
  }

  /** A list names what was added and what was removed, and only when nothing was either, what was touched. */
  lemma ListSpells(m: Motion)
    ensures var added, removed := "added: " + CappedList(Plain(m.added)), "removed: " + CappedList(Plain(m.removed));
      BracketMoveAttribution(m) ==
        if m.added != [] && m.removed != [] then " [" + (added + "; " + removed) + "]"
        else if m.added != [] then " [" + added + "]"
        else if m.removed != [] then " [" + removed + "]"
        else if m.touched != [] then " [" + ("recently touched: " + CappedList(m.touched)) + "]"
        else ""
  {
    hide CappedList, JoinParts, Plain;
    assert LABELS[0] == "added: " && LABELS[1] == "removed: " && LABELS[2] == "recently touched: ";
    PartsSpell(LABELS[0] + CappedList(Plain(m.added)), LABELS[1] + CappedList(Plain(m.removed)));
    PartsSpell(LABELS[2] + CappedList(m.touched), "");
  }

  lemma PartsSpell(x: string, y: string)
    ensures JoinParts([x]) == x && JoinParts([x, y]) == x + "; " + y
    ensures [x] + [y] == [x, y] && [x] + [] == [x] && [] + [y] == [y] && JoinParts([y]) == y
  {
    assert [x, y][1..] == [y];
  }

  /** At most three members are shown, each behind a comma and a blank but the first, and how many more. */
  lemma CappedSpells(a: Item, b: Item, c: Item, more: seq<Item>)
    ensures CappedList([]) == "" && CappedList([a]) == Text(a)
    ensures CappedList([a, b]) == Text(a) + (", " + Text(b))
    ensures CappedList([a, b, c]) == Text(a) + (", " + (Text(b) + (", " + Text(c))))
    ensures more != [] ==> CappedList([a, b, c] + more) == CappedList([a, b, c]) + ", and " + Decimal(|more|) + " more"
  {
    hide Decimal, Joined;
    ShownSpell(a, b, c);
    assert ([a, b, c] + more)[..3] == [a, b, c];
  }

  lemma ShownSpell(a: Item, b: Item, c: Item)
    ensures Joined([]) == "" && Joined([a]) == Text(a) && Joined([a, b]) == Text(a) + (", " + Text(b))
    ensures Joined([a, b, c]) == Text(a) + (", " + (Text(b) + (", " + Text(c))))
  {
    hide Text;
    PairSpells(a, b);
    PairSpells(b, c);
    assert [a, b, c][1..] == [b, c];
    JoinedUnrolls([a, b, c]);
  }

  lemma PairSpells(a: Item, b: Item)
    ensures Joined([a]) == Text(a) && Joined([a, b]) == Text(a) + (", " + Text(b))
  {
    hide Text;
    assert [a, b][1..] == [b];
    JoinedUnrolls([a, b]);
  }

  lemma JoinedUnrolls(items: seq<Item>)
    ensures |items| > 1 ==> Joined(items) == Text(items[0]) + (", " + Joined(items[1..]))
  {
    hide Text;
  }
}
