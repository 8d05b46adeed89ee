/** The moved-bracket reason splits into exactly its clause and its member list, and when it does not
    (runtimeinput/attribution.go, bracketMoveAttribution against splitBracketAttribution). */
module MovedRoundTrip {
  import opened Paths
  import opened Quoting
  import opened Attribution
  import opened MovedReason

  // ----- What the list scan passes over -----

  /** From i the scan reaches j within the part it is in. */
  ghost predicate Passes(s: string, i: nat, j: nat) {
    i <= j <= |s| && forall start: nat :: start <= i ==> PartsFrom(s, i, start) == PartsFrom(s, j, start)
  }

  lemma PassThen(s: string, i: nat, j: nat, k: nat)
    requires Passes(s, i, j) && Passes(s, j, k)
    ensures Passes(s, i, k)
  {
  }

  lemma PassNothing(s: string, i: nat)
    requires At(s, i, "")
    ensures Passes(s, i, i)
  {
  }

  lemma {:induction false} PassPlain(s: string, i: nat, j: nat)
    requires i <= j <= |s| && forall k :: i <= k < j ==> s[k] != '"' && !At(s, k, "; ")
    ensures Passes(s, i, j)
    decreases j - i
  {
    if i < j { PassPlain(s, i + 1, j); }
  }

  /** Where a "; " can begin inside text: not before its last character unless within the text. */
  lemma SplitsWithin(s: string, i: nat, t: string, k: nat)
    requires At(s, i, t) && k < |t| && At(s, i + k, "; ")
    ensures t[k] == ';' && (k + 1 < |t| ==> At(t, k, "; ")) && (k + 1 == |t| ==> i + |t| < |s| && s[i + |t|] == ' ')
  {
    CharAt(s, i, t, k);
    CharAt(s, i + k, "; ", 0);
    CharAt(s, i + k, "; ", 1);
    if k + 1 < |t| {
      CharAt(s, i, t, k + 1);
      assert t[k..k + 2] == "; ";
    }
  }

  /** Text with no quote passes when no "; " lies in it or begins at its end. */
  lemma PassText(s: string, i: nat, t: string)
    requires At(s, i, t) && '"' !in t && forall k :: 0 <= k < |t| ==> !At(t, k, "; ")
    requires t != "" && t[|t| - 1] == ';' && i + |t| < |s| ==> s[i + |t|] != ' '
    ensures Passes(s, i, i + |t|)
  {
    forall k | i <= k < i + |t|
      ensures s[k] != '"' && !At(s, k, "; ")
    {
      CharAt(s, i, t, k - i);
      if At(s, k, "; ") { SplitsWithin(s, i, t, k - i); }
    }
    PassPlain(s, i, i + |t|);
  }

  lemma PassQuoted(s: string, i: nat, name: string)
    requires At(s, i, Quote(name))
    ensures Passes(s, i, i + |Quote(name)|)
  {
    NameAt(s, i, name);
  }

  // ----- Members -----

  /** A note as the recency list renders it: " (", a time, ")". */
  predicate Calm(note: string) {
    note == "" || (note[0] == ' ' && '"' !in note && ';' !in note && |note| > 1 && note[1] == '(')
  }

  predicate EndsOpen(name: string) {
    !NeedsQuote(name) && name != "" && name[|name| - 1] == ';'
  }

  /** A bare name ending in ';' with the space of its note after it forms the part separator. */
  predicate Safe(item: Item) {
    item.note == "" || !EndsOpen(item.name)
  }

  predicate NotSpaceAt(s: string, j: nat) {
    j < |s| ==> s[j] != ' '
  }

  lemma PassName(s: string, i: nat, name: string)
    requires At(s, i, MemberListName(name))
    requires EndsOpen(name) ==> NotSpaceAt(s, i + |MemberListName(name)|)
    ensures Passes(s, i, i + |MemberListName(name)|)
  {
    if NeedsQuote(name) {
      PassQuoted(s, i, name);
    } else {
      forall k | 0 <= k < |name|
        ensures name[k] != '"' && !At(name, k, "; ")
      {
        BareHoldsNoQuote(name, k);
      }
      PassText(s, i, name);
    }
  }

  lemma PassNote(s: string, i: nat, note: string)
    requires At(s, i, note) && Calm(note)
    ensures Passes(s, i, i + |note|)
  {
    forall k | 0 <= k < |note|
      ensures !At(note, k, "; ")
    {
      if At(note, k, "; ") { CharAt(note, k, "; ", 0); }
    }
    PassText(s, i, note);
  }

  lemma PassItem(s: string, i: nat, item: Item)
    requires At(s, i, Text(item)) && Calm(item.note) && Safe(item)
    requires item.note == "" ==> NotSpaceAt(s, i + |Text(item)|)
    ensures Passes(s, i, i + |Text(item)|)
  {
    hide Passes, NeedsQuote, MemberListName;
    var name := MemberListName(item.name);
    AtSplit(s, i, name, item.note);
    if EndsOpen(item.name) { assert Text(item) == name; }
    PassName(s, i, item.name);
    PassNote(s, i + |name|, item.note);
    PassThen(s, i, i + |name|, i + |Text(item)|);
  }

  ghost predicate AllCalm(items: seq<Item>) {
    forall k :: 0 <= k < |items| ==> Calm(items[k].note)
  }

  ghost predicate AllSafe(items: seq<Item>) {
    forall k :: 0 <= k < |items| ==> Safe(items[k])
  }

  lemma PassComma(s: string, i: nat)
    requires At(s, i, ", ")
    ensures Passes(s, i, i + 2)
  {
    CharAt(s, i, ", ", 0);
    CharAt(s, i, ", ", 1);
    forall k | i <= k < i + 2
      ensures s[k] != '"' && !At(s, k, "; ")
    {
      if At(s, k, "; ") { CharAt(s, k, "; ", 0); }
    }
    PassPlain(s, i, i + 2);
  }

  lemma {:induction false} PassJoined(s: string, i: nat, items: seq<Item>)
    requires At(s, i, Joined(items)) && AllCalm(items) && AllSafe(items)
    requires NotSpaceAt(s, i + |Joined(items)|)
    ensures Passes(s, i, i + |Joined(items)|)
    decreases |items|
  {
    hide Passes, Text, Safe, Calm, At;
    if |items| == 0 {
      PassNothing(s, i);
    } else if |items| == 1 {
      PassItem(s, i, items[0]);
    } else {
      var text, rest := Text(items[0]), Joined(items[1..]);
      var j := i + |text|;
      assert Joined(items) == text + (", " + rest);
      AtSplit(s, i, text, ", " + rest);
      AtSplit(s, j, ", ", rest);
      CharAt(s, j, ", ", 0);
      PassItem(s, i, items[0]);
      PassComma(s, j);
      PassJoined(s, j + 2, items[1..]);
      PassThen(s, i, j, j + 2);
      PassThen(s, i, j + 2, i + |Joined(items)|);
    }
  }

  function Shown(items: seq<Item>): seq<Item> {
    if |items| <= LIST_CAP then items else items[..LIST_CAP]
  }

  function CapTail(items: seq<Item>): string {
    if |items| <= LIST_CAP then "" else ", and " + Decimal(|items| - LIST_CAP) + " more"
  }

  lemma CapTailIsPlain(items: seq<Item>)
    ensures '"' !in CapTail(items) && ';' !in CapTail(items) && NotSpaceAt(CapTail(items), 0)
    ensures CappedList(items) == Joined(Shown(items)) + CapTail(items)
  {
    hide Decimal, Joined;
    if |items| > LIST_CAP {
      var shown, more := Joined(Shown(items)), Decimal(|items| - LIST_CAP);
      CalmTail(more);
      assert shown + ", and " + more + " more" == shown + (", and " + more + " more");
    } else {
      assert Joined(items) + "" == Joined(items);
    }
  }

  lemma CalmTail(more: string)
    requires forall k :: 0 <= k < |more| ==> '0' <= more[k] <= '9'
    ensures var tail := ", and " + more + " more"; '"' !in tail && ';' !in tail && tail[0] == ','
  {
    var tail := ", and " + more + " more";
    forall k | 0 <= k < |tail|
      ensures tail[k] != '"' && tail[k] != ';'
    {
      if 6 <= k < 6 + |more| { assert tail[k] == more[k - 6]; }
    }
  }

  /** Text without quotes or semicolons passes anywhere. */
  lemma PassCalm(s: string, i: nat, t: string)
    requires At(s, i, t) && '"' !in t && ';' !in t
    ensures Passes(s, i, i + |t|)
  {
    hide Passes;
    forall k | i <= k < i + |t|
      ensures s[k] != '"' && !At(s, k, "; ")
    {
      CharAt(s, i, t, k - i);
      if At(s, k, "; ") { CharAt(s, k, "; ", 0); }
    }
    PassPlain(s, i, i + |t|);
  }

  lemma PassCapped(s: string, i: nat, items: seq<Item>)
    requires At(s, i, CappedList(items)) && AllCalm(items) && AllSafe(Shown(items))
    requires NotSpaceAt(s, i + |CappedList(items)|)
    ensures Passes(s, i, i + |CappedList(items)|)
  {
    hide Passes, CappedList, Joined, CapTail, AllSafe, At;
    var shown, tail := Joined(Shown(items)), CapTail(items);
    CapTailIsPlain(items);
    AtSplit(s, i, shown, tail);
    var j := i + |shown|;
    if tail != "" { CharAt(s, j, tail, 0); }
    PassJoined(s, i, Shown(items));
    PassCalm(s, j, tail);
    PassThen(s, i, j, j + |tail|);
  }

  /** One part of the list: its label and its members. */
  lemma PassPart(s: string, i: nat, which: nat, items: seq<Item>)
    requires which < |LABELS| && At(s, i, LABELS[which] + CappedList(items)) && AllCalm(items) && AllSafe(Shown(items))
    requires NotSpaceAt(s, i + |LABELS[which] + CappedList(items)|)
    ensures Passes(s, i, i + |LABELS[which] + CappedList(items)|)
  {
    hide Passes, CappedList, AllCalm, AllSafe, Shown, At;
    var j := i + |LABELS[which]|;
    AtSplit(s, i, LABELS[which], CappedList(items));
    PassLabel(s, i, which);
    PassCapped(s, j, items);
    PassThen(s, i, j, j + |CappedList(items)|);
  }

  lemma PassLabel(s: string, i: nat, which: nat)
    requires which < |LABELS| && At(s, i, LABELS[which])
    ensures Passes(s, i, i + |LABELS[which]|)
  {
    forall k | i <= k < i + |LABELS[which]|
      ensures s[k] != '"' && !At(s, k, "; ")
    {
      CharAt(s, i, LABELS[which], k - i);
      if At(s, k, "; ") { CharAt(s, k, "; ", 0); }
    }
    PassPlain(s, i, i + |LABELS[which]|);
  }

  // ----- A list of safe members comes apart as it was joined -----

  ghost predicate Separable(m: Motion) {
    && AllCalm(m.touched)
    && (m.added == [] && m.removed == [] ==> AllSafe(Shown(m.touched)))
  }

  lemma OnePart(p: string)
    requires Passes(p, 0, |p|)
    ensures PartsFrom(p, 0, 0) == [p]
  {
    assert p[0..] == p;
  }

  lemma TwoParts(p: string, q: string)
    requires var s := p + "; " + q; Passes(s, 0, |p|) && Passes(s, |p| + 2, |s|)
    ensures PartsFrom(p + "; " + q, 0, 0) == [p, q]
  {
    var s := p + "; " + q;
    assert s[|p|] == ';' && s[|p|..|p| + 2] == "; ";
    assert s[0..|p|] == p && s[|p| + 2..] == q;
    assert PartsFrom(s, |p|, 0) == [p] + PartsFrom(s, |p| + 2, |p| + 2);
    assert PartsFrom(s, |s|, |p| + 2) == [q];
  }

  function Part(which: nat, items: seq<Item>): string
    requires which < |LABELS|
  {
    LABELS[which] + CappedList(items)
  }

  lemma PartIsLabelled(which: nat, items: seq<Item>)
    requires which < |LABELS|
    ensures Labelled(Part(which, items))
  {
    assert LABELS[which] <= Part(which, items);
  }

  lemma OneSafePart(which: nat, items: seq<Item>)
    requires which < |LABELS| && AllCalm(items) && AllSafe(Shown(items))
    ensures PartsFrom(Part(which, items), 0, 0) == [Part(which, items)] && AllLabelled([Part(which, items)])
  {
    var p := Part(which, items);
    assert p[0..0 + |p|] == p;
    PassPart(p, 0, which, items);
    OnePart(p);
    PartIsLabelled(which, items);
  }

  lemma PlainIsSafe(names: seq<string>)
    ensures AllCalm(Plain(names)) && AllSafe(Shown(Plain(names)))
  {
  }

  lemma TwoSafeParts(added: seq<string>, removed: seq<string>)
    ensures var p, q := Part(0, Plain(added)), Part(1, Plain(removed));
            PartsFrom(p + "; " + q, 0, 0) == [p, q] && AllLabelled([p, q])
  {
    hide CappedList, Passes;
    var p, q := Part(0, Plain(added)), Part(1, Plain(removed));
    var s := p + "; " + q;
    PlainIsSafe(added);
    PlainIsSafe(removed);
    assert s[0..0 + |p|] == p && s[|p|] == ';' && s[|p| + 2..|p| + 2 + |q|] == q;
    PassPart(s, 0, 0, Plain(added));
    PassPart(s, |p| + 2, 1, Plain(removed));
    TwoParts(p, q);
    PartIsLabelled(0, Plain(added));
    PartIsLabelled(1, Plain(removed));
  }

  lemma SafeListIsWellFormed(m: Motion)
    requires Separable(m) && MotionParts(m) != []
    ensures AllLabelled(PartsFrom(JoinParts(MotionParts(m)), 0, 0))
  {
    hide CappedList, PartsFrom, AllLabelled, Shown;
    PlainIsSafe(m.added);
    PlainIsSafe(m.removed);
    if m.added != [] && m.removed != [] {
      TwoSafeParts(m.added, m.removed);
      var p, q := Part(0, Plain(m.added)), Part(1, Plain(m.removed));
      assert MotionParts(m) == [p, q];
      assert JoinParts([p, q]) == p + "; " + JoinParts([q]);
    } else if m.added != [] {
      OneSafePart(0, Plain(m.added));
      assert MotionParts(m) == [Part(0, Plain(m.added))];
    } else if m.removed != [] {
      OneSafePart(1, Plain(m.removed));
      assert MotionParts(m) == [Part(1, Plain(m.removed))];
    } else {
      OneSafePart(2, m.touched);
      assert MotionParts(m) == [Part(2, m.touched)];
    }
  }

  // ----- A bare touched name ending in ';' breaks its list -----

  lemma {:induction false} UnsafeSplits(s: string, i: nat, items: seq<Item>) returns (j: nat)
    requires At(s, i, Joined(items)) && AllCalm(items) && !AllSafe(items)
    ensures Passes(s, i, j) && At(s, j, "; (")
    decreases |items|
  {
    hide Passes, NeedsQuote, Quote, At;
    var text, rest := Text(items[0]), if |items| == 1 then "" else ", " + Joined(items[1..]);
    assert Joined(items) == text + rest;
    AtSplit(s, i, text, rest);
    if !Safe(items[0]) {
      j := UnsafeSplitsHere(s, i, items[0]);
    } else {
      assert |items| > 1;
      var here := i + |text|;
      AtSplit(s, here, ", ", Joined(items[1..]));
      CommaNext(s, here);
      PassItem(s, i, items[0]);
      PassComma(s, here);
      j := UnsafeSplits(s, here + 2, items[1..]);
      PassThen(s, i, here, here + 2);
      PassThen(s, i, here + 2, j);
    }
  }

  lemma CommaNext(s: string, i: nat)
    requires At(s, i, ", ")
    ensures NotSpaceAt(s, i)
  {
    CharAt(s, i, ", ", 0);
  }

  lemma UnsafeSplitsHere(s: string, i: nat, item: Item) returns (j: nat)
    requires At(s, i, Text(item)) && Calm(item.note) && !Safe(item)
    ensures Passes(s, i, j) && At(s, j, "; (")
  {
    hide Passes;
    var name := item.name;
    j := i + |name| - 1;
    AtSplit(s, i, name, item.note);
    CharAt(s, i, name, |name| - 1);
    CharAt(s, i + |name|, item.note, 0);
    CharAt(s, i + |name|, item.note, 1);
    assert s[j..j + 3] == "; (";
    forall k | i <= k < j
      ensures s[k] != '"' && !At(s, k, "; ")
    {
      CharAt(s, i, name, k - i);
      BareHoldsNoQuote(name, k - i);
      if At(s, k, "; ") { SplitsWithin(s, i, name, k - i); }
    }
    PassPlain(s, i, j);
  }

  /** The first part found from start begins where it was begun. */
  lemma {:induction false} FirstPartBegins(s: string, i: nat, start: nat)
    requires start <= i && start < |s|
    ensures PartsFrom(s, i, start)[0] == "" || PartsFrom(s, i, start)[0][0] == s[start]
    decreases |s| - i
  {
    if i < |s| {
      if s[i] == '"' {
        FirstPartBegins(s, if LiteralEnd(s, i).None? then i + 1 else LiteralEnd(s, i).value, start);
      } else if !At(s, i, "; ") {
        FirstPartBegins(s, i + 1, start);
      }
    }
  }

  lemma LabelsBegin(part: string)
    requires part == "" || part[0] == '('
    ensures !Labelled(part)
  {
    forall k | 0 <= k < |LABELS|
      ensures !(LABELS[k] <= part)
    {
      assert LABELS[k][0] in "ar";
    }
  }

  lemma UnsafeListIsMalformed(m: Motion)
    requires AllCalm(m.touched) && !Separable(m)
    ensures MotionParts(m) != [] && !AllLabelled(PartsFrom(JoinParts(MotionParts(m)), 0, 0))
  {
    hide Joined, Passes, CapTail, CappedList, PartsFrom, AllLabelled, Calm, Safe;
    var s := Part(2, m.touched);
    assert MotionParts(m) == [s];
    CapTailIsPlain(m.touched);
    var shown := Joined(Shown(m.touched));
    assert s == LABELS[2] + shown + CapTail(m.touched);
    assert At(s, 0, LABELS[2]) && At(s, |LABELS[2]|, shown);
    PassLabel(s, 0, 2);
    var j := UnsafeSplits(s, |LABELS[2]|, Shown(m.touched));
    PassThen(s, 0, |LABELS[2]|, j);
    SplitAtParenthesis(s, j);
  }

  lemma SplitAtParenthesis(s: string, j: nat)
    requires Passes(s, 0, j) && At(s, j, "; (")
    ensures !AllLabelled(PartsFrom(s, 0, 0))
  {
    CharAt(s, j, "; (", 0);
    CharAt(s, j, "; (", 2);
    AtSplit(s, j, "; ", "(");
    assert "; " + "(" == "; (";
    var rest := PartsFrom(s, j + 2, j + 2);
    assert PartsFrom(s, 0, 0) == [s[0..j]] + rest;
    FirstPartBegins(s, j + 2, j + 2);
    LabelsBegin(rest[0]);
    assert PartsFrom(s, 0, 0)[1] == rest[0];
  }

  // ----- The whole reason -----

  function Refusal(root: string, m: Motion): string {
    MovedBracketClause(root) + BracketMoveAttribution(m)
  }

  function Listed(clause: string, inner: string): string {
    clause + " [" + inner + "]"
  }

  lemma ListedList(clause: string, inner: string)
    ensures var s := Listed(clause, inner);
            && At(s, |clause|, " [") && At(s, |clause|, " ") && s[..|clause|] == clause
            && s[|clause| + 2..|s| - 1] == inner
            && (ListWellFormed(s[|clause| + 1..]) <==> AllLabelled(PartsFrom(inner, 0, 0)))
  {
    var s := Listed(clause, inner);
    var list := s[|clause| + 1..];
    assert list == "[" + inner + "]";
    assert list[1..|list| - 1] == inner;
    assert s[|clause|..|clause| + 2] == " [" && s[|clause|..|clause| + 1] == " ";
  }

  lemma PrefixHoldsNoBracket(k: nat)
    ensures PREFIX == MOVED + ": "
    ensures k < |PREFIX| ==> PREFIX[k] != '[' && PREFIX[k] != '"'
  {
  }

  /** The clause of a bare root holds neither a quoted root nor a list. */
  lemma BareClause(root: string, inner: string)
    requires !NeedsQuote(root)
    ensures var clause := MovedBracketClause(root); var s := Listed(clause, inner);
            !At(s, |MOVED|, ": \"") && BareSplit(s, 0) == BareSplit(s, |clause|)
  {
    hide ListWellFormed, NeedsQuote, BareSplit;
    var clause := MovedBracketClause(root);
    var s := Listed(clause, inner);
    forall k | 0 <= k < |clause|
      ensures s[k] != '[' && s[k] != '"'
    {
      PrefixHoldsNoBracket(k);
      if k >= |PREFIX| { BareHoldsNoQuote(root, k - |PREFIX|); }
    }
    PrefixHoldsNoBracket(0);
    if At(s, |MOVED|, ": \"") { CharAt(s, |MOVED|, ": \"", 2); }
    forall k | 0 <= k < |clause|
      ensures !At(s, k, " [")
    {
      if At(s, k, " [") { CharAt(s, k, " [", 1); }
    }
    BareSkips(s, 0, |clause|);
  }

  lemma QuotedStands(pre: string, name: string, post: string)
    ensures var s := pre + Quote(name) + post;
            At(s, |pre|, "\"") && LiteralEnd(s, |pre|) == Some(|pre| + |Quote(name)|)
  {
    hide LiteralEnd;
    var s, q := pre + Quote(name) + post, Quote(name);
    assert s[|pre|..|pre| + |q|] == q;
    NameAt(s, |pre|, name);
  }

  /** The clause of a quoted root is consumed as one literal. */
  lemma QuotedClause(root: string, inner: string)
    requires NeedsQuote(root)
    ensures var clause := MovedBracketClause(root); var s := Listed(clause, inner);
            At(s, |MOVED|, ": \"") && LiteralEnd(s, |PREFIX|) == Some(|clause|)
  {
    hide LiteralEnd, Quote, NeedsQuote;
    PrefixHoldsNoBracket(0);
    var s := Listed(MovedBracketClause(root), inner);
    assert s == PREFIX + Quote(root) + (" [" + inner + "]");
    QuotedStands(PREFIX, root, " [" + inner + "]");
    AtSplit(s, |MOVED|, ": ", "\"");
    assert ": " + "\"" == ": \"" && s[|MOVED|..|PREFIX|] == ": ";
  }

  lemma {:induction false} BareSplitIsPast(s: string, i: nat)
    ensures BareSplit(s, i).Some? && i <= |s| ==> |BareSplit(s, i).value.0| >= i
    decreases |s| - i
  {
    if i < |s| { BareSplitIsPast(s, i + 1); }
  }

  lemma ListedIsNotDivided(clause: string, inner: string, attribution: string)
    ensures clause + SEPARATOR + attribution != Listed(clause, inner)
  {
    assert (clause + SEPARATOR + attribution)[|clause| + 1] == SEPARATOR[1];
    assert Listed(clause, inner)[|clause| + 1] == '[';
  }

  /** The other arm never ends a clause where a list begins. */
  lemma DivisionIsElsewhere(clause: string, inner: string)
    ensures DividedFrom(Listed(clause, inner), 0).0 != clause
  {
    var s := Listed(clause, inner);
    DividedReassembles(s, 0);
    ListedIsNotDivided(clause, inner, DividedFrom(s, 0).1);
  }

  /** A list stands alone at its clause's end exactly when every part of it is labelled. */
  lemma ListedSplits(root: string, inner: string)
    ensures var clause := MovedBracketClause(root);
            Split(Listed(clause, inner)) == (clause, inner) <==> AllLabelled(PartsFrom(inner, 0, 0))
  {
    hide ListWellFormed, LiteralEnd, PartsFrom, AllLabelled, DividedFrom, NeedsQuote, MemberListName;
    var clause := MovedBracketClause(root);
    var s := Listed(clause, inner);
    ListedList(clause, inner);
    DivisionIsElsewhere(clause, inner);
    PrefixHoldsNoBracket(0);
    assert s[..|MOVED|] == MOVED;
    if NeedsQuote(root) {
      QuotedClause(root, inner);
    } else {
      BareClause(root, inner);
      BareSplitIsPast(s, |clause| + 1);
    }
  }

  lemma RefusalIsListed(root: string, m: Motion)
    requires MotionParts(m) != []
    ensures Refusal(root, m) == Listed(MovedBracketClause(root), JoinParts(MotionParts(m)))
  {
    hide MotionParts, JoinParts, MovedBracketClause;
    var clause, inner := MovedBracketClause(root), JoinParts(MotionParts(m));
    assert clause + (" [" + inner + "]") == clause + " [" + inner + "]";
  }

  // ----- The reason of a root with no list -----

  /** No separator from the space before the root on is followed by an attribution that ends the clause. */
  ghost predicate Undivided(root: string) {
    forall k :: |PREFIX| - 1 <= k < |MovedBracketClause(root)| ==> !Divides(MovedBracketClause(root), k)
  }

  lemma {:induction false} DividedExactly(s: string, i: nat)
    requires i <= |s|
    ensures DividedFrom(s, i) == (s, "") <==> forall k :: i <= k < |s| ==> !Divides(s, k)
    decreases |s| - i
  {
    hide Divides;
    if i < |s| { DividedExactly(s, i + 1); }
  }

  lemma PrefixHoldsNoSeparator(s: string, k: nat)
    requires At(s, 0, PREFIX) && k + 1 < |PREFIX|
    ensures !At(s, k, SEPARATOR)
  {
    if At(s, k, SEPARATOR) {
      CharAt(s, k, SEPARATOR, 1);
      CharAt(s, 0, PREFIX, k + 1);
    }
  }

  /** A literal that ends a quoted root's clause after " in " would begin inside the name, at a quote no
      space precedes. */
  lemma QuotedRootEndsNoOperation(s: string, root: string, i: nat)
    requires At(s, 0, PREFIX) && At(s, |PREFIX|, Quote(root)) && |s| == |PREFIX| + |Quote(root)|
    ensures !QuotedThen(s, i, IN, "")
  {
    hide LiteralEnd, Quote;
    NameAt(s, |PREFIX|, root);
    QuoteIsLong(root);
    CharAt(s, 0, PREFIX, |PREFIX| - 2);
    assert s[|PREFIX| - 2] == ':';
    if QuotedThen(s, i, IN, "") {
      var b := LiteralEnd(s, i).value + |IN|;
      CharAt(s, b - |IN|, IN, 3);
      CharAt(s, b - |IN|, IN, 2);
      assert s[b] == '"' && s[b - 1] == ' ' && s[b - 2] == 'n';
      if b < |PREFIX| {
        CharAt(s, 0, PREFIX, b);
        PrefixHoldsNoBracket(b);
      } else if b > |PREFIX| {
        InsideName(s, |PREFIX|, root, b);
      }
    }
  }

  lemma QuotedRootIsUndivided(root: string, k: nat)
    ensures !Divides(PREFIX + Quote(root), k)
  {
    var s := PREFIX + Quote(root);
    assert s[0..|PREFIX|] == PREFIX && s[|PREFIX|..|PREFIX| + |Quote(root)|] == Quote(root);
    NameAt(s, |PREFIX|, root);
    hide LiteralEnd, Quote, QuotedThen;
    forall i: nat
      ensures !QuotedThen(s, i, IN, "") && !QuotedThen(s, i, RESOLVES, OUTSIDE)
    {
      QuotedRootEndsNoOperation(s, root, i);
      NoTargetBeforeQuote(s, i);
    }
  }

  /** A clause alone has no list to read. */
  lemma ClauseHoldsNoList(root: string)
    ensures BracketSplit(MovedBracketClause(root)) == None
  {
    hide ListWellFormed, Quote;
    var clause := MovedBracketClause(root);
    PrefixHoldsNoBracket(0);
    if NeedsQuote(root) {
      assert clause == PREFIX + Quote(root) + "";
      QuotedStands(PREFIX, root, "");
      assert clause[|MOVED|..|PREFIX|] == ": ";
      AtSplit(clause, |MOVED|, ": ", "\"");
      assert ": " + "\"" == ": \"";
    } else {
      BareClauseHoldsNoList(root);
    }
  }

  lemma BareClauseHoldsNoList(root: string)
    requires !NeedsQuote(root)
    ensures var clause := MovedBracketClause(root); !At(clause, |MOVED|, ": \"") && BareSplit(clause, 0) == None
  {
    hide ListWellFormed, NeedsQuote, BareSplit;
    var clause := MovedBracketClause(root);
    forall k | 0 <= k < |clause|
      ensures clause[k] != '[' && clause[k] != '"'
    {
      PrefixHoldsNoBracket(k);
      if k >= |PREFIX| { BareHoldsNoQuote(root, k - |PREFIX|); }
    }
    if At(clause, |MOVED|, ": \"") { CharAt(clause, |MOVED|, ": \"", 2); }
    forall k | 0 <= k < |clause|
      ensures !At(clause, k, " [")
    {
      if At(clause, k, " [") { CharAt(clause, k, " [", 1); }
    }
    BareSkips(clause, 0, |clause|);
    BareEnds(clause);
  }

  /** A quoted root's clause always comes back whole; a bare root's does exactly when nothing in it
      divides. */
  lemma BareReasonRoundTrip(root: string)
    ensures Split(MovedBracketClause(root)) == (MovedBracketClause(root), "") <==> NeedsQuote(root) || Undivided(root)
  {
    hide Divides, BracketSplit, DividedFrom, NeedsQuote, Quote, At;
    var clause := MovedBracketClause(root);
    ClauseHoldsNoList(root);
    DividedExactly(clause, 0);
    if NeedsQuote(root) {
      forall k: nat
        ensures !Divides(clause, k)
      {
        QuotedRootIsUndivided(root, k);
      }
    } else {
      forall k | 0 <= k < |PREFIX| - 1
        ensures !Divides(clause, k)
      {
        PrefixDividesNothing(clause, MemberListName(root), k);
      }
    }
  }

  lemma PrefixDividesNothing(clause: string, name: string, k: nat)
    requires clause == PREFIX + name && k + 1 < |PREFIX|
    ensures !Divides(clause, k)
  {
    hide AttributionAt;
    assert clause[0..|PREFIX|] == PREFIX;
    PrefixHoldsNoSeparator(clause, k);
  }

  /** For every root and every motion, none included: the moved-bracket reason splits into its clause and
      its list without brackets exactly when no shown touched member travels bare with a ';' at its end,
      and a reason with no list exactly when its root is quoted or nothing in it divides. */
  lemma MovedReasonRoundTrip(root: string, m: Motion)
    requires AllCalm(m.touched)
    ensures Split(Refusal(root, m)) == (MovedBracketClause(root), JoinParts(MotionParts(m))) <==>
      if MotionParts(m) == [] then NeedsQuote(root) || Undivided(root) else Separable(m)
  {
    hide *;
    if MotionParts(m) == [] {
      RefusalIsBare(root, m);
      BareReasonRoundTrip(root);
    } else {
      RefusalIsListed(root, m);
      ListedSplits(root, JoinParts(MotionParts(m)));
      if Separable(m) { SafeListIsWellFormed(m); } else { UnsafeListIsMalformed(m); }
    }
  }

  lemma RefusalIsBare(root: string, m: Motion)
    requires MotionParts(m) == []
    ensures Refusal(root, m) == MovedBracketClause(root) && JoinParts(MotionParts(m)) == ""
  {
    hide MotionParts, MovedBracketClause;
  }

  /** One touched file, "a;", is enough to lose the list. */
  lemma SemicolonLosesTheList(note: string)
    requires Calm(note) && note != ""
    ensures var m := Motion([], [], [Item("a;", note)]);
            Split(Refusal("root", m)) != (MovedBracketClause("root"), JoinParts(MotionParts(m)))
  {
    var m := Motion([], [], [Item("a;", note)]);
    assert !Safe(m.touched[0]) by {
      assert |"a;"| == 2 && !At("a;", 0, "; ") && !At("a;", 1, "; ");
      assert forall k :: 0 <= k < 2 ==> "a;"[k] !in FRAMING;
    }
    assert Shown(m.touched)[0] == m.touched[0];
    MovedReasonRoundTrip("root", m);
  }

  /** A root that spells an attribution in backquotes, moved with no list to name, loses its name's end. */
  lemma BackquotedRootIsDivided()
    ensures Refusal("x \U{2014} open `b` in `c`", Motion([], [], [])) == MovedBracketClause("x \U{2014} open `b` in `c`")
    ensures Split(MovedBracketClause("x \U{2014} open `b` in `c`")) == ("observation bracket moved: x", "open `b` in `c`")
  {
    hide *;
    var root := "x \U{2014} open `b` in `c`";
    SpelledRootIsBare();
    ClauseHoldsNoList(root);
    SpelledClause(root);
    RefusalIsBare(root, Motion([], [], []));
    SpelledRootDivides(MovedBracketClause(root));
    SpelledRootDividesFirst(MovedBracketClause(root));
    DividedAt(MovedBracketClause(root), 0, |PREFIX| + 1);
    SplitIsDivision(MovedBracketClause(root));
  }

  lemma SplitIsDivision(reason: string)
    requires BracketSplit(reason) == None
    ensures Split(reason) == DividedFrom(reason, 0)
  {
  }

  lemma SpelledClause(root: string)
    requires root == "x \U{2014} open `b` in `c`" && !NeedsQuote(root)
    ensures var s := MovedBracketClause(root);
      && s == PREFIX + "x" + SEPARATOR + "open `b` in `c`" && |PREFIX| + 1 + |SEPARATOR| <= |s| && |PREFIX| + 1 < |s|
      && s[..|PREFIX| + 1] == "observation bracket moved: x" && s[|PREFIX| + 1 + |SEPARATOR|..] == "open `b` in `c`"
    ensures MotionParts(Motion([], [], [])) == []
  {
    hide NeedsQuote;
    assert root == "x" + SEPARATOR + "open `b` in `c`";
    var s := MovedBracketClause(root);
    var front := PREFIX + "x";
    assert s == front + (SEPARATOR + "open `b` in `c`");
    assert front == "observation bracket moved: x";
  }

  lemma SpelledRootDividesFirst(s: string)
    requires s == PREFIX + "x" + SEPARATOR + "open `b` in `c`"
    ensures forall k :: 0 <= k < |PREFIX| + 1 ==> !Divides(s, k)
  {
    hide Divides;
    forall k | 0 <= k < |PREFIX| + 1
      ensures !Divides(s, k)
    {
      if k + 1 < |PREFIX| {
        assert s[0..|PREFIX|] == PREFIX;
        PrefixHoldsNoSeparator(s, k);
        NoDivisionHere(s, k);
      } else {
        assert s[|PREFIX|] == 'x' && s[|PREFIX| + 1] == ' ';
        NoSeparatorHere(s, k);
      }
    }
  }

  lemma NoDivisionHere(s: string, k: nat)
    requires !At(s, k, SEPARATOR)
    ensures !Divides(s, k)
  {
  }

  lemma NoSeparatorHere(s: string, k: nat)
    requires k + 1 < |s| && s[k + 1] != '\U{2014}'
    ensures !Divides(s, k)
  {
    hide AttributionAt;
    if At(s, k, SEPARATOR) { CharAt(s, k, SEPARATOR, 1); }
  }

  lemma SpelledRootIsBare()
    ensures !NeedsQuote("x \U{2014} open `b` in `c`")
  {
    var root := "x \U{2014} open `b` in `c`";
    assert forall k :: 0 <= k < |root| ==> root[k] !in FRAMING && root[k] != ';';
    forall k | 0 <= k < |root|
      ensures !At(root, k, "; ")
    {
      if At(root, k, "; ") { CharAt(root, k, "; ", 0); }
    }
  }

  lemma SpelledRootDivides(s: string)
    requires s == PREFIX + "x" + SEPARATOR + "open `b` in `c`"
    ensures Divides(s, |PREFIX| + 1)
  {
    var at := |PREFIX| + 1 + |SEPARATOR|;
    var q := at + 5;
    assert s[|PREFIX| + 1..at] == SEPARATOR && s[at..q] == "open " == OPS[0] + " ";
    assert s[q..] == "`b` in `c`";
    assert s[q] == '`' && s[q + 1] == 'b' && s[q + 2] == '`' && s[q + 3..q + 7] == IN && s[q + 7] == '`' && s[q + 8] == 'c' && s[q + 9] == '`' && |s| == q + 10;
    assert LiteralEnd(s, q) == Some(q + 3) by { assert CloseBy(s, q + 2, '`') == Some(q + 3); }
    assert LiteralEnd(s, q + 7) == Some(q + 10) by { assert CloseBy(s, q + 9, '`') == Some(q + 10); }
    assert s[q + 10..] == "";
    assert QuotedThen(s, q, IN, "");
    assert OperationAt(s, at, OPS[0]);
  }
}
