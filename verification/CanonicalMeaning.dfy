/** What the canonical form of a file is, in terms of its items (internal/closure/canonical.go,
    canonicalDigest). */
module CanonicalMeaning {
  import opened Paths
  import opened Canonical
  import opened Retention

  // ----- Attachment -----

  /** items[k..j] are comments each starting by the line after the one before ends; no comment after them
      does, and the next token starts on the line after the last ends. */
  ghost predicate LeadsFrom(items: seq<Item>, k: nat, j: nat, n: nat) {
    && k <= j < n < |items|
    && (forall l :: k <= l < n ==> items[l].kind == "COMMENT") && items[n].kind != "COMMENT"
    && (forall l :: k <= l < j ==> items[l + 1].line <= items[l].end + 1)
    && (j + 1 < n ==> items[j + 1].line > items[j].end + 1)
    && items[n].line == items[j].end + 1
  }

  lemma LeadsExactly(items: seq<Item>, k: nat)
    requires k < |items|
    ensures Leads(items, k) <==> exists j: nat, n: nat :: LeadsFrom(items, k, j, n)
  {
    if Leads(items, k) {
      var j := GroupEnd(items, k);
      var n := NextIndex(items, j);
      forall l | k <= l < n
        ensures items[l].kind == "COMMENT"
      {
        if l < j { assert Joined(items, l); } else if l == j && j > k { assert Joined(items, j - 1); }
      }
      forall l | k <= l < j
        ensures items[l + 1].line <= items[l].end + 1
      {
        assert Joined(items, l);
      }
      assert !Joined(items, j);
      assert LeadsFrom(items, k, j, n);
    }
    if j: nat, n: nat :| LeadsFrom(items, k, j, n) {
      forall l | k <= l < j
        ensures Joined(items, l)
      {
      }
      SameGroupEnd(items, k, j);
      NextIs(items, j, n);
    }
  }

  lemma {:induction false} NextIs(items: seq<Item>, i: nat, n: nat)
    requires i < n < |items| && items[n].kind != "COMMENT" && forall l :: i < l < n ==> items[l].kind == "COMMENT"
    ensures NextIndex(items, i) == n
    decreases n - i
  {
    if i + 1 < n { NextIs(items, i + 1, n); }
  }

  // ----- Import groups and cgo preambles -----

  /** items[k] is an import, items[l] its opening parenthesis, and no closing one stands in between up to i. */
  ghost predicate Opens(items: seq<Item>, k: nat, l: nat, i: nat) {
    && k < l < i <= |items| && items[k].kind == "import" && items[l].kind == "("
    && (forall m :: k < m < l ==> items[m].kind == "COMMENT")
    && (forall m :: l < m < i ==> items[m].kind != ")")
  }

  /** i stands inside an import group. */
  ghost predicate Inside(items: seq<Item>, i: nat) {
    exists k: nat, l: nat :: Opens(items, k, l, i)
  }

  /** The first token from i on is an opening parenthesis. */
  ghost predicate ParenAhead(items: seq<Item>, i: nat, l: nat) {
    i <= l < |items| && items[l].kind == "(" && forall m :: i <= m < l ==> items[m].kind == "COMMENT"
  }

  /** Only comments stand between import item k and i. */
  ghost predicate Follows(items: seq<Item>, k: nat, i: nat) {
    k < i <= |items| && items[k].kind == "import" && forall m :: k < m < i ==> items[m].kind == "COMMENT"
  }

  /** i stands between an import and its opening parenthesis. */
  ghost predicate Awaiting(items: seq<Item>, i: nat) {
    (exists k: nat :: Follows(items, k, i)) && exists l: nat :: ParenAhead(items, i, l)
  }

  /** What the two flags hold at i. */
  lemma {:induction false} GroupExactly(items: seq<Item>, i: nat)
    requires i <= |items|
    ensures GroupAt(items, i).inside <==> Inside(items, i)
    ensures GroupAt(items, i).pending <==> Awaiting(items, i)
  {
    if i > 0 {
      hide Inside, Awaiting;
      GroupExactly(items, i - 1);
      InsideStep(items, i - 1, i);
      AwaitingStep(items, i - 1, i);
    } else {
      NothingBefore(items);
    }
  }

  lemma NothingBefore(items: seq<Item>)
    ensures !Inside(items, 0) && !Awaiting(items, 0)
  {
  }

  lemma InsideStep(items: seq<Item>, i: nat, j: nat)
    requires j == i + 1 <= |items|
    ensures Inside(items, j) <==> (Inside(items, i) && items[i].kind != ")") || (Awaiting(items, i) && items[i].kind == "(")
  {
    if Inside(items, j) {
      var k: nat, l: nat :| Opens(items, k, l, j);
      if l == i {
        assert Follows(items, k, i) && ParenAhead(items, i, i);
      } else {
        assert Opens(items, k, l, i);
      }
    }
    if Inside(items, i) && items[i].kind != ")" {
      var k: nat, l: nat :| Opens(items, k, l, i);
      assert Opens(items, k, l, j);
    }
    if Awaiting(items, i) && items[i].kind == "(" {
      var k: nat :| Follows(items, k, i);
      assert Opens(items, k, i, j);
    }
  }

  lemma AwaitingStep(items: seq<Item>, i: nat, j: nat)
    requires j == i + 1 <= |items|
    ensures Awaiting(items, j) <==>
      if items[i].kind == "import" then NextKind(items, i) == "(" else items[i].kind == "COMMENT" && Awaiting(items, i)
  {
    if items[i].kind == "import" {
      assert Follows(items, i, j);
      NextParen(items, i, j);
    } else if items[i].kind == "COMMENT" {
      forall k: nat
        ensures Follows(items, k, j) <==> Follows(items, k, i)
      {
      }
      forall l: nat
        ensures ParenAhead(items, j, l) <==> ParenAhead(items, i, l)
      {
      }
    } else {
      forall k: nat
        ensures !Follows(items, k, j)
      {
      }
    }
  }

  lemma NextParen(items: seq<Item>, i: nat, j: nat)
    requires j == i + 1 <= |items| && items[i].kind == "import"
    ensures NextKind(items, i) == "(" <==> exists l: nat :: ParenAhead(items, j, l)
  {
    var n := NextIndex(items, i);
    if l: nat :| ParenAhead(items, j, l) { NextIs(items, i, l); }
    if n < |items| {
      if items[n].kind == "(" { assert ParenAhead(items, j, n); }
    } else {
      assert items[|items| - 1].kind == "COMMENT" || |items| - 1 == i;
    }
  }

  /** The comment at i is C code: only comments stand between it and import "C", or, inside an import
      group, between it and "C". */
  ghost predicate Preambles(items: seq<Item>, i: nat, n: nat) {
    && i < n < |items| && (forall l :: i < l < n ==> items[l].kind == "COMMENT")
    && ((items[n].kind == "import" && n + 1 < |items| && items[n + 1].kind == "STRING" && items[n + 1].lit == "\"C\"")
        || (items[n].kind == "STRING" && items[n].lit == "\"C\"" && Inside(items, i)))
  }

  /** What of a file is in its form: every token that is no comment, and of the comments exactly those that
      export, constrain the build, mark a generated file, direct a tool or are C code. */
  lemma FoldsExactly(items: seq<Item>, i: nat)
    requires i < |items|
    ensures Folds(items, i) <==>
      var text := items[i].lit;
      || items[i].kind != "COMMENT" || Exports(text) || Constrains(text) || Generated(text) || Directs(text)
      || exists n: nat :: Preambles(items, i, n)
  {
    hide Retained, GroupAt, Inside, Exports, Constrains, Generated, Directs;
    RetainedExactly(items[i].lit);
    GroupExactly(items, i);
    var n := NextIndex(items, i);
    if m: nat :| Preambles(items, i, m) { NextIs(items, i, m); }
    if CgoPreamble(items, i, GroupAt(items, i).inside) { assert Preambles(items, i, n); }
  }

  // ----- The stream as a whole -----

  function Spelled(items: seq<Item>, i: nat): Entry
    requires i < |items|
  {
    if items[i].kind == "COMMENT" then Note(Leads(items, i), items[i].lit) else Token(items[i].kind, items[i].lit)
  }

  /** at lists, in order, the indices from i on that are in the form. */
  ghost predicate Lists(items: seq<Item>, i: nat, at: seq<nat>) {
    && (forall k :: 0 <= k < |at| ==> i <= at[k] < |items| && Folds(items, at[k]))
    && (forall k, l :: 0 <= k < l < |at| ==> at[k] < at[l])
    && (forall j: nat :: i <= j < |items| && Folds(items, j) ==> j in at)
  }

  lemma ListsMore(items: seq<Item>, i: nat, rest: seq<nat>)
    requires i < |items| && Lists(items, i + 1, rest)
    ensures Lists(items, i, if Folds(items, i) then [i] + rest else rest)
  {
    hide Folds;
    assert forall j :: j in [i] + rest <==> j == i || j in rest;
  }

  /** The entries are the items in the form, in their order: tokens by kind and literal, comments by
      attachment and text. */
  lemma {:induction false} EntriesExactly(items: seq<Item>, i: nat) returns (at: seq<nat>)
    requires i <= |items|
    ensures Lists(items, i, at) && |at| == |Entries(items, i)|
    ensures forall k :: 0 <= k < |at| ==> Entries(items, i)[k] == Spelled(items, at[k])
    decreases |items| - i
  {
    hide *;
    if i == |items| {
      at := [];
      NothingListed(items);
    } else {
      var rest := EntriesExactly(items, i + 1);
      ListsMore(items, i, rest);
      EntriesUnroll(items, i);
      at := if Folds(items, i) then [i] + rest else rest;
    }
  }

  lemma NothingListed(items: seq<Item>)
    ensures Lists(items, |items|, []) && Entries(items, |items|) == []
  {
  }

  lemma EntriesUnroll(items: seq<Item>, i: nat)
    requires i < |items|
    ensures Entries(items, i) == if Folds(items, i) then [Spelled(items, i)] + Entries(items, i + 1) else Entries(items, i + 1)
  {
    hide Folds, Leads;
  }

  /** A retained comment is always in the form, with its attachment. */
  lemma RetainedIsInTheForm(items: seq<Item>, i: nat)
    requires i < |items| && items[i].kind == "COMMENT"
    requires var text := items[i].lit; Exports(text) || Constrains(text) || Generated(text) || Directs(text)
    ensures Note(Leads(items, i), items[i].lit) in Entries(items, 0)
  {
    hide Leads, Exports, Constrains, Generated, Directs;
    FoldsExactly(items, i);
    var at := EntriesExactly(items, 0);
    var k :| 0 <= k < |at| && at[k] == i;
    assert Entries(items, 0)[k] == Note(Leads(items, i), items[i].lit);
  }

  /** One case in full: an embed directive. */
  lemma EmbedIsInTheForm(items: seq<Item>, i: nat, rest: string)
    requires i < |items| && items[i].kind == "COMMENT" && items[i].lit == "//" + "go" + ":" + rest
    ensures Note(Leads(items, i), items[i].lit) in Entries(items, 0)
  {
    assert "go"[0] == 'g' && "go"[1] == 'o';
    assert NameText("go");
    assert Directs(items[i].lit);
    RetainedIsInTheForm(items, i);
  }
}
