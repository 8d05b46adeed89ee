/** Deleting a whole comment group that no reader retains (internal/closure/canonical.go): when the hashed
    stream stays, and the one place where it does not. */
module CanonicalDeletion {
  import opened Paths
  import opened Strings
  import opened Canonical

  /** Positions go forward. */
  ghost predicate InOrder(items: seq<Item>) {
    && (forall i :: 0 <= i < |items| ==> items[i].line <= items[i].end)
    && (forall i, j :: 0 <= i < j < |items| ==> items[i].end <= items[j].line)
  }

  /** items[a..b] is one whole comment group. */
  ghost predicate WholeGroup(items: seq<Item>, a: nat, b: nat) {
    && a < b <= |items|
    && (forall k :: a <= k < b ==> items[k].Comment())
    && (forall k :: a <= k < b - 1 ==> Joined(items, k))
    && (a > 0 ==> !Joined(items, a - 1)) && !Joined(items, b - 1)
  }

  ghost predicate Unretained(items: seq<Item>, a: nat, b: nat)
    requires b <= |items|
  {
    forall k :: a <= k < b ==> !Folds(items, k)
  }

  function Delete(items: seq<Item>, a: nat, b: nat): seq<Item>
    requires a <= b <= |items|
  {
    items[..a] + items[b..]
  }

  /** Where an index after the deletion was before it. */
  function Was(a: nat, b: nat, k: nat): nat
    requires a <= b
  {
    if k < a then k else k + (b - a)
  }

  /** The group stands alone between import and "C": without it, what precedes the import becomes a cgo
      preamble. */
  predicate Bares(items: seq<Item>, a: nat, b: nat) {
    && 0 < a < b < |items| && items[a - 1].kind == IMPORT
    && items[b].kind == STRING && items[b].lit == C_PATH
  }

  /** A comment before that import which nothing retains. */
  predicate Exposed(items: seq<Item>, a: nat, c: nat) {
    c < a <= |items| && items[c].Comment() && NextIndex(items, c) == a - 1 && !Retained(items[c].lit)
  }

  lemma {:induction false} NextIndexIs(items: seq<Item>, i: nat, k: nat)
    requires i < k <= |items| && (k < |items| ==> !items[k].Comment()) && forall l :: i < l < k ==> items[l].Comment()
    ensures NextIndex(items, i) == k
    decreases k - i
  {
    if i + 1 < k { NextIndexIs(items, i + 1, k); }
  }

  lemma WasItem(items: seq<Item>, a: nat, b: nat, k: nat)
    requires a <= b <= |items| && k < |items| - (b - a)
    ensures Was(a, b, k) < |items| && |Delete(items, a, b)| == |items| - (b - a) && Delete(items, a, b)[k] == items[Was(a, b, k)]
  {
  }

  /** The next token is the same token. */
  lemma NextIndexStands(items: seq<Item>, a: nat, b: nat, k: nat)
    requires WholeGroup(items, a, b) && k < |items| - (b - a)
    ensures |Delete(items, a, b)| == |items| - (b - a)
    ensures Was(a, b, k) < |items|
    ensures var n := NextIndex(items, Was(a, b, k));
      if n < a then NextIndex(Delete(items, a, b), k) == n
      else n >= b && NextIndex(Delete(items, a, b), k) == n - (b - a)
  {
    var items' := Delete(items, a, b);
    var n := NextIndex(items, Was(a, b, k));
    var n' := if n < a then n else n - (b - a);
    forall l | k < l < n'
      ensures items'[l].Comment()
    {
      WasItem(items, a, b, l);
    }
    if n' < |items'| { WasItem(items, a, b, n'); }
    NextIndexIs(items', k, n');
  }

  lemma KindStands(items: seq<Item>, a: nat, b: nat, k: nat)
    requires WholeGroup(items, a, b) && k < |items| - (b - a)
    ensures |Delete(items, a, b)| == |items| - (b - a) && Was(a, b, k) < |items|
    ensures NextKind(Delete(items, a, b), k) == NextKind(items, Was(a, b, k))
            || (NextKind(Delete(items, a, b), k) != LPAREN && NextKind(items, Was(a, b, k)) != LPAREN)
            || !(NextIndex(items, Was(a, b, k)) < |items|)
  {
    var items', n := Delete(items, a, b), NextIndex(items, Was(a, b, k));
    NextIndexStands(items, a, b, k);
    if n < |items| { WasItem(items, a, b, NextIndex(items', k)); }
  }

  /** With no token after an import, the last item stands in for it, and is no parenthesis. */
  lemma LastIsNoParenthesis(items: seq<Item>, i: nat)
    requires i < |items| && items[i].kind == IMPORT && NextIndex(items, i) == |items|
    ensures NextKind(items, i) != LPAREN
  {
    if i < |items| - 1 { assert items[|items| - 1].Comment(); }
  }

  lemma AdvanceStands(items: seq<Item>, a: nat, b: nat, k: nat, g: Group)
    requires WholeGroup(items, a, b) && k < |items| - (b - a)
    ensures |Delete(items, a, b)| == |items| - (b - a) && Was(a, b, k) < |items|
    ensures Advance(g, Delete(items, a, b), k) == Advance(g, items, Was(a, b, k))
  {
    var items' := Delete(items, a, b);
    WasItem(items, a, b, k);
    KindStands(items, a, b, k);
    NextIndexStands(items, a, b, k);
    if items'[k].kind == IMPORT && NextIndex(items, Was(a, b, k)) == |items| {
      LastIsNoParenthesis(items, Was(a, b, k));
      LastIsNoParenthesis(items', k);
    }
  }

  lemma {:induction false} CommentsPassGroup(items: seq<Item>, a: nat, b: nat)
    requires a <= b <= |items| && forall k :: a <= k < b ==> items[k].Comment()
    ensures GroupAt(items, b) == GroupAt(items, a)
    decreases b - a
  {
    if a < b { CommentsPassGroup(items, a, b - 1); }
  }

  lemma {:induction false} GroupStands(items: seq<Item>, a: nat, b: nat, k: nat)
    requires WholeGroup(items, a, b) && k <= |items| - (b - a)
    ensures |Delete(items, a, b)| == |items| - (b - a) && Was(a, b, k) <= |items|
    ensures GroupAt(Delete(items, a, b), k) == GroupAt(items, Was(a, b, k))
  {
    if k > 0 {
      GroupStands(items, a, b, k - 1);
      AdvanceStands(items, a, b, k - 1, GroupAt(items, Was(a, b, k - 1)));
    }
    if k == a { CommentsPassGroup(items, a, b); }
  }

  // ----- Attachment -----

  /** No group on either side of the deleted one grows by its going. */
  lemma JoinedStands(items: seq<Item>, a: nat, b: nat, k: nat)
    requires WholeGroup(items, a, b) && InOrder(items) && k < |items| - (b - a)
    ensures |Delete(items, a, b)| == |items| - (b - a) && Was(a, b, k) < |items|
    ensures Joined(Delete(items, a, b), k) == Joined(items, Was(a, b, k))
  {
    WasItem(items, a, b, k);
    if k + 1 < |items| - (b - a) { WasItem(items, a, b, k + 1); }
    if k + 1 == a && b < |items| && items[a - 1].Comment() {
      assert !Joined(items, a - 1) && items[a].Comment();
      assert items[a].end <= items[b].line;
    }
  }

  lemma {:induction false} GroupEndStands(items: seq<Item>, a: nat, b: nat, k: nat)
    requires WholeGroup(items, a, b) && InOrder(items) && k < |items| - (b - a)
    ensures |Delete(items, a, b)| == |items| - (b - a) && Was(a, b, k) < |items|
    ensures Was(a, b, GroupEnd(Delete(items, a, b), k)) == GroupEnd(items, Was(a, b, k))
    ensures k < a ==> GroupEnd(Delete(items, a, b), k) < a
    decreases |items| - k
  {
    var items' := Delete(items, a, b);
    JoinedStands(items, a, b, k);
    if Joined(items', k) {
      GroupEndStands(items, a, b, k + 1);
    }
  }

  lemma LeadsStands(items: seq<Item>, a: nat, b: nat, k: nat)
    requires WholeGroup(items, a, b) && InOrder(items) && k < |items| - (b - a)
    ensures |Delete(items, a, b)| == |items| - (b - a) && Was(a, b, k) < |items|
    ensures Leads(Delete(items, a, b), k) == Leads(items, Was(a, b, k))
  {
    hide GroupEnd, NextIndex, Joined, InOrder, Delete;
    var items' := Delete(items, a, b);
    WasItem(items, a, b, k);
    if items'[k].Comment() {
      GroupEndStands(items, a, b, k);
      var j := GroupEnd(items', k);
      WasItem(items, a, b, j);
      NextIndexStands(items, a, b, j);
      if NextIndex(items', j) < |items'| { WasItem(items, a, b, NextIndex(items', j)); }
    }
  }

  // ----- What folds -----

  /** A comment folds after the deletion as it did before, unless it is one of those the deletion exposes. */
  lemma FoldsStands(items: seq<Item>, a: nat, b: nat, k: nat)
    requires WholeGroup(items, a, b) && k < |items| - (b - a)
    ensures |Delete(items, a, b)| == |items| - (b - a) && Was(a, b, k) < |items|
    ensures Folds(Delete(items, a, b), k) <==> Folds(items, Was(a, b, k)) || (Bares(items, a, b) && Exposed(items, a, k))
    ensures Bares(items, a, b) && Exposed(items, a, k) ==> !Folds(items, Was(a, b, k))
  {
    hide Retained, Advance, GroupAt;
    var items' := Delete(items, a, b);
    WasItem(items, a, b, k);
    if items'[k].Comment() {
      GroupStands(items, a, b, k);
      NextIndexStands(items, a, b, k);
      var n, n' := NextIndex(items, Was(a, b, k)), NextIndex(items', k);
      if n' < |items'| {
        WasItem(items, a, b, n');
        if n' + 1 < |items'| { WasItem(items, a, b, n' + 1); }
      }
      if n == a - 1 { assert items[a].Comment(); }
    }
  }

  /** A deleted comment was the only thing at its index. */
  lemma EntryStands(items: seq<Item>, a: nat, b: nat, k: nat)
    requires WholeGroup(items, a, b) && InOrder(items) && k < |items| - (b - a)
    ensures |Delete(items, a, b)| == |items| - (b - a) && Was(a, b, k) < |items|
    ensures !(Bares(items, a, b) && Exposed(items, a, k)) ==> EntryAt(Delete(items, a, b), k) == EntryAt(items, Was(a, b, k))
    ensures Bares(items, a, b) && Exposed(items, a, k) ==> EntryAt(items, Was(a, b, k)) == [] && |EntryAt(Delete(items, a, b), k)| == 1
  {
    hide Retained, Leads;
    WasItem(items, a, b, k);
    LeadsStands(items, a, b, k);
    FoldsStands(items, a, b, k);
  }

  lemma {:induction false} UnretainedIsSilent(items: seq<Item>, a: nat, b: nat, k: nat)
    requires a <= k <= b <= |items| && Unretained(items, a, b)
    ensures Entries(items, k) == Entries(items, b)
    decreases b - k
  {
    if k < b { UnretainedIsSilent(items, a, b, k + 1); }
  }

  /** The form with nothing exposed at or after k is the same from there on. */
  lemma {:induction false} EntriesStand(items: seq<Item>, a: nat, b: nat, k: nat)
    requires WholeGroup(items, a, b) && InOrder(items) && Unretained(items, a, b) && k <= |items| - (b - a)
    requires forall c: nat :: k <= c ==> !(Bares(items, a, b) && Exposed(items, a, c))
    ensures |Delete(items, a, b)| == |items| - (b - a) && Was(a, b, k) <= |items|
    ensures Entries(Delete(items, a, b), k) == Entries(items, Was(a, b, k))
    decreases |items| - k
  {
    hide EntryAt;
    if k < |items| - (b - a) {
      EntryStands(items, a, b, k);
      EntriesStand(items, a, b, k + 1);
      if k + 1 == a { UnretainedIsSilent(items, a, b, a); }
    }
  }

  lemma EntryGrows(items: seq<Item>, a: nat, b: nat, k: nat)
    requires WholeGroup(items, a, b) && InOrder(items) && k < |items| - (b - a) && Bares(items, a, b)
    ensures |Delete(items, a, b)| == |items| - (b - a) && Was(a, b, k) < |items|
    ensures |EntryAt(Delete(items, a, b), k)| == |EntryAt(items, Was(a, b, k))| + if Exposed(items, a, k) then 1 else 0
  {
    hide EntryAt, Exposed;
    EntryStands(items, a, b, k);
  }

  /** Otherwise the stream gains the exposed comments. */
  lemma {:induction false} EntriesGrow(items: seq<Item>, items': seq<Item>, a: nat, b: nat, k: nat, w: nat, c: nat)
    requires WholeGroup(items, a, b) && InOrder(items) && Unretained(items, a, b) && items' == Delete(items, a, b)
    requires k <= |items'| && w == Was(a, b, k) <= |items|
    requires Bares(items, a, b) && Exposed(items, a, c)
    ensures |Entries(items', k)| >= |Entries(items, w)| + if k <= c then 1 else 0
    decreases |items'| - k
  {
    hide *;
    Places(items, items', a, b, k, w, c);
    if k < |items'| {
      EntryGrows(items, a, b, k);
      EntriesGrow(items, items', a, b, k + 1, Was(a, b, k + 1), c);
      EntriesUnroll(items', k);
      EntriesUnroll(items, w);
      if k + 1 == a { UnretainedIsSilent(items, a, b, a); }
    } else {
      NoEntries(items);
    }
  }

  lemma Places(items: seq<Item>, items': seq<Item>, a: nat, b: nat, k: nat, w: nat, c: nat)
    requires WholeGroup(items, a, b) && items' == Delete(items, a, b) && k <= |items'| && w == Was(a, b, k) && Exposed(items, a, c)
    ensures c < a < b <= |items| && |items'| == |items| - (b - a)
    ensures k < |items'| ==> w < |items| && Was(a, b, k + 1) <= |items| && Was(a, b, k + 1) == if k + 1 == a then b else w + 1
    ensures k == |items'| ==> w == |items| && k > c
    ensures k + 1 == a ==> w + 1 == a
  {
  }

  lemma EntriesUnroll(items: seq<Item>, k: nat)
    requires k < |items|
    ensures |Entries(items, k)| == |EntryAt(items, k)| + |Entries(items, k + 1)|
  {
  }

  lemma NoEntries(items: seq<Item>)
    ensures Entries(items, |items|) == []
  {
  }

  /** Deleting a whole group with no retained comment leaves the hashed stream as it was, except exactly
      when the group stands alone between import and "C" and an unretained comment precedes that import. */
  lemma DeletionExactly(items: seq<Item>, a: nat, b: nat)
    requires WholeGroup(items, a, b) && InOrder(items) && Unretained(items, a, b)
    ensures Entries(Delete(items, a, b), 0) == Entries(items, 0) <==>
      !(Bares(items, a, b) && exists c: nat :: Exposed(items, a, c))
  {
    hide Entries, Exposed;
    if Bares(items, a, b) && exists c: nat :: Exposed(items, a, c) {
      var c: nat :| Exposed(items, a, c);
      EntriesGrow(items, Delete(items, a, b), a, b, 0, 0, c);
    } else {
      EntriesStand(items, a, b, 0);
      if a == 0 { UnretainedIsSilent(items, a, b, 0); }
    }
  }

  /** The same of the text itself, for what a scanner gives. */
  lemma StreamStandsExactly(items: seq<Item>, a: nat, b: nat)
    requires WholeGroup(items, a, b) && InOrder(items) && Unretained(items, a, b)
    requires AllClean(Entries(items, 0)) && AllClean(Entries(Delete(items, a, b), 0))
    ensures Stream(Entries(Delete(items, a, b), 0)) == Stream(Entries(items, 0)) <==>
      !(Bares(items, a, b) && exists c: nat :: Exposed(items, a, c))
  {
    hide Entries, Exposed, Bares, Stream, Delete;
    DeletionExactly(items, a, b);
    StreamIsInjective(Entries(Delete(items, a, b), 0), Entries(items, 0));
  }

  // ----- The exception, concretely -----

  /** A comment, import, a comment on the same line, and "C". */
  const Preamble := [Item(COMMENT, "// x", 1, 1), Item(IMPORT, "import", 2, 2), Item(COMMENT, "/*y*/", 2, 2), Item(STRING, C_PATH, 2, 2)]

  /** A comment without a colon, a plus sign or a marker is not retained. */
  lemma PlainCommentsAreDropped()
    ensures !Retained("// x") && !Retained("/*y*/")
  {
    var x, y := "// x", "/*y*/";
    assert x[2..] == " x" && y[2..] == "y*/";
    assert ':' !in " x";
    TrimKeepsHead(x);
    TrimKeepsHead(y);
    TrimKeepsHead("y*/");
    assert ':' !in TrimSpace("y*/");
    assert TrimWhite(" x") == "x" && TrimWhite(y) == y;
    assert Upto("x")[0] == 'x' && Upto(y)[0] == '/';
    assert x[1] == '/' && y[1] == '*';
  }

  lemma PreambleStands()
    ensures WholeGroup(Preamble, 2, 3) && InOrder(Preamble) && Bares(Preamble, 2, 3) && NextIndex(Preamble, 0) == 1
    ensures NextIndex(Preamble, 2) == 3 && GroupAt(Preamble, 2) == Group(false, false)
  {
    assert NextKind(Preamble, 1) == STRING;
    assert GroupAt(Preamble, 1) == Group(false, false);
  }

  /** Deleting the comment between import and "C" turns the one before the import into a cgo preamble. */
  lemma DeletionExposesAPreamble()
    ensures WholeGroup(Preamble, 2, 3) && InOrder(Preamble) && Unretained(Preamble, 2, 3)
    ensures Bares(Preamble, 2, 3) && Exposed(Preamble, 2, 0)
    ensures Entries(Delete(Preamble, 2, 3), 0) != Entries(Preamble, 0)
  {
    hide Retained;
    PreambleStands();
    PlainCommentsAreDropped();
    assert !CgoPreamble(Preamble, 2, false);
    DeletionExactly(Preamble, 2, 3);
  }
}
