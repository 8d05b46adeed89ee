/** The canonical form of a Go member: the token stream that is hashed, and the comments that ride it
    (internal/closure/canonical.go). */
module Canonical {
  import opened Paths
  import opened Strings

  const COMMENT := "COMMENT"
  const IMPORT := "import"
  const LPAREN := "("
  const RPAREN := ")"
  const STRING := "STRING"
  const C_PATH := "\"C\""

  /** One scanned token: its kind as printed, its literal, and the lines it starts and ends on. */
  datatype Item = Item(kind: string, lit: string, line: nat, end: nat) {
    predicate Comment() { kind == COMMENT }
  }

  // ----- Retained comments -----

  /** Unicode white space, which trimming and fields go by. */
  predicate White(c: char) {
    var n := c as int;
    9 <= n <= 13 || n in {0x20, 0x85, 0xA0, 0x1680, 0x2028, 0x2029, 0x202F, 0x205F, 0x3000} || 0x2000 <= n <= 0x200A
  }

  function TrimWhite(s: string): (trimmed: string)
    ensures |trimmed| <= |s| && (trimmed != "" ==> !White(trimmed[0]))
  {
    if s != "" && White(s[0]) then TrimWhite(s[1..]) else s
  }

  function TrimSpace(s: string): string
    decreases |s|
  {
    var t := TrimWhite(s);
    if t != "" && White(t[|t| - 1]) then TrimSpace(t[..|t| - 1]) else t
  }

  function FirstField(s: string): string {
    Upto(TrimWhite(s))
  }

  function Upto(s: string): string {
    if s == "" || White(s[0]) then "" else [s[0]] + Upto(s[1..])
  }

  predicate Suffix(s: string, t: string) {
    |t| <= |s| && s[|s| - |t|..] == t
  }

  predicate GeneratedMarker(text: string) {
    var t := TrimSpace(text);
    "// Code generated " <= t && Suffix(t, " DO NOT EDIT.") && |t| >= |"// Code generated  DO NOT EDIT."| && '\r' !in t && '\n' !in t
  }

  predicate DirectiveName(s: string) {
    forall i :: 0 <= i < |s| ==> 'a' <= s[i] <= 'z' || '0' <= s[i] <= '9' || s[i] == '_' || s[i] == '-'
  }

  predicate DirectiveShaped(rest: string) {
    var colon := IndexByte(rest, ':');
    colon.Some? && colon.value > 0 && DirectiveName(rest[..colon.value])
  }

  function CutLine(text: string): string {
    if "//" <= text then text[2..] else text
  }

  predicate Retained(text: string) {
    || "//export " <= text || "//export\t" <= text
    || FirstField(CutLine(text)) == "+build"
    || GeneratedMarker(text)
    || (if "//" <= text then DirectiveShaped(text[2..]) else "/*" <= text && DirectiveShaped(TrimSpace(text[2..])))
  }

  /** A line directive remaps positions only, and falls out by the grammar whatever it names. */
  lemma LineDirectiveIsDropped(rest: string)
    ensures !Retained("//line " + rest)
  {
    var text, body := "//line " + rest, "line " + rest;
    assert text[2..] == body && text[..2] == "//" && text[2] == 'l' && text[3] == 'i';
    NoMarker(text);
    NoExport(text);
    NoBuildConstraint(body);
    NoDirective("line", rest);
    assert "line" + " " + rest == body;
    hide GeneratedMarker, FirstField, DirectiveShaped;
  }

  lemma NoExport(text: string)
    requires |text| > 2 && text[2] == 'l'
    ensures !("//export " <= text) && !("//export\t" <= text)
  {
    assert "//export "[2] == 'e' && "//export\t"[2] == 'e';
  }

  lemma NoMarker(text: string)
    requires |text| > 2 && !White(text[0]) && text[2] == 'l'
    ensures !GeneratedMarker(text)
  {
    hide TrimSpace;
    TrimKeepsHead(text);
    assert "// Code generated "[2] == ' ';
  }

  lemma NoBuildConstraint(body: string)
    requires body != "" && !White(body[0]) && body[0] != '+'
    ensures FirstField(body) != "+build"
  {
    assert FirstField(body)[0] == body[0];
  }

  lemma NoDirective(name: string, rest: string)
    requires ':' !in name
    ensures !DirectiveShaped(name + " " + rest)
  {
    var s := name + " " + rest;
    assert forall i :: 0 <= i < |name| ==> s[i] == name[i];
    assert s[|name|] == ' ';
    assert IndexByte(s, ':').Some? ==> IndexByte(s, ':').value > |name|;
    assert forall c :: |name| < c <= |s| ==> s[..c][|name|] == ' ';
  }

  lemma {:induction false} TrimKeepsHead(s: string)
    requires s != "" && !White(s[0])
    ensures TrimSpace(s) != "" && TrimSpace(s) <= s
    decreases |s|
  {
    assert TrimWhite(s) == s;
    if White(s[|s| - 1]) { TrimKeepsHead(s[..|s| - 1]); }
  }

  // ----- Groups -----

  /** The parser's merge: a comment on the line the one before ends on, or the next. */
  predicate Joined(items: seq<Item>, k: nat) {
    k + 1 < |items| && items[k].Comment() && items[k + 1].Comment() && items[k + 1].line <= items[k].end + 1
  }

  function GroupEnd(items: seq<Item>, k: nat): (j: nat)
    requires k < |items|
    ensures k <= j < |items| && !Joined(items, j) && forall l :: k <= l < j ==> Joined(items, l)
    decreases |items| - k
  {
    if Joined(items, k) then GroupEnd(items, k + 1) else k
  }

  function NextIndex(items: seq<Item>, i: nat): (k: nat)
    requires i < |items|
    ensures i < k <= |items| && (k < |items| ==> !items[k].Comment())
    ensures forall l :: i < l < k ==> items[l].Comment()
    decreases |items| - i
  {
    if i + 1 == |items| then i + 1
    else if items[i + 1].Comment() then NextIndex(items, i + 1)
    else i + 1
  }

  /** A comment's group leads the next token when that token starts on the line after the group ends. */
  predicate Leads(items: seq<Item>, k: nat)
    requires k < |items|
  {
    items[k].Comment()
    && var j := GroupEnd(items, k); var n := NextIndex(items, j);
    n < |items| && items[n].line == items[j].end + 1
  }

  method LeadGroups(items: seq<Item>) returns (lead: set<nat>)
    ensures lead == set k: nat | k < |items| && Leads(items, k)
  {
    lead := {};
    var i := 0;
    while i < |items|
      invariant 0 <= i <= |items|
      invariant forall k: nat :: k in lead <==> k < i && Leads(items, k)
    {
      if !items[i].Comment() {
        i := i + 1;
        continue;
      }
      var j := i;
      while j + 1 < |items| && items[j + 1].Comment() && items[j + 1].line <= items[j].end + 1
        invariant i <= j < |items| && items[j].Comment() && forall l :: i <= l < j ==> Joined(items, l)
      {
        j := j + 1;
      }
      forall k: nat | i <= k <= j
        ensures GroupEnd(items, k) == j
      {
        SameGroupEnd(items, k, j);
      }
      var n := NextIndex(items, j);
      if n < |items| && items[n].line == items[j].end + 1 {
        for k := i to j + 1
          invariant forall l: nat :: l in lead <==> (l < i && Leads(items, l)) || i <= l < k
        {
          lead := lead + {k};
        }
      }
      i := j + 1;
    }
  }

  lemma {:induction false} SameGroupEnd(items: seq<Item>, k: nat, j: nat)
    requires k <= j < |items| && !Joined(items, j) && forall l :: k <= l < j ==> Joined(items, l)
    ensures GroupEnd(items, k) == j
    decreases j - k
  {
    if k < j { SameGroupEnd(items, k + 1, j); }
  }

  // ----- The form -----

  /** Whether an import's parenthesis is expected, and whether its specs are being read. */
  datatype Group = Group(pending: bool, inside: bool)

  function NextKind(items: seq<Item>, i: nat): string
    requires i < |items|
  {
    var k := NextIndex(items, i);
    if k < |items| then items[k].kind else items[|items| - 1].kind
  }

  function Advance(g: Group, items: seq<Item>, i: nat): Group
    requires i < |items|
  {
    var kind := items[i].kind;
    if kind == COMMENT then g
    else if kind == IMPORT then g.(pending := NextKind(items, i) == LPAREN)
    else if g.pending && kind == LPAREN then Group(false, true)
    else if g.inside && kind == RPAREN then g.(inside := false)
    else g
  }

  function GroupAt(items: seq<Item>, i: nat): Group
    requires i <= |items|
  {
    if i == 0 then Group(false, false) else Advance(GroupAt(items, i - 1), items, i - 1)
  }

  /** C code: comments right before import "C", or before the "C" path inside an import group. */
  predicate CgoPreamble(items: seq<Item>, i: nat, inside: bool)
    requires i < |items|
  {
    var k := NextIndex(items, i);
    && k < |items|
    && ((items[k].kind == IMPORT && k + 1 < |items| && items[k + 1].kind == STRING && items[k + 1].lit == C_PATH)
        || (inside && items[k].kind == STRING && items[k].lit == C_PATH))
  }

  predicate Folds(items: seq<Item>, i: nat)
    requires i < |items|
  {
    !items[i].Comment() || Retained(items[i].lit) || CgoPreamble(items, i, GroupAt(items, i).inside)
  }

  /** What the hashed stream is made of. */
  datatype Entry = Token(kind: string, lit: string) | Note(attached: bool, lit: string)

  function EntryAt(items: seq<Item>, i: nat): seq<Entry>
    requires i < |items|
  {
    if !Folds(items, i) then []
    else if items[i].Comment() then [Note(Leads(items, i), items[i].lit)]
    else [Token(items[i].kind, items[i].lit)]
  }

  function Entries(items: seq<Item>, i: nat): seq<Entry>
    requires i <= |items|
    decreases |items| - i
  {
    if i == |items| then [] else EntryAt(items, i) + Entries(items, i + 1)
  }

  function Spell(e: Entry): string {
    match e
    case Token(kind, lit) => kind + "\0" + lit + "\n"
    case Note(attached, lit) => COMMENT + "\0" + (if attached then "1" else "0") + "\0" + lit + "\n"
  }

  function Stream(entries: seq<Entry>): string {
    if entries == [] then "" else Spell(entries[0]) + Stream(entries[1..])
  }

  /** The text given to the hash. */
  method CanonicalStream(items: seq<Item>) returns (text: string)
    ensures text == Stream(Entries(items, 0))
  {
    hide Stream, Folds, EntryAt, Advance, Leads;
    text := "";
    var lead := LeadGroups(items);
    var groupPending, inImportGroup := false, false;
    StreamOfNone();
    for i := 0 to |items|
      invariant Group(groupPending, inImportGroup) == GroupAt(items, i)
      invariant text + Stream(Entries(items, i)) == Stream(Entries(items, 0))
    {
      var it := items[i];
      var piece := Piece(items, i, lead, inImportGroup);
      StreamAppends(EntryAt(items, i), Entries(items, i + 1));
      text := text + piece;
      if it.Comment() {
        CommentsChangeNothing(items, i);
      } else {
        groupPending, inImportGroup := Track(items, i, groupPending, inImportGroup);
      }
    }
  }

  lemma CommentsChangeNothing(items: seq<Item>, i: nat)
    requires i < |items| && items[i].Comment()
    ensures forall g: Group :: Advance(g, items, i) == g
  {
  }

  method Piece(items: seq<Item>, i: nat, lead: set<nat>, inImportGroup: bool) returns (piece: string)
    requires i < |items| && inImportGroup == GroupAt(items, i).inside && lead == set k: nat | k < |items| && Leads(items, k)
    ensures piece == Stream(EntryAt(items, i))
  {
    hide Retained, CgoPreamble, Leads, Spell, Stream;
    var it := items[i];
    piece := "";
    if it.Comment() {
      if !Retained(it.lit) && !CgoPreamble(items, i, inImportGroup) {
        StreamOfNone();
        return;
      }
      var attached := i in lead;
      piece := Spell(Note(attached, it.lit));
      StreamOfOne(Note(attached, it.lit));
    } else {
      piece := Spell(Token(it.kind, it.lit));
      StreamOfOne(Token(it.kind, it.lit));
    }
  }

  method Track(items: seq<Item>, i: nat, groupPending: bool, inImportGroup: bool) returns (pending: bool, inside: bool)
    requires i < |items| && !items[i].Comment()
    ensures Group(pending, inside) == Advance(Group(groupPending, inImportGroup), items, i)
  {
    pending, inside := groupPending, inImportGroup;
    if items[i].kind == IMPORT {
      pending := NextKind(items, i) == LPAREN;
    } else if groupPending && items[i].kind == LPAREN {
      pending, inside := false, true;
    } else if inImportGroup && items[i].kind == RPAREN {
      inside := false;
    }
  }

  lemma StreamOfNone()
    ensures Stream([]) == ""
  {
  }

  lemma {:induction false} StreamAppends(a: seq<Entry>, b: seq<Entry>)
    ensures Stream(a + b) == Stream(a) + Stream(b)
  {
    hide Spell;
    if a == [] {
      assert a + b == b;
    } else {
      StreamAppends(a[1..], b);
      assert (a + b)[1..] == a[1..] + b;
    }
  }

  lemma StreamOfOne(e: Entry)
    ensures Stream([e]) == Spell(e)
  {
    assert Spell(e) + "" == Spell(e);
  }

  // ----- The stream is uniquely decodable -----

  /** What the scanner gives: no NUL anywhere, no newline in a kind, and only comments of that kind. */
  predicate Clean(e: Entry) {
    '\0' !in e.lit && (e.Token? ==> e.kind != "" && e.kind != COMMENT && '\0' !in e.kind && '\n' !in e.kind)
  }

  function LastNewline(s: string): (k: Option<nat>)
    ensures k.Some? ==> k.value < |s| && s[k.value] == '\n' && forall i :: k.value < i < |s| ==> s[i] != '\n'
    ensures k.None? ==> '\n' !in s
  {
    if s == "" then None
    else if s[|s| - 1] == '\n' then Some(|s| - 1)
    else LastNewline(s[..|s| - 1])
  }

  /** Where a literal that begins a text ends: at the last newline before the next NUL, since only the next
      kind lies between. */
  function LiteralEnd(s: string): (k: Option<nat>)
    ensures k.Some? ==> k.value < |s|
  {
    var nul := IndexByte(s, '\0');
    LastNewline(if nul.Some? then s[..nul.value] else s)
  }

  function Decode(s: string): Option<seq<Entry>> {
    if s == "" then Some([])
    else
      var nul := IndexByte(s, '\0');
      if nul.None? then None
      else
        var kind, rest := s[..nul.value], s[nul.value + 1..];
        if kind == COMMENT then
          if |rest| < 2 then None
          else
            var end := LiteralEnd(rest[2..]);
            if end.None? then None
            else Then(Note(rest[0] == '1', rest[2..][..end.value]), Decode(rest[2..][end.value + 1..]))
        else
          var end := LiteralEnd(rest);
          if end.None? then None else Then(Token(kind, rest[..end.value]), Decode(rest[end.value + 1..]))
  }

  function Then(e: Entry, rest: Option<seq<Entry>>): Option<seq<Entry>> {
    if rest.None? then None else Some([e] + rest.value)
  }

  predicate AllClean(entries: seq<Entry>) {
    forall i :: 0 <= i < |entries| ==> Clean(entries[i])
  }

  /** What follows a literal: nothing, or a kind without newlines and its NUL. */
  predicate Follows(s: string) {
    s == "" || (IndexByte(s, '\0').Some? && '\n' !in s[..IndexByte(s, '\0').value])
  }

  lemma IndexIs(s: string, c: char, k: nat)
    requires k < |s| && s[k] == c && c !in s[..k]
    ensures IndexByte(s, c) == Some(k)
  {
    forall i | 0 <= i < k
      ensures s[i] != c
    {
      assert s[i] == s[..k][i];
    }
  }

  lemma StreamFollows(entries: seq<Entry>)
    requires AllClean(entries)
    ensures Follows(Stream(entries))
  {
    if entries != [] {
      var e, s := entries[0], Stream(entries);
      var kind := if e.Token? then e.kind else COMMENT;
      assert Clean(e);
      assert s[..|kind|] == kind && s[|kind|] == '\0';
      IndexIs(s, '\0', |kind|);
    }
  }

  lemma LiteralEndsAt(lit: string, after: string)
    requires '\0' !in lit && Follows(after)
    ensures LiteralEnd(lit + "\n" + after) == Some(|lit|)
  {
    var s := lit + "\n" + after;
    assert s[..|lit|] == lit && s[|lit|] == '\n' && s[|lit| + 1..] == after;
    var upto := s;
    if after != "" {
      var k := IndexByte(after, '\0').value;
      forall i | 0 <= i < |lit| + 1 + k
        ensures s[i] != '\0'
      {
        if i < |lit| { assert s[i] == lit[i]; } else if i > |lit| { assert s[i] == after[i - |lit| - 1]; }
      }
      assert s[|lit| + 1 + k] == after[k];
      IndexIs(s, '\0', |lit| + 1 + k);
      upto := s[..|lit| + 1 + k];
      forall i | |lit| < i < |upto|
        ensures upto[i] != '\n'
      {
        assert upto[i] == after[..k][i - |lit| - 1];
      }
    } else {
      forall i | 0 <= i < |s|
        ensures s[i] != '\0'
      {
        if i < |lit| { assert s[i] == lit[i]; }
      }
    }
    assert upto[|lit|] == '\n';
    LastIs(upto, |lit|);
  }

  lemma {:induction false} LastIs(s: string, k: nat)
    requires k < |s| && s[k] == '\n' && forall i :: k < i < |s| ==> s[i] != '\n'
    ensures LastNewline(s) == Some(k)
  {
    if k < |s| - 1 { LastIs(s[..|s| - 1], k); }
  }

  lemma DecodeBody(s: string, kind: string, prefix: string, lit: string, after: string)
    requires s == kind + "\0" + (prefix + (lit + "\n" + after)) && '\0' !in kind && '\0' !in lit && Follows(after)
    ensures IndexByte(s, '\0') == Some(|kind|) && s[..|kind|] == kind && s[|kind| + 1..] == prefix + (lit + "\n" + after)
    ensures var body := lit + "\n" + after;
      LiteralEnd(body) == Some(|lit|) && body[..|lit|] == lit && body[|lit| + 1..] == after
    ensures s[|kind| + 1..][|prefix|..] == lit + "\n" + after
  {
    hide LiteralEnd;
    assert s[..|kind|] == kind && s[|kind|] == '\0';
    IndexIs(s, '\0', |kind|);
    LiteralEndsAt(lit, after);
  }

  lemma DecodeStep(e: Entry, after: string)
    requires Clean(e) && Follows(after)
    ensures Decode(Spell(e) + after) == Then(e, Decode(after))
  {
    if e.Token? { DecodeToken(e.kind, e.lit, after); } else { DecodeNote(e.attached, e.lit, after); }
  }

  lemma DecodeToken(kind: string, lit: string, after: string)
    requires Clean(Token(kind, lit)) && Follows(after)
    ensures Decode(Spell(Token(kind, lit)) + after) == Then(Token(kind, lit), Decode(after))
  {
    hide LiteralEnd, IndexByte, Follows, Clean;
    var s := Spell(Token(kind, lit)) + after;
    assert s == kind + "\0" + ("" + (lit + "\n" + after));
    assert kind != COMMENT && '\0' !in kind && '\0' !in lit by { CleanToken(kind, lit); }
    DecodeBody(s, kind, "", lit, after);
    assert "" + (lit + "\n" + after) == lit + "\n" + after;
  }

  lemma CleanToken(kind: string, lit: string)
    requires Clean(Token(kind, lit))
    ensures kind != COMMENT && '\0' !in kind && '\0' !in lit
  {
  }

  lemma DecodeNote(attached: bool, lit: string, after: string)
    requires '\0' !in lit && Follows(after)
    ensures Decode(Spell(Note(attached, lit)) + after) == Then(Note(attached, lit), Decode(after))
  {
    hide LiteralEnd, IndexByte, Follows;
    var s := Spell(Note(attached, lit)) + after;
    var prefix := (if attached then "1" else "0") + "\0";
    assert s == COMMENT + "\0" + (prefix + (lit + "\n" + after));
    DecodeBody(s, COMMENT, prefix, lit, after);
    assert (prefix + (lit + "\n" + after))[0] == prefix[0];
  }

  /** The stream names its entries: kinds, literals, retained comments and their attachment, though
      literals may hold newlines. */
  lemma {:induction false} DecodeStream(entries: seq<Entry>)
    requires AllClean(entries)
    ensures Decode(Stream(entries)) == Some(entries)
  {
    if entries != [] {
      assert Clean(entries[0]);
      StreamFollows(entries[1..]);
      DecodeStep(entries[0], Stream(entries[1..]));
      DecodeStream(entries[1..]);
      assert entries == [entries[0]] + entries[1..];
    }
  }

  lemma StreamIsInjective(a: seq<Entry>, b: seq<Entry>)
    requires AllClean(a) && AllClean(b)
    ensures Stream(a) == Stream(b) <==> a == b
  {
    DecodeStream(a);
    DecodeStream(b);
  }
}
