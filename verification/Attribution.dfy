/** The refusal text grammar (runtimeinput/attribution.go): composing a reason's attribution and
    splitting it off again. */
module Attribution {
  import opened Paths
  import opened Quoting

  const SEPARATOR: string := " \U{2014} "
  const OPS: seq<string> := ["open", "stat", "chdir"]
  const MOVED: string := "observation bracket moved"
  const LABELS: seq<string> := ["added: ", "removed: ", "recently touched: "]
  const IN: string := " in "
  const RECORDED: string := "recorded path "
  const RESOLVES: string := " resolves to "
  const OUTSIDE: string := " outside the tree"

  // ----- Well-formed attributions, by position -----

  /** From i: a literal, then mid, then a literal, then tail, exactly to the end. */
  predicate QuotedThen(s: string, i: nat, mid: string, tail: string) {
    var first := LiteralEnd(s, i);
    && first.Some? && At(s, first.value, mid)
    && var second := LiteralEnd(s, first.value + |mid|);
       second.Some? && At(s, second.value, tail) && second.value + |tail| == |s|
  }

  /** `<op> <quoted> in <quoted>` from i to the end. */
  predicate OperationAt(s: string, i: nat, op: string) {
    At(s, i, op + " ") && QuotedThen(s, i + |op| + 1, IN, "")
  }

  predicate AttributionAt(s: string, i: nat) {
    || AttributionByOp(s, i)
    || (At(s, i, RECORDED) && QuotedThen(s, i + |RECORDED|, RESOLVES, OUTSIDE))
  }

  /** attributionWellFormed: the first operation whose prefix stands decides for the operation form. */
  method AttributionWellFormed(s: string, i: nat) returns (ok: bool)
    ensures ok <==> AttributionAt(s, i)
  {
    for k := 0 to |OPS|
      invariant forall j :: 0 <= j < k ==> !OperationAt(s, i, OPS[j])
    {
      if !At(s, i, OPS[k] + " ") { continue; }
      if QuotedThen(s, i + |OPS[k]| + 1, IN, "") {
        assert OperationAt(s, i, OPS[k]);
        return true;
      }
      forall j | 0 <= j < |OPS|
        ensures !OperationAt(s, i, OPS[j])
      {
        if j != k && At(s, i, OPS[j] + " ") { OpsDiffer(s, i, k, j); }
      }
      break;
    }
    if At(s, i, RECORDED) { return QuotedThen(s, i + |RECORDED|, RESOLVES, OUTSIDE); }
    return false;
  }

  lemma OpsDiffer(s: string, i: nat, k: nat, j: nat)
    requires k < |OPS| && j < |OPS| && At(s, i, OPS[k] + " ") && At(s, i, OPS[j] + " ")
    ensures k == j
  {
    assert s[i] == (OPS[k] + " ")[0] == (OPS[j] + " ")[0];
  }

  // ----- The composers -----

  function OperationAttribution(op: string, name: string, cwd: string): string {
    if op !in OPS then "" else op + " " + Quote(name) + IN + Quote(cwd)
  }

  function ResolvedTargetAttribution(spelling: string, target: string): string {
    RECORDED + Quote(spelling) + RESOLVES + Quote(target) + OUTSIDE
  }

  // ----- Two quoted names at the end of a text -----

  /** From a on, s is a quoted name ending at c, mid up to b, a quoted name ending at e, and tail. */
  ghost predicate Framed(s: string, a: nat, c: nat, mid: string, b: nat, e: nat, tail: string) {
    && 0 < a < c < b < e <= |s| && s[a - 1] == ' ' && s[b - 1] == ' '
    && b == c + |mid| && |s| == e + |tail| && At(s, c, mid) && At(s, e, tail)
    && s[a] == '"' && s[c - 1] == '"' && s[b] == '"' && s[e - 1] == '"' && c > a + 1
    && LiteralEnd(s, a) == Some(c) && LiteralEnd(s, b) == Some(e)
  }

  /** Where a quote after a space can stand: opening or closing a name. */
  ghost predicate QuotesPlaced(s: string, a: nat, c: nat, b: nat, e: nat) {
    forall q :: 0 < a < q < |s| && s[q] == '"' && s[q - 1] == ' ' ==> q == c - 1 || q == b || q == e - 1
  }

  lemma CharAt(s: string, i: nat, t: string, k: nat)
    requires At(s, i, t) && k < |t|
    ensures s[i + k] == t[k]
  {
    assert s[i..i + |t|][k] == t[k];
  }

  lemma NoQuoteIn(s: string, i: nat, t: string, q: nat)
    requires At(s, i, t) && '"' !in t && i <= q < i + |t|
    ensures s[q] != '"'
  {
    CharAt(s, i, t, q - i);
  }

  /** A quote within a quoted name stands after a backslash. */
  lemma InsideName(s: string, a: nat, m: string, q: nat)
    requires At(s, a, Quote(m)) && a < q < a + |Quote(m)| - 1
    ensures s[q] == '"' ==> s[q - 1] == '\\'
  {
    CharAt(s, a, Quote(m), q - a);
    CharAt(s, a, Quote(m), q - a - 1);
    EscapedQuotes(m, q - a - 1);
  }

  lemma Parts(s: string, pre: string, x: string, mid: string, y: string, tail: string)
    requires s == pre + (x + (mid + (y + tail)))
    ensures At(s, |pre|, x) && At(s, |pre| + |x|, mid)
    ensures At(s, |pre| + |x| + |mid|, y) && At(s, |pre| + |x| + |mid| + |y|, tail)
    ensures |pre| + |x| + |mid| + |y| + |tail| == |s|
  {
    assert At(s, |pre|, x + (mid + (y + tail)));
    AtSplit(s, |pre|, x, mid + (y + tail));
    AtSplit(s, |pre| + |x|, mid, y + tail);
    AtSplit(s, |pre| + |x| + |mid|, y, tail);
  }

  lemma QuotesAreInPlace(s: string, a: nat, m: string, mid: string, d: string, tail: string)
    requires At(s, a, Quote(m)) && At(s, a + |Quote(m)|, mid) && At(s, a + |Quote(m)| + |mid|, Quote(d))
    requires At(s, a + |Quote(m)| + |mid| + |Quote(d)|, tail) && a + |Quote(m)| + |mid| + |Quote(d)| + |tail| == |s|
    requires '"' !in mid && '"' !in tail
    ensures QuotesPlaced(s, a, a + |Quote(m)|, a + |Quote(m)| + |mid|, a + |Quote(m)| + |mid| + |Quote(d)|)
  {
    var c := a + |Quote(m)|;
    var b := c + |mid|;
    var e := b + |Quote(d)|;
    forall k | c <= k < b
      ensures s[k] != '"'
    {
      NoQuoteIn(s, c, mid, k);
    }
    forall k | e <= k < |s|
      ensures s[k] != '"'
    {
      NoQuoteIn(s, e, tail, k);
    }
    forall q | 0 < a < q < |s| && s[q] == '"' && s[q - 1] == ' '
      ensures q == c - 1 || q == b || q == e - 1
    {
      if q < c - 1 { InsideName(s, a, m, q); }
      else if b < q < e - 1 { InsideName(s, b, d, q); }
    }
  }

  lemma NameAt(s: string, a: nat, m: string)
    requires At(s, a, Quote(m))
    ensures s[a] == '"' && s[a + |Quote(m)| - 1] == '"' && LiteralEnd(s, a) == Some(a + |Quote(m)|)
  {
    ScanQuote(s, a, m);
    CharAt(s, a, Quote(m), 0);
    CharAt(s, a, Quote(m), |Quote(m)| - 1);
  }

  lemma QuoteIsLong(m: string)
    ensures |Quote(m)| >= 2
  {
  }

  lemma StandingNamesAreFramed(s: string, a: nat, m: string, mid: string, d: string, tail: string)
    requires a > 0 && s != "" && At(s, a, Quote(m)) && At(s, a + |Quote(m)|, mid) && At(s, a + |Quote(m)| + |mid|, Quote(d))
    requires At(s, a + |Quote(m)| + |mid| + |Quote(d)|, tail) && a + |Quote(m)| + |mid| + |Quote(d)| + |tail| == |s|
    requires s[a - 1] == ' ' && mid != "" && mid[|mid| - 1] == ' ' && '"' !in mid && '"' !in tail
    ensures var c := a + |Quote(m)|; var b := c + |mid|; var e := b + |Quote(d)|;
      Framed(s, a, c, mid, b, e, tail) && QuotesPlaced(s, a, c, b, e)
  {
    hide Quote, LiteralEnd, At, QuotesPlaced;
    var c := a + |Quote(m)|;
    QuoteIsLong(m);
    QuoteIsLong(d);
    NameAt(s, a, m);
    NameAt(s, c + |mid|, d);
    CharAt(s, c, mid, |mid| - 1);
    QuotesAreInPlace(s, a, m, mid, d, tail);
  }

  lemma NamesAreFramed(s: string, pre: string, m: string, mid: string, d: string, tail: string) returns (c: nat, b: nat, e: nat)
    requires s == pre + (Quote(m) + (mid + (Quote(d) + tail)))
    requires pre != "" && pre[|pre| - 1] == ' ' && mid != "" && mid[|mid| - 1] == ' ' && '"' !in mid && '"' !in tail
    ensures Framed(s, |pre|, c, mid, b, e, tail) && QuotesPlaced(s, |pre|, c, b, e)
  {
    hide *;
    var a, x, y := |pre|, Quote(m), Quote(d);
    c, b, e := a + |x|, a + |x| + |mid|, a + |x| + |mid| + |y|;
    assert s[a - 1] == pre[a - 1];
    Parts(s, pre, x, mid, y, tail);
    StandingNamesAreFramed(s, a, m, mid, d, tail);
  }

  /** A double-quoted literal begun before the first name ends at its opening quote at the latest. */
  lemma BarredByFirst(s: string, a: nat, q: nat)
    requires 0 < a < |s| && q < a && s[a] == '"' && s[a - 1] == ' ' && s[q] == '"'
    ensures LiteralEnd(s, q).Some? ==> LiteralEnd(s, q).value <= a + 1
  {
    QuoteBars(s, q + 1, a);
  }

  /** Two literals around the same middle, after a space and exactly to the end, are the two names. */
  lemma OnlyPair(s: string, a: nat, c: nat, mid: string, b: nat, e: nat, tail: string, q: nat)
    requires Framed(s, a, c, mid, b, e, tail) && QuotesPlaced(s, a, c, b, e) && |mid| > 0
    requires 0 < q < |s| && s[q - 1] == ' ' && QuotedThen(s, q, mid, tail)
    ensures q == a
  {
    hide LiteralEnd, CloseQuote;
    var c', b' := LiteralEnd(s, q).value, LiteralEnd(s, q).value + |mid|;
    CharAt(s, c', mid, |mid| - 1);
    CharAt(s, c, mid, |mid| - 1);
    assert LiteralEnd(s, b') == Some(e);
    assert s[b'] == '"' && s[b' - 1] == ' ';
    if b' < a {
      BarredByFirst(s, a, b');
    } else if b' == c - 1 {
      BarredByFirst(s, b, b');
    }
    assert b' == b;
    assert LiteralEnd(s, q) == Some(c);
    if q < a { BarredByFirst(s, a, q); }
  }

  // ----- The split -----

  /** strings.Index from i on. */
  function IndexFrom(s: string, t: string, i: nat): (k: Option<nat>)
    ensures k.Some? ==> i <= k.value && At(s, k.value, t) && forall j :: i <= j < k.value ==> !At(s, j, t)
    ensures k.None? ==> forall j :: i <= j ==> !At(s, j, t)
    decreases |s| - i
  {
    if i + |t| > |s| then None
    else if At(s, i, t) then Some(i)
    else IndexFrom(s, t, i + 1)
  }

  predicate Divides(reason: string, i: nat) {
    At(reason, i, SEPARATOR) && AttributionAt(reason, i + |SEPARATOR|)
  }

  /** The first separator whose suffix is exactly one attribution divides the reason. */
  function DividedFrom(reason: string, i: nat): (string, string)
    decreases |reason| - i
  {
    if i >= |reason| then (reason, "")
    else if Divides(reason, i) then (reason[..i], reason[i + |SEPARATOR|..])
    else DividedFrom(reason, i + 1)
  }

  lemma {:induction false} DividedAt(reason: string, i: nat, a: nat)
    requires i <= a < |reason| && Divides(reason, a) && forall k :: i <= k < a ==> !Divides(reason, k)
    ensures DividedFrom(reason, i) == (reason[..a], reason[a + |SEPARATOR|..])
    decreases a - i
  {
    if i < a { DividedAt(reason, i + 1, a); }
  }

  lemma {:induction false} DividedSkips(reason: string, i: nat, j: nat)
    requires i <= j <= |reason| && forall k :: i <= k < j ==> !Divides(reason, k)
    ensures DividedFrom(reason, i) == DividedFrom(reason, j)
    decreases j - i
  {
    if i < j { DividedSkips(reason, i + 1, j); }
  }

  // ----- An operation's attribution comes off whole -----

  /** No other operation's text ends at the same name. */
  lemma OnlyOp(s: string, i: nat, a: nat, op: string, k: nat, j: nat)
    requires k < |OPS| && j < |OPS| && op == OPS[k]
    requires At(s, a, SEPARATOR + (op + " ")) && At(s, i, SEPARATOR) && At(s, i + |SEPARATOR|, OPS[j] + " ")
    requires i + |OPS[j]| == a + |op|
    ensures i == a
  {
    AtSplit(s, a, SEPARATOR, op + " ");
    var x, y := a + |SEPARATOR|, i + |SEPARATOR|;
    CharAt(s, a, SEPARATOR, |SEPARATOR| - 1);
    CharAt(s, i, SEPARATOR, |SEPARATOR| - 1);
    assert s[x - 1] == ' ' && s[y - 1] == ' ';
    if x < y {
      CharAt(s, x, op + " ", y - 1 - x);
    } else if y < x {
      CharAt(s, y, OPS[j] + " ", x - 1 - y);
    }
  }

  lemma OperationOnlyAt(s: string, a: nat, k: nat, c: nat, b: nat, e: nat, i: nat, j: nat)
    requires k < |OPS| && j < |OPS| && At(s, a, SEPARATOR + (OPS[k] + " "))
    requires var q := a + |SEPARATOR| + |OPS[k]| + 1; Framed(s, q, c, IN, b, e, "") && QuotesPlaced(s, q, c, b, e)
    requires At(s, i, SEPARATOR) && OperationAt(s, i + |SEPARATOR|, OPS[j])
    ensures i == a
  {
    hide LiteralEnd;
    var at := i + |SEPARATOR|;
    CharAt(s, at, OPS[j] + " ", |OPS[j]|);
    OnlyPair(s, a + |SEPARATOR| + |OPS[k]| + 1, c, IN, b, e, "", at + |OPS[j]| + 1);
    OnlyOp(s, i, a, OPS[k], k, j);
  }

  lemma NoTargetBeforeQuote(s: string, i: nat)
    requires s != "" && s[|s| - 1] == '"'
    ensures !QuotedThen(s, i, RESOLVES, OUTSIDE)
  {
    if QuotedThen(s, i, RESOLVES, OUTSIDE) {
      CharAt(s, |s| - |OUTSIDE|, OUTSIDE, |OUTSIDE| - 1);
    }
  }

  /** Nothing before a divides a text that from there on is a separator, an operation and two names. */
  lemma NoEarlierOperation(s: string, a: nat, k: nat, c: nat, b: nat, e: nat, i: nat)
    requires k < |OPS| && At(s, a, SEPARATOR + (OPS[k] + " ")) && i < a
    requires var q := a + |SEPARATOR| + |OPS[k]| + 1; Framed(s, q, c, IN, b, e, "") && QuotesPlaced(s, q, c, b, e)
    ensures !Divides(s, i)
  {
    NoTargetBeforeQuote(s, i + |SEPARATOR| + |RECORDED|);
    if Divides(s, i) && AttributionByOp(s, i + |SEPARATOR|) {
      var j :| 0 <= j < |OPS| && OperationAt(s, i + |SEPARATOR|, OPS[j]);
      OperationOnlyAt(s, a, k, c, b, e, i, j);
    }
  }

  lemma NoEarlierTarget(s: string, a: nat, c: nat, b: nat, e: nat, i: nat)
    requires At(s, a, SEPARATOR + RECORDED) && i < a
    requires var q := a + |SEPARATOR| + |RECORDED|; Framed(s, q, c, RESOLVES, b, e, OUTSIDE) && QuotesPlaced(s, q, c, b, e)
    ensures !Divides(s, i)
  {
    var q, at := a + |SEPARATOR| + |RECORDED|, i + |SEPARATOR|;
    NoOperationBeforeTail(s, q, c, b, e, at);
    if Divides(s, i) {
      hide LiteralEnd, QuotedThen, Framed, QuotesPlaced;
      CharAt(s, at, RECORDED, |RECORDED| - 1);
      OnlyPair(s, q, c, RESOLVES, b, e, OUTSIDE, at + |RECORDED|);
    }
  }

  lemma NoOperationBeforeTail(s: string, a: nat, c: nat, b: nat, e: nat, at: nat)
    requires Framed(s, a, c, RESOLVES, b, e, OUTSIDE)
    ensures !AttributionByOp(s, at)
  {
    CharAt(s, e, OUTSIDE, |OUTSIDE| - 1);
    hide LiteralEnd, QuotedThen;
    forall i: nat
      ensures !QuotedThen(s, i, IN, "")
    {
      EndsInMark(s, i);
    }
  }

  predicate AttributionByOp(s: string, at: nat) {
    exists j :: 0 <= j < |OPS| && OperationAt(s, at, OPS[j])
  }

  lemma EndsInMark(s: string, i: nat)
    ensures QuotedThen(s, i, IN, "") ==> s != "" && s[|s| - 1] in "\"`'"
  {
  }

  lemma Regroup(clause: string, separator: string, head: string, x: string, mid: string, y: string, tail: string)
    ensures var s := clause + separator + (head + x + mid + y + tail);
            && s == clause + (separator + head) + (x + (mid + (y + tail)))
            && At(s, |clause|, separator + head)
            && s[..|clause|] == clause && s[|clause| + |separator|..] == head + x + mid + y + tail
  {
    var s := clause + separator + (head + x + mid + y + tail);
    assert s == clause + (separator + head) + (x + (mid + (y + tail)));
    assert s[|clause|..|clause| + |separator + head|] == separator + head;
  }

  lemma OperationStands(s: string, i: nat, k: nat, c: nat, b: nat, e: nat)
    requires k < |OPS| && At(s, i, SEPARATOR + (OPS[k] + " "))
    requires Framed(s, i + |SEPARATOR| + |OPS[k]| + 1, c, IN, b, e, "")
    ensures Divides(s, i)
  {
    AtSplit(s, i, SEPARATOR, OPS[k] + " ");
    assert OperationAt(s, i + |SEPARATOR|, OPS[k]);
  }

  lemma TargetStands(s: string, i: nat, c: nat, b: nat, e: nat)
    requires At(s, i, SEPARATOR + RECORDED) && Framed(s, i + |SEPARATOR| + |RECORDED|, c, RESOLVES, b, e, OUTSIDE)
    ensures Divides(s, i)
  {
    AtSplit(s, i, SEPARATOR, RECORDED);
  }

  lemma DivisionIs(s: string, clause: string, attribution: string)
    requires |clause| < |s| && |clause| + |SEPARATOR| <= |s| && s[..|clause|] == clause && s[|clause| + |SEPARATOR|..] == attribution
    requires Divides(s, |clause|) && forall i :: 0 <= i < |clause| ==> !Divides(s, i)
    ensures DividedFrom(s, 0) == (clause, attribution)
  {
    hide *;
    DividedAt(s, 0, |clause|);
  }

  /** The clause may hold anything: separators, quotes, backquotes, whole attributions. */
  lemma OperationDivides(clause: string, k: nat, name: string, cwd: string)
    requires k < |OPS|
    ensures DividedFrom(clause + SEPARATOR + OperationAttribution(OPS[k], name, cwd), 0)
            == (clause, OperationAttribution(OPS[k], name, cwd))
  {
    var head, x, y := OPS[k] + " ", Quote(name), Quote(cwd);
    var attribution := head + x + IN + y + "";
    assert attribution == OperationAttribution(OPS[k], name, cwd);
    assert clause + SEPARATOR + attribution == clause + SEPARATOR + OperationAttribution(OPS[k], name, cwd);
    NamedOperationDivides(clause, k, name, cwd);
  }

  /** The fixed texts end in spaces and hold no quotes. */
  lemma FixedTexts()
    ensures SEPARATOR != "" && IN != "" && IN[|IN| - 1] == ' ' && '"' !in IN
    ensures RECORDED != "" && RECORDED[|RECORDED| - 1] == ' ' && RESOLVES != "" && RESOLVES[|RESOLVES| - 1] == ' '
    ensures '"' !in RESOLVES && '"' !in OUTSIDE
  {
  }

  lemma NamedOperationDivides(clause: string, k: nat, name: string, cwd: string)
    requires k < |OPS|
    ensures var attribution := OPS[k] + " " + Quote(name) + IN + Quote(cwd) + "";
            DividedFrom(clause + SEPARATOR + attribution, 0) == (clause, attribution)
  {
    hide *;
    FixedTexts();
    var head, x, y, a := OPS[k] + " ", Quote(name), Quote(cwd), |clause|;
    assert head[|head| - 1] == ' ' && (clause + (SEPARATOR + head))[|clause| + |SEPARATOR| + |head| - 1] == head[|head| - 1];
    var s := clause + SEPARATOR + (head + x + IN + y + "");
    Regroup(clause, SEPARATOR, head, x, IN, y, "");
    var c, b, e := NamesAreFramed(s, clause + (SEPARATOR + head), name, IN, cwd, "");
    OperationStands(s, a, k, c, b, e);
    forall i | 0 <= i < a
      ensures !Divides(s, i)
    {
      NoEarlierOperation(s, a, k, c, b, e, i);
    }
    DivisionIs(s, clause, head + x + IN + y + "");
  }

  /** So does a resolved target's attribution. */
  lemma ResolvedTargetDivides(clause: string, spelling: string, target: string)
    ensures DividedFrom(clause + SEPARATOR + ResolvedTargetAttribution(spelling, target), 0)
            == (clause, ResolvedTargetAttribution(spelling, target))
  {
    NamedTargetDivides(clause, spelling, target);
  }

  lemma NamedTargetDivides(clause: string, spelling: string, target: string)
    ensures var attribution := RECORDED + Quote(spelling) + RESOLVES + Quote(target) + OUTSIDE;
            DividedFrom(clause + SEPARATOR + attribution, 0) == (clause, attribution)
  {
    hide *;
    FixedTexts();
    var x, y, a := Quote(spelling), Quote(target), |clause|;
    assert (clause + (SEPARATOR + RECORDED))[|clause| + |SEPARATOR| + |RECORDED| - 1] == RECORDED[|RECORDED| - 1];
    var s := clause + SEPARATOR + (RECORDED + x + RESOLVES + y + OUTSIDE);
    Regroup(clause, SEPARATOR, RECORDED, x, RESOLVES, y, OUTSIDE);
    var c, b, e := NamesAreFramed(s, clause + (SEPARATOR + RECORDED), spelling, RESOLVES, target, OUTSIDE);
    TargetStands(s, a, c, b, e);
    forall i | 0 <= i < a
      ensures !Divides(s, i)
    {
      NoEarlierTarget(s, a, c, b, e, i);
    }
    DivisionIs(s, clause, RECORDED + x + RESOLVES + y + OUTSIDE);
  }
}
