/** The one parse of an operation's attribution, and the conversion of the directory it names
    (runtimeinput/observation.go). */
module OperationParse {
  import opened Paths
  import opened Quoting
  import opened Attribution

  /** The operation, the name as quoted, and the directory unquoted. */
  datatype Operation = Operation(op: string, quotedName: string, dir: string)

  function ParseWith(s: string, op: string): Option<Operation> {
    var first := LiteralEnd(s, |op| + 1);
    if first.None? || !At(s, first.value, IN) then None
    else
      var second := LiteralEnd(s, first.value + |IN|);
      if second != Some(|s|) then None
      else
        var dir := Unquote(s[first.value + |IN|..]);
        if dir.None? then None else Some(Operation(op, s[|op| + 1..first.value], dir.value))
  }

  function Parse(s: string, k: nat): Option<Operation>
    decreases |OPS| - k
  {
    if k >= |OPS| then None
    else if At(s, 0, OPS[k] + " ") then
      assert |OPS[k]| + 1 <= |s|;
      ParseWith(s, OPS[k])
    else Parse(s, k + 1)
  }

  method ParseOperation(s: string) returns (parsed: Option<Operation>)
    ensures parsed == Parse(s, 0)
  {
    for k := 0 to |OPS|
      invariant Parse(s, k) == Parse(s, 0)
    {
      var op := OPS[k];
      if !At(s, 0, op + " ") { continue; }
      var first := LiteralEnd(s, |op| + 1);
      if first.None? || !At(s, first.value, IN) { return None; }
      var second := LiteralEnd(s, first.value + |IN|);
      if second.None? || second.value != |s| { return None; }
      var dir := Unquote(s[first.value + |IN|..]);
      if dir.None? { return None; }
      return Some(Operation(op, s[|op| + 1..first.value], dir.value));
    }
    return None;
  }

  function Compose(parsed: Operation): string {
    parsed.op + " " + parsed.quotedName + IN + Quote(parsed.dir)
  }

  /** Rewrites the directory through convert; anything not exactly the operation form passes through. */
  function ConvertDir(attribution: string, convert: string -> string): string {
    var parsed := Parse(attribution, 0);
    if parsed.None? then attribution else Compose(parsed.value.(dir := convert(parsed.value.dir)))
  }

  lemma FirstOpDecides(s: string, k: nat, j: nat)
    requires j <= k < |OPS| && At(s, 0, OPS[k] + " ")
    ensures Parse(s, j) == ParseWith(s, OPS[k])
    decreases k - j
  {
    if j < k {
      if At(s, 0, OPS[j] + " ") { OpsDiffer(s, 0, k, j); }
      FirstOpDecides(s, k, j + 1);
    }
  }

  lemma ParsesParts(s: string, op: string, x: string, y: string, dir: string)
    requires var a := |op| + 1; var b := a + |x| + |IN|;
      && b + |y| == |s| && At(s, a, x) && At(s, a + |x|, IN) && At(s, b, y)
      && LiteralEnd(s, a) == Some(a + |x|) && LiteralEnd(s, b) == Some(b + |y|) && Unquote(y) == Some(dir)
    ensures ParseWith(s, op) == Some(Operation(op, x, dir))
  {
    hide LiteralEnd, Unquote;
    assert s[|op| + 1 + |x| + |IN|..] == y;
  }

  lemma Regrouped(head: string, x: string, mid: string, y: string)
    ensures head + x + mid + y == head + (x + (mid + (y + ""))) && At(head + x + mid + y, 0, head) && |""| == 0
  {
    var s := head + x + mid + y;
    assert s == head + (x + (mid + (y + "")));
    assert s[0..|head|] == head;
  }

  lemma Spelled(op: string, name: string, dir: string)
    requires op in OPS
    ensures OperationAttribution(op, name, dir) == (op + " ") + Quote(name) + IN + Quote(dir) && |op + " "| == |op| + 1
  {
    hide Quote;
  }

  /** Parsing undoes composing, whatever the name and the directory hold. */
  lemma ParseUndoesCompose(k: nat, name: string, dir: string)
    requires k < |OPS|
    ensures Parse(OperationAttribution(OPS[k], name, dir), 0) == Some(Operation(OPS[k], Quote(name), dir))
  {
    hide *;
    var op, x, y := OPS[k], Quote(name), Quote(dir);
    var s := OperationAttribution(op, name, dir);
    Spelled(op, name, dir);
    Regrouped(op + " ", x, IN, y);
    Parts(s, op + " ", x, IN, y, "");
    ParsesStanding(s, k, name, dir);
  }

  lemma ParsesStanding(s: string, k: nat, name: string, dir: string)
    requires k < |OPS| && At(s, 0, OPS[k] + " ")
    requires var a := |OPS[k]| + 1; var b := a + |Quote(name)| + |IN|;
      At(s, a, Quote(name)) && At(s, a + |Quote(name)|, IN) && At(s, b, Quote(dir)) && b + |Quote(dir)| == |s|
    ensures Parse(s, 0) == Some(Operation(OPS[k], Quote(name), dir))
  {
    hide *;
    FirstOpDecides(s, k, 0);
    NameAt(s, |OPS[k]| + 1, name);
    NameAt(s, |OPS[k]| + 1 + |Quote(name)| + |IN|, dir);
    UnquoteQuote(dir);
    ParsesParts(s, OPS[k], Quote(name), Quote(dir), dir);
  }

  /** A conversion rewrites the directory and nothing else: the operation and the quoted name stay, and
      converting there and back is no change. */
  lemma ConversionKeepsTheRest(k: nat, name: string, dir: string, convert: string -> string, back: string -> string)
    requires k < |OPS|
    ensures var attribution := OperationAttribution(OPS[k], name, dir);
      && ConvertDir(attribution, convert) == OperationAttribution(OPS[k], name, convert(dir))
      && (back(convert(dir)) == dir ==> ConvertDir(ConvertDir(attribution, convert), back) == attribution)
  {
    hide Quote, Parse;
    ParseUndoesCompose(k, name, dir);
    ParseUndoesCompose(k, name, convert(dir));
  }
}
