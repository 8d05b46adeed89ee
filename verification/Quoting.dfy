/** A small concrete model of Go's quoted strings: strconv.Quote, Unquote and QuotedPrefix. Names are
    valid text, printable above the control range. */
module Quoting {
  import opened Paths

  function NamedEscape(c: char): Option<char> {
    match c as int
    case 7 => Some('a')
    case 8 => Some('b')
    case 12 => Some('f')
    case 10 => Some('n')
    case 13 => Some('r')
    case 9 => Some('t')
    case 11 => Some('v')
    case _ => None
  }

  function NamedChar(letter: char): Option<char> {
    match letter
    case 'a' => Some(7 as char)
    case 'b' => Some(8 as char)
    case 'f' => Some(12 as char)
    case 'n' => Some(10 as char)
    case 'r' => Some(13 as char)
    case 't' => Some(9 as char)
    case 'v' => Some(11 as char)
    case _ => None
  }

  function HexValue(c: char): Option<nat> {
    if '0' <= c <= '9' then Some(c as int - '0' as int)
    else if 'a' <= c <= 'f' then Some(c as int - 'a' as int + 10)
    else None
  }

  function HexDigit(n: nat): (digit: char)
    requires n < 16
    ensures HexValue(digit) == Some(n)
  {
    if n < 10 then ('0' as int + n) as char else ('a' as int + n - 10) as char
  }

  function EscapeChar(c: char): string {
    if c == '"' || c == '\\' then ['\\', c]
    else if NamedEscape(c).Some? then ['\\', NamedEscape(c).value]
    else if c < ' ' || c as int == 127 then ['\\', 'x', HexDigit(c as int / 16), HexDigit(c as int % 16)]
    else [c]
  }

  function Escaped(s: string): string {
    if s == "" then "" else EscapeChar(s[0]) + Escaped(s[1..])
  }

  function Quote(s: string): string {
    "\"" + Escaped(s) + "\""
  }

  function Unescape(s: string): Option<string> {
    if s == "" then Some("")
    else if s[0] == '"' || s[0] == '\n' then None
    else if s[0] != '\\' then Prepend(s[0], Unescape(s[1..]))
    else if |s| < 2 then None
    else if s[1] == '"' || s[1] == '\\' then Prepend(s[1], Unescape(s[2..]))
    else if NamedChar(s[1]).Some? then Prepend(NamedChar(s[1]).value, Unescape(s[2..]))
    else if s[1] == 'x' && |s| >= 4 && HexValue(s[2]).Some? && HexValue(s[3]).Some? then
      Prepend((HexValue(s[2]).value * 16 + HexValue(s[3]).value) as char, Unescape(s[4..]))
    else None
  }

  function Prepend(c: char, tail: Option<string>): Option<string> {
    if tail.Some? then Some([c] + tail.value) else None
  }

  /** The double-quoted form; the other forms never equal a name's own quoting. */
  function Unquote(s: string): Option<string> {
    if |s| >= 2 && s[0] == '"' && s[|s| - 1] == '"' then Unescape(s[1..|s| - 1]) else None
  }

  lemma UnescapeChar(c: char, tail: string)
    ensures Unescape(EscapeChar(c) + tail) == Prepend(c, Unescape(tail))
  {
    var e := EscapeChar(c);
    var s := e + tail;
    assert s[|e|..] == tail;
    if c == '"' || c == '\\' {
    } else if NamedEscape(c).Some? {
      assert NamedChar(NamedEscape(c).value) == Some(c);
    } else if c < ' ' || c as int == 127 {
      assert s[1] == 'x' && s[2] == HexDigit(c as int / 16) && s[3] == HexDigit(c as int % 16);
    }
  }

  lemma {:induction false} UnescapeEscaped(s: string)
    ensures Unescape(Escaped(s)) == Some(s)
  {
    if s != "" {
      UnescapeEscaped(s[1..]);
      UnescapeChar(s[0], Escaped(s[1..]));
      assert s == [s[0]] + s[1..];
    }
  }

  /** Quoting loses nothing. */
  lemma UnquoteQuote(s: string)
    ensures Unquote(Quote(s)) == Some(s)
  {
    var q := Quote(s);
    assert q[1..|q| - 1] == Escaped(s);
    UnescapeEscaped(s);
  }

  /** A text of printable characters, without quote or backslash, is quoted as it stands; and a text is
      quoted part by part. */
  lemma {:induction false} PlainQuotes(s: string)
    requires forall k :: 0 <= k < |s| ==> ' ' <= s[k] && s[k] as int != 127 && s[k] != '"' && s[k] != '\\'
    ensures Quote(s) == "\"" + s + "\""
  {
    if s != "" {
      PlainQuotes(s[1..]);
      assert Escaped(s[1..]) == Quote(s[1..])[1..|s|];
      assert s == [s[0]] + s[1..];
    }
  }

  lemma {:induction false} EscapedAppends(a: string, b: string)
    ensures Escaped(a + b) == Escaped(a) + Escaped(b)
  {
    if a == "" {
      assert a + b == b;
    } else {
      assert (a + b)[0] == a[0] && (a + b)[1..] == a[1..] + b;
      EscapedAppends(a[1..], b);
    }
  }

  // ----- QuotedPrefix -----

  /** Where the double-quoted literal whose contents start at i ends. An escape's letter is not judged,
      so every literal Go accepts is accepted here. */
  function CloseQuote(s: string, i: nat): (end: Option<nat>)
    ensures end.Some? ==> i < end.value <= |s| && s[end.value - 1] == '"'
    decreases |s| - i
  {
    if i >= |s| || s[i] == '\n' then None
    else if s[i] == '"' then Some(i + 1)
    else if s[i] == '\\' then (if i + 2 > |s| then None else CloseQuote(s, i + 2))
    else CloseQuote(s, i + 1)
  }

  function CloseBy(s: string, i: nat, mark: char): (end: Option<nat>)
    ensures end.Some? ==> i < end.value <= |s| && s[end.value - 1] == mark
    decreases |s| - i
  {
    if i >= |s| then None
    else if s[i] == mark then Some(i + 1)
    else CloseBy(s, i + 1, mark)
  }

  /** Where the literal starting at q ends: double-quoted, backquoted, or one quoted character. */
  function LiteralEnd(s: string, q: nat): (end: Option<nat>)
    ensures end.Some? ==> q + 2 <= end.value <= |s| && s[end.value - 1] == s[q] && s[q] in "\"`'"
  {
    if q >= |s| then None
    else if s[q] == '"' then CloseQuote(s, q + 1)
    else if s[q] == '`' then CloseBy(s, q + 1, '`')
    else if s[q] == '\'' && q + 2 < |s| && s[q + 1] != '\'' && s[q + 1] != '\n' then
      if s[q + 1] == '\\' then CloseBy(s, q + 3, '\'')
      else if s[q + 2] == '\'' then Some(q + 3)
      else None
    else None
  }

  // ----- What scanning does at a quoted name -----

  /** t stands in s at i. */
  predicate At(s: string, i: nat, t: string) {
    i + |t| <= |s| && s[i..i + |t|] == t
  }

  lemma AtSplit(s: string, i: nat, a: string, b: string)
    ensures At(s, i, a + b) <==> At(s, i, a) && At(s, i + |a|, b)
  {
    if At(s, i, a + b) {
      assert s[i..i + |a|] == (a + b)[..|a|];
      assert s[i + |a|..i + |a| + |b|] == (a + b)[|a|..];
    }
    if At(s, i, a) && At(s, i + |a|, b) {
      assert s[i..i + |a| + |b|] == s[i..i + |a|] + s[i + |a|..i + |a| + |b|];
    }
  }

  predicate Ordinary(c: char) {
    c != '"' && c != '\\' && c != '\n'
  }

  /** One character as it stands inside a literal: itself, or a backslash and what follows it. */
  predicate Unit(e: string) {
    || (|e| == 1 && Ordinary(e[0]))
    || (|e| == 2 && e[0] == '\\' && e[1] != '\n')
    || (|e| == 4 && e[0] == '\\' && Ordinary(e[1]) && Ordinary(e[2]) && Ordinary(e[3]))
  }

  lemma EscapeIsUnit(c: char)
    ensures Unit(EscapeChar(c))
  {
    if c < ' ' || c as int == 127 {
      assert HexValue(HexDigit(c as int / 16)).Some? && HexValue(HexDigit(c as int % 16)).Some?;
    }
  }

  lemma ScanUnit(s: string, i: nat, e: string)
    requires Unit(e) && At(s, i, e)
    ensures CloseQuote(s, i) == CloseQuote(s, i + |e|)
  {
    forall k | 0 <= k < |e|
      ensures s[i + k] == e[k]
    {
      assert s[i..i + |e|][k] == e[k];
    }
    if |e| == 4 {
      assert CloseQuote(s, i + 2) == CloseQuote(s, i + 3);
      assert CloseQuote(s, i + 3) == CloseQuote(s, i + 4);
    }
  }

  lemma {:induction false} ScanEscaped(s: string, i: nat, t: string)
    requires At(s, i, Escaped(t))
    ensures CloseQuote(s, i) == CloseQuote(s, i + |Escaped(t)|)
    decreases |t|
  {
    if t != "" {
      AtSplit(s, i, EscapeChar(t[0]), Escaped(t[1..]));
      EscapeIsUnit(t[0]);
      ScanUnit(s, i, EscapeChar(t[0]));
      ScanEscaped(s, i + |EscapeChar(t[0])|, t[1..]);
    }
  }

  lemma QuoteStands(s: string, q: nat, t: string)
    requires At(s, q, Quote(t))
    ensures var e := Escaped(t);
      && |Quote(t)| == |e| + 2 && At(s, q + 1, e) && q + 1 + |e| < |s| && s[q] == '"' && s[q + 1 + |e|] == '"'
  {
    hide Escaped;
    var e := Escaped(t);
    assert Quote(t) == "\"" + (e + "\"");
    AtSplit(s, q, "\"", e + "\"");
    AtSplit(s, q + 1, e, "\"");
    assert s[q..q + 1][0] == '"' && s[q + 1 + |e|..q + 1 + |e| + 1][0] == '"';
  }

  /** A quoted name is one literal wherever it stands. */
  lemma ScanQuote(s: string, q: nat, t: string)
    requires At(s, q, Quote(t))
    ensures LiteralEnd(s, q) == Some(q + |Quote(t)|)
  {
    hide Escaped, Quote, At;
    var e := Escaped(t);
    QuoteStands(s, q, t);
    ScanEscaped(s, q + 1, t);
    assert CloseQuote(s, q + 1 + |e|) == Some(q + |e| + 2);
  }

  /** Quotes within an escaped name follow their backslash, and no line ends there. */
  lemma {:induction false} EscapedQuotes(t: string, k: nat)
    requires k < |Escaped(t)|
    ensures Escaped(t)[k] == '"' ==> k > 0 && Escaped(t)[k - 1] == '\\'
    ensures Escaped(t)[k] != '\n'
    decreases |t|
  {
    var e := EscapeChar(t[0]);
    if k < |e| {
      assert Escaped(t)[k] == e[k];
    } else {
      EscapedQuotes(t[1..], k - |e|);
      if Escaped(t)[k] == '"' { assert Escaped(t)[k - 1] == Escaped(t[1..])[k - |e| - 1]; }
    }
  }

  /** An unescaped quote ends every double-quoted literal begun before it. */
  lemma {:induction false} QuoteBars(s: string, i: nat, k: nat)
    requires 0 < k < |s| && i <= k && s[k] == '"' && s[k - 1] != '\\'
    ensures var end := CloseQuote(s, i); end.Some? ==> end.value <= k + 1
    decreases |s| - i
  {
    if i < k && s[i] != '"' && s[i] != '\n' {
      if s[i] == '\\' {
        if i + 2 <= |s| { QuoteBars(s, i + 2, k); }
      } else {
        QuoteBars(s, i + 1, k);
      }
    }
  }
}
