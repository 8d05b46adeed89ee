/** The Go command's quoted argument grammar: splitting a text into fields and joining words into a text
    (internal/buildflags/quoted.go). */
module BuildFlags {
  import opened Paths
  import opened Strings

  predicate Mark(c: char) {
    c == '\'' || c == '"'
  }

  function IndexSpace(text: string): (k: Option<nat>)
    ensures k.Some? ==> k.value < |text| && Space(text[k.value]) && forall i :: 0 <= i < k.value ==> !Space(text[i])
    ensures k.None? ==> forall i :: 0 <= i < |text| ==> !Space(text[i])
  {
    if text == "" then None
    else if Space(text[0]) then Some(0)
    else
      var k := IndexSpace(text[1..]);
      if k.None? then None else Some(k.value + 1)
  }

  // ----- Fields -----

  /** The first field of a trimmed text and what follows it, or an unterminated quote. */
  function Head(text: string): (head: Option<(string, string)>)
    requires text != "" && !Space(text[0])
    ensures head.Some? ==> |head.value.1| < |text|
  {
    if Mark(text[0]) then
      var end := IndexByte(text[1..], text[0]);
      if end.None? then None else Some((text[1..1 + end.value], text[2 + end.value..]))
    else
      var end := IndexSpace(text);
      if end.None? then Some((text, "")) else Some((text[..end.value], text[end.value..]))
  }

  function Then(field: string, rest: Option<seq<string>>): Option<seq<string>> {
    if rest.None? then None else Some([field] + rest.value)
  }

  function Parse(text: string): Option<seq<string>>
    decreases |text|
  {
    var t := TrimLeft(text);
    if t == "" then Some([])
    else
      var head := Head(t);
      if head.None? then None else Then(head.value.0, Parse(head.value.1))
  }

  function After(fields: seq<string>, rest: Option<seq<string>>): Option<seq<string>> {
    if rest.None? then None else Some(fields + rest.value)
  }

  method Fields(text: string) returns (fields: Option<seq<string>>)
    ensures fields == Parse(text)
  {
    var rest, found := text, [];
    AfterNone(Parse(text));
    while true
      invariant After(found, Parse(rest)) == Parse(text)
      decreases |rest|
    {
      rest := TrimLeft(rest);
      if rest == "" {
        assert found + [] == found;
        return Some(found);
      }
      var quote := rest[0];
      if quote == '\'' || quote == '"' {
        var end := IndexByte(rest[1..], quote);
        if end.None? { return None; }
        var field, left := rest[1..1 + end.value], rest[2 + end.value..];
        assert Head(rest) == Some((field, left));
        Appends(found, field, Parse(left));
        TrimTwice(rest);
        found, rest := found + [field], left;
      } else {
        var end := IndexSpace(rest);
        if end.None? {
          assert Head(rest) == Some((rest, ""));
          OneField(rest, rest);
          return Some(found + [rest]);
        }
        var field, left := rest[..end.value], rest[end.value..];
        assert Head(rest) == Some((field, left));
        Appends(found, field, Parse(left));
        TrimTwice(rest);
        found, rest := found + [field], left;
      }
    }
  }

  lemma AfterNone(rest: Option<seq<string>>)
    ensures After([], rest) == rest
  {
    if rest.Some? { assert [] + rest.value == rest.value; }
  }

  /** A text of one field. */
  lemma OneField(text: string, field: string)
    requires text != "" && !Space(text[0]) && Head(text) == Some((field, ""))
    ensures Parse(text) == Some([field])
  {
    TrimTwice(text);
    assert Parse("") == Some([]);
    assert [field] + [] == [field];
  }

  lemma Appends(found: seq<string>, field: string, rest: Option<seq<string>>)
    ensures After(found, Then(field, rest)) == After(found + [field], rest)
  {
    if rest.Some? { assert found + ([field] + rest.value) == found + [field] + rest.value; }
  }

  lemma TrimTwice(text: string)
    requires text != "" && !Space(text[0])
    ensures TrimLeft(text) == text
  {
  }

  // ----- Join -----

  predicate Spaced(word: string) {
    exists i :: 0 <= i < |word| && Space(word[i])
  }

  /** A word that stands for itself. */
  predicate Bare(word: string) {
    word != "" && !Mark(word[0]) && !Spaced(word)
  }

  function Encode(word: string): Option<string> {
    if Bare(word) then Some(word)
    else if '\'' !in word then Some("'" + word + "'")
    else if '"' !in word then Some("\"" + word + "\"")
    else None
  }

  predicate Sendable(word: string) {
    '\0' !in word && Encode(word).Some?
  }

  predicate AllSendable(words: seq<string>) {
    forall i :: 0 <= i < |words| ==> Sendable(words[i])
  }

  function Spell(words: seq<string>): string
    requires AllSendable(words)
  {
    if words == [] then ""
    else
      assert Sendable(words[0]);
      if |words| == 1 then Encode(words[0]).value else Encode(words[0]).value + " " + Spell(words[1..])
  }

  method Join(words: seq<string>) returns (text: Option<string>)
    ensures text.Some? <==> AllSendable(words)
    ensures text.Some? ==> text.value == Spell(words)
  {
    var encoded := new string[|words|];
    for i := 0 to |words|
      invariant forall k :: 0 <= k < i ==> Sendable(words[k]) && encoded[k] == Encode(words[k]).value
    {
      var word := words[i];
      if '\0' in word { return None; }
      if word != "" && !Mark(word[0]) && !Spaced(word) {
        encoded[i] := word;
      } else if '\'' !in word {
        encoded[i] := "'" + word + "'";
      } else if '"' !in word {
        encoded[i] := "\"" + word + "\"";
      } else {
        return None;
      }
    }
    var joined := "";
    var k := |words|;
    while k > 0
      invariant 0 <= k <= |words| && joined == Spell(words[k..])
      invariant forall j :: 0 <= j < |words| ==> Sendable(words[j]) && encoded[j] == Encode(words[j]).value
    {
      k := k - 1;
      assert words[k..][1..] == words[k + 1..];
      joined := if k + 1 == |words| then encoded[k] else encoded[k] + " " + joined;
    }
    assert words[0..] == words;
    return Some(joined);
  }

  // ----- The two undo each other -----

  lemma QuotedHead(word: string, mark: char, rest: string)
    requires Mark(mark) && mark !in word
    ensures Head([mark] + word + [mark] + rest) == Some((word, rest))
  {
    var text := [mark] + word + [mark] + rest;
    var tail := text[1..];
    assert tail[|word|] == mark && tail[..|word|] == word;
    assert forall i :: 0 <= i < |word| ==> tail[i] == word[i];
    assert IndexByte(tail, mark) == Some(|word|);
    assert text[1..1 + |word|] == word && text[2 + |word|..] == rest;
  }

  lemma BareHead(word: string, rest: string)
    requires Bare(word) && (rest == "" || Space(rest[0]))
    ensures Head(word + rest) == Some((word, rest))
  {
    var text := word + rest;
    forall i | 0 <= i < |word|
      ensures !Space(text[i])
    {
      assert text[i] == word[i];
    }
    assert rest != "" ==> text[|word|] == rest[0];
    if rest == "" { assert text == word; }
  }

  /** The first word of a spelling is its first field. */
  lemma EncodedHead(word: string, rest: string)
    requires Encode(word).Some? && (rest == "" || Space(rest[0]))
    ensures var text := Encode(word).value + rest; text != "" && !Space(text[0]) && Head(text) == Some((word, rest))
  {
    if Bare(word) {
      BareHead(word, rest);
    } else if '\'' !in word {
      QuotedHead(word, '\'', rest);
      assert "'" + word + "'" + rest == ['\''] + word + ['\''] + rest;
    } else {
      QuotedHead(word, '"', rest);
      assert "\"" + word + "\"" + rest == ['"'] + word + ['"'] + rest;
    }
  }

  lemma ParseSpace(text: string)
    ensures Parse(" " + text) == Parse(text)
  {
    assert (" " + text)[1..] == text;
    assert TrimLeft(" " + text) == TrimLeft(text);
  }

  /** Splitting what Join wrote gives back the words. */
  lemma {:induction false} FieldsUndoJoin(words: seq<string>)
    requires AllSendable(words)
    ensures Parse(Spell(words)) == Some(words)
  {
    if |words| == 1 {
      EncodedHead(words[0], "");
      assert Spell(words) == Encode(words[0]).value + "";
      OneField(Spell(words), words[0]);
      assert words == [words[0]];
    } else if |words| > 1 {
      var rest := " " + Spell(words[1..]);
      assert Spell(words) == Encode(words[0]).value + rest;
      EncodedHead(words[0], rest);
      TrimTwice(Spell(words));
      ParseSpace(Spell(words[1..]));
      FieldsUndoJoin(words[1..]);
      assert words == [words[0]] + words[1..];
    }
  }

  /** Every field of every text can be spelled. */
  lemma {:induction false} FieldsAreEncodable(text: string)
    ensures Parse(text).Some? ==> forall w :: w in Parse(text).value ==> Encode(w).Some?
    decreases |text|
  {
    var t := TrimLeft(text);
    if t != "" && Head(t).Some? {
      var (field, rest) := Head(t).value;
      FieldsAreEncodable(rest);
      if Mark(t[0]) {
        assert t[0] !in field;
      } else {
        assert Bare(field);
      }
    }
  }

  /** What Join refuses, no text can represent: a word without a spelling is no field of any text, and any
      other word is. */
  lemma RefusedExactly(word: string)
    ensures Encode(word).None? <==> forall text: string :: Parse(text).Some? ==> word !in Parse(text).value
  {
    if Encode(word).Some? {
      EncodedHead(word, "");
      assert Encode(word).value + "" == Encode(word).value;
      OneField(Encode(word).value, word);
      assert word in Parse(Encode(word).value).value;
    } else {
      forall text: string | Parse(text).Some?
        ensures word !in Parse(text).value
      {
        FieldsAreEncodable(text);
      }
    }
  }

  /** Join takes every NUL-free result of Fields, and re-splitting it changes nothing. */
  lemma JoinUndoesFields(text: string)
    requires Parse(text).Some? && forall w :: w in Parse(text).value ==> '\0' !in w
    ensures AllSendable(Parse(text).value) && Parse(Spell(Parse(text).value)) == Parse(text)
  {
    FieldsAreEncodable(text);
    forall i | 0 <= i < |Parse(text).value|
      ensures Sendable(Parse(text).value[i])
    {
      assert Parse(text).value[i] in Parse(text).value;
    }
    FieldsUndoJoin(Parse(text).value);
  }

  // ----- What divides -----

  /** A nonempty word of no blank, begun by no quote. */
  predicate Unquoted(word: string) {
    word != "" && word[0] != '\'' && word[0] != '"' && ' ' !in word && '\t' !in word && '\r' !in word && '\n' !in word
  }

  /** Between two such words a blank, a tab, a carriage return or a line feed divides, and nothing else. */
  lemma BlanksDivide(a: string, c: char, b: string)
    requires Unquoted(a) && Unquoted(b)
    ensures Parse(a + [c] + b) == if c == ' ' || c == '\t' || c == '\r' || c == '\n' then Some([a, b]) else Some([a + [c] + b])
  {
    hide Parse;
    var text := a + [c] + b;
    assert text == a + ([c] + b);
    if Space(c) {
      BareHead(a, [c] + b);
      Bares(b);
      Divided(a, c, b);
    } else {
      Bares(text);
    }
  }

  lemma Bares(word: string)
    requires Bare(word)
    ensures Head(word) == Some((word, "")) && Parse(word) == Some([word])
  {
    hide Parse;
    BareHead(word, "");
    assert word + "" == word;
    OneField(word, word);
  }

  lemma Divided(a: string, c: char, b: string)
    requires Bare(a) && Space(c) && Bare(b) && Parse(b) == Some([b])
    requires Head(a + ([c] + b)) == Some((a, [c] + b))
    ensures Parse(a + ([c] + b)) == Some([a, b])
  {
    hide Head;
    TrimTwice(a + ([c] + b));
    TrimTwice(b);
    assert ([c] + b)[1..] == b;
    assert TrimLeft([c] + b) == b;
    assert Parse([c] + b) == Parse(b);
    assert [a] + [b] == [a, b];
  }

  /** A quote ends at the next one like it, and what is between is the field, blanks and the other quote
      included; without one the text has no fields. */
  lemma QuotesEnclose(field: string, rest: string)
    ensures '\'' !in field ==> Parse("'" + field + "'" + rest) == Then(field, Parse(rest)) && Parse("'" + field) == None
    ensures '"' !in field ==> Parse("\"" + field + "\"" + rest) == Then(field, Parse(rest)) && Parse("\"" + field) == None
  {
    if '\'' !in field { Encloses('\'', field, rest); }
    if '"' !in field { Encloses('"', field, rest); }
  }

  lemma Encloses(mark: char, field: string, rest: string)
    requires Mark(mark) && mark !in field
    ensures Parse([mark] + field + [mark] + rest) == Then(field, Parse(rest)) && Parse([mark] + field) == None
  {
    var text := [mark] + field + [mark] + rest;
    QuotedHead(field, mark, rest);
    TrimTwice(text);
    TrimTwice([mark] + field);
    assert ([mark] + field)[1..] == field;
    assert Head([mark] + field) == None;
    hide Head;
  }
}
