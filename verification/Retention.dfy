/** Which comments ride the canonical form, spelled out (internal/closure/canonical.go, retainedComment). */
module Retention {
  import opened Paths
  import opened Strings
  import opened Canonical

  /** A blank, a tab, a line end, or one of Unicode's other spaces. */
  predicate BlankChar(c: char) {
    c in " \t\n\r\U{0B}\U{0C}\U{85}\U{A0}\U{1680}\U{2028}\U{2029}\U{202F}\U{205F}\U{3000}" || '\U{2000}' <= c <= '\U{200A}'
  }

  predicate Blank(s: string) {
    forall i :: 0 <= i < |s| ==> BlankChar(s[i])
  }

  predicate Solid(s: string) {
    forall i :: 0 <= i < |s| ==> !BlankChar(s[i])
  }

  /** Lowercase letters, digits, underscores and hyphens. */
  predicate NameText(s: string) {
    s != "" && forall i :: 0 <= i < |s| ==> 'a' <= s[i] <= 'z' || '0' <= s[i] <= '9' || s[i] == '_' || s[i] == '-'
  }

  /** A text that ends, or goes on with a blank. */
  predicate Breaks(rest: string) {
    rest == "" || BlankChar(rest[0])
  }

  // ----- Trimming and fields -----

  lemma WhitesAreBlank()
    ensures forall c :: White(c) <==> BlankChar(c)
  {
  }

  lemma {:induction false} TrimLeftSpells(s: string) returns (blanks: string)
    ensures Blank(blanks) && s == blanks + TrimWhite(s)
  {
    hide White, BlankChar;
    WhitesAreBlank();
    blanks := "";
    if s != "" && White(s[0]) {
      var more := TrimLeftSpells(s[1..]);
      blanks := [s[0]] + more;
      assert s == [s[0]] + s[1..];
    }
  }

  lemma {:induction false} TrimLeftDrops(blanks: string, t: string)
    requires Blank(blanks) && (t == "" || !White(t[0]))
    ensures TrimWhite(blanks + t) == t
  {
    hide White, BlankChar;
    WhitesAreBlank();
    if blanks == "" {
      assert blanks + t == t;
    } else {
      assert (blanks + t)[1..] == blanks[1..] + t;
      TrimLeftDrops(blanks[1..], t);
    }
  }

  lemma {:induction false} TrimSpells(s: string) returns (lead: string, trail: string)
    ensures Blank(lead) && Blank(trail) && s == lead + TrimSpace(s) + trail
    decreases |s|
  {
    hide White, BlankChar;
    WhitesAreBlank();
    lead := TrimLeftSpells(s);
    trail := "";
    var t := TrimWhite(s);
    if t != "" && White(t[|t| - 1]) {
      var front, last := t[..|t| - 1], [t[|t| - 1]];
      assert TrimSpace(s) == TrimSpace(front);
      hide TrimSpace, TrimWhite;
      var l, r := TrimSpells(front);
      assert t == front + last;
      Nested(lead, l, TrimSpace(s), r, last);
      lead, trail := lead + l, r + last;
    }
  }

  lemma Nested(lead: string, l: string, t: string, r: string, last: string)
    ensures lead + (l + t + r + last) == (lead + l) + t + (r + last)
  {
  }

  lemma {:induction false} TrimDrops(lead: string, t: string, trail: string)
    requires Blank(lead) && Blank(trail) && t != "" && !White(t[0]) && !White(t[|t| - 1])
    ensures TrimSpace(lead + t + trail) == t
    decreases |trail|
  {
    hide White, BlankChar;
    WhitesAreBlank();
    var s := lead + t + trail;
    assert s == lead + (t + trail);
    TrimLeftDrops(lead, t + trail);
    if trail == "" {
      assert t + trail == t;
    } else {
      var less := trail[..|trail| - 1];
      assert (t + trail)[..|t + trail| - 1] == "" + t + less;
      TrimDrops("", t, less);
    }
  }

  lemma {:induction false} UptoSpells(s: string) returns (rest: string)
    ensures Solid(Upto(s)) && s == Upto(s) + rest && (rest == "" || White(rest[0]))
  {
    hide White, BlankChar;
    WhitesAreBlank();
    rest := s;
    if s != "" && !White(s[0]) {
      rest := UptoSpells(s[1..]);
      assert s == [s[0]] + s[1..];
      assert Upto(s) + rest == [s[0]] + (Upto(s[1..]) + rest);
    }
  }

  lemma {:induction false} UptoStops(word: string, rest: string)
    requires Solid(word) && (rest == "" || White(rest[0]))
    ensures Upto(word + rest) == word
  {
    hide White, BlankChar;
    WhitesAreBlank();
    if word == "" {
      assert word + rest == rest;
    } else {
      assert (word + rest)[1..] == word[1..] + rest;
      UptoStops(word[1..], rest);
      assert word == [word[0]] + word[1..];
    }
  }

  // ----- The classes -----

  /** An exported cgo function. */
  ghost predicate Exports(text: string) {
    exists rest: string :: text == "//export " + rest || text == "//export\t" + rest
  }

  /** A legacy build constraint: "+build" the first field after the slashes, whatever the spacing. */
  ghost predicate Constrains(text: string) {
    exists blanks: string, rest: string :: Blank(blanks) && Breaks(rest) && BuildAt(text, blanks, rest)
  }

  predicate BuildAt(text: string, blanks: string, rest: string) {
    text == "//" + blanks + "+build" + rest || (!("//" <= text) && text == blanks + "+build" + rest)
  }

  /** The generated-file marker, with blanks around it. */
  ghost predicate Generated(text: string) {
    exists lead: string, body: string, trail: string :: Blank(lead) && Blank(trail) && '\r' !in body && '\n' !in body
      && text == lead + Marker(body) + trail
  }

  function Marker(body: string): string {
    "// Code generated " + body + " DO NOT EDIT."
  }

  /** A directive, in a line comment or after blanks in a block one. */
  ghost predicate Directs(text: string) {
    || (exists name: string, rest: string :: NameText(name) && text == "//" + name + ":" + rest)
    || (exists blanks: string, name: string, rest: string :: Blank(blanks) && NameText(name) && text == "/*" + blanks + name + ":" + rest)
  }

  lemma ExportsExactly(text: string)
    ensures "//export " <= text || "//export\t" <= text <==> Exports(text)
  {
    if "//export " <= text { assert text == "//export " + text[9..]; }
    if "//export\t" <= text { assert text == "//export\t" + text[9..]; }
  }

  lemma FieldSpells(s: string) returns (blanks: string, rest: string)
    requires FirstField(s) == "+build"
    ensures Blank(blanks) && Breaks(rest) && s == blanks + "+build" + rest
  {
    blanks := TrimLeftSpells(s);
    rest := UptoSpells(TrimWhite(s));
    assert blanks + ("+build" + rest) == blanks + "+build" + rest;
  }

  lemma FieldStands(blanks: string, rest: string)
    requires Blank(blanks) && Breaks(rest)
    ensures FirstField(blanks + "+build" + rest) == "+build"
  {
    hide White, BlankChar, TrimWhite, Upto;
    WhitesAreBlank();
    var word := "+build";
    BuildIsSolid();
    assert blanks + word + rest == blanks + (word + rest) && (word + rest)[0] == word[0];
    TrimLeftDrops(blanks, word + rest);
    UptoStops(word, rest);
  }

  lemma BuildIsSolid()
    ensures Solid("+build")
  {
    var word := "+build";
    assert |word| == 6 && word[0] == '+' && word[1] == 'b' && word[2] == 'u' && word[3] == 'i' && word[4] == 'l' && word[5] == 'd';
  }

  lemma ConstrainsExactly(text: string)
    ensures FirstField(CutLine(text)) == "+build" <==> Constrains(text)
  {
    hide FirstField, White, BlankChar, TrimWhite, Upto, Blank, Breaks;
    if FirstField(CutLine(text)) == "+build" {
      var blanks, rest := FieldSpells(CutLine(text));
      if "//" <= text { assert text == "//" + blanks + "+build" + rest; }
    }
    if Constrains(text) {
      var blanks: string, rest: string :| Blank(blanks) && Breaks(rest) && BuildAt(text, blanks, rest);
      FieldStands(blanks, rest);
      if text == "//" + blanks + "+build" + rest {
        assert text == "//" + (blanks + "+build" + rest);
        Headed(text, "//", blanks + "+build" + rest);
      }
    }
  }

  lemma GeneratedExactly(text: string)
    ensures GeneratedMarker(text) <==> Generated(text)
  {
    if GeneratedMarker(text) {
      var t := TrimSpace(text);
      var lead, trail := TrimSpells(text);
      MarkerSpells(t);
      var body := t[18..|t| - 13];
      assert text == lead + Marker(body) + trail;
    }
    if lead: string, body: string, trail: string :| Blank(lead) && Blank(trail) && '\r' !in body && '\n' !in body && text == lead + Marker(body) + trail {
      MarkerStands(body);
      TrimDrops(lead, Marker(body), trail);
    }
  }

  lemma MarkerSpells(t: string)
    requires "// Code generated " <= t && Suffix(t, " DO NOT EDIT.") && |t| >= 31
    ensures t == Marker(t[18..|t| - 13])
    ensures '\r' !in t && '\n' !in t ==> '\r' !in t[18..|t| - 13] && '\n' !in t[18..|t| - 13]
  {
    assert t[..18] == "// Code generated ";
    assert t == t[..18] + t[18..|t| - 13] + t[|t| - 13..];
  }

  lemma MarkerStands(body: string)
    requires '\r' !in body && '\n' !in body
    ensures var t := Marker(body);
      && t != "" && !White(t[0]) && !White(t[|t| - 1]) && "// Code generated " <= t && Suffix(t, " DO NOT EDIT.") && |t| >= 31
      && '\r' !in t && '\n' !in t
  {
    var t := Marker(body);
    assert t[..18] == "// Code generated " && t[|t| - 13..] == " DO NOT EDIT.";
    assert t[|t| - 1] == '.';
    forall i | 0 <= i < |t|
      ensures t[i] != '\r' && t[i] != '\n'
    {
      if 18 <= i < |t| - 13 { assert t[i] == body[i - 18]; }
    }
  }

  lemma ShapeExactly(rest: string)
    ensures DirectiveShaped(rest) <==> exists name: string, after: string :: NameText(name) && rest == name + ":" + after
  {
    var colon := IndexByte(rest, ':');
    if DirectiveShaped(rest) {
      var k := colon.value;
      NamesAlike(rest[..k]);
      assert rest == rest[..k] + ":" + rest[k + 1..];
    }
    if name: string, after: string :| NameText(name) && rest == name + ":" + after {
      assert rest[..|name|] == name && rest[|name|] == ':';
      NamesAlike(name);
      forall i | 0 <= i < |name|
        ensures rest[i] != ':'
      {
        assert rest[i] == name[i];
      }
      assert colon == Some(|name|);
    }
  }

  lemma NamesAlike(name: string)
    ensures name != "" && DirectiveName(name) <==> NameText(name)
  {
  }

  lemma BlockShapeExactly(inside: string)
    ensures DirectiveShaped(TrimSpace(inside)) <==>
      exists blanks: string, name: string, after: string :: Blank(blanks) && NameText(name) && inside == blanks + name + ":" + after
  {
    hide DirectiveShaped, TrimSpace;
    ShapeExactly(TrimSpace(inside));
    if DirectiveShaped(TrimSpace(inside)) {
      var name: string, after: string :| NameText(name) && TrimSpace(inside) == name + ":" + after;
      var lead, trail := TrimSpells(inside);
      Regroup(lead, name, after, trail);
    }
    if blanks: string, name: string, after: string :| Blank(blanks) && NameText(name) && inside == blanks + name + ":" + after {
      var rest := NamedTrim(blanks, name, after);
    }
  }

  lemma Regroup(lead: string, name: string, after: string, trail: string)
    ensures lead + (name + ":" + after) + trail == lead + name + ":" + (after + trail)
  {
  }

  /** Trimming a directive drops blanks before it and at its end, and leaves its name. */
  lemma NamedTrim(blanks: string, name: string, after: string) returns (solid: string)
    requires Blank(blanks) && NameText(name)
    ensures TrimSpace(blanks + name + ":" + after) == name + ":" + solid
  {
    hide TrimSpace;
    var trail;
    solid, trail := TrimRight(after);
    var kept := name + ":" + solid;
    Regroup(blanks, name, solid, trail);
    NamedEnds(name, solid);
    TrimDrops(blanks, kept, trail);
  }

  lemma NamedEnds(name: string, solid: string)
    requires NameText(name) && (solid == "" || !White(solid[|solid| - 1]))
    ensures var kept := name + ":" + solid; kept != "" && !White(kept[0]) && !White(kept[|kept| - 1])
  {
    var kept := name + ":" + solid;
    assert kept[0] == name[0];
    assert kept[|kept| - 1] == if solid == "" then ':' else solid[|solid| - 1];
  }

  lemma {:induction false} TrimRight(s: string) returns (solid: string, trail: string)
    ensures s == solid + trail && Blank(trail) && (solid == "" || !White(solid[|solid| - 1]))
  {
    solid, trail := s, "";
    if s != "" && White(s[|s| - 1]) {
      var more;
      solid, more := TrimRight(s[..|s| - 1]);
      trail := more + [s[|s| - 1]];
      assert s == s[..|s| - 1] + [s[|s| - 1]];
    }
  }

  lemma DirectsExactly(text: string)
    ensures (if "//" <= text then DirectiveShaped(text[2..]) else "/*" <= text && DirectiveShaped(TrimSpace(text[2..]))) <==> Directs(text)
  {
    hide DirectiveShaped, TrimSpace;
    if "//" <= text {
      LineDirects(text, text[2..]);
    } else if "/*" <= text {
      BlockDirects(text, text[2..]);
    } else {
      NothingDirects(text);
    }
  }

  lemma LineDirects(text: string, inside: string)
    requires text == "//" + inside
    ensures DirectiveShaped(inside) <==> Directs(text)
  {
    hide DirectiveShaped;
    ShapeExactly(inside);
    if DirectiveShaped(inside) {
      var name: string, rest: string :| NameText(name) && inside == name + ":" + rest;
      assert text == "//" + name + ":" + rest;
    }
    if name: string, rest: string :| NameText(name) && text == "//" + name + ":" + rest {
      Headed(text, "//", name + ":" + rest);
      assert "//" + name + ":" + rest == "//" + (name + ":" + rest);
    }
    forall blanks: string, name: string, rest: string
      ensures text != "/*" + blanks + name + ":" + rest
    {
      assert ("/*" + blanks + name + ":" + rest)[1] == '*' && text[1] == '/';
    }
  }

  lemma BlockDirects(text: string, inside: string)
    requires text == "/*" + inside
    ensures DirectiveShaped(TrimSpace(inside)) <==> Directs(text)
  {
    hide DirectiveShaped, TrimSpace;
    BlockShapeExactly(inside);
    if DirectiveShaped(TrimSpace(inside)) {
      var blanks: string, name: string, rest: string :| Blank(blanks) && NameText(name) && inside == blanks + name + ":" + rest;
      assert text == "/*" + blanks + name + ":" + rest;
    }
    if blanks: string, name: string, rest: string :| Blank(blanks) && NameText(name) && text == "/*" + blanks + name + ":" + rest {
      Headed(text, "/*", blanks + name + ":" + rest);
      assert "/*" + blanks + name + ":" + rest == "/*" + (blanks + name + ":" + rest);
    }
    forall name: string, rest: string
      ensures text != "//" + name + ":" + rest
    {
      assert ("//" + name + ":" + rest)[1] == '/' && text[1] == '*';
    }
  }

  lemma NothingDirects(text: string)
    requires !("//" <= text) && !("/*" <= text)
    ensures !Directs(text)
  {
    forall name: string, rest: string
      ensures text != "//" + name + ":" + rest
    {
      assert ("//" + name + ":" + rest)[..2] == "//";
    }
    forall blanks: string, name: string, rest: string
      ensures text != "/*" + blanks + name + ":" + rest
    {
      assert ("/*" + blanks + name + ":" + rest)[..2] == "/*";
    }
  }

  lemma Headed(text: string, head: string, rest: string)
    ensures text == head + rest <==> head <= text && text[|head|..] == rest
  {
  }

  /** A comment is retained exactly when it exports, constrains the build, marks a generated file, or
      directs a tool. */
  lemma RetainedExactly(text: string)
    ensures Retained(text) <==> Exports(text) || Constrains(text) || Generated(text) || Directs(text)
  {
    hide FirstField, GeneratedMarker, DirectiveShaped, TrimSpace, CutLine, Exports, Constrains, Generated, Directs;
    ExportsExactly(text);
    ConstrainsExactly(text);
    GeneratedExactly(text);
    DirectsExactly(text);
  }
}
