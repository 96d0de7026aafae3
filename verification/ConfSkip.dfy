// Skipping: a definition that must not override an existing key is read over without
// any effect, up to exactly the place where reading it in earnest would have stopped.

module ConfSkip {
  import opened ConfText
  import opened ConfTree
  import opened ConfParse

  // Skipping got `s` where reading got `r`: if the tree never got into the way of reading,
  // then skipping stops at the same place for the same reason.
  predicate StopsTogether(r: Parsed, s: Parsed) {
    StillClean(r) ==> s.rest == r.rest && s.status == r.status && s.loose == r.loose
  }

  lemma SkipValue(f: Fields, at: Option<nat>, id: string, inp: string, skip: bool,
                  g: Fields, id2: string)
    requires at.Some? ==> at.value < |f|
    ensures StopsTogether(ParseValue(f, at, id, inp, skip), ParseValue(g, None, id2, inp, true))
  {
    hide GetString, Scalar, Stored;
  }

  lemma {:induction false} SkipNested(f: Fields, k: nat, open: char, inp: string, skip: bool, o: bool,
                                      g: Fields, k2: nat, o2: bool)
    requires !skip ==> k < |f| && f[k].node.Compound?
    ensures var r := ParseNested(f, k, open, inp, skip, o);
      var s := ParseNested(g, k2, open, inp, true, o2);
      StillClean(r.inner) ==>
        s.rest == r.rest && s.ending == r.ending && s.inner.status == r.inner.status
    decreases |inp|, 3
  {
    hide ParseDefs, ParseArrayDefs, NonWhite;
    var old' := if skip then f else f[k].node.fields;
    if open == '{' {
      SkipDefs(old', inp, skip, o, g, o2);
    } else {
      SkipArrayDefs(old', 0, inp, skip, o, g, 0, o2);
    }
  }

  lemma {:induction false} SkipArrayDef(f: Fields, idx: nat, inp: string, skip: bool, o: bool,
                                        g: Fields, idx2: nat, o2: bool)
    ensures StopsTogether(ParseArrayDef(f, idx, inp, skip, o), ParseArrayDef(g, idx2, inp, true, o2))
    decreases |inp|, 1
  {
    hide ParseElement, ParseValue, NonWhite, DigitsText, Search;
    match NonWhite(inp)
    case Stop(_, _) =>
    case Next(c, rest) =>
      if c == '{' || c == '[' {
        SkipElement(f, DigitsText(idx), c, rest, skip, o, g, DigitsText(idx2), o2);
      } else {
        SkipValue(f, None, DigitsText(idx), [c] + rest, skip, g, DigitsText(idx2));
      }
  }

  lemma {:induction false} SkipElement(f: Fields, id: string, open: char, inp: string, skip: bool, o: bool,
                                       g: Fields, id2: string, o2: bool)
    ensures StopsTogether(ParseElement(f, id, open, inp, skip, o), ParseElement(g, id2, open, inp, true, o2))
    decreases |inp|, 4
  {
    hide ParseNested;
    var made := if skip then f else f + [Field(id, Compound(false, []))];
    SkipNested(made, |f|, open, inp, skip, o, g, |g|, o2);
  }

  lemma {:induction false} SkipArrayDefs(f: Fields, idx: nat, inp: string, skip: bool, o: bool,
                                         g: Fields, idx2: nat, o2: bool)
    ensures StopsTogether(ParseArrayDefs(f, idx, inp, skip, o), ParseArrayDefs(g, idx2, inp, true, o2))
    decreases |inp|, 2
  {
    hide ParseArrayDef, NonWhite;
    match NonWhite(inp)
    case Stop(_, _) =>
    case Next(c, rest) =>
      if c != ']' {
        SkipArrayDef(f, idx, [c] + rest, skip, o, g, idx2, o2);
        var d, e := ParseArrayDef(f, idx, [c] + rest, skip, o), ParseArrayDef(g, idx2, [c] + rest, true, o2);
        if d.Ok() && StillClean(d) {
          SkipArrayDefs(d.fields, idx + 1, d.rest, skip, o, e.fields, idx2 + 1, o2);
        }
      }
  }

  lemma {:induction false} SkipDefs(f: Fields, inp: string, skip: bool, o: bool, g: Fields, o2: bool)
    ensures StopsTogether(ParseDefs(f, inp, skip, o), ParseDefs(g, inp, true, o2))
    decreases |inp|, 2
  {
    hide ParseDef, NonWhite;
    match NonWhite(inp)
    case Stop(_, _) =>
    case Next(c, rest) =>
      if c != '}' {
        SkipDef(f, [c] + rest, skip, o, g, o2);
        var d, e := ParseDef(f, [c] + rest, skip, o), ParseDef(g, [c] + rest, true, o2);
        if d.Ok() && StillClean(d) {
          SkipDefs(d.fields, d.rest, skip, o, e.fields, o2);
        }
      }
  }

  // The same text, read into any tree and skipped over in any other one.
  lemma {:induction false} SkipDef(f: Fields, inp: string, skip: bool, o: bool, g: Fields, o2: bool)
    ensures StopsTogether(ParseDef(f, inp, skip, o), ParseDef(g, inp, true, o2))
    decreases |inp|, 1
  {
    hide ParseKeyed, NonWhite, GetString;
    match NonWhite(inp)
    case Stop(_, _) =>
    case Next(c, rest) =>
      match GetString(true, if c in "+-?!" then rest else [c] + rest)
      case Bad(_, _) =>
      case Got(id, _, rest1) =>
        SkipKeyed(f, id, ModeOf(c, o), rest1, skip, o, g, ModeOf(c, o2), o2);
  }

  lemma {:induction false} SkipKeyed(f: Fields, id: string, m: Mode, inp: string, skip: bool, o: bool,
                                     g: Fields, m2: Mode, o2: bool)
    ensures StopsTogether(ParseKeyed(f, id, m, inp, skip, o), ParseKeyed(g, id, m2, inp, true, o2))
    decreases |inp|, 7
  {
    hide ParseComponent, ParseBody, NonWhite;
    match NonWhite(inp)
    case Stop(_, _) => SkipBody(f, id, m, inp, skip, o, g, m2, o2);
    case Next(c, rest) =>
      if c == '.' {
        SkipComponent(f, id, m, rest, skip, o, g, m2, o2);
      } else if c != '=' {
        SkipBody(f, id, m, [c] + rest, skip, o, g, m2, o2);
      } else if NonWhite(rest).Next? {
        SkipBody(f, id, m, [NonWhite(rest).c] + NonWhite(rest).rest, skip, o, g, m2, o2);
      }
  }

  lemma {:induction false} SkipComponent(f: Fields, id: string, m: Mode, inp: string, skip: bool, o: bool,
                                         g: Fields, m2: Mode, o2: bool)
    ensures StopsTogether(ParseComponent(f, id, m, inp, skip, o), ParseComponent(g, id, m2, inp, true, o2))
    decreases |inp|, 4
  {
    hide ParseDef, Search;
    SkipDef(f, inp, true, o, g, o2);
    SkipDef([], inp, false, o, g, o2);
    match Search(f, id)
    case None =>
    case Some(k) =>
      if f[k].node.Compound? { SkipDef(f[k].node.fields, inp, false, o, g, o2); }
  }

  lemma {:induction false} SkipBody(f: Fields, id: string, m: Mode, inp: string, skip: bool, o: bool,
                                    g: Fields, m2: Mode, o2: bool)
    ensures StopsTogether(ParseBody(f, id, m, inp, skip, o), ParseBody(g, id, m2, inp, true, o2))
    decreases |inp|, 6
  {
    hide ParseContents, Search, NonWhite;
    SkipContents(f, None, id, inp, skip, o, g, o2);
    SkipContents(f, None, id, inp, true, o, g, o2);
    match Search(f, id)
    case None =>
    case Some(k) =>
      SkipContents(f, Some(k), id, inp, false, o, g, o2);
      SkipContents(Drop(f, k), None, id, inp, false, o, g, o2);
  }

  lemma {:induction false} SkipContents(f: Fields, at: Option<nat>, id: string, inp: string, skip: bool,
                                        o: bool, g: Fields, o2: bool)
    requires at.Some? ==> at.value < |f|
    ensures StopsTogether(ParseContents(f, at, id, inp, skip, o), ParseContents(g, None, id, inp, true, o2))
    decreases |inp|, 5
  {
    hide ParseBlock, ParseValue, NonWhite, AfterSeparator;
    var next := NonWhite(inp);
    if next.Next? && (next.c == '{' || next.c == '[') {
      if skip || at.None? || f[at.value].node.Compound? {
        SkipBlock(f, at, id, next.c, next.rest, skip, o, g, o2);
      }
    } else {
      SkipValue(f, at, id, inp, skip, g, id);
    }
  }

  lemma {:induction false} SkipBlock(f: Fields, at: Option<nat>, id: string, open: char, inp: string, skip: bool,
                                     o: bool, g: Fields, o2: bool)
    requires at.Some? && !skip ==> at.value < |f| && f[at.value].node.Compound?
    ensures StopsTogether(ParseBlock(f, at, id, open, inp, skip, o), ParseBlock(g, None, id, open, inp, true, o2))
    decreases |inp|, 4
  {
    hide ParseNested, AfterSeparator;
    var made := if skip || at.Some? then f else f + [Field(id, Compound(false, []))];
    var k := if at.Some? then at.value else |f|;
    SkipNested(made, k, open, inp, skip, o, g, |g|, o2);
  }

  // ---- a condition on the text ----

  // The text after an opening bracket, skipped over, goes on with the closing one.
  predicate Closes(open: char, inp: string) {
    var after := NonWhite(if open == '{' then ParseDefs([], inp, true, false).rest
                          else ParseArrayDefs([], 0, inp, true, false).rest);
    after.Next? && after.c == if open == '{' then '}' else ']'
  }

  // The definition has a value in brackets that do not match.
  predicate Unclosed(inp: string)
    decreases |inp|
  {
    match NonWhite(inp)
    case Stop(_, _) => false
    case Next(c, rest) =>
      match GetString(true, if c in "+-?!" then rest else [c] + rest)
      case Bad(_, _) => false
      case Got(_, _, rest1) => UnclosedFrom(rest1)
  }

  // ... after the first component of its key
  predicate UnclosedFrom(inp: string)
    decreases |inp|
  {
    match NonWhite(inp)
    case Stop(_, _) => false
    case Next(c, rest) =>
      if c == '.' then Unclosed(rest)
      else if c == '=' then UnclosedValue(NonWhite(rest))
      else UnclosedValue(Next(c, rest))
  }

  predicate UnclosedValue(next: ConfText.Next) {
    next.Next? && (next.c == '{' || next.c == '[') && !Closes(next.c, next.rest)
  }

  lemma NestedCloses(f: Fields, open: char, inp: string, o: bool)
    ensures ParseNested(f, |f|, open, inp, true, o).ending.Matched? <==> Closes(open, inp)
  {
    hide ParseDefs, ParseArrayDefs, NonWhite;
    if open == '{' {
      SkipDefs(f, inp, true, o, [], false);
    } else {
      SkipArrayDefs(f, 0, inp, true, o, [], 0, false);
    }
  }

  lemma ContentsLoose(f: Fields, id: string, inp: string, o: bool)
    ensures ParseContents(f, None, id, inp, true, o).loose <==> UnclosedValue(NonWhite(inp))
  {
    hide ParseNested, ParseValue, NonWhite, AfterSeparator, Closes;
    var next := NonWhite(inp);
    if next.Next? && (next.c == '{' || next.c == '[') {
      NestedCloses(f, next.c, next.rest, o);
      assert ParseBrackets(f, None, id, next.c, next.rest, true, o).loose <==> !Closes(next.c, next.rest);
      assert ParseContents(f, None, id, inp, true, o) == ParseBlock(f, None, id, next.c, next.rest, true, o);
    }
  }

  // A skipped definition is loose exactly if the text is.
  lemma {:induction false} LooseIsUnclosed(f: Fields, inp: string, o: bool)
    ensures ParseDef(f, inp, true, o).loose <==> Unclosed(inp)
    decreases |inp|
  {
    hide ParseKeyed, NonWhite, GetString, UnclosedFrom;
    match NonWhite(inp)
    case Stop(_, _) =>
    case Next(c, rest) =>
      match GetString(true, if c in "+-?!" then rest else [c] + rest)
      case Bad(_, _) =>
      case Got(id, _, rest1) => LooseFrom(f, id, ModeOf(c, o), rest1, o);
  }

  lemma {:induction false} LooseFrom(f: Fields, id: string, m: Mode, inp: string, o: bool)
    ensures ParseKeyed(f, id, m, inp, true, o).loose <==> UnclosedFrom(inp)
    decreases |inp|
  {
    hide ParseDef, ParseContents, NonWhite, Unclosed, UnclosedValue;
    match NonWhite(inp)
    case Stop(_, _) =>
      ContentsLoose(f, id, inp, o);
      assert !UnclosedValue(NonWhite(inp)) by { NothingUnclosed(NonWhite(inp)); }
    case Next(c, rest) =>
      if c == '.' {
        LooseIsUnclosed(f, rest, o);
      } else if c != '=' {
        ContentsLoose(f, id, [c] + rest, o);
        Again(inp);
      } else if NonWhite(rest).Next? {
        ContentsLoose(f, id, [NonWhite(rest).c] + NonWhite(rest).rest, o);
        Again(rest);
      } else {
        NothingUnclosed(NonWhite(rest));
      }
  }

  lemma NothingUnclosed(next: ConfText.Next)
    requires next.Stop?
    ensures !UnclosedValue(next)
  {
  }

  // White space is skipped once.
  lemma Again(inp: string)
    requires NonWhite(inp).Next?
    ensures var next := NonWhite(inp); NonWhite([next.c] + next.rest) == next
  {
    hide NonWhite;
    NextExample(NonWhite(inp).c, NonWhite(inp).rest);
  }

  // ---- `?key` ----

  // `?key ...` for a key that exists: how it ends, and what becomes of the tree. It stays
  // as it is, with exactly one exception: `?key.more ...` where the brackets around the
  // value do not match. Then `key` itself is deleted. (When brackets deeper in the skipped
  // text do not match, the code also tests a pointer that it has never set; here it is
  // NULL.)
  lemma SkipExactly(f: Fields, inp: string, o: bool, g: Fields, o2: bool)
    requires NonWhite(inp).Next? && NonWhite(inp).c == '?'
    requires GetString(true, NonWhite(inp).rest).Got?
    requires Search(f, GetString(true, NonWhite(inp).rest).s).Some?
    ensures StopsTogether(ParseDef(g, inp, false, o2), ParseDef(f, inp, false, o))
    ensures var word := GetString(true, NonWhite(inp).rest);
      ParseDef(f, inp, false, o).fields ==
        if IsDotted(word.rest) && UnclosedFrom(word.rest) then Drop(f, Search(f, word.s).value) else f
  {
    hide NonWhite, GetString, Search, ParseDef, ParseContents, UnclosedFrom;
    var id := GetString(true, NonWhite(inp).rest).s;
    var rest := GetString(true, NonWhite(inp).rest).rest;
    QuestionSkips(f, id, rest, o);
    DefKeyed(f, inp, false, o);
    DefKeyed(f, inp, true, o);
    SkipDef(g, inp, false, o2, f, o);
    LooseFrom(f, id, DontOverride, rest, o);
  }

  // Skip mode is transparent: if the text is well-formed - some tree can read it without
  // an error - then `?key ...` for a key that exists leaves the whole tree alone, and ends
  // where that reading ends.
  lemma SkipIsTransparent(f: Fields, inp: string, o: bool, g: Fields, o2: bool)
    requires NonWhite(inp).Next? && NonWhite(inp).c == '?'
    requires GetString(true, NonWhite(inp).rest).Got?
    requires Search(f, GetString(true, NonWhite(inp).rest).s).Some?
    requires ParseDef(g, inp, false, o2).Ok() && ParseDef(g, inp, false, o2).clean
    ensures ParseDef(f, inp, false, o) == Good(f, ParseDef(g, inp, false, o2).rest)
  {
    hide NonWhite, GetString, Search, ParseDef, ParseContents, UnclosedFrom;
    var id := GetString(true, NonWhite(inp).rest).s;
    var rest := GetString(true, NonWhite(inp).rest).rest;
    QuestionSkips(f, id, rest, o);
    DefKeyed(f, inp, false, o);
    DefKeyed(f, inp, true, o);
    SkipDef(g, inp, false, o2, f, o);
  }

  // The key goes on.
  predicate IsDotted(inp: string) {
    NonWhite(inp).Next? && NonWhite(inp).c == '.'
  }

  lemma DefKeyed(f: Fields, inp: string, skip: bool, o: bool)
    requires NonWhite(inp).Next? && NonWhite(inp).c == '?'
    requires GetString(true, NonWhite(inp).rest).Got?
    ensures var id := GetString(true, NonWhite(inp).rest);
      ParseDef(f, inp, skip, o) == ParseKeyed(f, id.s, DontOverride, id.rest, skip, o)
  {
    hide NonWhite, GetString, ParseKeyed;
  }

  lemma QuestionSkips(f: Fields, id: string, inp: string, o: bool)
    requires Search(f, id).Some?
    ensures var d := ParseKeyed(f, id, DontOverride, inp, true, o);
      && d.fields == f
      && ParseKeyed(f, id, DontOverride, inp, false, o)
         == if IsDotted(inp) then Abandoned(d, Search(f, id).value) else d
  {
    hide NonWhite, Search, ParseDef, ParseContents;
  }

  // The exception occurs: `?a.b {` without an end deletes an existing `a`.
  lemma SkippingDeletes(f: Fields, o: bool)
    requires Search(f, "a").Some?
    ensures ParseDef(f, "?a.b {", false, o)
         == Parsed(Drop(f, Search(f, "a").value), "", Some(UnexpectedChar), true, true, false)
  {
    hide NonWhite, GetString, Search, ParseContents, ParseComponent;
    QuestionExample();
    OpenEnded(f, o);
    assert ParseKeyed(f, "b", ModeOf('b', o), " {", true, o) == ParseContents(f, None, "b", "{", true, o);
    assert ParseDef(f, "b {", true, o) == Parsed(f, "", Some(UnexpectedChar), true, true, false);
    DownExample(f, o);
  }

  lemma DownExample(f: Fields, o: bool)
    requires Search(f, "a").Some?
    ensures ParseDef(f, "?a.b {", false, o)
         == Abandoned(ParseDef(f, "b {", true, o), Search(f, "a").value)
  {
    hide NonWhite, GetString, Search, ParseContents;
    QuestionExample();
    assert ParseKeyed(f, "a", DontOverride, ".b {", false, o) == ParseComponent(f, "a", DontOverride, "b {", false, o);
    assert ParseDef(f, "?a.b {", false, o) == ParseKeyed(f, "a", DontOverride, ".b {", false, o);
  }

  lemma OpenEnded(f: Fields, o: bool)
    ensures ParseContents(f, None, "b", "{", true, o) == Parsed(f, "", Some(UnexpectedChar), true, true, false)
  {
    NextExample('{', "");
    assert ['{'] + "" == "{";
    hide NonWhite, AfterSeparator;
    assert NonWhite("") == Stop(UnexpectedEof, "");
    assert ParseDefs(f, "", true, o) == Good(f, "");
  }

  lemma QuestionExample()
    ensures NonWhite("?a.b {") == Next('?', "a.b {") && NonWhite(".b {") == Next('.', "b {")
    ensures NonWhite("b {") == Next('b', " {") && NonWhite(" {") == Next('{', "")
    ensures GetString(true, "a.b {") == Got("a", false, ".b {") && GetString(true, "b {") == Got("b", false, " {")
    ensures ['b'] + " {" == "b {" && ['{'] + "" == "{"
  {
    assert ['?'] + "a.b {" == "?a.b {" && ['.'] + "b {" == ".b {" && ['b'] + " {" == "b {" && " " + "{" == " {";
    NextExample('?', "a.b {");
    NextExample('.', "b {");
    NextExample('b', " {");
    NextExample('{', "");
    BlankExample("{");
    WordUpTo('a', ".b {");
    WordUpTo('b', " {");
    assert ['a'] + ".b {" == "a.b {" && ['{'] + "" == "{";
  }

  lemma WordUpTo(c: char, rest: string)
    requires c in "ab" && rest != "" && rest[0] in ". "
    ensures GetString(true, [c] + rest) == Got([c], false, rest)
  {
    NextExample(c, rest);
    hide NonWhite, DelimString;
    assert FreeString(true, rest) == ("", rest);
    assert ([c] + rest)[1..] == rest && [c] + "" == [c];
    assert FreeString(true, [c] + rest) == ([c], rest);
  }

  // What the lexer finds in the text below.
  lemma LexExample()
    ensures NonWhite("{-b {}]") == Next('{', "-b {}]")
    ensures NonWhite("-b {}]") == Next('-', "b {}]")
    ensures GetString(true, "b {}]") == Got("b", false, " {}]")
    ensures NonWhite(" {}]") == NonWhite("{}]") == Next('{', "}]")
    ensures NonWhite("}]") == Next('}', "]") && NonWhite("]") == Next(']', "")
    ensures GetString(true, "]") == Bad(UnexpectedChar, "") && AfterSeparator("]") == "]"
    ensures ['-'] + "b {}]" == "-b {}]" && ['{'] + "}]" == "{}]" && ['}'] + "]" == "}]" && [']'] + "" == "]"
  {
    hide FreeString, DelimString, NonWhite;
    assert ['{'] + "-b {}]" == "{-b {}]" && ['-'] + "b {}]" == "-b {}]" && ['{'] + "}]" == "{}]";
    assert ['}'] + "]" == "}]" && [']'] + "" == "]" && " " + "{}]" == " {}]";
    NextExample('{', "-b {}]");
    NextExample('-', "b {}]");
    NextExample('{', "}]");
    NextExample('}', "]");
    NextExample(']', "");
    BlankExample("{}]");
    WordExample();
  }

  lemma NextExample(c: char, rest: string)
    requires !IsWhite(c) && c != '<' && c != '#'
    ensures NonWhite([c] + rest) == Next(c, rest)
  {
    assert ([c] + rest)[1..] == rest;
  }

  lemma BlankExample(rest: string)
    ensures NonWhite(" " + rest) == NonWhite(rest)
  {
    assert (" " + rest)[1..] == rest;
  }

  lemma WordExample()
    ensures GetString(true, "b {}]") == Got("b", false, " {}]")
  {
    WordUpTo('b', " {}]");
    assert ['b'] + " {}]" == "b {}]";
  }

  // The element of an array starts `-b {`, where the tree has no `b`: an error, which
  // is swallowed as soon as the next character is the closing brace. Skipping meets
  // no error there and needs a second brace.
  lemma SwallowedError()
    ensures var r := ParseArrayDef([], 0, "{-b {}]", false, false);
      r.Ok() && !r.clean && r.rest == "]"
    ensures !ParseArrayDef([], 0, "{-b {}]", true, false).Ok()
  {
    hide NonWhite, ParseDefs, GetString;
    LexExample();
    ReadExample();
    SkipExample();
  }

  lemma ReadExample()
    ensures ParseDefs([], "-b {}]", false, false) == Fail([], "}]", NoEntry)
  {
    hide NonWhite, GetString, ParseContents, ParseComponent;
    LexExample();
    assert ParseBody([], "b", Merge, "{}]", false, false) == Fail([], "}]", NoEntry);
    assert ParseKeyed([], "b", Merge, " {}]", false, false) == Fail([], "}]", NoEntry);
    assert ParseDef([], "-b {}]", false, false) == Fail([], "}]", NoEntry);
  }

  lemma SkipExample()
    ensures var d := ParseDefs([], "-b {}]", true, false); !d.Ok() && d.rest == ""
  {
    hide NonWhite, GetString, ParseComponent, AfterSeparator;
    LexExample();
    assert ParseDefs([], "}]", true, false) == Good([], "}]");
    assert ParseContents([], None, "b", "{}]", true, false) == Good([], "]");
    assert ParseKeyed([], "b", Merge, " {}]", true, false) == Good([], "]");
    assert ParseDef([], "-b {}]", true, false) == Good([], "]");
    assert ParseDef([], "]", true, false) == Fail([], "", UnexpectedChar);
    assert ParseDefs([], "]", true, false) == Fail([], "", UnexpectedChar);
  }
}
