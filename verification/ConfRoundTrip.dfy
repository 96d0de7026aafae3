// Loading what was saved gives the same tree.

module ConfRoundTrip {
  import opened ConfText
  import opened ConfTree
  import opened ConfParse
  import opened ConfSave

  predicate IsTextChar(c: char) {
    (' ' <= c <= '~' && c != '\\') || c == '\t' || c == VT || c == BS || c == '\r' || c == FF
  }

  // Strings whose printed form is read back as the same string.
  predicate IsSavable(s: string, id: bool) {
    && (forall c :: c in s ==> IsTextChar(c))
    && (IsBare(s, id) ==>
         s[0] != '<' && (id ==> s[0] !in "+-?!") && forall c :: c in s ==> c !in "[]#")
  }

  // Trees that survive: unique ids, joined compounds only with children, integers in
  // the node type that reading gives them, no reals.
  predicate IsSavableNode(node: Node)
    decreases node
  {
    match node
    case Integer(i) => LLONG_MIN <= i <= INT_MAX
    case Integer64(i) => INT_MAX < i <= LLONG_MAX
    case Real(_) => false
    case Str(s) => IsSavable(s, false)
    case Compound(join, fields) => (join ==> fields != []) && AreSavable(fields)
  }

  predicate AreSavable(fields: Fields)
    decreases fields
  {
    && UniqueIds(fields)
    && forall f :: f in fields ==> IsSavable(f.id, true) && IsSavableNode(f.node)
  }

  // ---- words and quoted strings ----

  lemma {:induction false} ReadEscaped(s: string, rest: string)
    requires forall c :: c in s ==> IsTextChar(c)
    ensures DelimString('\'', EscapeAll(s) + "'" + rest) == Some((s, rest))
  {
    hide IsTextChar, Escape;
    var text := EscapeAll(s) + "'" + rest;
    if s == "" {
      assert text == "'" + rest;
      assert text[1..] == rest;
    } else {
      var more := EscapeAll(s[1..]) + "'" + rest;
      assert text == Escape(s[0]) + more;
      assert IsTextChar(s[0]);
      ReadEscapedChar(s[0], more);
      ReadEscaped(s[1..], rest);
      assert s == [s[0]] + s[1..];
    }
  }

  lemma ReadEscapedChar(c: char, more: string)
    requires IsTextChar(c)
    ensures var r := DelimString('\'', more); var all := DelimString('\'', Escape(c) + more);
      all == if r.None? then r else Some(([c] + r.value.0, r.value.1))
  {
    var text := Escape(c) + more;
    if |Escape(c)| == 2 {
      assert text[0] == '\\' && text[1..] == [text[1]] + more && text[1..][1..] == more;
      assert QuotedChar(text[1..]) == Some((c, more));
    } else {
      assert text[0] == c && text[1..] == more;
    }
  }

  lemma {:induction false} ReadWord(s: string, id: bool, rest: string)
    requires forall c :: c in s ==> !EndsWord(c, id)
    requires rest != "" ==> EndsWord(rest[0], id)
    ensures FreeString(id, s + rest) == (s, rest)
  {
    if s == "" {
      assert s + rest == rest;
    } else {
      assert (s + rest)[1..] == s[1..] + rest && s[0] in s;
      ReadWord(s[1..], id, rest);
      assert s == [s[0]] + s[1..];
    }
  }

  lemma SavableChars(s: string, id: bool)
    requires IsSavable(s, id)
    ensures forall c :: c in s ==> IsTextChar(c)
  {
  }

  lemma BareWord(s: string, id: bool)
    requires IsSavable(s, id) && IsBare(s, id)
    ensures forall c :: c in s ==> !EndsWord(c, id) && c != '.'
    ensures s[0] !in "=,;.{}[]\\'\"#<" && !IsWhite(s[0])
  {
    assert s[0] in s;
  }

  // The printed form is one string for the lexer, at the end of which it stops.
  lemma ReadString(s: string, id: bool, rest: string)
    requires IsSavable(s, id) && rest != "" && EndsWord(rest[0], id)
    ensures GetString(id, StringPrint(s, id) + rest) == Got(s, !IsBare(s, id), rest)
  {
    hide FreeString, EndsWord, IsSavable, DelimString, EscapeAll;
    var text := StringPrint(s, id) + rest;
    if IsBare(s, id) {
      BareWord(s, id);
      ReadWord(s, id, rest);
      assert text == [s[0]] + text[1..];
    } else {
      assert text == "'" + (EscapeAll(s) + "'" + rest);
      assert text[1..] == EscapeAll(s) + "'" + rest;
      SavableChars(s, id);
      ReadEscaped(s, rest);
    }
  }

  // How a printed string starts.
  lemma StartsWell(s: string, id: bool, rest: string)
    requires IsSavable(s, id)
    ensures var text := StringPrint(s, id) + rest;
      && text != "" && text[0] !in "=,;.{}[]\\#<" && !IsWhite(text[0])
      && (id ==> text[0] !in "+-?!")
      && NonWhite(text) == Next(text[0], text[1..])
  {
    if IsBare(s, id) { BareWord(s, id); }
  }

  // ---- integers ----

  lemma {:induction false} DigitsTextDigits(n: nat)
    ensures var t := DigitsText(n);
      t != "" && (forall c :: c in t ==> IsDigit(c)) && (t[0] == '0' <==> n == 0) && (n == 0 ==> t == "0")
  {
    if n >= 10 {
      DigitsTextDigits(n / 10);
    }
  }

  lemma {:induction false} DigitsAppend(s: string, c: char, acc: nat)
    ensures DigitsVal(10, s + [c], acc) == 10 * DigitsVal(10, s, acc) + DigitOf(c)
  {
    if s == "" {
      assert DigitsVal(10, [c], acc) == DigitsVal(10, "", 10 * acc + DigitOf(c));
    } else {
      assert (s + [c])[1..] == s[1..] + [c];
      DigitsAppend(s[1..], c, 10 * acc + DigitOf(s[0]));
    }
  }

  lemma {:induction false} DigitsTextValue(n: nat)
    ensures DigitsVal(10, DigitsText(n), 0) == n
  {
    if n >= 10 {
      DigitsTextValue(n / 10);
      DigitsAppend(DigitsText(n / 10), '0' + (n % 10) as char, 0);
    } else {
      assert DigitsVal(10, DigitsText(n), 0) == DigitsVal(10, "", DigitOf('0' + n as char));
    }
  }

  lemma ReadDigits(n: nat)
    ensures Unsigned(DigitsText(n)) == Some(n)
  {
    DigitsTextDigits(n);
    DigitsTextValue(n);
    var t := DigitsText(n);
    assert AreDigits(10, t);
    if n == 0 {
      assert DigitsVal(8, "0", 0) == DigitsVal(8, "", 0);
    }
  }

  // Printing and parsing an integer is the identity, up to saturation.
  lemma ReadInt(i: int)
    ensures ParseInt(IntText(i)) == Some(if i > LLONG_MAX then LLONG_MAX else if i < LLONG_MIN then LLONG_MIN else i)
  {
    var n: nat := if i < 0 then -i else i;
    ReadDigits(n);
    DigitsTextDigits(n);
    if i < 0 {
      assert ("-" + DigitsText(n))[1..] == DigitsText(n);
    } else {
      assert DigitsText(n)[0] in DigitsText(n);
    }
  }

  // ---- scalars ----

  predicate IsScalar(node: Node) {
    !node.Compound?
  }

  lemma IntChars(i: int)
    ensures var t := IntText(i);
      && t != "" && (IsDigit(t[0]) || t[0] == '-') && (forall c :: c in t ==> !EndsWord(c, false))
      && t[0] !in "=,;.{}[]\\'\"#<" && !IsWhite(t[0])
  {
    hide DigitsText;
    var n: nat := if i < 0 then -i else i;
    DigitsTextDigits(n);
    var t := IntText(i);
    assert t[0] in t;
    forall c | c in t ensures !EndsWord(c, false) {
      assert IsDigit(c) || c == '-';
    }
  }

  lemma ReadIntWord(i: int, rest: string)
    requires rest != "" && EndsWord(rest[0], false)
    ensures GetString(false, IntText(i) + rest) == Got(IntText(i), false, rest)
    ensures NonWhite(IntText(i) + rest) == Next(IntText(i)[0], (IntText(i) + rest)[1..])
    ensures IntText(i) != ""
  {
    hide FreeString, IntText, DelimString, EndsWord;
    var t := IntText(i);
    IntChars(i);
    ReadWord(t, false, rest);
    assert t + rest == [t[0]] + (t + rest)[1..];
  }

  // A saved scalar is read back, type included.
  lemma ReadScalar(node: Node, level: nat, rest: string)
    requires IsScalar(node) && IsSavableNode(node) && rest != "" && EndsWord(rest[0], false)
    ensures var text := SaveValue(node, level) + rest;
      && text != "" && text[0] !in "=.{[]" && NonWhite(text) == Next(text[0], text[1..])
      && match GetString(false, text)
         case Bad(_, _) => false
         case Got(s, delimited, rest2) => rest2 == rest && Scalar(s, delimited) == node
  {
    hide FreeString, DigitsText, DelimString, EscapeAll, IsSavable, GetString, NonWhite, ParseInt, EndsWord;
    match node
    case Integer(i) =>
      ReadIntWord(i, rest);
      IntChars(i);
      ReadInt(i);
    case Integer64(i) =>
      ReadIntWord(i, rest);
      IntChars(i);
      ReadInt(i);
    case Str(s) =>
      ReadString(s, false, rest);
      StartsWell(s, false, rest);
  }

  // ---- lines ----

  // The tree in the middle of a save: `inner` inside the joined compounds `levels`,
  // each of which exists as soon as it has a child.
  function Under(levels: seq<(Fields, string)>, inner: Fields): Fields {
    if levels == [] then inner
    else
      var sub := Under(levels[1..], inner);
      if sub == [] then levels[0].0
      else levels[0].0 + [Field(levels[0].1, Compound(true, sub))]
  }

  predicate IsNew(fields: Fields, id: string) {
    forall f :: f in fields ==> f.id != id
  }

  predicate AreNew(levels: seq<(Fields, string)>) {
    forall l :: l in levels ==> IsNew(l.0, l.1) && IsSavable(l.1, true)
  }

  function Ids(levels: seq<(Fields, string)>): seq<string> {
    if levels == [] then [] else [levels[0].1] + Ids(levels[1..])
  }

  lemma {:induction false} UnderEmpty(levels: seq<(Fields, string)>, base: Fields, id: string)
    ensures Under(levels + [(base, id)], []) == Under(levels, base)
    ensures Ids(levels + [(base, id)]) == Ids(levels) + [id]
  {
    if levels != [] {
      assert (levels + [(base, id)])[1..] == levels[1..] + [(base, id)];
      UnderEmpty(levels[1..], base, id);
    }
  }

  lemma {:induction false} UnderFull(levels: seq<(Fields, string)>, base: Fields, id: string, sub: Fields)
    requires sub != []
    ensures Under(levels + [(base, id)], sub) == Under(levels, base + [Field(id, Compound(true, sub))])
  {
    if levels == [] {
      assert (levels + [(base, id)])[1..] == [];
    } else {
      assert (levels + [(base, id)])[1..] == levels[1..] + [(base, id)];
      UnderFull(levels[1..], base, id, sub);
    }
  }

  lemma {:induction false} SearchLast(base: Fields, f: Field)
    requires IsNew(base, f.id)
    ensures Search(base, f.id) == None
    ensures Search(base + [f], f.id) == Some(|base|)
    ensures (base + [f])[|base|] == f
  {
    if base == [] {
      assert Search([f], f.id) == Some(0);
      assert [] + [f] == [f];
    } else {
      assert base[0] in base && forall g :: g in base[1..] ==> g in base;
      assert (base + [f])[1..] == base[1..] + [f] && (base + [f])[0] == base[0];
      SearchLast(base[1..], f);
    }
  }

  // `text` is a printed id and what follows it on its line.
  lemma KeyStart(id: string, rest: string)
    requires IsSavable(id, true) && rest != "" && (rest[0] == '.' || rest[0] == ' ')
    ensures var text := StringPrint(id, true) + rest;
      forall fields, override :: ParseDef(fields, text, false, override)
        == ParseKeyed(fields, id, ModeOf('x', override), rest, false, override)
  {
    hide StringPrint, IsSavable, GetString, NonWhite, ParseKeyed;
    StartsWell(id, true, rest);
    ReadString(id, true, rest);
    var text := StringPrint(id, true) + rest;
    assert text == [text[0]] + text[1..];
  }

  // One more component of a key leads into the innermost compound.
  lemma {:induction false} ReadLine(levels: seq<(Fields, string)>, acc: Fields, f: Field, value: string,
                                    tail: string, r: Parsed)
    requires AreNew(levels) && IsNew(acc, f.id) && IsSavable(f.id, true) && value != ""
    requires ParseKeyed(acc, f.id, MergeCreate, " " + value, false, false) == r
    requires r.fields == acc + [f]
    ensures ParseDef(Under(levels, acc), IdPrint(Ids(levels) + [f.id]) + " " + value, false, false)
         == r.(fields := Under(levels, acc + [f]))
    decreases levels
  {
    hide StringPrint, IsSavable, ParseDef, ParseKeyed;
    if levels == [] {
      assert Ids(levels) + [f.id] == [f.id];
      KeyStart(f.id, " " + value);
      assert IdPrint([f.id]) + " " + value == StringPrint(f.id, true) + (" " + value);
    } else {
      var base, id := levels[0].0, levels[0].1;
      assert levels[0] in levels;
      var inner := IdPrint(Ids(levels[1..]) + [f.id]) + " " + value;
      assert Ids(levels) + [f.id] == [id] + (Ids(levels[1..]) + [f.id]);
      var ids := Ids(levels) + [f.id];
      assert ids[1..] == Ids(levels[1..]) + [f.id];
      assert IdPrint(ids) + " " + value == StringPrint(id, true) + ("." + inner);
      KeyStart(id, "." + inner);
      ReadLine(levels[1..], acc, f, value, tail, r);
      KeyDown(base, id, Under(levels[1..], acc), inner);
      assert Under(levels[1..], acc + [f]) != [] by { UnderNonempty(levels[1..], acc + [f]); }
    }
  }

  lemma {:induction false} UnderNonempty(levels: seq<(Fields, string)>, inner: Fields)
    requires inner != []
    ensures Under(levels, inner) != []
  {
    if levels != [] { UnderNonempty(levels[1..], inner); }
  }

  // A dot behind the id of the last child, or of no child yet.
  lemma KeyDown(base: Fields, id: string, sub: Fields, inner: string)
    requires IsNew(base, id)
    ensures var fields := if sub == [] then base else base + [Field(id, Compound(true, sub))];
      var d := ParseDef(sub, inner, false, false);
      ParseKeyed(fields, id, MergeCreate, "." + inner, false, false)
        == d.(fields := base + [Field(id, Compound(true, d.fields))])
  {
    hide ParseDef, ParseContents;
    assert ("." + inner)[1..] == inner;
    assert NonWhite("." + inner) == Next('.', inner);
    var f := Field(id, Compound(true, sub));
    SearchLast(base, f);
    var fields := if sub == [] then base else base + [f];
    assert ParseKeyed(fields, id, MergeCreate, "." + inner, false, false)
        == ParseComponent(fields, id, MergeCreate, inner, false, false);
    if sub == [] {
      assert ParseComponent(base, id, MergeCreate, inner, false, false) == ParseInside(base, id, inner, false);
    } else {
      assert ParseComponent(fields, id, MergeCreate, inner, false, false)
          == ParseExisting(fields, |base|, inner, false);
    }
    var g := ParseDef(sub, inner, false, false).fields;
    assert (base + [f])[|base| := Field(id, Compound(true, g))] == base + [Field(id, Compound(true, g))];
  }

  // ---- whole trees ----

  // Text at which a definition may end.
  predicate GoodTail(tail: string) {
    match NonWhite(tail)
    case Next(c, _) => c != ';' && c != ','
    case Stop(e, _) => e == UnexpectedEof
  }

  lemma {:induction false} SkipTabs(level: nat, text: string)
    ensures NonWhite(Tabs(level) + text) == NonWhite(text)
  {
    if level == 0 {
      assert Tabs(0) + text == text;
    } else {
      assert (Tabs(level) + text)[1..] == Tabs(level - 1) + text;
      SkipTabs(level - 1, text);
    }
  }

  lemma SkipNewline(text: string)
    ensures NonWhite("\n" + text) == NonWhite(text)
  {
    assert ("\n" + text)[1..] == text;
  }

  // parse_defs sees only what get_nonwhite gives it.
  lemma SameDefs(fields: Fields, a: string, b: string)
    requires NonWhite(a) == NonWhite(b)
    ensures ParseDefs(fields, a, false, false) == ParseDefs(fields, b, false, false)
  {
    hide NonWhite, ParseDef;
  }

  lemma AfterLine(fields: Fields, tail: string)
    requires GoodTail(tail)
    ensures ParseDefs(fields, AfterSeparator("\n" + tail), false, false) == ParseDefs(fields, tail, false, false)
  {
    hide ParseDef;
    SkipNewline(tail);
    match NonWhite(tail)
    case Next(c, rest) =>
      assert ([c] + rest)[1..] == rest;
      assert NonWhite([c] + rest) == Next(c, rest);
    case Stop(_, _) =>
  }

  // A blank between key and value, for a key that is not there yet.
  lemma ToContents(acc: Fields, id: string, value: string)
    requires IsNew(acc, id) && value != "" && value[0] !in ".="
    requires NonWhite(value) == Next(value[0], value[1..])
    ensures ParseKeyed(acc, id, MergeCreate, " " + value, false, false)
      == ParseContents(acc, None, id, value, false, false)
  {
    hide NonWhite, ParseContents;
    SkipBlank(value);
    assert [value[0]] + value[1..] == value;
    SearchLast(acc, Field(id, Str("")));
  }

  // A definition whose value is a scalar ...
  lemma ScalarLoads(acc: Fields, id: string, node: Node, level: nat, tail: string)
    requires IsNew(acc, id) && IsSavableNode(node) && IsScalar(node)
    ensures var value := SaveValue(node, level) + ("\n" + tail);
      ParseKeyed(acc, id, MergeCreate, " " + value, false, false)
        == Good(acc + [Field(id, node)], AfterSeparator("\n" + tail))
  {
    hide GetString, NonWhite, SaveValue, Scalar, AfterSeparator, IsSavableNode;
    var value := SaveValue(node, level) + ("\n" + tail);
    ReadScalar(node, level, "\n" + tail);
    ToContents(acc, id, value);
  }

  lemma SkipBlank(text: string)
    ensures NonWhite(" " + text) == NonWhite(text)
  {
    assert (" " + text)[1..] == text;
  }

  // ... or a compound, given that its children load.
  lemma {:induction false} CompoundLoads(acc: Fields, id: string, fields: Fields, level: nat, tail: string)
    requires IsNew(acc, id) && AreSavable(fields)
    ensures var value := SaveValue(Compound(false, fields), level) + ("\n" + tail);
      ParseKeyed(acc, id, MergeCreate, " " + value, false, false)
        == Good(acc + [Field(id, Compound(false, fields))], AfterSeparator("\n" + tail))
    decreases fields, 2
  {
    hide NonWhite, AfterSeparator, AreSavable, ParseDefs, ParseBrackets, IsSavable, SaveChildren;
    var close := "}" + ("\n" + tail);
    var inner := SaveChildren(fields, level + 1, []) + (Tabs(level) + close);
    var value := SaveValue(Compound(false, fields), level) + ("\n" + tail);
    assert value == "{" + ("\n" + inner);
    ReadBrace('{', "\n" + inner);
    ReadBrace('}', "\n" + tail);
    ToContents(acc, id, value);
    SkipTabs(level, close);
    assert GoodTail(Tabs(level) + close);
    SavableUnique(fields);
    ChildrenLoad(fields, level + 1, [], [], Tabs(level) + close);
    SkipNewline(inner);
    SameDefs([], "\n" + inner, inner);
    DefsEnd(fields, Tabs(level) + close, "\n" + tail);
    Closes(acc, id, fields, "\n" + inner, "\n" + tail);
  }

  // A new compound between its braces.
  lemma Closes(acc: Fields, id: string, fields: Fields, inner: string, rest: string)
    requires ParseDefs([], inner, false, false) == Good(fields, "}" + rest)
    ensures ParseBrackets(acc, None, id, '{', inner, false, false)
         == Good(acc + [Field(id, Compound(false, fields))], rest)
  {
    hide NonWhite, ParseDefs, ParseArrayDefs;
    ReadBrace('}', rest);
    assert (acc + [Field(id, Compound(false, []))])[|acc| := Field(id, Compound(false, fields))]
        == acc + [Field(id, Compound(false, fields))];
  }

  lemma SavableUnique(fields: Fields)
    requires AreSavable(fields)
    ensures [] + fields == fields && UniqueIds(fields)
  {
    assert [] + fields == fields;
  }

  lemma ReadBrace(c: char, rest: string)
    requires c in "{}"
    ensures NonWhite([c] + rest) == Next(c, rest)
  {
    assert ([c] + rest)[1..] == rest;
  }

  lemma DefsEnd(fields: Fields, text: string, rest: string)
    requires NonWhite(text) == Next('}', rest)
    ensures ParseDefs(fields, text, false, false) == Good(fields, "}" + rest)
  {
  }

  lemma {:induction false} FieldLoads(f: Field, level: nat, levels: seq<(Fields, string)>, acc: Fields,
                                      tail: string)
    requires IsSavable(f.id, true) && IsSavableNode(f.node)
    requires AreNew(levels) && IsNew(acc, f.id) && GoodTail(tail)
    ensures GoodTail(SaveField(f, level, Ids(levels)) + tail)
    ensures ParseDefs(Under(levels, acc), SaveField(f, level, Ids(levels)) + tail, false, false)
         == ParseDefs(Under(levels, acc + [f]), tail, false, false)
    decreases f, 3
  {
    hide IsSavable, ParseDefs, SaveChildren, SaveValue, GoodTail, IdPrint, ParseKeyed, AfterSeparator;
    if f.node.Compound? && f.node.join {
      var more := levels + [(acc, f.id)];
      UnderEmpty(levels, acc, f.id);
      UnderFull(levels, acc, f.id, f.node.fields);
      assert [] + f.node.fields == f.node.fields;
      ChildrenLoad(f.node.fields, level, more, [], tail);
    } else {
      if f.node.Compound? {
        CompoundLoads(acc, f.id, f.node.fields, level, tail);
      } else {
        ScalarLoads(acc, f.id, f.node, level, tail);
      }
      LineLoads(f, level, levels, acc, tail);
    }
  }

  lemma LineLoads(f: Field, level: nat, levels: seq<(Fields, string)>, acc: Fields, tail: string)
    requires IsSavable(f.id, true) && AreNew(levels) && IsNew(acc, f.id) && GoodTail(tail)
    requires f.node.Compound? ==> !f.node.join
    requires ParseKeyed(acc, f.id, MergeCreate, " " + (SaveValue(f.node, level) + ("\n" + tail)), false, false)
      == Good(acc + [f], AfterSeparator("\n" + tail))
    ensures GoodTail(SaveField(f, level, Ids(levels)) + tail)
    ensures ParseDefs(Under(levels, acc), SaveField(f, level, Ids(levels)) + tail, false, false)
         == ParseDefs(Under(levels, acc + [f]), tail, false, false)
  {
    hide IsSavable, SaveChildren, SaveValue, IdPrint, ParseKeyed, ParseDef, AfterSeparator, NonWhite;
    var value := SaveValue(f.node, level) + ("\n" + tail);
    var body := IdPrint(Ids(levels) + [f.id]) + " " + value;
    assert SaveField(f, level, Ids(levels)) + tail == Tabs(level) + body;
    SkipTabs(level, body);
    LineStarts(levels, f.id, value);
    assert body == [body[0]] + body[1..];
    ValueNonempty(f.node, level);
    ReadLine(levels, acc, f, value, tail, Good(acc + [f], AfterSeparator("\n" + tail)));
    AfterLine(Under(levels, acc + [f]), tail);
  }

  lemma ValueNonempty(node: Node, level: nat)
    ensures SaveValue(node, level) + "\n" != ""
  {
  }

  lemma FirstId(path: seq<string>)
    requires path != []
    ensures IdPrint(path) == StringPrint(path[0], true) + if |path| == 1 then "" else "." + IdPrint(path[1..])
  {
    hide StringPrint;
  }

  lemma LineStarts(levels: seq<(Fields, string)>, id: string, value: string)
    requires IsSavable(id, true) && AreNew(levels)
    ensures var body := IdPrint(Ids(levels) + [id]) + " " + value;
      && body != "" && body[0] !in "}=,;" && NonWhite(body) == Next(body[0], body[1..])
  {
    hide NonWhite, IsSavable, StringPrint, IdPrint;
    var ids := Ids(levels) + [id];
    var more := if |ids| == 1 then "" else "." + IdPrint(ids[1..]);
    if levels != [] { assert levels[0] in levels; }
    FirstId(ids);
    assert IdPrint(ids) + " " + value == StringPrint(ids[0], true) + (more + " " + value);
    StartsWell(ids[0], true, more + " " + value);
  }

  lemma {:induction false} ChildrenLoad(fields: Fields, level: nat, levels: seq<(Fields, string)>,
                                        acc: Fields, tail: string)
    requires AreSavable(fields) && UniqueIds(acc + fields) && AreNew(levels) && GoodTail(tail)
    ensures GoodTail(SaveChildren(fields, level, Ids(levels)) + tail)
    ensures ParseDefs(Under(levels, acc), SaveChildren(fields, level, Ids(levels)) + tail, false, false)
         == ParseDefs(Under(levels, acc + fields), tail, false, false)
    decreases fields, 1
  {
    hide IsSavable, IsSavableNode, ParseDefs, SaveField, GoodTail, AreNew;
    if fields == [] {
      assert SaveChildren(fields, level, Ids(levels)) + tail == tail && acc + fields == acc;
    } else {
      var f, rest := fields[0], fields[1..];
      var text := SaveChildren(rest, level, Ids(levels)) + tail;
      assert SaveChildren(fields, level, Ids(levels)) + tail == SaveField(f, level, Ids(levels)) + text;
      assert f in fields && forall g :: g in rest ==> g in fields;
      assert acc + fields == (acc + [f]) + rest;
      assert IsNew(acc, f.id) by {
        forall g | g in acc ensures g.id != f.id {
          var i :| 0 <= i < |acc| && acc[i] == g;
          assert (acc + fields)[i].id != (acc + fields)[|acc|].id;
        }
      }
      assert AreSavable(rest);
      ChildrenLoad(rest, level, levels, acc + [f], tail);
      FieldLoads(f, level, levels, acc, text);
    }
  }

  // Save then load is the identity: child order, node types, join flags and all.
  lemma LoadSaved(fields: Fields)
    requires AreSavable(fields)
    ensures Load([], Save(fields), false) == Good(fields, "")
  {
    hide SaveChildren, AreSavable;
    SavableUnique(fields);
    ChildrenLoad(fields, 0, [], [], "");
    assert Save(fields) + "" == Save(fields);
  }
}
