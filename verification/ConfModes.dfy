// The operation modes of a definition in a configuration file (parse_def in src/conf.c):
// what the prefixes `+`, `-`, `?` and `!` mean, and the override flag.

module ConfModes {
  import opened ConfText
  import opened ConfTree
  import opened ConfParse
  import opened ConfSave
  import opened ConfRoundTrip
  import opened ConfSearch
  import opened ConfAssign
  import opened ConfArgs

  // A definition without a prefix: the first component of its key, and what follows that.
  predicate StartsWith(text: string, id: string, rest: string) {
    && NonWhite(text).Next? && NonWhite(text).c !in "+-?!"
    && match GetString(true, text)
       case Bad(_, _) => false
       case Got(s, _, r) => s == id && r == rest
  }

  predicate IsThere(fields: Fields, id: string) {
    exists f :: f in fields && f.id == id
  }

  lemma Prefixed(fields: Fields, p: char, text: string, id: string, rest: string, o: bool)
    requires StartsWith(text, id, rest) && p in "+-?!"
    ensures ParseDef(fields, [p] + text, false, o) == ParseKeyed(fields, id, ModeOf(p, o), rest, false, o)
    ensures ParseDef(fields, text, false, o) == ParseKeyed(fields, id, ModeOf('x', o), rest, false, o)
  {
    hide GetString, ParseKeyed;
    assert ([p] + text)[1..] == text;
    assert NonWhite([p] + text) == Next(p, text);
    SameWord(text);
  }

  lemma SameWord(text: string)
    requires NonWhite(text).Next?
    ensures GetString(true, [NonWhite(text).c] + NonWhite(text).rest) == GetString(true, text)
  {
    var next := NonWhite(text);
    assert ([next.c] + next.rest)[1..] == next.rest;
    assert NonWhite([next.c] + next.rest) == next;
  }

  // ---- `!` and the override flag ----

  // `!` deletes the key, and then is the same as any other definition that makes one. If
  // nothing follows the equal sign, it does not get that far.
  lemma OverrideLaw(fields: Fields, text: string, id: string, rest: string, o: bool)
    requires StartsWith(text, id, rest) && UniqueIds(fields)
    ensures var r := ParseDef(fields, "!" + text, false, o);
      if HasValue(rest) then r == ParseDef(Without(fields, id), text, false, o) else !r.Ok() && r.fields == fields
  {
    hide ParseDef, ParseKeyed, StartsWith;
    Prefixed(fields, '!', text, id, rest, o);
    Prefixed(Without(fields, id), '!', text, id, rest, o);
    NoLongerThere(fields, id);
    OverrideKeyed(fields, id, rest, o);
    MissingKeyed(Without(fields, id), id, Override, ModeOf('x', o), rest, o);
  }

  // With the override flag, no prefix is `!`; without it, it is `+`.
  lemma NoPrefixLaw(fields: Fields, text: string, id: string, rest: string, o: bool)
    requires StartsWith(text, id, rest)
    ensures ParseDef(fields, text, false, o) == ParseDef(fields, (if o then "!" else "+") + text, false, o)
  {
    hide ParseDef, ParseKeyed, StartsWith;
    Prefixed(fields, if o then '!' else '+', text, id, rest, o);
  }

  lemma NoLongerThere(fields: Fields, id: string)
    requires UniqueIds(fields)
    ensures Search(Without(fields, id), id).None? && UniqueIds(Without(fields, id))
  {
    var w := Without(fields, id);
    match Search(fields, id)
    case None =>
    case Some(k) =>
      forall i | 0 <= i < |w| ensures w[i].id != id {
        assert w[i] == if i < k then fields[i] else fields[i+1];
      }
      var r := Search(w, id);
  }

  lemma OverrideKeyed(fields: Fields, id: string, inp: string, o: bool)
    requires UniqueIds(fields)
    ensures var r := ParseKeyed(fields, id, Override, inp, false, o);
      if HasValue(inp) then r == ParseKeyed(Without(fields, id), id, Override, inp, false, o)
      else !r.Ok() && r.fields == fields
  {
    hide NonWhite, ParseComponent, ParseBody, Without;
    match NonWhite(inp)
    case Stop(_, _) => OverrideAt(fields, id, inp, o);
    case Next(c, rest) =>
      OverrideAt(fields, id, rest, o);
      OverrideAt(fields, id, [c] + rest, o);
      match NonWhite(rest)
      case Stop(_, _) =>
      case Next(c2, rest2) => OverrideAt(fields, id, [c2] + rest2, o);
  }

  lemma OverrideAt(fields: Fields, id: string, inp: string, o: bool)
    requires UniqueIds(fields)
    ensures ParseComponent(fields, id, Override, inp, false, o)
         == ParseComponent(Without(fields, id), id, Override, inp, false, o)
    ensures ParseBody(fields, id, Override, inp, false, o)
         == ParseBody(Without(fields, id), id, Override, inp, false, o)
  {
    hide NonWhite, ParseInside, ParseContents, Search;
    NoLongerThere(fields, id);
  }

  // ---- a key that is missing ----

  lemma MissingKeyed(fields: Fields, id: string, m: Mode, m2: Mode, inp: string, o: bool)
    requires Search(fields, id).None? && m != Merge && m2 != Merge
    ensures ParseKeyed(fields, id, m, inp, false, o) == ParseKeyed(fields, id, m2, inp, false, o)
  {
    hide NonWhite, ParseInside, ParseContents, Search;
  }

  lemma NotThere(fields: Fields, id: string)
    ensures Search(fields, id).Some? <==> IsThere(fields, id)
  {
    var r := Search(fields, id);
    if r.Some? { assert fields[r.value] in fields; }
  }

  // Then `-` is an error, which leaves the tree alone; all others make it.
  lemma MissingLaw(fields: Fields, text: string, id: string, rest: string, o: bool)
    requires StartsWith(text, id, rest) && !IsThere(fields, id)
    ensures forall p :: p in "+?!" ==> ParseDef(fields, [p] + text, false, o) == ParseDef(fields, text, false, o)
    ensures var r := ParseDef(fields, "-" + text, false, o);
      !r.Ok() && r.fields == fields && (HasValue(rest) ==> r.status == Some(NoEntry))
  {
    hide ParseDef, ParseKeyed, StartsWith, IsThere;
    NotThere(fields, id);
    forall p | p in "+?!" ensures ParseDef(fields, [p] + text, false, o) == ParseDef(fields, text, false, o) {
      Prefixed(fields, p, text, id, rest, o);
      MissingKeyed(fields, id, ModeOf(p, o), ModeOf('x', o), rest, o);
    }
    Prefixed(fields, '-', text, id, rest, o);
    MissingMerge(fields, id, rest, o);
  }

  // Something follows the key, and the equal sign if there is one.
  predicate HasValue(rest: string) {
    NonWhite(rest).Next? && NonWhite(rest).c == '=' ==> NonWhite(NonWhite(rest).rest).Next?
  }

  lemma MissingMerge(fields: Fields, id: string, inp: string, o: bool)
    requires Search(fields, id).None?
    ensures var r := ParseKeyed(fields, id, Merge, inp, false, o);
      !r.Ok() && r.fields == fields && (HasValue(inp) ==> r.status == Some(NoEntry))
  {
    hide NonWhite, ParseInside, ParseContents, Search;
  }

  // ---- a key that is there ----

  // Then `-` is the same as `+`.
  lemma MergeLaw(fields: Fields, text: string, id: string, rest: string, o: bool)
    requires StartsWith(text, id, rest) && IsThere(fields, id)
    ensures ParseDef(fields, "-" + text, false, o) == ParseDef(fields, "+" + text, false, o)
  {
    hide ParseDef, ParseKeyed, StartsWith, IsThere;
    NotThere(fields, id);
    Prefixed(fields, '-', text, id, rest, o);
    Prefixed(fields, '+', text, id, rest, o);
    ThereKeyed(fields, id, rest, o);
  }

  lemma ThereKeyed(fields: Fields, id: string, inp: string, o: bool)
    requires Search(fields, id).Some?
    ensures ParseKeyed(fields, id, Merge, inp, false, o) == ParseKeyed(fields, id, MergeCreate, inp, false, o)
  {
    hide NonWhite, ParseExisting, ParseContents, Search;
  }

  // `+key.more ...`: the rest of the definition goes into the compound that is there.
  lemma PlusDotted(fields: Fields, text: string, id: string, rest: string, more: string, o: bool, k: nat)
    requires StartsWith(text, id, rest) && NonWhite(rest) == Next('.', more)
    requires k < |fields| && fields[k].id == id && UniqueIds(fields)
    ensures var n, r := fields[k].node, ParseDef(fields, "+" + text, false, o);
      if !n.Compound? then r == Fail(fields, more, Invalid)
      else
        var d := ParseDef(n.fields, more, false, o);
        && r.fields == fields[k := Field(id, Compound(true, d.fields))] && r.rest == d.rest && r.status == d.status
  {
    hide NonWhite, ParseDef, ParseContents, StartsWith;
    Prefixed(fields, '+', text, id, rest, o);
    Found(fields, id, k);
    assert ParseKeyed(fields, id, MergeCreate, rest, false, o)
        == ParseComponent(fields, id, MergeCreate, more, false, o);
    assert ParseComponent(fields, id, MergeCreate, more, false, o) == ParseExisting(fields, k, more, o);
  }

  lemma {:induction false} Found(fields: Fields, id: string, k: nat)
    requires UniqueIds(fields) && k < |fields| && fields[k].id == id
    ensures Search(fields, id) == Some(k)
  {
    var r := Search(fields, id);
    assert fields[k] in fields;
  }

  // `+key { body }`: the body is read into the compound that is there, which keeps its
  // children and its join flag.
  lemma PlusBraces(fields: Fields, text: string, id: string, rest: string, body: string, more: string, o: bool, k: nat)
    requires StartsWith(text, id, rest) && NonWhite(rest) == Next('{', body)
    requires k < |fields| && fields[k].id == id && UniqueIds(fields)
    requires fields[k].node.Compound? ==>
      NonWhite(ParseDefs(fields[k].node.fields, body, false, o).rest) == Next('}', more)
    ensures var n, r := fields[k].node, ParseDef(fields, "+" + text, false, o);
      if !n.Compound? then r == Fail(fields, body, Invalid)
      else
        var d := ParseDefs(n.fields, body, false, o);
        r == d.(fields := fields[k := Field(id, Compound(n.join, d.fields))], rest := AfterSeparator(more),
                loose := false)
  {
    hide NonWhite, ParseDef, ParseDefs, StartsWith, ParseArrayDefs, AfterSeparator;
    Prefixed(fields, '+', text, id, rest, o);
    Found(fields, id, k);
    BraceKeyed(fields, id, rest, body, o, k);
    if fields[k].node.Compound? {
      var n := ParseNested(fields, k, '{', body, false, o);
      assert n.rest == more && n.ending == Matched;
    }
  }

  lemma BraceKeyed(fields: Fields, id: string, rest: string, body: string, o: bool, k: nat)
    requires NonWhite(rest) == Next('{', body) && Search(fields, id) == Some(k)
    ensures ParseKeyed(fields, id, MergeCreate, rest, false, o) ==
      if fields[k].node.Compound? then ParseBlock(fields, Some(k), id, '{', body, false, o)
      else Fail(fields, body, Invalid)
  {
    hide ParseBlock, ParseComponent, Search, NonWhite;
    ReadBrace('{', body);
    assert ParseKeyed(fields, id, MergeCreate, rest, false, o)
        == ParseBody(fields, id, MergeCreate, ['{'] + body, false, o);
    assert ParseBody(fields, id, MergeCreate, ['{'] + body, false, o)
        == ParseContents(fields, Some(k), id, ['{'] + body, false, o);
  }

  // ---- whole files ----

  // The rest of the file does not see the prefix.
  lemma SameRest(fields: Fields, p: char, text: string, id: string, rest: string, g: Fields, o: bool)
    requires StartsWith(text, id, rest) && p in "+-?!"
    requires ParseDef(fields, [p] + text, false, o) == ParseDef(g, text, false, o)
    ensures ParseDefs(fields, [p] + text, false, o) == ParseDefs(g, text, false, o)
  {
    hide ParseDef;
    var next := NonWhite(text);
    assert ([p] + text)[1..] == text;
    assert NonWhite([p] + text) == Next(p, text);
    assert next.c != '}';
    SameDef(g, text, o);
  }

  lemma SameDef(fields: Fields, text: string, o: bool)
    requires NonWhite(text).Next?
    ensures ParseDef(fields, [NonWhite(text).c] + NonWhite(text).rest, false, o) == ParseDef(fields, text, false, o)
  {
    hide ParseKeyed, GetString;
    var next := NonWhite(text);
    assert ([next.c] + next.rest)[1..] == next.rest;
    assert NonWhite([next.c] + next.rest) == next;
  }

  // A file that starts with `!` is read as if the key had never been there.
  lemma OverrideFile(fields: Fields, text: string, id: string, rest: string, o: bool)
    requires StartsWith(text, id, rest) && UniqueIds(fields) && HasValue(rest)
    ensures Load(fields, "!" + text, o) == Load(Without(fields, id), text, o)
    ensures o ==> Load(fields, text, o) == Load(Without(fields, id), text, o)
  {
    hide ParseDef, ParseDefs, StartsWith, HasValue, Without;
    OverrideLaw(fields, text, id, rest, o);
    SameRest(fields, '!', text, id, rest, Without(fields, id), o);
    if o {
      NoPrefixLaw(fields, text, id, rest, o);
      SameRest(fields, '!', text, id, rest, fields, o);
    }
  }

  // One that starts with `+` is read as if there was no prefix.
  lemma PlusFile(fields: Fields, text: string, id: string, rest: string)
    requires StartsWith(text, id, rest)
    ensures Load(fields, "+" + text, false) == Load(fields, text, false)
  {
    hide ParseDef, ParseDefs, StartsWith;
    NoPrefixLaw(fields, text, id, rest, false);
    SameRest(fields, '+', text, id, rest, fields, false);
  }

  // One that starts with `-` fails if there is no such key, and leaves the tree alone; else
  // it is read as with `+`.
  lemma MinusFile(fields: Fields, text: string, id: string, rest: string, o: bool)
    requires StartsWith(text, id, rest)
    ensures var r := Load(fields, "-" + text, o);
      if IsThere(fields, id) then r == Load(fields, "+" + text, o) else !r.Ok() && r.fields == fields
  {
    hide ParseDef, StartsWith, IsThere, NonWhite;
    StartPrefix('-', text);
    StartPrefix('+', text);
    if IsThere(fields, id) {
      MergeLaw(fields, text, id, rest, o);
    } else {
      MissingLaw(fields, text, id, rest, o);
    }
  }

  lemma StartPrefix(p: char, text: string)
    requires p in "+-?!"
    ensures NonWhite([p] + text) == Next(p, text)
  {
    assert ([p] + text)[1..] == text;
  }

  // ---- what `!key value` leaves ----

  // The value `f` below the compounds `ids`, which hold nothing else.
  function Alone(ids: seq<string>, f: Field): Field {
    if ids == [] then f else Field(ids[0], Compound(true, [Alone(ids[1..], f)]))
  }

  function Levels(base: Fields, ids: seq<string>): seq<(Fields, string)>
    decreases ids
  {
    if ids == [] then [] else [(base, ids[0])] + Levels([], ids[1..])
  }

  lemma {:induction false} LevelsAre(base: Fields, ids: seq<string>, f: Field)
    requires AreIds(ids) && (ids != [] ==> IsNew(base, ids[0]))
    ensures Ids(Levels(base, ids)) == ids && AreNew(Levels(base, ids))
    ensures ids != [] ==> Under(Levels(base, ids), []) == base
    ensures ids != [] ==> Under(Levels(base, ids), [f]) == base + [Alone(ids, f)]
    decreases ids
  {
    hide IsSavable;
    if ids != [] {
      var levels := Levels(base, ids);
      assert ids == [ids[0]] + ids[1..] && levels[1..] == Levels([], ids[1..]) && ids[0] in ids;
      LevelsAre([], ids[1..], f);
      assert Under(levels[1..], []) == [];
      if |ids| > 1 { assert [] + [Alone(ids[1..], f)] == [Alone(ids[1..], f)]; }
    }
  }

  lemma KeyThere(path: seq<string>, value: string) returns (rest: string)
    requires path != [] && AreIds(path) && value != "" && value[0] !in "="
    requires NonWhite(value) == Next(value[0], value[1..])
    ensures StartsWith(IdPrint(path) + " " + value, path[0], rest) && HasValue(rest)
    ensures |path| == 1 ==> rest == " " + value
  {
    hide IsSavable, StringPrint, IdPrint, NonWhite, GetString;
    assert path[0] in path;
    rest := (if |path| == 1 then "" else "." + IdPrint(path[1..])) + " " + value;
    FirstId(path);
    assert IdPrint(path) + " " + value == StringPrint(path[0], true) + rest;
    assert rest[0] == if |path| == 1 then ' ' else '.';
    StartsWell(path[0], true, rest);
    ReadString(path[0], true, rest);
    if |path| == 1 {
      assert rest == " " + value;
      ConfRoundTrip.SkipBlank(value);
    } else {
      assert rest == ['.'] + (IdPrint(path[1..]) + " " + value);
      DotNext(IdPrint(path[1..]) + " " + value);
    }
  }

  lemma DotNext(text: string)
    ensures NonWhite(['.'] + text) == Next('.', text)
  {
    assert (['.'] + text)[1..] == text;
  }

  lemma ValueStarts(node: Node, rest: string)
    requires IsSavableNode(node) && rest != "" && rest[0] == '\n'
    ensures var value := SaveValue(node, 0) + rest;
      value != "" && value[0] != '=' && NonWhite(value) == Next(value[0], value[1..])
  {
    hide IsSavable, NonWhite, SaveChildren, StringPrint, AreSavable;
    if node.Compound? {
      var value := SaveValue(node, 0) + rest;
      assert value == ['{'] + value[1..];
      ReadBrace('{', value[1..]);
    } else {
      hide SaveValue, GetString;
      ReadScalar(node, 0, rest);
    }
  }

  // One definition for a key that is missing.
  lemma LineFile(w: Fields, ids: seq<string>, f: Field)
    requires AreIds(ids + [f.id]) && IsSavableNode(f.node) && IsNew(w, (ids + [f.id])[0])
    ensures Load(w, SaveField(f, 0, ids), false) == Good(w + [Alone(ids, f)], "")
  {
    hide IsSavable, IsSavableNode, ParseDefs, Under, AreNew, SaveField;
    var path := ids + [f.id];
    assert f.id == path[|ids|] && path[|ids|] in path && forall p :: p in ids ==> p in path;
    LevelsAre(w, ids, f);
    var acc := if ids == [] then w else [];
    assert Under(Levels(w, ids), acc) == w by { UnderNothing(w); }
    assert Under(Levels(w, ids), acc + [f]) == w + [Alone(ids, f)] by {
      UnderNothing(w + [f]);
      assert [] + [f] == [f];
    }
    FieldLoads(f, 0, Levels(w, ids), acc, "");
    assert SaveField(f, 0, ids) + "" == SaveField(f, 0, ids);
    NothingLoads(w + [Alone(ids, f)], false);
  }

  lemma NothingLoads(fields: Fields, o: bool)
    ensures ParseDefs(fields, "", false, o) == Good(fields, "")
  {
    NoText();
  }

  // `!k1.k2. ... key value`, with a scalar or a compound as the value: whatever stood at k1
  // is gone, and there is nothing but the value, alone below the components of its key.
  // The other children are what they were.
  lemma OverrideReplaces(fields: Fields, ids: seq<string>, f: Field, other: string)
    requires UniqueIds(fields) && AreIds(ids + [f.id]) && IsSavableNode(f.node)
    requires f.node.Compound? ==> !f.node.join
    ensures var r := Load(fields, "!" + SaveField(f, 0, ids), false);
      && r.Ok() && UniqueIds(r.fields)
      && Child(r.fields, other) == if other == (ids + [f.id])[0] then Some(Alone(ids, f).node) else Child(fields, other)
  {
    hide IsSavable, IsSavableNode, ParseDefs, SaveValue, Child, Search, IdPrint, Without, StartsWith, Load;
    var path := ids + [f.id];
    var text, value := SaveField(f, 0, ids), SaveValue(f.node, 0) + "\n";
    ValueStarts(f.node, "\n");
    assert text == IdPrint(path) + " " + value;
    var rest := KeyThere(path, value);
    OverrideFile(fields, text, path[0], rest, false);
    Replaced(fields, Alone(ids, f), other);
    LineFile(Without(fields, path[0]), ids, f);
  }

  lemma UnderNothing(base: Fields)
    ensures Under([], base) == base
  {
  }

  // ---- the same with the override flag and no prefix ----

  lemma ScalarKeyed(fields: Fields, id: string, v: Node, o: bool)
    requires IsNew(fields, id) && IsScalar(v) && IsSavableNode(v)
    ensures ParseKeyed(fields, id, Override, " " + (SaveValue(v, 0) + "\n"), false, o)
         == Good(fields + [Field(id, v)], "")
  {
    hide GetString, NonWhite, SaveValue, Scalar, IsSavableNode, AfterSeparator;
    var value := SaveValue(v, 0) + "\n";
    ReadScalar(v, 0, "\n");
    NothingLeft();
    ConfRoundTrip.SkipBlank(value);
    assert [value[0]] + value[1..] == value;
    SearchLast(fields, Field(id, v));
    assert ParseKeyed(fields, id, Override, " " + value, false, o)
        == ParseContents(fields, None, id, value, false, o);
  }

  lemma InsideKeyed(fields: Fields, id: string, inner: string, o: bool)
    requires IsNew(fields, id)
    ensures ParseKeyed(fields, id, Override, "." + inner, false, o) == ParseInside(fields, id, inner, o)
  {
    hide NonWhite, ParseDef, ParseInside, ParseContents;
    DotNext(inner);
    SearchLast(fields, Field(id, Str("")));
  }

  lemma {:induction false} FlagLine(fields: Fields, ids: seq<string>, f: Field)
    requires AreIds(ids + [f.id]) && IsScalar(f.node) && IsSavableNode(f.node)
    requires IsNew(fields, (ids + [f.id])[0])
    ensures ParseDef(fields, SaveField(f, 0, ids), false, true) == Good(fields + [Alone(ids, f)], "")
    decreases ids
  {
    hide StringPrint, IsSavable, ParseDef, ParseKeyed, SaveValue, IsSavableNode, IsNew;
    var path := ids + [f.id];
    var value := SaveValue(f.node, 0) + "\n";
    assert path[0] in path && f.id == path[|ids|];
    if ids == [] {
      assert SaveField(f, 0, ids) == StringPrint(f.id, true) + (" " + value);
      KeyStart(f.id, " " + value);
      ScalarKeyed(fields, f.id, f.node, true);
    } else {
      var inner := SaveField(f, 0, ids[1..]);
      assert path[1..] == ids[1..] + [f.id] && forall p :: p in path[1..] ==> p in path;
      assert SaveField(f, 0, ids) == StringPrint(ids[0], true) + ("." + inner);
      KeyStart(ids[0], "." + inner);
      InsideKeyed(fields, ids[0], inner, true);
      assert IsNew([], path[1..][0]) by { NoneThere(path[1..][0]); }
      FlagLine([], ids[1..], f);
      assert [] + [Alone(ids[1..], f)] == [Alone(ids[1..], f)];
    }
  }

  lemma NoneThere(id: string)
    ensures IsNew([], id)
  {
  }

  // `k1.k2. ... key value` where definitions override, with a scalar as the value: the same
  // as with `!`.
  lemma FlagReplaces(fields: Fields, ids: seq<string>, f: Field, other: string)
    requires UniqueIds(fields) && AreIds(ids + [f.id]) && IsScalar(f.node) && IsSavableNode(f.node)
    ensures var r := Load(fields, SaveField(f, 0, ids), true);
      && r.Ok() && UniqueIds(r.fields)
      && Child(r.fields, other) == if other == (ids + [f.id])[0] then Some(Alone(ids, f).node) else Child(fields, other)
  {
    hide IsSavable, IsSavableNode, ParseDef, SaveValue, Child, Search, IdPrint, Without, StartsWith, NonWhite, Load;
    var path := ids + [f.id];
    var text, value := SaveField(f, 0, ids), SaveValue(f.node, 0) + "\n";
    ValueStarts(f.node, "\n");
    assert text == IdPrint(path) + " " + value;
    var rest := KeyThere(path, value);
    OverrideFile(fields, text, path[0], rest, true);
    Replaced(fields, Alone(ids, f), other);
    var w := Without(fields, path[0]);
    FlagLine(w, ids, f);
    assert NonWhite(text).Next? && NonWhite(text).c != '}' by { Starts(text, path[0], rest); }
    OneDefinition(w, text, w + [Alone(ids, f)], true);
  }

  lemma OneDefinition(fields: Fields, text: string, g: Fields, o: bool)
    requires NonWhite(text).Next? && NonWhite(text).c != '}' && ParseDef(fields, text, false, o) == Good(g, "")
    ensures Load(fields, text, o) == Good(g, "")
  {
    hide ParseDef, NonWhite;
    SameDef(fields, text, o);
    NothingLoads(g, o);
  }

  lemma Starts(text: string, id: string, rest: string)
    requires StartsWith(text, id, rest)
    ensures NonWhite(text).Next? && NonWhite(text).c != '}'
  {
  }

  // ---- what `+key value` keeps ----

  // `+k1.k2. ... key value` is an assignment: other keys are as they were (see
  // ConfAssign.AssignedIsFound and OtherKeysUnchanged).
  lemma PlusAssigns(fields: Fields, path: seq<string>, v: Node)
    requires path != [] && AreIds(path) && IsScalar(v) && IsSavableNode(v)
    ensures Agrees(Load(fields, "+" + IdPrint(path) + " " + SaveValue(v, 0) + "\n", false), Assign(fields, path, v))
  {
    hide IsSavable, IsSavableNode, SaveValue, IdPrint, StartsWith, Load, Assign, Agrees;
    var value := SaveValue(v, 0) + "\n";
    var text := IdPrint(path) + " " + value;
    ValueStarts(v, "\n");
    var rest := KeyThere(path, value);
    PlusFile(fields, text, path[0], rest);
    LoadAssigns(fields, path, v);
    assert IdPrint(path) + " " + SaveValue(v, 0) + "\n" == text;
    assert "+" + IdPrint(path) + " " + SaveValue(v, 0) + "\n" == "+" + text;
  }

  // `+key { ... }` for a compound that is there: it keeps its members, and gets the new ones
  // behind them.
  lemma PlusKeepsMembers(fields: Fields, k: nat, new': Fields)
    requires UniqueIds(fields) && k < |fields| && fields[k].node.Compound? && IsSavable(fields[k].id, true)
    requires AreSavable(new') && UniqueIds(fields[k].node.fields + new')
    ensures var r := Load(fields, "+" + SaveField(Field(fields[k].id, Compound(false, new')), 0, []), false);
      r == Good(fields[k := Field(fields[k].id, Compound(fields[k].node.join, fields[k].node.fields + new'))], "")
  {
    hide ParseDef, ParseDefs, NonWhite, IsSavable, AreSavable, SaveChildren, StringPrint, AfterSeparator, StartsWith,
      Load, IdPrint;
    var id, n := fields[k].id, fields[k].node;
    var close := "}" + "\n";
    var body := "\n" + (SaveChildren(new', 1, []) + close);
    var value := "{" + body;
    var text := SaveField(Field(id, Compound(false, new')), 0, []);
    MembersText(id, new', value);
    ReadBrace('{', body);
    var rest := KeyThere([id], value);
    ConfRoundTrip.SkipBlank(value);
    MembersLoad(n.fields, new', close);
    PlusBraces(fields, text, id, rest, body, "\n", false, k);
    StartPrefix('+', text);
    NothingLeft();
    OneDefinition(fields, "+" + text, fields[k := Field(id, Compound(n.join, n.fields + new'))], false);
  }

  lemma MembersText(id: string, new': Fields, value: string)
    requires value == "{" + ("\n" + (SaveChildren(new', 1, []) + ("}" + "\n")))
    ensures SaveField(Field(id, Compound(false, new')), 0, []) == IdPrint([id]) + " " + value
  {
    hide SaveChildren, StringPrint;
    assert [] + [id] == [id];
    assert SaveValue(Compound(false, new'), 0) + "\n" == value;
  }

  // New members, and the end of their compound.
  lemma MembersLoad(old': Fields, new': Fields, close: string)
    requires AreSavable(new') && UniqueIds(old' + new') && close == "}" + "\n"
    ensures ParseDefs(old', "\n" + (SaveChildren(new', 1, []) + close), false, false) == Good(old' + new', close)
    ensures NonWhite(close) == Next('}', "\n")
  {
    hide NonWhite, AreSavable, ParseDefs, SaveChildren, IsSavable;
    ReadBrace('}', "\n");
    ChildrenLoad(new', 1, [], old', close);
    UnderNothing(old');
    UnderNothing(old' + new');
    ConfRoundTrip.SkipNewline(SaveChildren(new', 1, []) + close);
    SameDefs(old', "\n" + (SaveChildren(new', 1, []) + close), SaveChildren(new', 1, []) + close);
    DefsEnd(old' + new', close, "\n");
  }
}
