// A configuration block with arguments, from its definition to its expansion:
// snd_config_expand in src/conf.c, without the evaluation of functions.

module ConfBlock {
  import opened ConfText
  import opened ConfTree
  import opened ConfSearch
  import opened ConfArgs
  import opened ConfExpand

  // ---- defaults ----

  // The default in the definition of a parameter.
  function DefaultIn(def: Node): Option<Node> {
    if def.Compound? then Child(def.fields, "default") else None
  }

  // The default that a parameter is declared with.
  function Default(defs: Fields, name: string): Option<Node> {
    match Child(defs, name)
    case None => None
    case Some(def) => DefaultIn(def)
  }

  // The definition of a parameter has nothing but a type and a default.
  predicate IsDefinition(def: Node) {
    def.Compound? ==> forall f :: f in def.fields ==> f.id == "type" || f.id == "default"
  }

  predicate AreDefinitions(defs: Fields) {
    forall d :: d in defs ==> IsDefinition(d.node)
  }

  function Entered(id: string, n: Option<Node>): Fields {
    if n.None? then [] else [Field(id, n.value)]
  }

  lemma {:induction false} DefaultOfOne(subs: Fields, id: string, fields: Fields)
    requires UniqueIds(fields) && Child(subs, id).None?
    ensures DefaultsOf(subs, id, fields).Some? <==> forall f :: f in fields ==> f.id == "type" || f.id == "default"
    ensures DefaultsOf(subs, id, fields).Some? ==>
      DefaultsOf(subs, id, fields).value == subs + Entered(id, Child(fields, "default"))
    decreases fields
  {
    hide Search;
    if fields != [] {
      assert fields == [fields[0]] + fields[1..] && fields[0] in fields;
      ChildFirst(fields, "default");
      if fields[0].id == "default" {
        assert forall f :: f in fields[1..] ==> f.id != "default";
        OnlyTypes(subs + [Field(id, fields[0].node)], id, fields[1..]);
      } else if fields[0].id == "type" {
        DefaultOfOne(subs, id, fields[1..]);
      }
    }
  }

  lemma {:induction false} OnlyTypes(subs: Fields, id: string, fields: Fields)
    requires forall f :: f in fields ==> f.id != "default"
    ensures DefaultsOf(subs, id, fields) ==
      if forall f :: f in fields ==> f.id == "type" then Some(subs) else None
    decreases fields
  {
    hide Search;
    if fields != [] {
      assert fields == [fields[0]] + fields[1..] && fields[0] in fields;
      OnlyTypes(subs, id, fields[1..]);
    }
  }

  lemma {:induction false} DefaultsFrom(subs: Fields, defs: Fields, name: string)
    requires UniqueIds(subs) && AllWellFormed(defs)
    requires forall s, d :: s in subs && d in defs ==> s.id != d.id
    ensures LoadDefaults(subs, defs).Some? <==> AreDefinitions(defs)
    ensures LoadDefaults(subs, defs).Some? ==>
      var r := LoadDefaults(subs, defs).value;
      UniqueIds(r) && Child(r, name) == if Child(subs, name).Some? then Child(subs, name) else Default(defs, name)
    decreases defs
  {
    hide Search, Child, DefaultsOf, WellFormed, IsDefinition, Entered, DefaultIn;
    if defs == [] {
      ChildMember(defs, name);
    } else {
      var d := defs[0];
      assert defs == [d] + defs[1..] && d in defs && forall e :: e in defs[1..] ==> e in defs;
      ChildFirst(defs, name);
      ChildMember(subs, d.id);
      ChildMember(defs[1..], d.id);
      DefaultDefined(subs, d.id, d.node);
      if IsDefinition(d.node) {
        var new' := Entered(d.id, DefaultIn(d.node));
        AppendChild(subs, new', name);
        DefaultsFrom(subs + new', defs[1..], name);
      }
    }
  }

  // One definition enters its default, if it has one.
  lemma DefaultDefined(subs: Fields, id: string, def: Node)
    requires WellFormed(def) && Child(subs, id).None?
    ensures (if def.Compound? then DefaultsOf(subs, id, def.fields) else Some(subs))
         == if IsDefinition(def) then Some(subs + Entered(id, DefaultIn(def))) else None
    ensures var new' := Entered(id, DefaultIn(def));
      |new'| <= 1 && (forall f :: f in new' ==> f.id == id) && Child(new', id) == DefaultIn(def)
  {
    hide WellFormed, Child;
    if def.Compound? {
      FieldsUnique(def);
      DefaultOfOne(subs, id, def.fields);
    } else {
      assert subs + [] == subs;
    }
    ChildMember(Entered(id, DefaultIn(def)), id);
  }

  lemma FieldsUnique(n: Node)
    requires WellFormed(n) && n.Compound?
    ensures UniqueIds(n.fields)
  {
  }

  lemma AppendChild(subs: Fields, new': Fields, name: string)
    requires UniqueIds(subs) && |new'| <= 1
    requires forall f, s :: f in new' && s in subs ==> s.id != f.id
    ensures UniqueIds(subs + new')
    ensures Child(subs + new', name) == if Child(subs, name).Some? then Child(subs, name) else Child(new', name)
    ensures Child(new', name) == if new' != [] && new'[0].id == name then Some(new'[0].node) else None
  {
    hide Search, Child;
    ChildMember(subs, name);
    ChildMember(new', name);
    ChildMember(subs + new', name);
    if Child(subs, name).Some? { ChildOf(subs + new', Field(name, Child(subs, name).value)); }
    if Child(new', name).Some? { ChildOf(subs + new', Field(name, Child(new', name).value)); }
  }

  // Loading the defaults into an empty compound: it succeeds exactly if the definitions
  // are made of types and defaults, and gives every parameter its default, once.
  lemma DefaultsLoaded(defs: Fields, name: string)
    requires AllWellFormed(defs)
    ensures LoadDefaults([], defs).Some? <==> AreDefinitions(defs)
    ensures LoadDefaults([], defs).Some? ==>
      UniqueIds(LoadDefaults([], defs).value) && Child(LoadDefaults([], defs).value, name) == Default(defs, name)
  {
    DefaultsFrom([], defs, name);
  }

  lemma {:induction false} DefaultsKeep(subs: Fields, id: string, fields: Fields, x: string)
    requires Child(subs, x).Some? && DefaultsOf(subs, id, fields).Some?
    ensures Child(DefaultsOf(subs, id, fields).value, x).Some?
    decreases fields
  {
    hide Search;
    if fields != [] && fields[0].id != "type" {
      var more := subs + [Field(id, fields[0].node)];
      var f :| f in subs && f.id == x;
      assert f in more;
      DefaultsKeep(more, id, fields[1..], x);
    } else if fields != [] {
      DefaultsKeep(subs, id, fields[1..], x);
    }
  }

  lemma {:induction false} DefaultFails(subs: Fields, id: string, fields: Fields)
    requires Child(subs, id).Some? && Child(fields, "default").Some?
    ensures DefaultsOf(subs, id, fields).None?
    decreases fields
  {
    var s := Search(subs, id);
    if fields[0].id == "type" {
      var f :| f in fields && f.id == "default";
      assert f in fields[1..];
      DefaultFails(subs, id, fields[1..]);
    }
  }

  // A default for something that has a value already is an error.
  lemma {:induction false} DefaultTaken(subs: Fields, defs: Fields, d: Field)
    requires d in defs && d.node.Compound? && Child(d.node.fields, "default").Some? && Child(subs, d.id).Some?
    ensures LoadDefaults(subs, defs).None?
    decreases defs
  {
    hide Child, DefaultsOf;
    var first := defs[0];
    assert defs == [first] + defs[1..];
    if first == d {
      DefaultFails(subs, d.id, d.node.fields);
    } else if !first.node.Compound? {
      DefaultTaken(subs, defs[1..], d);
    } else {
      var r := DefaultsOf(subs, first.id, first.node.fields);
      if r.Some? {
        DefaultsKeep(subs, first.id, first.node.fields, d.id);
        DefaultTaken(r.value, defs[1..], d);
      }
    }
  }

  // ---- the whole expansion ----

  // snd_config_expand
  function ExpandBlock(config: Node, id: Option<string>, args: Option<string>): Option<Node> {
    match Find(config, ["@args"])
    case None => if args.Some? then None else Some(config)
    case Some(defs) =>
      if !defs.Compound? then None
      else
        match LoadDefaults([], defs.fields)
        case None => None
        case Some(subs) =>
          match (if args.None? then Some(subs) else ParseArgString(subs, args.value, defs.fields))
          case None => None
          case Some(vars) => Expand(Compound(false, vars), id, config)
  }

  // A block without `@args` is what it is, and takes no arguments; `@args` must be a compound
  // of definitions.
  lemma BlocksWithoutParameters(config: Node, id: Option<string>, text: string)
    requires config.Compound?
    ensures var args := Child(config.fields, "@args");
      && (args.None? ==> ExpandBlock(config, id, None) == Some(config) && ExpandBlock(config, id, Some(text)) == None)
      && (args.Some? && !args.value.Compound? ==>
           ExpandBlock(config, id, None) == None && ExpandBlock(config, id, Some(text)) == None)
  {
    hide Child, LoadDefaults, ParseArgString, Expand;
    assert ["@args"][1..] == [];
  }

  // What a parameter stands for: the value given, or its default, or nothing.
  function Argument(defs: Fields, names: seq<string>, vals: seq<string>, name: string): Option<Node>
    requires |vals| <= |names| && forall n :: n in names ==> IsParameter(defs, n)
  {
    if |vals| == 0 then Default(defs, name)
    else
      var n := |vals| - 1;
      if names[n] == name then Typed(KindOf(defs, name), vals[n]) else Argument(defs, names, vals[..n], name)
  }

  // An argument string that gives the first parameters the values `vals`, by position or
  // by name, each written in some way.
  predicate Gives(text: string, names: seq<string>, vals: seq<string>, pairs: seq<(string, string)>,
                  texts: seq<string>)
    requires |vals| <= |names|
  {
    && multiset(pairs) == multiset(Zip(names, vals))
    && ((AllMean(texts, vals) && text == Positional(texts)) ||
        (AllMean(texts, Values(pairs)) && text == Named(Labelled(pairs, texts))))
  }

  // The leaf `$name` of a block becomes what its parameter stands for; the other leaves
  // stay.
  lemma ArgumentsReachLeaves(config: Node, id: Option<string>, defs: Node, names: seq<string>, vals: seq<string>,
                             pairs: seq<(string, string)>, texts: seq<string>, text: string, path: seq<string>,
                             name: string)
    requires WellFormed(config) && config.Compound? && id != Some("@args")
    requires Find(config, ["@args"]) == Some(defs) && defs.Compound?
    requires Declares(defs.fields, names) && 0 < |vals| <= |names|
    requires AreArgs(defs.fields, Zip(names, vals)) && Gives(text, names, vals, pairs, texts) && !("{" <= text)
    requires "@args" !in path && Find(config, path) == Some(Str("$" + name)) && '.' !in name
    ensures var r := ExpandBlock(config, id, Some(text));
      && (r.Some? <==> AreDefinitions(defs.fields) && AreTyped(defs.fields, names, vals))
      && (r.Some? ==> Find(r.value, path) == Argument(defs.fields, names, vals, name))
  {
    hide ParseArgs, Find, Expand, LoadDefaults, Typed, Declares, AreDefinitions, IsParameter, AreArgs, Gives, Argument,
      AreTyped, WellFormed, Split, Child;
    DefinitionsWellFormed(config, defs);
    DefaultsLoaded(defs.fields, name);
    if AreDefinitions(defs.fields) {
      var subs := LoadDefaults([], defs.fields).value;
      ArgumentsParsed(subs, defs.fields, names, vals, pairs, texts, text, name);
      StartsPlain(defs.fields, names, vals, pairs, texts, text);
      var vars := ParseArgs(subs, text, defs.fields, 0);
      if vars.Some? {
        LeafExpanded(config, id, vars.value, path, name);
      }
    }
  }

  predicate AreTyped(defs: Fields, names: seq<string>, vals: seq<string>)
    requires |vals| <= |names| && forall n :: n in names ==> IsParameter(defs, n)
  {
    forall i :: 0 <= i < |vals| ==> Typed(KindOf(defs, names[i]), vals[i]).Some?
  }

  lemma DefinitionsWellFormed(config: Node, defs: Node)
    requires WellFormed(config) && Find(config, ["@args"]) == Some(defs) && defs.Compound?
    ensures AllWellFormed(defs.fields)
  {
    hide Find;
    FoundWellFormed(config, ["@args"]);
  }

  lemma LeafExpanded(config: Node, id: Option<string>, vars: Fields, path: seq<string>, name: string)
    requires WellFormed(config) && config.Compound? && id != Some("@args")
    requires "@args" !in path && Find(config, path) == Some(Str("$" + name)) && '.' !in name
    ensures var r := Expand(Compound(false, vars), id, config);
      r.Some? && Find(r.value, path) == Child(vars, name)
  {
    hide Find, ExpandAll, WellFormed, Split, Child;
    var leaf := Str("$" + name);
    assert leaf.s[1..] == name && IsReference(leaf);
    ExpandAt(Compound(false, vars), id, config, path);
    OneComponent(vars, name);
  }

  lemma OneComponent(vars: Fields, name: string)
    requires '.' !in name
    ensures Find(Compound(false, vars), Split(name)) == Child(vars, name)
  {
    hide Child;
    SplitJoin([name]);
    assert Join([name]) == name;
    assert [name][1..] == [];
  }

  // A text of arguments starts with something that is no blank.
  lemma StartsPlain(defs: Fields, names: seq<string>, vals: seq<string>, pairs: seq<(string, string)>,
                    texts: seq<string>, text: string)
    requires 0 < |vals| <= |names| && AreArgs(defs, Zip(names, vals)) && Gives(text, names, vals, pairs, texts)
    ensures text != "" && SkipBlank(text) == text
  {
    hide IsParameter, Positional, Named, Means;
    var zip := Zip(names, vals);
    assert |pairs| == |multiset(pairs)| == |multiset(zip)|;
    assert pairs[0] in multiset(pairs) && pairs[0] in zip;
    if AllMean(texts, vals) && text == Positional(texts) {
      assert Means(texts[0], vals[0]);
      FirstValue(texts, vals[0]);
    } else {
      FirstName(Labelled(pairs, texts));
    }
  }

  lemma FirstValue(texts: seq<string>, v: string)
    requires texts != [] && Means(texts[0], v)
    ensures Positional(texts) != "" && SkipBlank(Positional(texts)) == Positional(texts)
  {
    hide Means;
    var rest := if |texts| == 1 then "" else "," + Positional(texts[1..]);
    MeansStart(texts[0], v, rest);
    assert Positional(texts) == texts[0] + rest;
  }

  lemma FirstName(args: seq<(string, string)>)
    requires args != [] && IsPlain(args[0].0)
    ensures Named(args) != "" && SkipBlank(Named(args)) == Named(args)
  {
    assert args[0].0[0] in args[0].0;
    assert Named(args)[0] == args[0].0[0];
  }

  lemma ArgumentsParsed(subs: Fields, defs: Fields, names: seq<string>, vals: seq<string>,
                        pairs: seq<(string, string)>, texts: seq<string>, text: string, name: string)
    requires UniqueIds(subs) && Declares(defs, names) && 0 < |vals| <= |names|
    requires Child(subs, name) == Default(defs, name)
    requires AreArgs(defs, Zip(names, vals)) && Gives(text, names, vals, pairs, texts)
    ensures forall n :: n in names ==> IsParameter(defs, n)
    ensures var r := ParseArgs(subs, text, defs, 0);
      && (r.Some? <==> AreTyped(defs, names, vals))
      && (r.Some? ==> Child(r.value, name) == Argument(defs, names, vals, name))
  {
    hide ParseArgs, ApplyAll, Typed, Child, IsParameter, KindOf, IsPlain, Named, Positional, Default, AllMean;
    AllPairs(defs, names, vals, pairs);
    AllDeclared(defs, names);
    assert names[0..] == names;
    var zip := Zip(names, vals);
    if AllMean(texts, vals) && text == Positional(texts) {
      PositionalApplies(subs, defs, names, vals, texts, 0);
      AllApplied(subs, defs, zip, name);
    } else {
      NamedApplies(subs, defs, pairs, texts, 0);
      AllApplied(subs, defs, pairs, name);
    }
    GivenIs(names, vals, zip, name);
    GivenIs(names, vals, pairs, name);
    assert forall i :: 0 <= i < |vals| ==> zip[i] in zip;
    ArgumentAt(defs, names, vals, name);
  }

  lemma AllDeclared(defs: Fields, names: seq<string>)
    requires Declares(defs, names)
    ensures forall n :: n in names ==> IsParameter(defs, n)
    ensures forall i, j :: 0 <= i < j < |names| ==> names[i] != names[j]
  {
  }

  lemma AllPairs(defs: Fields, names: seq<string>, vals: seq<string>, pairs: seq<(string, string)>)
    requires |vals| <= |names| && AreArgs(defs, Zip(names, vals)) && multiset(pairs) == multiset(Zip(names, vals))
    ensures AreArgs(defs, pairs)
  {
    forall a | a in pairs ensures a in Zip(names, vals) {
      assert a in multiset(pairs);
    }
  }

  lemma {:induction false} ArgumentAt(defs: Fields, names: seq<string>, vals: seq<string>, name: string)
    requires |vals| <= |names| && forall n :: n in names ==> IsParameter(defs, n)
    requires forall i, j :: 0 <= i < j < |names| ==> names[i] != names[j]
    ensures forall i :: 0 <= i < |vals| && names[i] == name ==>
      Argument(defs, names, vals, name) == Typed(KindOf(defs, name), vals[i])
    ensures name !in names[..|vals|] ==> Argument(defs, names, vals, name) == Default(defs, name)
    decreases vals
  {
    hide Typed, IsParameter, KindOf, Default;
    if vals != [] {
      var n := |vals| - 1;
      assert names[n] in names[..n+1] && names[..n] == names[..n+1][..n];
      ArgumentAt(defs, names, vals[..n], name);
    }
  }

  // Without an argument string, every parameter stands for its default.
  lemma DefaultsReachLeaves(config: Node, id: Option<string>, defs: Node, path: seq<string>, name: string)
    requires WellFormed(config) && config.Compound? && id != Some("@args")
    requires Find(config, ["@args"]) == Some(defs) && defs.Compound?
    requires "@args" !in path && Find(config, path) == Some(Str("$" + name)) && '.' !in name
    ensures var r := ExpandBlock(config, id, None);
      && (r.Some? <==> AreDefinitions(defs.fields))
      && (r.Some? ==> Find(r.value, path) == Default(defs.fields, name))
  {
    hide Find, Expand, LoadDefaults, AreDefinitions, WellFormed, Child;
    DefinitionsWellFormed(config, defs);
    DefaultsLoaded(defs.fields, name);
    if AreDefinitions(defs.fields) {
      LeafExpanded(config, id, LoadDefaults([], defs.fields).value, path, name);
    }
  }
}
