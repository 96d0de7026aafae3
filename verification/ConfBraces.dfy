// Arguments in braces, `{n0 v0 n1 v1 ...}`: they are read like a configuration file, so a
// value has the type it looks like and not the one its parameter declares.

module ConfBraces {
  import opened ConfText
  import opened ConfTree
  import opened ConfParse
  import opened ConfSave
  import opened ConfRoundTrip
  import opened ConfSearch
  import opened ConfArgs

  // A value that is one word for the lexer.
  predicate IsWord(v: string) {
    v != "" && v[0] !in "<." && forall c :: c in v ==> !EndsWord(c, false)
  }

  // A name that is one, and no mode.
  predicate IsWordId(n: string) {
    IsSavable(n, true) && IsBare(n, true)
  }

  predicate AreWords(args: seq<(string, string)>) {
    forall a :: a in args ==> IsWordId(a.0) && IsWord(a.1)
  }

  function Body(args: seq<(string, string)>): string {
    if args == [] then ""
    else args[0].0 + " " + args[0].1 + if |args| == 1 then "" else " " + Body(args[1..])
  }

  function Braced(args: seq<(string, string)>): string {
    "{" + Body(args) + "}"
  }

  // What one definition does, by the override method.
  function Put(fields: Fields, name: string, v: string): Fields {
    Without(fields, name) + [Field(name, Scalar(v, false))]
  }

  function PutAll(fields: Fields, args: seq<(string, string)>): Fields
    decreases args
  {
    if args == [] then fields else PutAll(Put(fields, args[0].0, args[0].1), args[1..])
  }

  // ---- reading ----

  lemma WordRead(v: string, rest: string)
    requires IsWord(v) && (rest != "" ==> rest[0] == ' ')
    ensures GetString(false, v + rest) == Got(v, false, rest)
    ensures NonWhite(v + rest) == Next(v[0], v[1..] + rest) && v[0] !in ".={[" && !IsWhite(v[0])
  {
    hide FreeString, DelimString, NonWhite;
    assert v[0] in v && v + rest == [v[0]] + (v[1..] + rest);
    Plainly(v[0], v[1..] + rest);
    ReadWord(v, false, rest);
  }

  lemma Plainly(c: char, tail: string)
    requires !IsWhite(c) && c != '<' && c != '#'
    ensures NonWhite([c] + tail) == Next(c, tail)
  {
    assert ([c] + tail)[1..] == tail;
  }

  lemma ValueRead(fields: Fields, name: string, v: string, rest: string)
    requires IsWord(v) && (rest != "" ==> rest[0] == ' ')
    ensures ParseKeyed(fields, name, Override, " " + (v + rest), false, true)
         == Good(Put(fields, name, v), AfterSeparator(rest))
  {
    hide GetString, NonWhite, Scalar, Search, AfterSeparator, EndsWord;
    WordRead(v, rest);
    ConfRoundTrip.SkipBlank(v + rest);
    var text := v + rest;
    assert [v[0]] + (v[1..] + rest) == text;
    assert ParseKeyed(fields, name, Override, " " + text, false, true)
        == ParseBody(fields, name, Override, text, false, true);
    var base := match Search(fields, name) case None => fields case Some(k) => Drop(fields, k);
    assert ParseBody(fields, name, Override, text, false, true)
        == ParseContents(base, None, name, text, false, true);
  }

  lemma DefinitionRead(fields: Fields, name: string, v: string, rest: string)
    requires IsWordId(name) && IsWord(v) && (rest != "" ==> rest[0] == ' ')
    ensures ParseDef(fields, name + " " + v + rest, false, true) == Good(Put(fields, name, v), AfterSeparator(rest))
    ensures var text := name + " " + v + rest;
      text != "" && text[0] !in "},;" && NonWhite(text) == Next(text[0], text[1..])
  {
    hide ParseDef, ParseKeyed, AfterSeparator, NonWhite, IsSavable, IsBare, Put;
    var more := " " + (v + rest);
    assert name + " " + v + rest == StringPrint(name, true) + more;
    KeyStart(name, more);
    StartsWell(name, true, more);
    ValueRead(fields, name, v, rest);
  }

  lemma {:induction false} BodyRead(fields: Fields, args: seq<(string, string)>)
    requires AreWords(args)
    ensures ParseDefs(fields, Body(args), false, true) == Good(PutAll(fields, args), "")
    decreases args
  {
    hide ParseDef, IsWord, IsWordId, Put, NonWhite;
    if args == [] {
      assert NonWhite("") == Stop(UnexpectedEof, "") by { Nothing(); }
    } else {
      assert args[0] in args;
      var rest := if |args| == 1 then "" else " " + Body(args[1..]);
      var text := Body(args);
      assert text == args[0].0 + " " + args[0].1 + rest;
      DefinitionRead(fields, args[0].0, args[0].1, rest);
      assert [text[0]] + text[1..] == text;
      assert AfterSeparator(rest) == Body(args[1..]) by { NextBody(args); }
      BodyRead(Put(fields, args[0].0, args[0].1), args[1..]);
    }
  }

  lemma Nothing()
    ensures NonWhite("") == Stop(UnexpectedEof, "") && AfterSeparator("") == ""
  {
  }

  lemma NextBody(args: seq<(string, string)>)
    requires args != [] && AreWords(args)
    ensures AfterSeparator(if |args| == 1 then "" else " " + Body(args[1..])) == Body(args[1..])
  {
    hide NonWhite, IsWord, IsWordId;
    Nothing();
    if |args| > 1 {
      var b := args[1..];
      assert b[0] == args[1] && args[1] in args;
      var text := Body(b);
      DefinitionRead([], b[0].0, b[0].1, if |b| == 1 then "" else " " + Body(b[1..]));
      assert [text[0]] + text[1..] == text;
      ConfRoundTrip.SkipBlank(text);
    }
  }

  // ---- what it means ----

  // The braces are read as a file is, and every id must be that of a parameter.
  lemma BracedApplies(subs: Fields, defs: Fields, args: seq<(string, string)>)
    requires AreWords(args)
    ensures ParseArgString(subs, Braced(args), defs) ==
      if forall f :: f in PutAll(subs, args) ==> Find(Compound(false, defs), Split(f.id)).Some?
      then Some(PutAll(subs, args)) else None
  {
    hide ParseDefs, PutAll, Find, Split, Body, ParseArgs;
    BodyRead(subs, args);
    var s := Braced(args);
    assert s[0] == '{' && s[|s|-1] == '}' && s[1..|s|-1] == Body(args);
    assert ConfArgs.SkipBlank(s) == s && TrimEnd(s) == s;
  }

  lemma PutAt(fields: Fields, name: string, v: string, id: string)
    requires UniqueIds(fields)
    ensures var r := Put(fields, name, v);
      && UniqueIds(r) && Child(r, id) == (if id == name then Some(Scalar(v, false)) else Child(fields, id))
      && forall f :: f in r ==> f.id == name || f in fields
  {
    hide Child, Search, Scalar, Without;
    Replaced(fields, Field(name, Scalar(v, false)), id);
  }

  lemma {:induction false} PutAllAt(fields: Fields, args: seq<(string, string)>, id: string)
    requires UniqueIds(fields)
    ensures var r := PutAll(fields, args);
      && UniqueIds(r)
      && Child(r, id) == (match Given(args, id) case None => Child(fields, id) case Some(v) => Some(Scalar(v, false)))
      && forall f :: f in r ==> f in fields || exists a :: a in args && a.0 == f.id
    decreases args
  {
    hide Child, Scalar, Put, Given;
    if args == [] {
      assert Given(args, id) == None by { NoneGiven(id); }
    } else {
      PutAt(fields, args[0].0, args[0].1, id);
      var mid := Put(fields, args[0].0, args[0].1);
      PutAllAt(mid, args[1..], id);
      GivenFirst(args, id);
      assert args == [args[0]] + args[1..];
      forall f | f in PutAll(fields, args) ensures f in fields || exists a :: a in args && a.0 == f.id {
        if f in mid && f !in fields { assert args[0] in args && args[0].0 == f.id; }
      }
    }
  }

  lemma NoneGiven(id: string)
    ensures Given([], id) == None
  {
  }

  // All parameters of the tree are declared.
  predicate AreKnown(defs: Fields, subs: Fields) {
    forall f :: f in subs ==> '.' !in f.id && Child(defs, f.id).Some?
  }

  lemma IdFound(defs: Fields, id: string)
    requires '.' !in id && Child(defs, id).Some?
    ensures Find(Compound(false, defs), Split(id)).Some?
  {
    hide Child;
    SplitJoin([id]);
    assert Join([id]) == id && [id][1..] == [];
  }

  // Arguments in braces are always accepted, by name only if every value has its type. Then
  // they agree with the same arguments given as `n0=v0,n1=v1,...` exactly where each value
  // looks like what its parameter declares.
  lemma BracedIsNamed(subs: Fields, defs: Fields, args: seq<(string, string)>, texts: seq<string>, id: string)
    requires UniqueIds(subs) && AreKnown(defs, subs) && AreArgs(defs, args) && AreWords(args) && args != []
    requires AllMean(texts, Values(args))
    ensures var b := ParseArgString(subs, Braced(args), defs);
      var n := ParseArgs(subs, Named(Labelled(args, texts)), defs, 0);
      && b.Some? && UniqueIds(b.value)
      && Child(b.value, id) ==
        (match Given(args, id) case None => Child(subs, id) case Some(v) => Some(Scalar(v, false)))
      && (n.Some? <==> forall a :: a in args ==> Typed(KindOf(defs, a.0), a.1).Some?)
      && (n.Some? ==>
           (Child(b.value, id) == Child(n.value, id) <==>
             Given(args, id).Some? ==> Looks(defs, id, Given(args, id).value)))
  {
    hide Child, ParseArgs, PutAll, Given, IsParameter, ParseArgString, Typed, Scalar, Find, Split, ApplyAll;
    BracedApplies(subs, defs, args);
    PutAllAt(subs, args, id);
    forall f | f in PutAll(subs, args) ensures Find(Compound(false, defs), Split(f.id)).Some? {
      PutAllAt(subs, args, f.id);
      if f !in subs {
        var a :| a in args && a.0 == f.id;
        ParameterFound(defs, f.id);
      }
      IdFound(defs, f.id);
    }
    NamedApplies(subs, defs, args, texts, 0);
    AllApplied(subs, defs, args, id);
    GivenMember(args, id);
  }

  lemma ParameterFound(defs: Fields, name: string)
    requires IsParameter(defs, name)
    ensures '.' !in name && Child(defs, name).Some?
  {
  }

  // By itself the value has the type that the parameter declares.
  predicate Looks(defs: Fields, name: string, v: string) {
    IsParameter(defs, name) && Typed(KindOf(defs, name), v) == Some(Scalar(v, false))
  }

  // That is the case if the lexer takes the value for a number of that kind, or for none if
  // a string is declared.
  lemma LooksByKind(defs: Fields, name: string, v: string)
    requires IsParameter(defs, name) && v != ""
    ensures var kind, s := KindOf(defs, name), Scalar(v, false);
      Looks(defs, name, v) <==>
        || (kind == "integer" && s.Integer? && Signed(v).Some? && Signed(v).value >= LLONG_MIN)
        || (kind == "integer64" && s.Integer64?)
        || (kind == "real" && s.Real?)
        || (kind == "string" && s.Str?)
  {
    hide Unsigned, IsReal, Child;
    if IsDigit(v[0]) || v[0] == '-' { SignedParse(v); }
  }

  // Where a word can be read as an integer, strtol reads the same, but does not saturate.
  lemma SignedParse(v: string)
    requires v != "" && (IsDigit(v[0]) || v[0] == '-')
    ensures ParseInt(v) == match Signed(v)
      case None => None
      case Some(i) => Some(if i > LLONG_MAX then LLONG_MAX else if i < LLONG_MIN then LLONG_MIN else i)
  {
  }

  // The example of the documentation is one where they differ, if CARD is a string: by name
  // it gets the string "0", in braces the integer.
  lemma CardExample(subs: Fields, defs: Fields)
    requires UniqueIds(subs) && AreKnown(defs, subs)
    requires IsParameter(defs, "CARD") && KindOf(defs, "CARD") == "string"
    requires IsParameter(defs, "DEV") && KindOf(defs, "DEV") == "integer"
    ensures var b, n := ParseArgString(subs, "{CARD 0 DEV 1}", defs), ParseArgs(subs, "CARD=0,DEV=1", defs, 0);
      && b.Some? && Child(b.value, "CARD") == Some(Integer(0))
      && n.Some? && Child(n.value, "CARD") == Some(Str("0"))
  {
    hide ParseArgString, ParseArgs, Child, IsSavable, IsBare, IsParameter, KindOf, Find, Split;
    var args := [("CARD", "0"), ("DEV", "1")];
    CardText(args);
    CardGiven(args);
    NumberOf("0", 0);
    NumberOf("1", 1);
    BracedIsNamed(subs, defs, args, Values(args), "CARD");
    NamedApplies(subs, defs, args, Values(args), 0);
    assert Labelled(args, Values(args)) == args;
    AllApplied(subs, defs, args, "CARD");
  }

  lemma CardText(args: seq<(string, string)>)
    requires args == [("CARD", "0"), ("DEV", "1")]
    ensures Braced(args) == "{CARD 0 DEV 1}" && Named(args) == "CARD=0,DEV=1" && AreWords(args)
    ensures AllMean(Values(args), Values(args)) && forall a :: a in args ==> IsPlain(a.0)
  {
    hide IsWord, IsWordId, IsPlain;
    var last := args[1..];
    assert last == [("DEV", "1")];
    assert Body(last) == "DEV 1" && Named(last) == "DEV=1";
    Capitals("CARD");
    Capitals("DEV");
    Digit("0");
    Digit("1");
  }

  lemma Capitals(s: string)
    requires s != "" && forall c :: c in s ==> 'A' <= c <= 'Z'
    ensures IsWordId(s) && IsPlain(s)
  {
    assert s[0] in s;
  }

  lemma Digit(s: string)
    requires |s| == 1 && IsDigit(s[0])
    ensures IsWord(s) && IsPlain(s)
  {
  }

  lemma CardGiven(args: seq<(string, string)>)
    requires args == [("CARD", "0"), ("DEV", "1")]
    ensures Given(args, "CARD") == Some("0")
  {
    assert args[..1] == [("CARD", "0")];
    assert Given([("CARD", "0")], "CARD") == Some("0");
  }

  lemma NumberOf(s: string, i: nat)
    requires i < 10 && s == ['0' + i as char]
    ensures Signed(s) == Some(i) && ParseInt(s) == Some(i) && Scalar(s, false) == Integer(i)
  {
    assert s[1..] == "" && DigitsVal(10, s, 0) == DigitsVal(10, "", i);
    assert DigitsVal(8, s, 0) == DigitsVal(8, "", DigitOf(s[0]));
  }
}
