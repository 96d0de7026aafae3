// Arguments of configuration blocks: their defaults, and the argument strings
// `v0,v1,...` and `n0=v0,n1=v1,...` (load_defaults and parse_args in src/conf.c).

module ConfArgs {
  import opened ConfText
  import opened ConfTree
  import opened ConfParse
  import opened ConfSearch
  import opened ConfSave
  import opened ConfRoundTrip

  function SkipBlank(s: string): (r: string)
    ensures |r| <= |s|
  {
    if s != "" && IsWhite(s[0]) then SkipBlank(s[1..]) else s
  }

  // Where parse_id stops. A blank does not stop it.
  predicate EndsId(c: char) {
    c == FF || c == '\t' || c == '\n' || c == '\r' || c == ',' || c == '='
  }

  function IdLen(s: string): (n: nat)
    ensures n <= |s| && (n < |s| ==> EndsId(s[n])) && forall i :: 0 <= i < n ==> !EndsId(s[i])
  {
    if s == "" || EndsId(s[0]) then 0 else 1 + IdLen(s[1..])
  }

  // parse_string, after the opening delimiter. A backslash needs a character to escape.
  function Quoted(delim: char, s: string): (r: Option<(string, string)>)
    ensures r.Some? ==> |r.value.1| < |s|
    decreases |s|
  {
    if s == "" then None
    else if s[0] == '\\' then
      match QuotedChar(s[1..])
      case None => None
      case Some((c, rest)) =>
        (match Quoted(delim, rest)
         case None => None
         case Some((t, rest2)) => Some(([Byte(c)] + t, rest2)))
    else if s[0] == delim then Some(("", s[1..]))
    else
      match Quoted(delim, s[1..])
      case None => None
      case Some((t, rest2)) => Some(([s[0]] + t, rest2))
  }

  // The name of an argument and its value; positional arguments have no name.
  datatype Arg = Arg(name: Option<string>, val: string, rest: string)

  predicate IsQuote(s: string) {
    s != "" && (s[0] == '"' || s[0] == '\'')
  }

  // parse_arg; None for an error. The caller takes the name from the start of the text,
  // blanks included.
  function ParseArg(text: string): (r: Option<Arg>)
    ensures r.Some? ==> |r.value.rest| <= |text|
  {
    var s := SkipBlank(text);
    if IsQuote(s) then
      (match Quoted(s[0], s[1..])
       case None => None
       case Some((val, rest)) => Some(Arg(None, val, rest)))
    else if s == "" then None
    else
      var n := IdLen(s);
      var t := SkipBlank(s[n..]);
      if t == "" || t[0] != '=' then Some(Arg(None, s[..n], t))
      else
        var name := if n == 0 then None else Some(text[..n]);
        var u := SkipBlank(t[1..]);
        if IsQuote(u) then
          (match Quoted(u[0], u[1..])
           case None => None
           case Some((val, rest)) => Some(Arg(name, val, rest)))
        else if u == "" then None
        else
          var m := IdLen(u);
          Some(Arg(name, u[..m], u[m..]))
  }

  // A number with an optional sign, as strtol reads it.
  function Signed(s: string): Option<int> {
    var t := if s != "" && (s[0] == '-' || s[0] == '+') then s[1..] else s;
    match Unsigned(t)
    case None => None
    case Some(n) => Some(if s != "" && s[0] == '-' then -(n as int) else n)
  }

  // The node for a value, by the type that the parameter declares.
  function Typed(kind: string, val: string): Option<Node> {
    if kind == "integer" then
      match Signed(val)
      case None => None
      case Some(i) => if LLONG_MIN <= i <= LLONG_MAX then Some(Integer(i)) else None
    else if kind == "integer64" then
      match Signed(val)
      case None => None
      case Some(i) => Some(Integer64(if i < LLONG_MIN then LLONG_MIN else if i > LLONG_MAX then LLONG_MAX else i))
    else if kind == "real" then
      if IsReal(val) then Some(Real(val)) else None
    else if kind == "string" then Some(Str(val))
    else None
  }

  // One argument: finds the definition of `var`, and gives that parameter the value.
  function Apply(subs: Fields, defs: Fields, var': string, val: string): Option<Fields> {
    match Resolve(defs, None, var')
    case NotFound => None
    case Circular => None
    case Found(def) =>
      if !def.node.Compound? then None
      else
        var cleared := match Search(subs, def.id) case None => subs case Some(k) => Drop(subs, k);
        match Child(def.node.fields, "type")
        case Some(Str(kind)) =>
          (match Typed(kind, val)
           case None => None
           case Some(v) =>
             if Search(cleared, def.id).Some? then None else Some(cleared + [Field(def.id, v)]))
        case _ => None
  }

  // The loop of parse_args, at argument number `arg`.
  function ParseArgs(subs: Fields, text: string, defs: Fields, arg: nat): Option<Fields>
    decreases |text|
  {
    match ParseArg(text)
    case None => None
    case Some(Arg(name, val, rest)) =>
      match Apply(subs, defs, if name.None? then DigitsText(arg) else name.value, val)
      case None => None
      case Some(subs2) =>
        if rest == "" then Some(subs2)
        else if rest[0] != ',' then None
        else ParseArgs(subs2, rest[1..], defs, arg + 1)
  }

  function TrimEnd(s: string): (r: string)
    ensures |r| <= |s|
  {
    if s != "" && IsWhite(s[|s|-1]) then TrimEnd(s[..|s|-1]) else s
  }

  // parse_args: an argument string, which may also be a block in configuration syntax.
  function ParseArgString(subs: Fields, text: string, defs: Fields): Option<Fields> {
    var s := SkipBlank(text);
    if s == "" then Some(subs)
    else if s[0] != '{' then ParseArgs(subs, s, defs, 0)
    else
      var t := TrimEnd(s);
      if |t| < 2 || t[|t|-1] != '}' then None
      else
        var d := Load(subs, t[1..|t|-1], true);
        if d.Ok() && forall f :: f in d.fields ==> Find(Compound(false, defs), Split(f.id)).Some?
        then Some(d.fields) else None
  }

  // load_defaults: the defaults that `defs` declares, in order.
  function LoadDefaults(subs: Fields, defs: Fields): Option<Fields>
    decreases defs
  {
    if defs == [] then Some(subs)
    else
      match (if defs[0].node.Compound? then DefaultsOf(subs, defs[0].id, defs[0].node.fields) else Some(subs))
      case None => None
      case Some(subs2) => LoadDefaults(subs2, defs[1..])
  }

  // ... of one parameter, whose definition has the children `fields`
  function DefaultsOf(subs: Fields, id: string, fields: Fields): Option<Fields>
    decreases fields
  {
    if fields == [] then Some(subs)
    else if fields[0].id == "type" then DefaultsOf(subs, id, fields[1..])
    else if fields[0].id != "default" || Search(subs, id).Some? then None
    else DefaultsOf(subs + [Field(id, fields[0].node)], id, fields[1..])
  }

  // ---- positional and named arguments mean the same ----

  // `@args [ n0 n1 ... ]` and a definition for each of them: number i of the array is
  // the name of parameter i, and that name is a compound with a type.
  predicate Declares(defs: Fields, names: seq<string>) {
    && (forall i, j :: 0 <= i < j < |names| ==> names[i] != names[j])
    && forall i :: 0 <= i < |names| ==>
         && Child(defs, DigitsText(i)) == Some(Str(names[i]))
         && IsParameter(defs, names[i])
  }

  predicate IsParameter(defs: Fields, name: string) {
    && '.' !in name && Child(defs, name).Some? && Child(defs, name).value.Compound?
    && Child(Child(defs, name).value.fields, "type").Some?
    && Child(Child(defs, name).value.fields, "type").value.Str?
  }

  function KindOf(defs: Fields, name: string): string
    requires IsParameter(defs, name)
  {
    Child(Child(defs, name).value.fields, "type").value.s
  }

  // Words without quotes in front, and without commas, equal signs, and white space other
  // than spaces behind something else.
  predicate IsPlain(s: string) {
    && s != "" && s[0] !in " '\"" && forall c :: c in s ==> c !in "\t\n\r\U{0C},="
  }

  // The ways to write a value: as it is, between quotes of either kind, and between single
  // quotes with escapes.
  predicate Means(text: string, v: string) {
    || (IsPlain(v) && text == v)
    || ('\\' !in v && '"' !in v && text == "\"" + v + "\"")
    || ('\\' !in v && '\'' !in v && text == "'" + v + "'")
    || (IsEscapable(v) && text == "'" + EscapeAll(v) + "'")
  }

  // Unlike in a file, an escaped newline is kept.
  predicate IsEscapable(v: string) {
    forall c :: c in v ==> IsTextChar(c) || c == '\n'
  }

  predicate AllMean(texts: seq<string>, vals: seq<string>) {
    |texts| == |vals| && forall i :: 0 <= i < |texts| ==> Means(texts[i], vals[i])
  }

  // The arguments `args`, with their values written as `texts`.
  function Labelled(args: seq<(string, string)>, texts: seq<string>): (r: seq<(string, string)>)
    requires |args| == |texts|
    ensures |r| == |args| && forall i :: 0 <= i < |r| ==> r[i] == (args[i].0, texts[i])
  {
    seq(|args|, i requires 0 <= i < |args| => (args[i].0, texts[i]))
  }

  function Values(args: seq<(string, string)>): (r: seq<string>)
    ensures |r| == |args| && forall i :: 0 <= i < |r| ==> r[i] == args[i].1
  {
    seq(|args|, i requires 0 <= i < |args| => args[i].1)
  }

  function Positional(texts: seq<string>): string {
    if texts == [] then "" else if |texts| == 1 then texts[0] else texts[0] + "," + Positional(texts[1..])
  }

  function Named(args: seq<(string, string)>): string {
    if args == [] then ""
    else
      var one := args[0].0 + "=" + args[0].1;
      if |args| == 1 then one else one + "," + Named(args[1..])
  }

  // The value of each parameter after the arguments were applied in turn.
  function Given(args: seq<(string, string)>, name: string): Option<string> {
    if args == [] then None
    else
      var n := |args| - 1;
      if args[n].0 == name then Some(args[n].1) else Given(args[..n], name)
  }

  lemma {:induction false} PlainLen(s: string, rest: string)
    requires (forall c :: c in s ==> !EndsId(c)) && (rest != "" ==> EndsId(rest[0]))
    ensures IdLen(s + rest) == |s| && (s + rest)[..|s|] == s && (s + rest)[|s|..] == rest
  {
    if s == "" {
      assert s + rest == rest;
    } else {
      assert (s + rest)[1..] == s[1..] + rest && s[0] in s;
      PlainLen(s[1..], rest);
    }
  }

  lemma PlainStart(v: string, rest: string)
    requires IsPlain(v) && (rest != "" ==> EndsId(rest[0]))
    ensures v != "" && SkipBlank(v + rest) == v + rest && !IsQuote(v + rest)
    ensures IdLen(v + rest) == |v| && (v + rest)[..|v|] == v && (v + rest)[|v|..] == rest
  {
    hide IdLen;
    PlainLen(v, rest);
    assert v[0] in v && (v + rest)[0] == v[0] && !IsWhite(v[0]);
  }

  // A string between quotes is read up to the closing one ...
  lemma {:induction false} QuotesRead(delim: char, v: string, rest: string)
    requires '\\' !in v && delim !in v && delim != '\\'
    ensures Quoted(delim, v + [delim] + rest) == Some((v, rest))
  {
    var text := v + [delim] + rest;
    if v == "" {
      assert text == [delim] + rest;
      assert text[1..] == rest;
    } else {
      assert text == [v[0]] + (v[1..] + [delim] + rest) && v[0] in v;
      assert text[1..] == v[1..] + [delim] + rest;
      QuotesRead(delim, v[1..], rest);
      assert v == [v[0]] + v[1..];
    }
  }

  // ... and its escapes are undone.
  lemma {:induction false} EscapesRead(v: string, rest: string)
    requires IsEscapable(v)
    ensures Quoted('\'', EscapeAll(v) + "'" + rest) == Some((v, rest))
  {
    hide IsTextChar, Escape;
    var text := EscapeAll(v) + "'" + rest;
    if v == "" {
      assert text == "'" + rest;
      assert text[1..] == rest;
    } else {
      var more := EscapeAll(v[1..]) + "'" + rest;
      assert text == Escape(v[0]) + more && v[0] in v;
      EscapeRead(v[0], more);
      EscapesRead(v[1..], rest);
      assert v == [v[0]] + v[1..];
    }
  }

  lemma EscapeRead(c: char, more: string)
    requires IsTextChar(c) || c == '\n'
    ensures Quoted('\'', Escape(c) + more) ==
      match Quoted('\'', more) case None => None case Some((t, rest)) => Some(([c] + t, rest))
  {
    var text := Escape(c) + more;
    if |Escape(c)| == 2 {
      assert text[0] == '\\' && text[1..] == [text[1]] + more && text[1..][1..] == more;
      assert QuotedChar(text[1..]) == Some((c, more));
    } else {
      assert text[0] == c && text[1..] == more;
    }
  }

  // How a value starts, and how it is read if it starts with a quote.
  lemma MeansStart(text: string, v: string, rest: string)
    requires Means(text, v)
    ensures text != "" && SkipBlank(text + rest) == text + rest
    ensures if IsQuote(text + rest) then Quoted(text[0], (text + rest)[1..]) == Some((v, rest))
      else text == v && IsPlain(v)
  {
    hide Quoted, EscapeAll, IsEscapable;
    if IsPlain(v) && text == v {
      assert v[0] in v && (v + rest)[0] == v[0];
    } else {
      var inner := text[1..|text|-1];
      assert (text + rest)[1..] == inner + [text[0]] + rest;
      if '\\' !in v && text[0] !in v && text == [text[0]] + v + [text[0]] {
        assert inner == v;
        QuotesRead(text[0], v, rest);
      } else {
        assert inner == EscapeAll(v);
        EscapesRead(v, rest);
      }
    }
  }

  // A value by itself. `"hw:0,1"` is one.
  lemma ParseValueText(text: string, v: string, rest: string)
    requires Means(text, v) && (rest == "" || rest[0] == ',')
    ensures ParseArg(text + rest) == Some(Arg(None, v, rest))
  {
    hide IdLen, Quoted, IsPlain, Means, SkipBlank;
    MeansStart(text, v, rest);
    assert (text + rest)[0] == text[0];
    if text == v && IsPlain(v) {
      PlainStart(v, rest);
      assert SkipBlank(rest) == rest by { NoBlank(rest); }
    }
  }

  lemma NoBlank(rest: string)
    requires rest == "" || rest[0] == ',' || rest[0] == '='
    ensures SkipBlank(rest) == rest
  {
  }

  predicate AreBlank(b: string) {
    forall c :: c in b ==> c in " \t\n\r\U{0C}"
  }

  lemma {:induction false} BlanksSkipped(b: string, text: string)
    requires AreBlank(b) && SkipBlank(text) == text
    ensures SkipBlank(b + text) == text
  {
    if b == "" {
      assert b + text == text;
    } else {
      assert (b + text)[1..] == b[1..] + text && b[0] in b;
      BlanksSkipped(b[1..], text);
    }
  }

  // Blanks in front of a value change nothing, but the name of an argument is taken from the
  // start of the blanks in front of it: it is right exactly if there are none.
  lemma BlanksBefore(b: string, name: string, b2: string, text: string, v: string, rest: string)
    requires AreBlank(b) && AreBlank(b2) && IsPlain(name) && Means(text, v) && (rest == "" || rest[0] == ',')
    ensures ParseArg(b + text + rest) == Some(Arg(None, v, rest))
    ensures ParseArg(b + name + "=" + b2 + text + rest) == Some(Arg(Some((b + name)[..|name|]), v, rest))
    ensures (b + name)[..|name|] == name <==> b == ""
  {
    hide IdLen, Quoted, IsPlain, Means, SkipBlank;
    MeansStart(text, v, rest);
    assert b + text + rest == b + (text + rest);
    BlanksSkipped(b, text + rest);
    ParseValueText(text, v, rest);
    SkipsFirst(b + (text + rest), text + rest);
    var more := "=" + (b2 + (text + rest));
    var all := b + (name + more);
    assert b + name + "=" + b2 + text + rest == all;
    PlainStart(name, more);
    BlanksSkipped(b, name + more);
    NoBlank(more);
    assert more[1..] == b2 + (text + rest);
    BlanksSkipped(b2, text + rest);
    assert (text + rest)[0] == text[0];
    if text == v && IsPlain(v) { PlainStart(v, rest); }
    assert all[..|name|] == (b + name)[..|name|];
    NameShifted(b, name);
  }

  // Without a name, only what follows the blanks matters.
  lemma SkipsFirst(text: string, s: string)
    requires SkipBlank(text) == s && SkipBlank(s) == s
    requires ParseArg(s).Some? && ParseArg(s).value.name.None?
    ensures ParseArg(text) == ParseArg(s)
  {
    hide SkipBlank, Quoted, IdLen;
  }

  lemma NameShifted(b: string, name: string)
    requires AreBlank(b) && IsPlain(name)
    ensures (b + name)[..|name|] == name <==> b == ""
  {
    assert name[0] in name && !IsWhite(name[0]);
    if b == "" { assert b + name == name; } else { assert b[0] in b && (b + name)[..|name|][0] == b[0]; }
  }

  lemma ParseNamed(name: string, text: string, v: string, rest: string)
    requires IsPlain(name) && Means(text, v) && (rest == "" || rest[0] == ',')
    ensures ParseArg(name + "=" + text + rest) == Some(Arg(Some(name), v, rest))
  {
    hide ParseArg, IsPlain, Means;
    BlanksBefore("", name, "", text, v, rest);
    assert "" + name + "=" + "" + text + rest == name + "=" + text + rest && ("" + name)[..|name|] == name;
  }

  // An equal sign without a name in front of it changes nothing.
  lemma NamelessLaw(text: string, v: string, rest: string)
    requires Means(text, v) && (rest == "" || rest[0] == ',')
    ensures ParseArg("=" + text + rest) == Some(Arg(None, v, rest))
  {
    hide Quoted, IsPlain, Means, SkipBlank;
    var all := "=" + (text + rest);
    assert "=" + text + rest == all && all[1..] == text + rest && all[0..] == all;
    NoBlank(all);
    assert IdLen(all) == 0;
    MeansStart(text, v, rest);
    assert (text + rest)[0] == text[0];
    if text == v && IsPlain(v) { PlainStart(v, rest); }
  }

  // No value in front of a comma is the empty one.
  lemma EmptyValues(name: string, rest: string)
    requires IsPlain(name)
    ensures ParseArg("," + rest) == Some(Arg(None, "", "," + rest))
    ensures ParseArg(name + "=," + rest) == Some(Arg(Some(name), "", "," + rest))
  {
    hide Quoted, IsPlain;
    var comma := "," + rest;
    var more := "=" + comma;
    PlainStart(name, more);
    assert name + "=," + rest == name + more && more[1..] == comma && comma[..0] == "" && comma[0..] == comma;
    assert SkipBlank(comma) == comma && SkipBlank(more) == more && IdLen(comma) == 0;
  }

  lemma {:induction false} NeverClosed(delim: char, v: string)
    requires '\\' !in v && delim !in v
    ensures Quoted(delim, v) == None
  {
    if v != "" {
      assert v[0] in v && forall c :: c in v[1..] ==> c in v;
      NeverClosed(delim, v[1..]);
    }
  }

  // The ways in which the text of one argument can be wrong: there is none, or no value
  // behind the name, or no end of the quotes, or something between these and the comma.
  lemma WrongArguments(subs: Fields, defs: Fields, arg: nat, name: string, delim: char, v: string, rest: string)
    requires IsPlain(name) && delim in "'\"" && '\\' !in v && delim !in v
    ensures ParseArgs(subs, "", defs, arg) == None && ParseArgs(subs, name + "=", defs, arg) == None
    ensures ParseArgs(subs, [delim] + v, defs, arg) == None
    ensures ParseArgs(subs, name + "=" + ([delim] + v), defs, arg) == None
    ensures rest != "" && rest[0] != ',' ==> ParseArgs(subs, [delim] + v + [delim] + rest, defs, arg) == None
  {
    hide Quoted, IsPlain, Apply, Means, IdLen;
    PlainStart(name, "=");
    PlainStart(name, "=" + ([delim] + v));
    NeverClosed(delim, v);
    QuotesRead(delim, v, rest);
    var open := [delim] + v;
    assert open[1..] == v && ("=" + open)[1..] == open && name + "=" + open == name + ("=" + open);
    var closed := [delim] + v + [delim] + rest;
    assert closed[1..] == v + [delim] + rest;
    assert SkipBlank("=") == "=" && SkipBlank("=" + open) == "=" + open && SkipBlank(open) == open;
    assert ParseArg(name + "=") == None;
    assert ParseArg(name + ("=" + open)) == None;
  }

  // An argument for something that is no parameter is an error.
  lemma NoParameter(subs: Fields, defs: Fields, arg: nat, name: string, text: string, v: string, rest: string)
    requires IsPlain(name) && Means(text, v) && (rest == "" || rest[0] == ',')
    requires match Child(defs, name)
      case None => true
      case Some(n) =>
        && !n.Str?
        && (n.Compound? ==> match Child(n.fields, "type")
             case Some(Str(kind)) => kind !in {"string", "integer", "integer64", "real"}
             case _ => true)
    ensures ParseArgs(subs, name + "=" + text + rest, defs, arg) == None
  {
    hide ParseArg, Search, Child, Follow;
    ParseNamed(name, text, v, rest);
    FollowStep(defs, None, true, name, None, MAX_LOOP);
    assert Look(defs, None, true, name) == Entry(defs, name);
  }

  // A text without arguments changes nothing, and blanks around the braces do not count.
  lemma AroundBraces(subs: Fields, defs: Fields, b: string, body: string, b2: string)
    requires AreBlank(b) && AreBlank(b2)
    ensures ParseArgString(subs, b, defs) == Some(subs)
    ensures ParseArgString(subs, b + ("{" + body + "}" + b2), defs) == ParseArgString(subs, "{" + body + "}", defs)
  {
    hide Load, Find, Split, ParseArgs, TrimEnd, SkipBlank;
    var s := "{" + body + "}";
    assert SkipBlank("") == "" && SkipBlank(s) == s && SkipBlank(s + b2) == s + b2 by { BraceFirst(s, b2); }
    BlanksSkipped(b, "");
    assert b + "" == b;
    BlanksSkipped(b, s + b2);
    BlanksTrimmed(s, b2);
  }

  lemma BraceFirst(s: string, b2: string)
    requires s != "" && s[0] == '{'
    ensures SkipBlank("") == "" && SkipBlank(s) == s && SkipBlank(s + b2) == s + b2
  {
  }

  // Braces that are not closed are an error.
  lemma OpenBraces(subs: Fields, defs: Fields, b: string, body: string)
    requires AreBlank(b) && (body != "" ==> body[|body|-1] != '}' && !IsWhite(body[|body|-1]))
    ensures ParseArgString(subs, b + ("{" + body), defs) == None
  {
    hide Load, Find, Split, ParseArgs, SkipBlank;
    var t := "{" + body;
    BraceFirst(t, "");
    BlanksSkipped(b, t);
    assert t[|t|-1] == if body == "" then '{' else body[|body|-1];
    assert TrimEnd(t) == t;
  }

  lemma {:induction false} BlanksTrimmed(s: string, b: string)
    requires AreBlank(b) && s != "" && !IsWhite(s[|s|-1])
    ensures TrimEnd(s + b) == s && TrimEnd(s) == s
    decreases |b|
  {
    if b == "" {
      assert s + b == s;
    } else {
      var n := |b| - 1;
      assert (s + b)[..|s|+n] == s + b[..n] && b[n] in b && (s + b)[|s|+n] == b[n];
      BlanksTrimmed(s, b[..n]);
    }
  }

  // The node that a value becomes, by the type its parameter declares.
  lemma TypedLaw(s: string, i: int, kind: string)
    ensures Typed("string", s) == Some(Str(s))
    ensures Typed("integer", IntText(i)) == if LLONG_MIN <= i <= LLONG_MAX then Some(Integer(i)) else None
    ensures Typed("integer64", IntText(i))
         == Some(Integer64(if i < LLONG_MIN then LLONG_MIN else if i > LLONG_MAX then LLONG_MAX else i))
    ensures 0 <= i <= LLONG_MAX ==> Typed("integer", "+" + IntText(i)) == Some(Integer(i))
    ensures s == "" || s[0] !in "0123456789+-" ==> Typed("integer", s).None? && Typed("integer64", s).None?
    ensures kind !in {"string", "integer", "integer64", "real"} ==> Typed(kind, s).None?
  {
    hide Unsigned, IsReal;
    SignedText(i);
    if s == "" || s[0] !in "0123456789+-" { NoNumber(s); }
  }

  lemma SignedText(i: int)
    ensures Signed(IntText(i)) == Some(i) && (i >= 0 ==> Signed("+" + IntText(i)) == Some(i))
  {
    hide Unsigned, DigitsText;
    var n: nat := if i < 0 then -i else i;
    DigitsTextDigits(n);
    ReadDigits(n);
    assert DigitsText(n)[0] in DigitsText(n) && ("-" + DigitsText(n))[1..] == DigitsText(n);
    assert ("+" + DigitsText(n))[1..] == DigitsText(n);
  }

  lemma NoNumber(s: string)
    requires s == "" || s[0] !in "0123456789+-"
    ensures Signed(s).None?
  {
    if s != "" { assert s[0] in s && DigitOf(s[0]) >= 10; }
  }

  // Both the number and the name of a parameter lead to its definition.
  lemma ResolveParameter(defs: Fields, key: string, name: string)
    requires IsParameter(defs, name)
    requires key == name || Child(defs, key) == Some(Str(name))
    ensures Resolve(defs, None, key) == Found(Field(name, Child(defs, name).value))
  {
    assert Entry(defs, name) == Some(Field(name, Child(defs, name).value));
    if key != name {
      assert Follow(defs, None, false, name, Entry(defs, key), MAX_LOOP - 1) == Found(Entry(defs, name).value);
    }
  }

  function Without(fields: Fields, id: string): Fields {
    match Search(fields, id) case None => fields case Some(k) => Drop(fields, k)
  }

  // What an argument for the parameter `name` does.
  function ApplyTo(subs: Fields, defs: Fields, name: string, val: string): Option<Fields>
    requires IsParameter(defs, name)
  {
    var cleared := Without(subs, name);
    match Typed(KindOf(defs, name), val)
    case None => None
    case Some(v) => if Search(cleared, name).Some? then None else Some(cleared + [Field(name, v)])
  }

  lemma ApplyParameter(subs: Fields, defs: Fields, key: string, name: string, val: string)
    requires IsParameter(defs, name)
    requires key == name || Child(defs, key) == Some(Str(name))
    ensures Apply(subs, defs, key, val) == ApplyTo(subs, defs, name, val)
  {
    hide Resolve, Typed, Search;
    ResolveParameter(defs, key, name);
  }

  predicate AreArgs(defs: Fields, args: seq<(string, string)>) {
    forall a :: a in args ==> IsParameter(defs, a.0) && IsPlain(a.0)
  }

  function ApplyAll(subs: Fields, defs: Fields, args: seq<(string, string)>): Option<Fields>
    requires AreArgs(defs, args)
    decreases args
  {
    if args == [] then Some(subs)
    else
      assert args[0] in args;
      match ApplyTo(subs, defs, args[0].0, args[0].1)
      case None => None
      case Some(subs2) => ApplyAll(subs2, defs, args[1..])
  }

  // Arguments `n0=v0,n1=v1,...` are applied in turn, whichever way their values are written.
  lemma {:induction false} NamedApplies(subs: Fields, defs: Fields, args: seq<(string, string)>, texts: seq<string>,
                                        arg: nat)
    requires AreArgs(defs, args) && args != [] && AllMean(texts, Values(args))
    ensures ParseArgs(subs, Named(Labelled(args, texts)), defs, arg) == ApplyAll(subs, defs, args)
    decreases args
  {
    hide ParseArg, Apply, ApplyTo, IsPlain, IsParameter, Means;
    assert args[0] in args;
    var name, val := args[0].0, args[0].1;
    assert Means(texts[0], val);
    var all := Labelled(args, texts);
    assert all[1..] == Labelled(args[1..], texts[1..]) && Values(args[1..]) == Values(args)[1..];
    var rest := if |args| == 1 then "" else "," + Named(all[1..]);
    assert Named(all) == name + "=" + texts[0] + rest;
    ParseNamed(name, texts[0], val, rest);
    ApplyParameter(subs, defs, name, name, val);
    var r := ApplyTo(subs, defs, name, val);
    if r.Some? && |args| > 1 {
      assert rest[1..] == Named(all[1..]);
      NamedApplies(r.value, defs, args[1..], texts[1..], arg + 1);
    }
  }

  function Zip(names: seq<string>, vals: seq<string>): (r: seq<(string, string)>)
    requires |vals| <= |names|
    ensures |r| == |vals| && forall i :: 0 <= i < |r| ==> r[i] == (names[i], vals[i])
  {
    seq(|vals|, i requires 0 <= i < |vals| => (names[i], vals[i]))
  }

  lemma DeclaresAt(defs: Fields, names: seq<string>, i: nat)
    requires Declares(defs, names) && i < |names|
    ensures Child(defs, DigitsText(i)) == Some(Str(names[i])) && IsParameter(defs, names[i])
  {
  }

  // Arguments `v0,v1,...` are applied to the parameters in their order.
  lemma {:induction false} PositionalApplies(subs: Fields, defs: Fields, names: seq<string>,
                                             vals: seq<string>, texts: seq<string>, arg: nat)
    requires Declares(defs, names) && arg + |vals| <= |names| && vals != [] && AllMean(texts, vals)
    requires AreArgs(defs, Zip(names[arg..], vals))
    ensures ParseArgs(subs, Positional(texts), defs, arg) == ApplyAll(subs, defs, Zip(names[arg..], vals))
    decreases vals
  {
    hide ParseArg, Apply, ApplyTo, IsPlain, IsParameter, DigitsText, Declares, Child, Means;
    DeclaresAt(defs, names, arg);
    var args := Zip(names[arg..], vals);
    assert args[0] in args && args[0] == (names[arg], vals[0]) && Means(texts[0], vals[0]);
    var rest := if |vals| == 1 then "" else "," + Positional(texts[1..]);
    assert Positional(texts) == texts[0] + rest;
    ParseValueText(texts[0], vals[0], rest);
    ApplyParameter(subs, defs, DigitsText(arg), names[arg], vals[0]);
    var r := ApplyTo(subs, defs, names[arg], vals[0]);
    assert args[1..] == Zip(names[arg+1..], vals[1..]);
    if r.Some? && |vals| > 1 {
      assert rest[1..] == Positional(texts[1..]);
      PositionalApplies(r.value, defs, names, vals[1..], texts[1..], arg + 1);
    }
  }

  // ---- what applying means ----

  lemma {:induction false} SearchUnique(fields: Fields, id: string, k: nat)
    requires UniqueIds(fields) && k < |fields| && fields[k].id == id
    ensures Search(fields, id) == Some(k)
  {
    var r := Search(fields, id);
    assert fields[k] in fields;
  }

  lemma ChildOf(fields: Fields, f: Field)
    requires UniqueIds(fields) && f in fields
    ensures Child(fields, f.id) == Some(f.node)
  {
    var k :| 0 <= k < |fields| && fields[k] == f;
    SearchUnique(fields, f.id, k);
  }

  lemma ChildMember(fields: Fields, id: string)
    ensures match Child(fields, id)
      case None => forall f :: f in fields ==> f.id != id
      case Some(n) => Field(id, n) in fields
  {
  }

  lemma Cleared(subs: Fields, name: string)
    requires UniqueIds(subs)
    ensures var cleared := Without(subs, name);
      UniqueIds(cleared) && forall f :: f in cleared <==> f in subs && f.id != name
  {
    hide Search;
    var cleared := Without(subs, name);
    match Search(subs, name)
    case None =>
    case Some(k) => assert forall f :: f in cleared <==> f in subs && f.id != name;
  }

  // One child is replaced by another one with its id.
  lemma Replaced(fields: Fields, g: Field, other: string)
    requires UniqueIds(fields)
    ensures var w := Without(fields, g.id);
      && (forall f :: f in w ==> f.id != g.id && f in fields) && UniqueIds(w + [g])
      && Child(w + [g], other) == if other == g.id then Some(g.node) else Child(fields, other)
  {
    hide Child, Search, Without;
    Cleared(fields, g.id);
    var w := Without(fields, g.id);
    var r := w + [g];
    assert UniqueIds(r);
    ChildMember(r, other);
    ChildMember(fields, other);
    if Child(r, other).Some? { ChildOf(r, Field(other, Child(r, other).value)); }
    if Child(fields, other).Some? { ChildOf(fields, Field(other, Child(fields, other).value)); }
    ChildOf(r, g);
  }

  // A parameter gets the value; its default, or an earlier value, is gone.
  lemma Applied(subs: Fields, defs: Fields, name: string, val: string, other: string)
    requires UniqueIds(subs) && IsParameter(defs, name)
    ensures ApplyTo(subs, defs, name, val).Some? <==> Typed(KindOf(defs, name), val).Some?
    ensures var r := ApplyTo(subs, defs, name, val);
      r.Some? ==>
        && UniqueIds(r.value)
        && Child(r.value, other) == if other == name then Typed(KindOf(defs, name), val) else Child(subs, other)
  {
    hide Typed, Child, Search, IsParameter, KindOf, Without;
    var t := Typed(KindOf(defs, name), val);
    if t.Some? { Replaced(subs, Field(name, t.value), other); }
  }

  lemma {:induction false} AllApplied(subs: Fields, defs: Fields, args: seq<(string, string)>, id: string)
    requires UniqueIds(subs) && AreArgs(defs, args)
    ensures ApplyAll(subs, defs, args).Some?
      <==> forall a :: a in args ==> Typed(KindOf(defs, a.0), a.1).Some?
    ensures var r := ApplyAll(subs, defs, args);
      r.Some? ==>
        && UniqueIds(r.value)
        && match Given(args, id)
           case None => Child(r.value, id) == Child(subs, id)
           case Some(val) => IsParameter(defs, id) && Child(r.value, id) == Typed(KindOf(defs, id), val)
    decreases args
  {
    hide ApplyTo, Typed, Child, IsParameter, KindOf, IsPlain;
    if args != [] {
      assert args[0] in args;
      Applied(subs, defs, args[0].0, args[0].1, id);
      var r := ApplyTo(subs, defs, args[0].0, args[0].1);
      assert args == [args[0]] + args[1..];
      GivenFirst(args, id);
      if r.Some? { AllApplied(r.value, defs, args[1..], id); }
    }
  }

  lemma {:induction false} GivenFirst(args: seq<(string, string)>, id: string)
    requires args != []
    ensures Given(args, id) == match Given(args[1..], id)
      case Some(v) => Some(v)
      case None => if args[0].0 == id then Some(args[0].1) else None
    decreases args
  {
    if |args| > 1 {
      var n := |args| - 1;
      assert args[..n][1..] == args[1..][..n-1] && args[1..][n-1] == args[n];
      GivenFirst(args[..n], id);
    } else {
      assert args[..0] == [] && args[1..] == [];
    }
  }

  lemma {:induction false} GivenMember(args: seq<(string, string)>, id: string)
    ensures match Given(args, id)
      case Some(v) => (id, v) in args
      case None => forall a :: a in args ==> a.0 != id
    decreases args
  {
    if args != [] {
      var n := |args| - 1;
      GivenMember(args[..n], id);
      assert args == args[..n] + [args[n]];
    }
  }

  // What is given to a parameter in any order of the arguments, if each occurs once.
  lemma GivenIs(names: seq<string>, vals: seq<string>, args: seq<(string, string)>, id: string)
    requires |vals| <= |names| && (forall i, j :: 0 <= i < j < |names| ==> names[i] != names[j])
    requires multiset(args) == multiset(Zip(names, vals))
    ensures forall i :: 0 <= i < |vals| && names[i] == id ==> Given(args, id) == Some(vals[i])
    ensures id !in names[..|vals|] ==> Given(args, id) == None
    ensures forall a :: a in args <==> a in Zip(names, vals)
    ensures |args| == |vals|
  {
    hide Given;
    var zip := Zip(names, vals);
    assert forall a :: a in args <==> a in multiset(args);
    assert forall a :: a in zip <==> a in multiset(zip);
    assert |multiset(args)| == |multiset(zip)|;
    GivenMember(args, id);
    forall i | 0 <= i < |vals| && names[i] == id ensures Given(args, id) == Some(vals[i]) {
      assert zip[i] in zip && zip[i] == (id, vals[i]);
    }
    if id !in names[..|vals|] {
      assert forall a :: a in zip ==> a.0 in names[..|vals|];
    }
  }

  // For a block with `@args [ n0 n1 ... ]`, the argument string `v0,v1,...` and any
  // ordering of `n0=v0,n1=v1,...` are accepted alike, and give every parameter the same
  // value: the one supplied, or else its default. Each parameter occurs once, and values
  // may be written differently in the two.
  lemma PositionalIsNamed(subs: Fields, defs: Fields, names: seq<string>, vals: seq<string>, texts: seq<string>,
                          args: seq<(string, string)>, texts2: seq<string>, id: string)
    requires UniqueIds(subs) && Declares(defs, names) && 0 < |vals| <= |names|
    requires AreArgs(defs, Zip(names, vals)) && multiset(args) == multiset(Zip(names, vals))
    requires AllMean(texts, vals) && AllMean(texts2, Values(args))
    ensures var p := ParseArgs(subs, Positional(texts), defs, 0);
      var n := ParseArgs(subs, Named(Labelled(args, texts2)), defs, 0);
      && (p.Some? <==> n.Some?)
      && (p.Some? ==> UniqueIds(p.value) && UniqueIds(n.value) && Child(p.value, id) == Child(n.value, id))
      && (p.Some? ==> forall i :: 0 <= i < |vals| && names[i] == id ==>
           Child(p.value, id) == Typed(KindOf(defs, id), vals[i]))
      && (p.Some? && id !in names[..|vals|] ==> Child(p.value, id) == Child(subs, id))
  {
    hide ParseArgs, ApplyAll, Typed, Child, IsParameter, KindOf, IsPlain, Named, Positional, Given, Means, Labelled;
    var zip := Zip(names, vals);
    assert names[0..] == names;
    GivenIs(names, vals, args, id);
    GivenIs(names, vals, zip, id);
    PositionalApplies(subs, defs, names, vals, texts, 0);
    NamedApplies(subs, defs, args, texts2, 0);
    AllApplied(subs, defs, zip, id);
    AllApplied(subs, defs, args, id);
    if id in names[..|vals|] {
      var i :| 0 <= i < |vals| && names[i] == id;
    }
  }
}
