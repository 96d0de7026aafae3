// What loading one line `k1.k2. ... kn value` does to a tree.

module ConfAssign {
  import opened ConfText
  import opened ConfTree
  import opened ConfParse
  import opened ConfSave
  import opened ConfSearch
  import opened ConfRoundTrip

  function Replace(fields: Fields, k: nat, node: Node): Fields
    requires k < |fields|
  {
    fields[k := Field(fields[k].id, node)]
  }

  // Assigning a scalar to the key `path`; None if something on the way is not a
  // compound, or if the key has a value of another type.
  function Assign(fields: Fields, path: seq<string>, v: Node): Option<Fields>
    requires path != []
    decreases path
  {
    match Search(fields, path[0])
    case None =>
      if |path| == 1 then Some(fields + [Field(path[0], v)])
      else
        (match Assign([], path[1..], v)
         case None => None
         case Some(inner) => Some(fields + [Field(path[0], Compound(true, inner))]))
    case Some(k) =>
      if |path| == 1 then
        (match Stored(fields[k].node, v)
         case None => None
         case Some(w) => Some(Replace(fields, k, w)))
      else if !fields[k].node.Compound? then None
      else
        match Assign(fields[k].node.fields, path[1..], v)
        case None => None
        case Some(inner) => Some(Replace(fields, k, Compound(true, inner)))
  }

  // ---- loading a line assigns ----

  predicate AreIds(path: seq<string>) {
    forall p :: p in path ==> IsSavable(p, true)
  }

  // Reading came to the end of the text and did what assigning does, or both failed.
  predicate Agrees(r: Parsed, a: Option<Fields>) {
    match a
    case None => !r.Ok()
    case Some(g) => r == Good(g, "")
  }

  lemma NoText()
    ensures NonWhite("") == Stop(UnexpectedEof, "")
  {
  }

  lemma NothingLeft()
    ensures AfterSeparator("\n") == ""
  {
    assert NonWhite("\n") == NonWhite("\n"[1..]);
  }

  lemma ToBody(fields: Fields, id: string, value: string)
    requires value != "" && value[0] !in ".=" && NonWhite(value) == Next(value[0], value[1..])
    ensures ParseKeyed(fields, id, MergeCreate, " " + value, false, false)
      == ParseBody(fields, id, MergeCreate, value, false, false)
  {
    hide NonWhite, ParseBody;
    SkipBlank(value);
    assert [value[0]] + value[1..] == value;
  }

  lemma ValueAssigns(fields: Fields, id: string, v: Node, value: string)
    requires IsScalar(v) && IsSavableNode(v) && value == SaveValue(v, 0) + "\n"
    ensures Agrees(ParseKeyed(fields, id, MergeCreate, " " + value, false, false), Assign(fields, [id], v))
  {
    hide GetString, NonWhite, SaveValue, Scalar, IsSavableNode, Search, Stored, ParseKeyed;
    ReadScalar(v, 0, "\n");
    ToBody(fields, id, value);
    NothingLeft();
  }

  // A dot after the first component.
  lemma DotAssigns(fields: Fields, path: seq<string>, v: Node, inner: string)
    requires |path| > 1
    requires Agrees(ParseDef([], inner, false, false), Assign([], path[1..], v))
    requires var k := Search(fields, path[0]);
      k.Some? && fields[k.value].node.Compound? ==>
        Agrees(ParseDef(fields[k.value].node.fields, inner, false, false),
               Assign(fields[k.value].node.fields, path[1..], v))
    ensures Agrees(ParseKeyed(fields, path[0], MergeCreate, "." + inner, false, false),
                   Assign(fields, path, v))
  {
    hide ParseDef, Search, ParseContents;
    assert ("." + inner)[1..] == inner;
    assert NonWhite("." + inner) == Next('.', inner);
    assert ParseKeyed(fields, path[0], MergeCreate, "." + inner, false, false)
        == ParseComponent(fields, path[0], MergeCreate, inner, false, false);
    match Search(fields, path[0])
    case None =>
      assert ParseComponent(fields, path[0], MergeCreate, inner, false, false)
          == ParseInside(fields, path[0], inner, false);
    case Some(k) =>
      assert fields[k].id == path[0];
      assert ParseComponent(fields, path[0], MergeCreate, inner, false, false)
          == ParseExisting(fields, k, inner, false);
  }

  lemma {:induction false} LineAssigns(fields: Fields, path: seq<string>, v: Node, value: string)
    requires path != [] && AreIds(path)
    requires IsScalar(v) && IsSavableNode(v) && value == SaveValue(v, 0) + "\n"
    ensures Agrees(ParseDef(fields, IdPrint(path) + " " + value, false, false), Assign(fields, path, v))
    decreases path
  {
    hide StringPrint, IsSavable, ParseDef, ParseKeyed, SaveValue, IsSavableNode, Assign, Agrees;
    assert path[0] in path;
    if |path| == 1 {
      assert path == [path[0]];
      KeyStart(path[0], " " + value);
      assert IdPrint(path) + " " + value == StringPrint(path[0], true) + (" " + value);
      ValueAssigns(fields, path[0], v, value);
    } else {
      var inner := IdPrint(path[1..]) + " " + value;
      assert IdPrint(path) + " " + value == StringPrint(path[0], true) + ("." + inner);
      KeyStart(path[0], "." + inner);
      assert forall p :: p in path[1..] ==> p in path;
      LineAssigns([], path[1..], v, value);
      var k := Search(fields, path[0]);
      if k.Some? && fields[k.value].node.Compound? {
        LineAssigns(fields[k.value].node.fields, path[1..], v, value);
      }
      DotAssigns(fields, path, v, inner);
    }
  }

  // Loading `k1.k2. ... kn value` in the default mode assigns the value to the key, or
  // fails if it cannot be assigned.
  lemma LoadAssigns(fields: Fields, path: seq<string>, v: Node)
    requires path != [] && AreIds(path) && IsScalar(v) && IsSavableNode(v)
    ensures Agrees(Load(fields, IdPrint(path) + " " + SaveValue(v, 0) + "\n", false),
                   Assign(fields, path, v))
  {
    hide ParseDef, Assign, IdPrint, SaveValue, NonWhite;
    var value := SaveValue(v, 0) + "\n";
    var text := IdPrint(path) + " " + value;
    assert IdPrint(path) + " " + SaveValue(v, 0) + "\n" == text;
    LineAssigns(fields, path, v, value);
    PathStarts(path, value);
    assert [text[0]] + text[1..] == text;
    NoText();
    Committed(fields, text);
  }

  lemma PathStarts(path: seq<string>, value: string)
    requires path != [] && AreIds(path)
    ensures var text := IdPrint(path) + " " + value;
      text != "" && text[0] != '}' && NonWhite(text) == Next(text[0], text[1..])
  {
    hide NonWhite, IsSavable, StringPrint, IdPrint;
    assert path[0] in path;
    var more := if |path| == 1 then "" else "." + IdPrint(path[1..]);
    var rest := more + " " + value;
    FirstId(path);
    assert IdPrint(path) + " " + value == StringPrint(path[0], true) + rest;
    StartsWell(path[0], true, rest);
  }

  // A text that is one definition.
  lemma Committed(fields: Fields, text: string)
    requires text != "" && text[0] != '}' && NonWhite(text) == Next(text[0], text[1..])
    ensures var d := ParseDef(fields, text, false, false);
      (d == Good(d.fields, "") ==> Load(fields, text, false) == d) &&
      (!d.Ok() ==> !Load(fields, text, false).Ok())
  {
    hide ParseDef, NonWhite;
    assert [text[0]] + text[1..] == text;
    NoText();
    var d := ParseDef(fields, text, false, false);
    assert ParseDefs(d.fields, "", false, false) == Good(d.fields, "");
  }

  // ---- what assigning means ----

  lemma {:induction false} SearchReplace(fields: Fields, k: nat, node: Node, id: string)
    requires k < |fields|
    ensures Search(Replace(fields, k, node), id) == Search(fields, id)
    decreases k
  {
    var g := Replace(fields, k, node);
    if k == 0 {
      assert g[1..] == fields[1..] && g[0].id == fields[0].id;
    } else {
      assert g[1..] == Replace(fields[1..], k - 1, node) && g[0] == fields[0];
      SearchReplace(fields[1..], k - 1, node, id);
    }
  }

  lemma {:induction false} SearchAppend(fields: Fields, f: Field, id: string)
    requires Search(fields, f.id).None?
    ensures Search(fields + [f], id) == if id == f.id then Some(|fields|) else Search(fields, id)
  {
    if fields == [] {
      assert [f][1..] == [];
    } else {
      assert (fields + [f])[1..] == fields[1..] + [f] && fields[0] in fields;
      SearchAppend(fields[1..], f, id);
    }
  }

  // One step of a lookup after a change at the end or in place.
  lemma ChildAfter(fields: Fields, id: string, node: Node, other: string)
    ensures var g := match Search(fields, id)
              case None => fields + [Field(id, node)]
              case Some(k) => Replace(fields, k, node);
      Child(g, other) == if other == id then Some(node) else Child(fields, other)
  {
    match Search(fields, id)
    case None =>
      SearchAppend(fields, Field(id, node), other);
      var g := fields + [Field(id, node)];
      assert g[|fields|] == Field(id, node) && forall i :: 0 <= i < |fields| ==> g[i] == fields[i];
    case Some(k) => SearchReplace(fields, k, node, other);
  }

  // The new child that assigning makes of the first component.
  lemma AssignStep(fields: Fields, path: seq<string>, v: Node) returns (node: Node)
    requires path != [] && Assign(fields, path, v).Some?
    ensures Assign(fields, path, v).value ==
      match Search(fields, path[0])
      case None => fields + [Field(path[0], node)]
      case Some(k) => Replace(fields, k, node)
    ensures var old' := Child(fields, path[0]);
      if |path| == 1 then
        if old'.None? then node == v else Stored(old'.value, v) == Some(node)
      else
        && (old'.Some? ==> old'.value.Compound?) && node.Compound? && node.join
        && Assign(if old'.None? then [] else old'.value.fields, path[1..], v) == Some(node.fields)
  {
    match Search(fields, path[0])
    case None =>
      node := if |path| == 1 then v else Compound(true, Assign([], path[1..], v).value);
    case Some(k) =>
      node := if |path| == 1 then Stored(fields[k].node, v).value
              else Compound(true, Assign(fields[k].node.fields, path[1..], v).value);
  }

  // The key has the value afterwards. A number keeps the width of the node it is
  // stored into.
  predicate SameValue(a: Node, b: Node) {
    a == b || ((a.Integer? || a.Integer64?) && (b.Integer? || b.Integer64?) && a.i == b.i)
  }

  lemma {:induction false} AssignedIsFound(fields: Fields, join: bool, path: seq<string>, v: Node)
    requires path != [] && Assign(fields, path, v).Some?
    ensures var r := Find(Compound(join, Assign(fields, path, v).value), path);
      r.Some? && SameValue(r.value, v) && (Find(Compound(join, fields), path).None? ==> r.value == v)
    decreases path
  {
    hide Assign;
    var node := AssignStep(fields, path, v);
    ChildAfter(fields, path[0], node, path[0]);
    var old' := Child(fields, path[0]);
    if |path| > 1 {
      var inner := if old'.None? then [] else old'.value.fields;
      AssignedIsFound(inner, true, path[1..], v);
      FindJoin(inner, true, if old'.None? then true else old'.value.join, path[1..]);
    } else {
      assert path[1..] == [];
      assert Find(Compound(join, fields), path) == old';
    }
  }

  lemma FindJoin(fields: Fields, a: bool, b: bool, path: seq<string>)
    requires path != []
    ensures Find(Compound(a, fields), path) == Find(Compound(b, fields), path)
  {
  }

  // Values that can replace one another.
  predicate SameKind(a: Node, b: Node) {
    match a
    case Integer(_) => b.Integer? || b.Integer64?
    case Integer64(_) => b.Integer? || b.Integer64?
    case Real(_) => b.Real?
    case Str(_) => b.Str?
    case Compound(_, _) => false
  }

  // There is nothing but compounds on the way, as far as there is anything.
  predicate IsOpen(node: Node, path: seq<string>) {
    forall n :: 0 < n < |path| ==> Find(node, path[..n]).Some? ==> Find(node, path[..n]).value.Compound?
  }

  // Assigning fails exactly if something on the way is no compound, or if the key has a value
  // of another kind. A value that is there keeps its type.
  lemma {:induction false} AssignsExactly(fields: Fields, join: bool, path: seq<string>, v: Node)
    requires path != [] && IsScalar(v)
    ensures var node := Compound(join, fields); var old' := Find(node, path);
      && (Assign(fields, path, v).Some? <==> IsOpen(node, path) && (old'.Some? ==> SameKind(old'.value, v)))
      && (Assign(fields, path, v).Some? && old'.Some? ==>
           var r := Find(Compound(join, Assign(fields, path, v).value), path);
           r.Some? && (r.value.Integer? <==> old'.value.Integer?) && (r.value.Integer64? <==> old'.value.Integer64?))
    decreases path
  {
    hide Search, Assign, Stored, Child, IsOpen;
    var node := Compound(join, fields);
    AssignUnfolds(fields, path, v);
    FirstStep(fields, join, path);
    var old' := Child(fields, path[0]);
    if |path| > 1 {
      var inner := if old'.None? then [] else if old'.value.Compound? then old'.value.fields else [];
      var j := if old'.Some? && old'.value.Compound? then old'.value.join else true;
      AssignsExactly(inner, j, path[1..], v);
      OpenStep(fields, join, path);
      if old'.None? { EmptyOpen(j, path[1..]); }
      if Assign(fields, path, v).Some? {
        FirstStep(Assign(fields, path, v).value, join, path);
        AssignedChild(fields, path, v);
        FindJoin(Assign(inner, path[1..], v).value, true, j, path[1..]);
      }
    } else {
      OneOpen(node, path);
      if old'.Some? { StoredKind(old'.value, v); }
      if Assign(fields, path, v).Some? {
        FirstStep(Assign(fields, path, v).value, join, path);
        AssignedChild(fields, path, v);
      }
    }
  }

  lemma AssignUnfolds(fields: Fields, path: seq<string>, v: Node)
    requires path != []
    ensures var old' := Child(fields, path[0]);
      Assign(fields, path, v).Some? <==>
        if |path| == 1 then old'.None? || Stored(old'.value, v).Some?
        else
          && (old'.Some? ==> old'.value.Compound?)
          && Assign(if old'.None? then [] else old'.value.fields, path[1..], v).Some?
  {
  }

  // The child on the way after assigning.
  lemma AssignedChild(fields: Fields, path: seq<string>, v: Node)
    requires path != [] && Assign(fields, path, v).Some?
    ensures var old', r := Child(fields, path[0]), Child(Assign(fields, path, v).value, path[0]);
      if |path| == 1 then r == if old'.None? then Some(v) else Stored(old'.value, v)
      else
        && (old'.Some? ==> old'.value.Compound?)
        && var inner := Assign(if old'.None? then [] else old'.value.fields, path[1..], v);
           inner.Some? && r == Some(Compound(true, inner.value))
  {
    hide Assign, Search, Stored;
    var node := AssignStep(fields, path, v);
    ChildAfter(fields, path[0], node, path[0]);
  }

  lemma FirstStep(fields: Fields, join: bool, path: seq<string>)
    requires path != []
    ensures Find(Compound(join, fields), path) ==
      match Child(fields, path[0]) case None => None case Some(n) => Find(n, path[1..])
  {
    hide Child;
  }

  lemma StoredKind(a: Node, b: Node)
    requires !b.Compound?
    ensures Stored(a, b).Some? <==> SameKind(a, b)
    ensures Stored(a, b).Some? ==> var r := Stored(a, b).value;
      (r.Integer? <==> a.Integer?) && (r.Integer64? <==> a.Integer64?)
  {
  }

  lemma OneOpen(node: Node, path: seq<string>)
    requires |path| == 1
    ensures IsOpen(node, path)
  {
  }

  lemma EmptyOpen(join: bool, path: seq<string>)
    requires path != []
    ensures IsOpen(Compound(join, []), path) && Find(Compound(join, []), path).None?
  {
    forall n | 0 < n < |path| ensures Find(Compound(join, []), path[..n]).None? {
      assert path[..n][0] == path[0];
    }
  }

  lemma OpenStep(fields: Fields, join: bool, path: seq<string>)
    requires |path| > 1
    ensures IsOpen(Compound(join, fields), path) <==>
      match Child(fields, path[0]) case None => true case Some(n) => n.Compound? && IsOpen(n, path[1..])
  {
    hide Child;
    var node, c := Compound(join, fields), Child(fields, path[0]);
    forall n | 0 < n < |path|
      ensures Find(node, path[..n]) == match c case None => None case Some(x) => Find(x, path[1..][..n-1])
    {
      FirstStep(fields, join, path[..n]);
      assert path[..n][1..] == path[1..][..n-1];
    }
    if c.Some? {
      var x := c.value;
      assert path[1..][..0] == [] && Find(node, path[..1]) == Find(x, []) == Some(x);
      forall m | 0 < m < |path[1..]| ensures Find(node, path[..m+1]) == Find(x, path[1..][..m]) {
      }
    }
  }

  // No other key changes: neither its value nor whether it exists.
  lemma {:induction false} OtherKeysUnchanged(fields: Fields, join: bool, path: seq<string>, v: Node, key: seq<string>)
    requires path != [] && IsScalar(v) && Assign(fields, path, v).Some? && !(key <= path)
    ensures Find(Compound(join, Assign(fields, path, v).value), key) == Find(Compound(join, fields), key)
    decreases path
  {
    hide Assign;
    var node := AssignStep(fields, path, v);
    ChildAfter(fields, path[0], node, key[0]);
    if key[0] == path[0] {
      var old' := Child(fields, path[0]);
      assert key == [key[0]] + key[1..] && path == [path[0]] + path[1..];
      if |path| > 1 {
        var inner := if old'.None? then [] else old'.value.fields;
        OtherKeysUnchanged(inner, true, path[1..], v, key[1..]);
        FindJoin(inner, true, if old'.None? then true else old'.value.join, key[1..]);
      } else {
        assert path[1..] == [] && key[1..] != [];
      }
    }
  }

  // On the way there, only compounds that were missing are made, and all are joined.
  lemma {:induction false} WayIsJoined(fields: Fields, join: bool, path: seq<string>, v: Node, n: nat)
    requires path != [] && Assign(fields, path, v).Some? && 0 < n < |path|
    ensures var r := Find(Compound(join, Assign(fields, path, v).value), path[..n]);
      r.Some? && r.value.Compound? && r.value.join
    ensures var old' := Find(Compound(join, fields), path[..n]);
      old'.Some? ==> old'.value.Compound?
    decreases path
  {
    hide Assign;
    var node := AssignStep(fields, path, v);
    ChildAfter(fields, path[0], node, path[0]);
    assert path[..n][0] == path[0] && path[..n][1..] == path[1..][..n-1];
    if n > 1 {
      var old' := Child(fields, path[0]);
      WayIsJoined(if old'.None? then [] else old'.value.fields, true, path[1..], v, n - 1);
      if old'.Some? { FindJoin(old'.value.fields, true, old'.value.join, path[1..][..n-1]); }
    }
  }

  lemma UniqueAfter(fields: Fields, id: string, node: Node)
    requires AllWellFormed(fields) && WellFormed(node)
    ensures match Search(fields, id)
      case None => AllWellFormed(fields + [Field(id, node)])
      case Some(k) => AllWellFormed(Replace(fields, k, node))
  {
  }

  // Ids stay unique among siblings, everywhere.
  lemma {:induction false} AssignKeepsIdsUnique(fields: Fields, path: seq<string>, v: Node)
    requires path != [] && IsScalar(v) && AllWellFormed(fields) && Assign(fields, path, v).Some?
    ensures AllWellFormed(Assign(fields, path, v).value)
    decreases path
  {
    hide Assign, AllWellFormed;
    var node := AssignStep(fields, path, v);
    var old' := Child(fields, path[0]);
    assert WellFormed(node) by {
      if |path| > 1 {
        NoChildren();
        if old'.Some? { ChildWellFormed(fields, path[0]); }
        AssignKeepsIdsUnique(if old'.None? then [] else old'.value.fields, path[1..], v);
      }
    }
    UniqueAfter(fields, path[0], node);
  }

  lemma NoChildren()
    ensures AllWellFormed([])
  {
  }

  lemma ChildWellFormed(fields: Fields, id: string)
    requires AllWellFormed(fields) && Child(fields, id).Some?
    ensures WellFormed(Child(fields, id).value)
  {
    var k := Search(fields, id).value;
    assert fields[k] in fields;
  }
}
