// Whatever text is read into a tree, ids stay unique among siblings at all depths - unless
// an array element is given an id that is taken, for which the code does not check.

module ConfUnique {
  import opened ConfText
  import opened ConfTree
  import opened ConfParse
  import ConfSkip

  // ---- what may happen to the children of a compound ----

  lemma Appended(fields: Fields, id: string, node: Node)
    requires AllWellFormed(fields) && WellFormed(node) && Search(fields, id).None?
    ensures AllWellFormed(fields + [Field(id, node)])
  {
  }

  lemma Changed(fields: Fields, k: nat, node: Node)
    requires AllWellFormed(fields) && WellFormed(node) && k < |fields|
    ensures AllWellFormed(fields[k := Field(fields[k].id, node)])
  {
  }

  lemma Dropped(fields: Fields, k: nat)
    requires AllWellFormed(fields) && k < |fields|
    ensures AllWellFormed(Drop(fields, k)) && Search(Drop(fields, k), fields[k].id).None?
  {
    var d := Drop(fields, k);
    assert forall i :: 0 <= i < |d| ==> d[i] == fields[if i < k then i else i + 1];
  }

  lemma At(fields: Fields, k: nat)
    requires AllWellFormed(fields) && k < |fields|
    ensures WellFormed(fields[k].node)
    ensures fields[k].node.Compound? ==> AllWellFormed(fields[k].node.fields)
  {
  }

  lemma Leaf(node: Node)
    requires node.Compound? ==> node.fields == []
    ensures WellFormed(node)
  {
  }

  lemma NoFields()
    ensures AllWellFormed([])
  {
  }

  lemma Branch(join: bool, fields: Fields)
    requires AllWellFormed(fields)
    ensures WellFormed(Compound(join, fields))
  {
  }

  // ---- the parse functions ----

  // `fields` is where a parse function starts from, with nothing repeated so far.
  predicate Kept(fields: Fields, r: Parsed) {
    AllWellFormed(fields) && !r.taken ==> AllWellFormed(r.fields)
  }

  lemma ValueKept(fields: Fields, at: Option<nat>, id: string, inp: string, skip: bool)
    requires match at case None => skip || Search(fields, id).None? case Some(k) => k < |fields|
    ensures Kept(fields, ParseValue(fields, at, id, inp, skip))
  {
    hide GetString, Search, AllWellFormed, WellFormed;
    match GetString(false, inp)
    case Bad(_, _) =>
    case Got(s, delimited, _) =>
      var v := Scalar(s, delimited);
      if AllWellFormed(fields) && !skip {
        Leaf(v);
        match at
        case None => Appended(fields, id, v);
        case Some(k) =>
          if Stored(fields[k].node, v).Some? {
            Leaf(Stored(fields[k].node, v).value);
            Changed(fields, k, Stored(fields[k].node, v).value);
          }
      }
  }

  lemma {:induction false} NestedKept(fields: Fields, k: nat, open: char, inp: string, skip: bool, override: bool)
    requires !skip ==> k < |fields| && fields[k].node.Compound?
    ensures var n := ParseNested(fields, k, open, inp, skip, override);
      AllWellFormed(fields) && !n.inner.taken ==> AllWellFormed(n.fields)
    decreases |inp|, 3
  {
    hide ParseDefs, ParseArrayDefs, NonWhite, AllWellFormed, WellFormed;
    if AllWellFormed(fields) && !skip {
      At(fields, k);
      var inner := fields[k].node.fields;
      var d := ParseNested(fields, k, open, inp, skip, override).inner;
      if open == '{' {
        DefsKept(inner, inp, skip, override);
      } else {
        ArrayDefsKept(inner, 0, inp, skip, override);
      }
      if !d.taken {
        Branch(fields[k].node.join, d.fields);
        Changed(fields, k, fields[k].node.(fields := d.fields));
      }
    }
  }

  lemma {:induction false} ElementKept(fields: Fields, id: string, open: char, inp: string, skip: bool, override: bool)
    requires skip || Search(fields, id).None?
    ensures Kept(fields, ParseElement(fields, id, open, inp, skip, override))
    decreases |inp|, 4
  {
    hide ParseNested, Search, AllWellFormed, WellFormed;
    var made := if skip then fields else fields + [Field(id, Compound(false, []))];
    if AllWellFormed(fields) && !skip {
      Leaf(Compound(false, []));
      Appended(fields, id, Compound(false, []));
    }
    NestedKept(made, |fields|, open, inp, skip, override);
  }

  lemma {:induction false} ArrayDefKept(fields: Fields, idx: nat, inp: string, skip: bool, override: bool)
    ensures Kept(fields, ParseArrayDef(fields, idx, inp, skip, override))
    decreases |inp|, 1
  {
    hide ParseElement, ParseValue, NonWhite, Search, AllWellFormed;
    var id := DigitsText(idx);
    match NonWhite(inp)
    case Stop(_, _) =>
    case Next(c, rest) =>
      if skip || Search(fields, id).None? {
        if c == '{' || c == '[' {
          ElementKept(fields, id, c, rest, skip, override);
        } else {
          ValueKept(fields, None, id, [c] + rest, skip);
        }
      }
  }

  lemma {:induction false} ArrayDefsKept(fields: Fields, idx: nat, inp: string, skip: bool, override: bool)
    ensures Kept(fields, ParseArrayDefs(fields, idx, inp, skip, override))
    decreases |inp|, 2
  {
    hide ParseArrayDef, NonWhite, AllWellFormed;
    match NonWhite(inp)
    case Stop(_, _) =>
    case Next(c, rest) =>
      if c != ']' {
        ArrayDefKept(fields, idx, [c] + rest, skip, override);
        var d := ParseArrayDef(fields, idx, [c] + rest, skip, override);
        if d.Ok() { ArrayDefsKept(d.fields, idx + 1, d.rest, skip, override); }
      }
  }

  lemma {:induction false} DefsKept(fields: Fields, inp: string, skip: bool, override: bool)
    ensures Kept(fields, ParseDefs(fields, inp, skip, override))
    decreases |inp|, 2
  {
    hide ParseDef, NonWhite, AllWellFormed;
    match NonWhite(inp)
    case Stop(_, _) =>
    case Next(c, rest) =>
      if c != '}' {
        DefKept(fields, [c] + rest, skip, override);
        var d := ParseDef(fields, [c] + rest, skip, override);
        if d.Ok() { DefsKept(d.fields, d.rest, skip, override); }
      }
  }

  lemma {:induction false} DefKept(fields: Fields, inp: string, skip: bool, override: bool)
    ensures Kept(fields, ParseDef(fields, inp, skip, override))
    decreases |inp|, 1
  {
    hide ParseKeyed, NonWhite, GetString, AllWellFormed;
    match NonWhite(inp)
    case Stop(_, _) =>
    case Next(c, rest) =>
      match GetString(true, if c in "+-?!" then rest else [c] + rest)
      case Bad(_, _) =>
      case Got(id, _, rest1) => KeyedKept(fields, id, ModeOf(c, override), rest1, skip, override);
  }

  lemma {:induction false} KeyedKept(fields: Fields, id: string, mode: Mode, inp: string, skip: bool, override: bool)
    ensures Kept(fields, ParseKeyed(fields, id, mode, inp, skip, override))
    decreases |inp|, 8
  {
    hide ParseComponent, ParseBody, NonWhite, AllWellFormed;
    match NonWhite(inp)
    case Stop(_, _) => BodyKept(fields, id, mode, inp, skip, override);
    case Next(c, rest) =>
      if c == '.' {
        ComponentKept(fields, id, mode, rest, skip, override);
      } else if c != '=' {
        BodyKept(fields, id, mode, [c] + rest, skip, override);
      } else if NonWhite(rest).Next? {
        BodyKept(fields, id, mode, [NonWhite(rest).c] + NonWhite(rest).rest, skip, override);
      }
  }

  lemma {:induction false} ComponentKept(fields: Fields, id: string, mode: Mode,
                                         inp: string, skip: bool, override: bool)
    ensures Kept(fields, ParseComponent(fields, id, mode, inp, skip, override))
    decreases |inp|, 4
  {
    hide ParseDef, ParseInside, ParseExisting, Search, Drop, AllWellFormed;
    if AllWellFormed(fields) && !skip {
      match Search(fields, id)
      case None => InsideKept(fields, id, inp, override);
      case Some(k) =>
        Dropped(fields, k);
        InsideKept(Drop(fields, k), id, inp, override);
        ExistingKept(fields, k, inp, override);
    }
  }

  lemma {:induction false} InsideKept(fields: Fields, id: string, inp: string, override: bool)
    requires Search(fields, id).None?
    ensures Kept(fields, ParseInside(fields, id, inp, override))
    decreases |inp|, 3
  {
    hide ParseDef, Search, AllWellFormed, WellFormed;
    var d := ParseDef([], inp, false, override);
    DefKept([], inp, false, override);
    NoFields();
    if AllWellFormed(fields) && !d.taken {
      Branch(true, d.fields);
      Appended(fields, id, Compound(true, d.fields));
    }
  }

  lemma {:induction false} ExistingKept(fields: Fields, k: nat, inp: string, override: bool)
    requires k < |fields|
    ensures Kept(fields, ParseExisting(fields, k, inp, override))
    decreases |inp|, 3
  {
    hide ParseDef, AllWellFormed, WellFormed;
    if AllWellFormed(fields) && fields[k].node.Compound? {
      At(fields, k);
      var d := ParseDef(fields[k].node.fields, inp, false, override);
      DefKept(fields[k].node.fields, inp, false, override);
      if !d.taken {
        Branch(true, d.fields);
        Changed(fields, k, Compound(true, d.fields));
      }
    }
  }

  lemma {:induction false} BodyKept(fields: Fields, id: string, mode: Mode, inp: string, skip: bool, override: bool)
    ensures Kept(fields, ParseBody(fields, id, mode, inp, skip, override))
    decreases |inp|, 7
  {
    hide ParseContents, Search, Drop, NonWhite, AllWellFormed;
    if AllWellFormed(fields) && !skip {
      match Search(fields, id)
      case None => ContentsKept(fields, None, id, inp, false, override);
      case Some(k) =>
        Dropped(fields, k);
        ContentsKept(Drop(fields, k), None, id, inp, false, override);
        ContentsKept(fields, Some(k), id, inp, false, override);
    }
  }

  lemma {:induction false} ContentsKept(fields: Fields, at: Option<nat>, id: string,
                                        inp: string, skip: bool, override: bool)
    requires match at case None => skip || Search(fields, id).None? case Some(k) => k < |fields|
    ensures Kept(fields, ParseContents(fields, at, id, inp, skip, override))
    decreases |inp|, 6
  {
    hide ParseBrackets, ParseValue, NonWhite, Search, AllWellFormed, AfterSeparator;
    var next := NonWhite(inp);
    if next.Next? && (next.c == '{' || next.c == '[') {
      if skip || at.None? || fields[at.value].node.Compound? {
        BracketsKept(fields, at, id, next.c, next.rest, skip, override);
      }
    } else {
      ValueKept(fields, at, id, inp, skip);
    }
  }

  lemma {:induction false} BracketsKept(fields: Fields, at: Option<nat>, id: string, open: char, inp: string,
                                        skip: bool, override: bool)
    requires match at case None => skip || Search(fields, id).None? case Some(k) => k < |fields|
    requires at.Some? && !skip ==> fields[at.value].node.Compound?
    ensures Kept(fields, ParseBrackets(fields, at, id, open, inp, skip, override))
    decreases |inp|, 4
  {
    hide ParseNested, Search, AllWellFormed, WellFormed, Drop;
    if AllWellFormed(fields) && !skip {
      var made := if at.Some? then fields else fields + [Field(id, Compound(false, []))];
      var k := if at.Some? then at.value else |fields|;
      if at.None? {
        Leaf(Compound(false, []));
        Appended(fields, id, Compound(false, []));
      }
      NestedKept(made, k, open, inp, false, override);
      NestedElse(made, k, open, inp, override);
      Dropped(made, k);
      if at.None? { assert Drop(made, |fields|) == fields by { DropLast(fields, made); } }
    }
  }

  lemma DropLast(fields: Fields, made: Fields)
    requires |made| == |fields| + 1 && made[..|fields|] == fields
    ensures Drop(made, |fields|) == fields
  {
  }

  // What is read between brackets changes no other child, and no id.
  lemma NestedElse(fields: Fields, k: nat, open: char, inp: string, override: bool)
    requires k < |fields| && fields[k].node.Compound?
    ensures var r := ParseNested(fields, k, open, inp, false, override).fields;
      |r| == |fields| && Drop(r, k) == Drop(fields, k) && forall i :: 0 <= i < |r| ==> r[i].id == fields[i].id
  {
    hide ParseDefs, ParseArrayDefs, NonWhite;
    var inner := ParseNested(fields, k, open, inp, false, override).inner.fields;
    assert Drop(Reopened(fields, k, inner), k) == Drop(fields, k);
  }

  // Reading any text keeps ids unique among siblings everywhere, if no array element was
  // given an id that was taken.
  lemma LoadKeepsIdsUnique(fields: Fields, text: string, override: bool)
    requires AllWellFormed(fields)
    ensures var r := Load(fields, text, override);
      !r.taken ==> AllWellFormed(r.fields)
  {
    hide ParseDefs, AllWellFormed;
    DefsKept(fields, text, false, override);
  }

  // The exception is a real one: an array element that is read leaves ids unique exactly
  // if its own was free.
  lemma ElementExactly(fields: Fields, idx: nat, inp: string, override: bool)
    requires UniqueIds(fields) && ParseArrayDef(fields, idx, inp, false, override).Ok()
    ensures UniqueIds(ParseArrayDef(fields, idx, inp, false, override).fields)
      <==> Search(fields, DigitsText(idx)).None?
  {
    hide NonWhite, DigitsText, Search;
    var id, r := DigitsText(idx), ParseArrayDef(fields, idx, inp, false, override);
    ElementAdded(fields, idx, inp, override);
    if Search(fields, id).Some? {
      assert r.fields[Search(fields, id).value].id == r.fields[|fields|].id;
    }
  }

  lemma ElementAdded(fields: Fields, idx: nat, inp: string, override: bool)
    requires ParseArrayDef(fields, idx, inp, false, override).Ok()
    ensures var r := ParseArrayDef(fields, idx, inp, false, override).fields;
      && |r| == |fields| + 1 && r[|fields|].id == DigitsText(idx)
      && forall i :: 0 <= i < |fields| ==> r[i].id == fields[i].id
  {
    hide NonWhite, DigitsText, Search, ParseNested, GetString, Scalar;
    var next, id := NonWhite(inp), DigitsText(idx);
    if next.Next? && (next.c == '{' || next.c == '[') {
      NestedElse(fields + [Field(id, Compound(false, []))], |fields|, next.c, next.rest, override);
    }
  }

  // ---- texts without arrays ----

  // What is left to read is made of what there was to read.
  predicate Within(rest: string, inp: string) {
    forall c :: c in rest ==> c in inp
  }

  lemma {:induction false} OctalWithin(num: nat, seen: nat, inp: string)
    ensures Within(Octal(num, seen, inp).1, inp)
    decreases |inp|
  {
    if seen < 3 && inp != "" && IsOctal(inp[0]) { OctalWithin(num * 8 + OctalVal(inp[0]), seen + 1, inp[1..]); }
  }

  lemma QuotedWithin(inp: string)
    ensures QuotedChar(inp).Some? ==> Within(QuotedChar(inp).value.1, inp)
  {
    hide Octal;
    if inp != "" && IsOctal(inp[0]) { OctalWithin(OctalVal(inp[0]), 1, inp[1..]); }
  }

  lemma {:induction false} DelimWithin(delim: char, inp: string)
    ensures DelimString(delim, inp).Some? ==> Within(DelimString(delim, inp).value.1, inp)
    decreases |inp|
  {
    hide QuotedChar;
    if inp != "" {
      if inp[0] == '\\' {
        QuotedWithin(inp[1..]);
        if QuotedChar(inp[1..]).Some? { DelimWithin(delim, QuotedChar(inp[1..]).value.1); }
      } else if inp[0] != delim {
        DelimWithin(delim, inp[1..]);
      }
    }
  }

  lemma {:induction false} CommentWithin(inp: string)
    ensures Within(AfterComment(inp), inp)
  {
    if inp != "" && inp[0] != '\n' { CommentWithin(inp[1..]); }
  }

  lemma {:induction false} NonWhiteWithin(inp: string)
    ensures Within(NonWhite(inp).rest, inp) && (NonWhite(inp).Next? ==> NonWhite(inp).c in inp)
    decreases |inp|
  {
    hide DelimString, AfterComment, Closed;
    if inp != "" {
      var c, tail := inp[0], inp[1..];
      assert Within(tail, inp);
      if c == '<' {
        DelimWithin('>', tail);
      } else if c == '#' {
        CommentWithin(tail);
        if Closed(tail) { NonWhiteWithin(AfterComment(tail)); }
      } else if IsWhite(c) {
        NonWhiteWithin(tail);
      }
    }
  }

  lemma {:induction false} FreeWithin(id: bool, inp: string)
    ensures Within(FreeString(id, inp).1, inp)
    decreases |inp|
  {
    if inp != "" && !EndsWord(inp[0], id) { FreeWithin(id, inp[1..]); }
  }

  lemma StringWithin(id: bool, inp: string)
    ensures Within(GetString(id, inp).rest, inp)
  {
    hide NonWhite, DelimString, FreeString;
    NonWhiteWithin(inp);
    var next := NonWhite(inp);
    if next.Next? {
      DelimWithin(next.c, next.rest);
      FreeWithin(id, [next.c] + next.rest);
    }
  }

  lemma SeparatorWithin(inp: string)
    ensures Within(AfterSeparator(inp), inp)
  {
    hide NonWhite;
    NonWhiteWithin(inp);
  }

  // No array is read, and none is left to read.
  predicate Plain(inp: string, r: Parsed) {
    '[' !in inp ==> !r.taken && '[' !in r.rest
  }

  lemma ValuePlain(fields: Fields, at: Option<nat>, id: string, inp: string, skip: bool)
    requires at.Some? ==> at.value < |fields|
    ensures Plain(inp, ParseWord(fields, at, id, inp, skip))
  {
    hide GetString, Scalar, Stored, AfterSeparator;
    StringWithin(false, inp);
    SeparatorWithin(GetString(false, inp).rest);
  }

  lemma {:induction false} DefsPlain(fields: Fields, inp: string, skip: bool, override: bool)
    ensures Plain(inp, ParseDefs(fields, inp, skip, override))
    decreases |inp|, 2
  {
    hide ParseDef, NonWhite;
    NonWhiteWithin(inp);
    match NonWhite(inp)
    case Stop(_, _) =>
    case Next(c, rest) =>
      if c != '}' {
        DefPlain(fields, [c] + rest, skip, override);
        var d := ParseDef(fields, [c] + rest, skip, override);
        if d.Ok() { DefsPlain(d.fields, d.rest, skip, override); }
      }
  }

  lemma {:induction false} DefPlain(fields: Fields, inp: string, skip: bool, override: bool)
    ensures Plain(inp, ParseDef(fields, inp, skip, override))
    decreases |inp|, 1
  {
    hide ParseKeyed, NonWhite, GetString;
    NonWhiteWithin(inp);
    match NonWhite(inp)
    case Stop(_, _) =>
    case Next(c, rest) =>
      var text := if c in "+-?!" then rest else [c] + rest;
      StringWithin(true, text);
      match GetString(true, text)
      case Bad(_, _) =>
      case Got(id, _, rest1) => KeyedPlain(fields, id, ModeOf(c, override), rest1, skip, override);
  }

  lemma {:induction false} KeyedPlain(fields: Fields, id: string, mode: Mode, inp: string, skip: bool, override: bool)
    ensures Plain(inp, ParseKeyed(fields, id, mode, inp, skip, override))
    decreases |inp|, 8
  {
    hide ParseComponent, ParseBody, NonWhite;
    NonWhiteWithin(inp);
    match NonWhite(inp)
    case Stop(_, _) => BodyPlain(fields, id, mode, inp, skip, override);
    case Next(c, rest) =>
      if c == '.' {
        ComponentPlain(fields, id, mode, rest, skip, override);
      } else if c != '=' {
        BodyPlain(fields, id, mode, [c] + rest, skip, override);
      } else {
        NonWhiteWithin(rest);
        if NonWhite(rest).Next? {
          BodyPlain(fields, id, mode, [NonWhite(rest).c] + NonWhite(rest).rest, skip, override);
        }
      }
  }

  lemma {:induction false} ComponentPlain(fields: Fields, id: string, mode: Mode, inp: string,
                                          skip: bool, override: bool)
    ensures Plain(inp, ParseComponent(fields, id, mode, inp, skip, override))
    decreases |inp|, 4
  {
    hide ParseDef, Search, Drop;
    DefPlain(fields, inp, true, override);
    DefPlain([], inp, false, override);
    match Search(fields, id)
    case None =>
    case Some(k) =>
      if fields[k].node.Compound? { DefPlain(fields[k].node.fields, inp, false, override); }
  }

  lemma {:induction false} BodyPlain(fields: Fields, id: string, mode: Mode, inp: string, skip: bool, override: bool)
    ensures Plain(inp, ParseBody(fields, id, mode, inp, skip, override))
    decreases |inp|, 7
  {
    hide ParseContents, Search, Drop, NonWhite;
    NonWhiteWithin(inp);
    ContentsPlain(fields, None, id, inp, skip, override);
    ContentsPlain(fields, None, id, inp, true, override);
    match Search(fields, id)
    case None =>
    case Some(k) =>
      ContentsPlain(Drop(fields, k), None, id, inp, false, override);
      ContentsPlain(fields, Some(k), id, inp, false, override);
  }

  lemma {:induction false} ContentsPlain(fields: Fields, at: Option<nat>, id: string, inp: string,
                                         skip: bool, override: bool)
    requires at.Some? ==> at.value < |fields|
    ensures Plain(inp, ParseContents(fields, at, id, inp, skip, override))
    decreases |inp|, 6
  {
    hide ParseBlock, ParseWord, NonWhite;
    NonWhiteWithin(inp);
    var next := NonWhite(inp);
    if next.Next? && (next.c == '{' || next.c == '[') {
      if next.c == '{' && (skip || at.None? || fields[at.value].node.Compound?) {
        BlockPlain(fields, at, id, next.rest, skip, override);
      }
    } else {
      ValuePlain(fields, at, id, inp, skip);
    }
  }

  lemma {:induction false} BlockPlain(fields: Fields, at: Option<nat>, id: string, inp: string,
                                      skip: bool, override: bool)
    requires at.Some? && !skip ==> at.value < |fields| && fields[at.value].node.Compound?
    ensures Plain(inp, ParseBlock(fields, at, id, '{', inp, skip, override))
    decreases |inp|, 5
  {
    hide ParseDefs, NonWhite, AfterSeparator;
    var made := if skip || at.Some? then fields else fields + [Field(id, Compound(false, []))];
    var k := if at.Some? then at.value else |fields|;
    var inner := if skip then made else made[k].node.fields;
    DefsPlain(inner, inp, skip, override);
    var d := ParseDefs(inner, inp, skip, override);
    NonWhiteWithin(d.rest);
    var n := ParseNested(made, k, '{', inp, skip, override);
    assert n.inner == d && n.rest == NonWhite(d.rest).rest;
    SeparatorWithin(n.rest);
  }

  // Reading a text without `[` keeps ids unique among siblings everywhere, whatever the
  // tree and whatever else is in the text.
  lemma PlainTextKeepsIdsUnique(fields: Fields, text: string, override: bool)
    requires AllWellFormed(fields) && '[' !in text
    ensures AllWellFormed(Load(fields, text, override).fields)
  {
    hide ParseDefs, AllWellFormed;
    LoadKeepsIdsUnique(fields, text, override);
    DefsPlain(fields, text, false, override);
  }

  // ---- a text with two arrays ----

  // `a` with the array read so far, if any.
  function Holding(inner: Fields): Fields {
    if inner == [] then [] else [Field("a", Compound(false, inner))]
  }

  lemma OneLetter(id: bool, c: char, rest: string)
    requires c in "axy" && rest != "" && rest[0] in " ]"
    ensures GetString(id, [c] + rest) == Got([c], false, rest)
  {
    ConfSkip.NextExample(c, rest);
    hide NonWhite, DelimString;
    assert FreeString(id, rest) == ("", rest);
    assert ([c] + rest)[1..] == rest && [c] + "" == [c];
    assert FreeString(id, [c] + rest) == ([c], rest);
  }

  // The elements of the array `[c]`.
  lemma ReadElements(inner: Fields, c: char, more: string)
    requires c in "xy"
    ensures var d := ParseArrayDefs(inner, 0, [c] + ("]" + more), false, false);
      && d.fields == inner + [Field("0", Str([c]))] && d.rest == "]" + more && d.Ok() && d.clean
      && d.taken == Search(inner, "0").Some?
  {
    hide NonWhite, GetString, Search;
    var rest := "]" + more;
    ConfSkip.NextExample(c, rest);
    OneLetter(false, c, rest);
    assert rest == [']'] + more;
    ConfSkip.NextExample(']', more);
    var made := inner + [Field("0", Str([c]))];
    assert Scalar([c], false) == Str([c]);
    assert DigitsText(0) == "0";
    assert ParseArrayDefs(made, 1, rest, false, false) == Good(made, rest);
    assert ParseArrayDef(inner, 0, [c] + rest, false, false)
        == Good(made, rest).(taken := Search(inner, "0").Some?);
  }

  lemma ReadArray(inner: Fields, c: char, more: string)
    requires c in "xy"
    ensures var d := ParseBlock(Holding(inner), if inner == [] then None else Some(0), "a", '[',
                                [c] + ("]" + more), false, false);
      && d.fields == Holding(inner + [Field("0", Str([c]))]) && d.rest == AfterSeparator(more)
      && d.Ok() && d.clean && !d.loose && d.taken == Search(inner, "0").Some?
  {
    hide NonWhite, ParseArrayDefs, Search, AfterSeparator;
    ReadElements(inner, c, more);
    assert "]" + more == [']'] + more;
    ConfSkip.NextExample(']', more);
    var made := if inner == [] then [Field("a", Compound(false, []))] else Holding(inner);
    assert Holding(inner) + [Field("a", Compound(false, []))] == made || inner != [];
    assert ParseNested(made, 0, '[', [c] + ("]" + more), false, false).fields
        == Holding(inner + [Field("0", Str([c]))]);
  }

  // The definition `a [c]`.
  lemma ReadDefinition(inner: Fields, c: char, more: string)
    requires c in "xy"
    ensures var d := ParseDef(Holding(inner), "a [" + [c] + "]" + more, false, false);
      && d.fields == Holding(inner + [Field("0", Str([c]))]) && d.rest == AfterSeparator(more)
      && d.Ok() && d.clean && d.taken == Search(inner, "0").Some?
  {
    hide NonWhite, ParseBlock, AfterSeparator, GetString;
    var body := [c] + ("]" + more);
    var text := "a [" + [c] + "]" + more;
    assert text == ['a'] + (" " + (['['] + body));
    ConfSkip.NextExample('a', " " + (['['] + body));
    OneLetter(true, 'a', " " + (['['] + body));
    ConfSkip.BlankExample(['['] + body);
    ConfSkip.NextExample('[', body);
    ReadArray(inner, c, more);
    var f := Holding(inner);
    assert Search(f, "a") == if inner == [] then None else Some(0);
    assert ParseBody(f, "a", MergeCreate, ['['] + body, false, false)
        == ParseBlock(f, if inner == [] then None else Some(0), "a", '[', body, false, false);
    assert ParseKeyed(f, "a", MergeCreate, " " + (['['] + body), false, false)
        == ParseBody(f, "a", MergeCreate, ['['] + body, false, false);
  }

  // `a [x] a [y]` gives `a` two children of the name `0`.
  lemma TwiceTheSameId()
    ensures var x, y := Field("0", Str("x")), Field("0", Str("y"));
      Load([], "a [x] a [y]", false).fields == [Field("a", Compound(false, [x, y]))]
  {
    hide NonWhite, ParseDef;
    var x := [Field("0", Str("x"))];
    SecondText();
    ReadDefinition([], 'x', " a [y]");
    ReadDefinition(x, 'y', "");
    assert ['a'] + " [x] a [y]" == "a [x] a [y]" && ['a'] + " [y]" == "a [y]";
    ConfSkip.NextExample('a', " [x] a [y]");
    ConfSkip.NextExample('a', " [y]");
    assert [] + [Field("0", Str(['x']))] == x;
    var first := ParseDef([], "a [x] a [y]", false, false);
    assert first.fields == Holding(x) && first.rest == "a [y]";
    var second := ParseDef(Holding(x), "a [y]", false, false);
    assert second.rest == "" && ParseDefs(second.fields, "", false, false) == Good(second.fields, "");
    assert ParseDefs(first.fields, "a [y]", false, false).fields == second.fields;
    assert x + [Field("0", Str("y"))] == [x[0], Field("0", Str("y"))];
  }

  lemma SecondText()
    ensures "a [" + ['x'] + "]" + " a [y]" == "a [x] a [y]" && "a [" + ['y'] + "]" + "" == "a [y]"
    ensures AfterSeparator(" a [y]") == "a [y]" && AfterSeparator("") == "" && NonWhite("") == Stop(UnexpectedEof, "")
  {
    assert " " + "a [y]" == " a [y]" && ['a'] + " [y]" == "a [y]";
    ConfSkip.BlankExample("a [y]");
    ConfSkip.NextExample('a', " [y]");
  }
}
