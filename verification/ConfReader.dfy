// The parser of src/conf.c: it reads from its input and changes the nodes of the tree in
// place. ConfParse says what becomes of the children, and where the input then stands.

module ConfReader {
  import opened ConfText
  import opened ConfTree
  import opened ConfHeap
  import opened ConfNodes
  import opened ConfInput
  import ConfParse

  // What a parse function reports, and where it stops.
  ghost predicate Read(input: Input, err: Option<Error>, clean: bool, r: ConfParse.Parsed)
    reads input
  {
    input.Valid() && r.rest == input.Rest() && r.status == err && r.clean == clean
  }

  // No node has been touched.
  ghost predicate Same(h: State, h': State, w: World, w': World) {
    h == h' && w == w'
  }

  // The children left when a skipped definition was skipped because of the child number
  // `k`, which the code holds in `n`.
  ghost function Left(r: ConfParse.Parsed, n: Config?, k: nat): Fields {
    if n != null && k < |r.fields| then ConfParse.Abandoned(r, k).fields else r.fields
  }

  lemma NotLoose(r: ConfParse.Parsed, n: Config?, k: nat)
    requires !r.loose
    ensures Left(r, n, k) == r.fields
  {
  }

  lemma LeftAnywhere(r: ConfParse.Parsed, rest: string, n: Config?, k: nat)
    ensures Left(r.(rest := rest), n, k) == Left(r, n, k)
  {
  }

  // parse_value
  method ParseValue(input: Input, parent: Config, n: Config?, id: string, skip: bool,
                    ghost k: nat, ghost t: Node, ghost w: World)
    returns (err: Option<Error>, ghost w': World)
    requires input.Valid() && Ready(At(w), parent, t)
    requires n != null && !skip ==> k < |t.fields| && k < |parent.children| && parent.children[k] == n
    modifies input, w.nodes
    ensures fresh(w'.nodes - w.nodes)
    ensures var r := ConfParse.ParseValue(t.fields, if n == null || skip then None else Some(k), id,
                                          old(input.Rest()), skip);
      Read(input, err, true, r) && Became(old(At(w)), At(w'), parent, t, r.fields)
    ensures skip ==> Same(old(At(w)), At(w'), w, w')
  {
    hide GetString, ConfParse.Scalar, Input.Valid, Input.Rest, Ready, Became;
    BecameItself(At(w), parent, t);
    ReadyIn(At(w), parent, t);
    w' := w;
    var s, delimited;
    s, delimited, err := input.GetString(false);
    if err.Some? || skip {
      return;
    }
    var v := ConfParse.Scalar(s, delimited);
    if n == null {
      ScalarIsNone(s, delimited);
      var made;
      made, w' := MakeAdd(parent, id, v, t, w);
    } else {
      ReadyChild(At(w), parent, t, k);
      match ConfParse.Stored(n.value, v)
      case None => err := Some(Invalid);
      case Some(u) => SetValue(n, u, parent, k, t, w);
    }
  }

  lemma ScalarIsNone(s: string, delimited: bool)
    ensures !ConfParse.Scalar(s, delimited).Compound?
  {
  }

  // The brackets around a compound or an array, which are read into `n`. They match, or
  // the next character is a different one or none at all.
  method ParseNested(input: Input, parent: Config, n: Config?, open: char, skip: bool, override: bool,
                     ghost k: nat, ghost t: Node, ghost w: World)
    returns (err: Option<Error>, ghost clean: bool, ending: ConfParse.Ending, ghost w': World)
    requires input.Valid() && Ready(At(w), parent, t)
    requires !skip ==> n != null && k < |t.fields| && k < |parent.children| && parent.children[k] == n
    requires !skip ==> t.fields[k].node.Compound?
    modifies input, w.nodes
    ensures fresh(w'.nodes - w.nodes) && input.Valid() && !input.unget
    ensures var r := ConfParse.ParseNested(t.fields, k, open, old(input.Rest()), skip, override);
      && r.rest == input.Rest() && r.ending == ending && r.inner.status == err && r.inner.clean == clean
      && Became(old(At(w)), At(w'), parent, t, r.fields)
    ensures skip ==> Same(old(At(w)), At(w'), w, w')
    ensures !skip ==> k < |parent.children| && parent.children[k] == n
    decreases |input.Rest()|, 3
  {
    hide ConfParse.ParseDefs, ConfParse.ParseArrayDefs, NonWhite, Input.Valid, Input.Rest, Ready, Became, Reworked;
    ghost var h := At(w);
    ReadyIn(h, parent, t);
    if !skip { ReadyChild(h, parent, t, k); }
    var at: Config := if skip then parent else n;
    ghost var u := if skip then t else t.fields[k].node;
    if open == '{' {
      err, clean, w' := ParseDefs(input, at, skip, override, u, w);
    } else {
      err, clean, w' := ParseArrayDefs(input, at, skip, override, u, w);
    }
    ghost var inner := if open == '{' then ConfParse.ParseDefs(u.fields, old(input.Rest()), skip, override)
                       else ConfParse.ParseArrayDefs(u.fields, 0, old(input.Rest()), skip, override);
    if !skip {
      InnerBecame(h, At(w'), parent, t, k, inner.fields);
    }
    var c := input.GetNonWhite();
    if !c.Ch? {
      ending := ConfParse.NoMore(ErrorOf(c));
    } else {
      ending := if c.c == (if open == '{' then '}' else ']') then ConfParse.Matched else ConfParse.Mismatched;
    }
  }

  lemma InnerBecame(h: State, h': State, n: Config, t: Node, k: nat, fs: Fields)
    requires Ready(h, n, t) && k < |t.fields| == |h.cells[n].children| && t.fields[k].node.Compound?
    requires Became(h, h', h.cells[n].children[k], t.fields[k].node, fs)
    ensures Became(h, h', n, t, ConfParse.Reopened(t.fields, k, fs))
    ensures n in h'.cells && h'.cells[n].children == h.cells[n].children
  {
    hide Rep, Nodes, Forest, Ranked;
    ChildAt(h, n, t, k);
    ChildBecame(h, h', n, t, k, t.fields[k].node.(fields := fs));
  }

  // parse_array_def
  method ParseArrayDef(input: Input, parent: Config, idx: nat, skip: bool, override: bool,
                       ghost t: Node, ghost w: World)
    returns (err: Option<Error>, ghost clean: bool, ghost w': World)
    requires input.Valid() && Ready(At(w), parent, t)
    modifies input, w.nodes
    ensures fresh(w'.nodes - w.nodes)
    ensures var r := ConfParse.ParseArrayDef(t.fields, idx, old(input.Rest()), skip, override);
      Read(input, err, clean, r) && Became(old(At(w)), At(w'), parent, t, r.fields)
    ensures skip ==> Same(old(At(w)), At(w'), w, w')
    decreases |input.Rest()|, 1
  {
    hide ConfParse.ParseNested, ConfParse.ParseValue, NonWhite, Input.Valid, Input.Rest, ConfParse.DigitsText,
      Ready, Became;
    ghost var h := At(w);
    BecameItself(h, parent, t);
    ReadyIn(h, parent, t);
    var id := ConfParse.DigitsText(idx);
    err, clean, w' := None, true, w;
    ghost var text := input.Rest();
    var c := input.GetNonWhite();
    if !c.Ch? {
      err := Some(ErrorOf(c));
    } else if c.c == '{' || c.c == '[' {
      err, clean, w' := ParseElement(input, parent, id, c.c, skip, override, t, w);
    } else {
      input.UngetNonWhite(c, text);
      err, w' := ParseValue(input, parent, null, id, skip, 0, t, w);
    }
  }

  // ... if the element is a compound or an array
  method ParseElement(input: Input, parent: Config, id: string, open: char, skip: bool, override: bool,
                      ghost t: Node, ghost w: World)
    returns (err: Option<Error>, ghost clean: bool, ghost w': World)
    requires input.Valid() && Ready(At(w), parent, t)
    modifies input, w.nodes
    ensures fresh(w'.nodes - w.nodes)
    ensures var r := ConfParse.ParseElement(t.fields, id, open, old(input.Rest()), skip, override);
      Read(input, err, clean, r) && Became(old(At(w)), At(w'), parent, t, r.fields)
    ensures skip ==> Same(old(At(w)), At(w'), w, w')
    decreases |input.Rest()|, 4
  {
    hide ConfParse.ParseNested, Input.Valid, Input.Rest, Ready, Became;
    ghost var h := At(w);
    ReadyIn(h, parent, t);
    var ending;
    if skip {
      err, clean, ending, w' := ParseNested(input, parent, null, open, skip, override, |t.fields|, t, w);
    } else {
      var n;
      n, w' := MakeAdd(parent, id, Compound(false, []), t, w);
      ghost var made, k := t.fields + [Field(id, Compound(false, []))], |t.fields|;
      ghost var w1, h1 := w', At(w');
      BecameReady(h, h1, parent, t, made);
      err, clean, ending, w' := ParseNested(input, parent, n, open, skip, override, k, t.(fields := made), w1);
      ghost var fs := ConfParse.ParseNested(made, k, open, old(input.Rest()), skip, override).fields;
      ghost var h2 := At(w');
      BecameThen(h, h1, h2, parent, t, made, fs);
      if ending == ConfParse.Mismatched {
        BecameReady(h, h2, parent, t, fs);
        DropNested(t.fields, id, open, old(input.Rest()), override);
        ghost var w2 := w';
        w' := DeleteChild(n, parent, k, t.(fields := fs), w2);
        BecameThen(h, h2, At(w'), parent, t, fs, t.fields);
      }
    }
    clean := clean && err != Some(Invalid) && err != Some(NoEntry);
    match ending
    case NoMore(e) => err := Some(e);
    case Mismatched => err := Some(UnexpectedChar);
    case Matched => err := None;
  }

  lemma DropNested(fields: Fields, id: string, open: char, inp: string, override: bool)
    ensures var made := fields + [Field(id, Compound(false, []))];
      var r := ConfParse.ParseNested(made, |fields|, open, inp, false, override);
      |r.fields| == |made| && Drop(r.fields, |fields|) == fields
  {
    hide ConfParse.ParseDefs, ConfParse.ParseArrayDefs, NonWhite;
  }

  lemma BecameReady(h: State, h': State, n: Config, t: Node, fs: Fields)
    requires Became(h, h', n, t, fs)
    ensures Ready(h', n, t.(fields := fs))
  {
  }

  // One round of the loop over the elements of an array.
  lemma NextElement(fs: Fields, idx: nat, text: string, skip: bool, override: bool)
    ensures var all, next := ConfParse.ParseArrayDefs(fs, idx, text, skip, override), NonWhite(text);
      && (next.Stop? ==> all == ConfParse.Fail(fs, next.rest, next.error))
      && (next.Next? && next.c == ']' ==> all == ConfParse.Good(fs, [next.c] + next.rest))
      && (next.Next? && next.c != ']' ==>
           var d := ConfParse.ParseArrayDef(fs, idx, [next.c] + next.rest, skip, override);
           var r := if d.Ok() then ConfParse.ParseArrayDefs(d.fields, idx + 1, d.rest, skip, override) else d;
           all == r.(clean := d.clean && r.clean, taken := d.taken || r.taken))
  {
    hide ConfParse.ParseArrayDef, NonWhite;
  }

  // parse_array_defs
  method ParseArrayDefs(input: Input, parent: Config, skip: bool, override: bool, ghost t: Node, ghost w: World)
    returns (err: Option<Error>, ghost clean: bool, ghost w': World)
    requires input.Valid() && Ready(At(w), parent, t)
    modifies input, w.nodes
    ensures fresh(w'.nodes - w.nodes)
    ensures var r := ConfParse.ParseArrayDefs(t.fields, 0, old(input.Rest()), skip, override);
      Read(input, err, clean, r) && Became(old(At(w)), At(w'), parent, t, r.fields)
    ensures skip ==> Same(old(At(w)), At(w'), w, w')
    decreases |input.Rest()|, 2
  {
    hide ConfParse.ParseArrayDef, ConfParse.ParseArrayDefs, NonWhite, Input.Valid, Input.Rest,
      Ready, Became, At, Now, Rep, Reworked, Forest, Ranked;
    ReadyIn(At(w), parent, t);
    ghost var h, fs := At(w), t.fields;
    ghost var all := ConfParse.ParseArrayDefs(fs, 0, input.Rest(), skip, override);
    BecameItself(h, parent, t);
    var idx := 0;
    err, clean, w' := None, true, w;
    while true
      invariant input.Valid() && idx >= 0 && err == None && |input.Rest()| <= |old(input.Rest())|
      invariant fresh(w'.nodes - w.nodes) && Became(h, At(w'), parent, t, fs)
      invariant skip ==> Same(h, At(w'), w, w')
      invariant Ahead(all, clean, ConfParse.ParseArrayDefs(fs, idx, input.Rest(), skip, override))
      decreases |input.Rest()|
    {
      NextElement(fs, idx, input.Rest(), skip, override);
      ghost var before := input.Rest();
      var c := input.GetNonWhite();
      if !c.Ch? {
        err := Some(ErrorOf(c));
        return;
      }
      input.UngetNonWhite(c, before);
      if c.c == ']' {
        return;
      }
      BecameReady(h, At(w'), parent, t, fs);
      ghost var w1, h1, text := w', At(w'), input.Rest();
      ghost var good;
      err, good, w' := ParseArrayDef(input, parent, idx, skip, override, t.(fields := fs), w1);
      ghost var d := ConfParse.ParseArrayDef(fs, idx, text, skip, override);
      BecameThen(h, h1, At(w'), parent, t, fs, d.fields);
      fs, clean, idx := d.fields, clean && good, idx + 1;
      if err.Some? {
        return;
      }
    }
  }

  // `all` is `r`, with what was swallowed before.
  ghost predicate Ahead(all: ConfParse.Parsed, clean: bool, r: ConfParse.Parsed) {
    all.fields == r.fields && all.rest == r.rest && all.status == r.status && all.clean == (clean && r.clean)
  }

  // One round of the loop over the definitions.
  lemma NextDef(fs: Fields, text: string, skip: bool, override: bool)
    ensures var all, next := ConfParse.ParseDefs(fs, text, skip, override), NonWhite(text);
      && (next.Stop? ==>
           all == if next.error == UnexpectedEof then ConfParse.Good(fs, "")
                  else ConfParse.Fail(fs, next.rest, next.error))
      && (next.Next? && next.c == '}' ==> all == ConfParse.Good(fs, [next.c] + next.rest))
      && (next.Next? && next.c != '}' ==>
           var d := ConfParse.ParseDef(fs, [next.c] + next.rest, skip, override);
           var r := if d.Ok() then ConfParse.ParseDefs(d.fields, d.rest, skip, override) else d;
           all == r.(clean := d.clean && r.clean, taken := d.taken || r.taken))
  {
    hide ConfParse.ParseDef, NonWhite;
  }

  // parse_defs
  method ParseDefs(input: Input, parent: Config, skip: bool, override: bool, ghost t: Node, ghost w: World)
    returns (err: Option<Error>, ghost clean: bool, ghost w': World)
    requires input.Valid() && Ready(At(w), parent, t)
    modifies input, w.nodes
    ensures fresh(w'.nodes - w.nodes)
    ensures var r := ConfParse.ParseDefs(t.fields, old(input.Rest()), skip, override);
      Read(input, err, clean, r) && Became(old(At(w)), At(w'), parent, t, r.fields)
    ensures skip ==> Same(old(At(w)), At(w'), w, w')
    decreases |input.Rest()|, 2
  {
    hide ConfParse.ParseDef, ConfParse.ParseDefs, NonWhite, Input.Valid, Input.Rest,
      Ready, Became, At, Now, Rep, Reworked, Forest, Ranked;
    ReadyIn(At(w), parent, t);
    ghost var h, fs := At(w), t.fields;
    ghost var all := ConfParse.ParseDefs(fs, input.Rest(), skip, override);
    BecameItself(h, parent, t);
    err, clean, w' := None, true, w;
    while true
      invariant input.Valid() && err == None && |input.Rest()| <= |old(input.Rest())|
      invariant fresh(w'.nodes - w.nodes) && Became(h, At(w'), parent, t, fs)
      invariant skip ==> Same(h, At(w'), w, w')
      invariant Ahead(all, clean, ConfParse.ParseDefs(fs, input.Rest(), skip, override))
      decreases |input.Rest()|
    {
      NextDef(fs, input.Rest(), skip, override);
      ghost var before := input.Rest();
      var c := input.GetNonWhite();
      if !c.Ch? {
        if c != Eof {
          err := Some(ErrorOf(c));
        }
        return;
      }
      input.UngetNonWhite(c, before);
      if c.c == '}' {
        return;
      }
      BecameReady(h, At(w'), parent, t, fs);
      ghost var w1, h1, text := w', At(w'), input.Rest();
      ghost var good;
      err, good, w' := ParseDef(input, parent, null, skip, override, 0, t.(fields := fs), w1);
      ghost var d := ConfParse.ParseDef(fs, text, skip, override);
      BecameThen(h, h1, At(w'), parent, t, fs, d.fields);
      fs, clean := d.fields, clean && good;
      if err.Some? {
        return;
      }
    }
  }

  // parse_def. If the definition is skipped, `n` is the child because of which that is
  // so, if it was found on the way down the same key.
  method ParseDef(input: Input, parent: Config, n: Config?, skip: bool, override: bool,
                  ghost k: nat, ghost t: Node, ghost w: World)
    returns (err: Option<Error>, ghost clean: bool, ghost w': World)
    requires input.Valid() && Ready(At(w), parent, t)
    requires n != null ==> skip && k < |t.fields| && k < |parent.children| && parent.children[k] == n
    modifies input, w.nodes
    ensures fresh(w'.nodes - w.nodes)
    ensures var r := ConfParse.ParseDef(t.fields, old(input.Rest()), skip, override);
      Read(input, err, clean, r) && Became(old(At(w)), At(w'), parent, t, Left(r, n, k))
    ensures skip && n == null ==> Same(old(At(w)), At(w'), w, w')
    decreases |input.Rest()|, 1
  {
    hide ConfParse.ParseKeyed, GetString, NonWhite, Input.Valid, Input.Rest,
      Ready, Became, At, Now, Rep, Reworked, Forest, Ranked;
    BecameItself(At(w), parent, t);
    err, clean, w' := None, true, w;
    ghost var text := input.Rest();
    var c := input.GetNonWhite();
    if !c.Ch? {
      err := Some(ErrorOf(c));
      return;
    }
    if c.c !in "+-?!" {
      input.UngetNonWhite(c, text);
    }
    var id, delimited;
    id, delimited, err := input.GetString(true);
    if err.Some? {
      return;
    }
    err, clean, w' := ParseKeyed(input, parent, n, id, ConfParse.ModeOf(c.c, override), skip, override, k, t, w);
  }

  lemma KeyGoesOn(fs: Fields, id: string, mode: ConfParse.Mode, text: string, skip: bool, override: bool)
    ensures var all, next := ConfParse.ParseKeyed(fs, id, mode, text, skip, override), NonWhite(text);
      && (next.Stop? ==> all == ConfParse.ParseBody(fs, id, mode, text, skip, override))
      && (next.Next? && next.c == '.' ==>
           all == ConfParse.ParseComponent(fs, id, mode, next.rest, skip, override))
      && (next.Next? && next.c !in ".=" ==>
           all == ConfParse.ParseBody(fs, id, mode, [next.c] + next.rest, skip, override))
      && (next.Next? && next.c == '=' ==>
           var after := NonWhite(next.rest);
           all == if after.Stop? then ConfParse.Fail(fs, after.rest, after.error)
                  else ConfParse.ParseBody(fs, id, mode, [after.c] + after.rest, skip, override))
  {
    hide NonWhite, ConfParse.ParseBody, ConfParse.ParseComponent;
  }

  // ... after the first component of the key
  method ParseKeyed(input: Input, parent: Config, n: Config?, id: string, mode: ConfParse.Mode,
                    skip: bool, override: bool, ghost k: nat, ghost t: Node, ghost w: World)
    returns (err: Option<Error>, ghost clean: bool, ghost w': World)
    requires input.Valid() && Ready(At(w), parent, t)
    requires n != null ==> skip && k < |t.fields| && k < |parent.children| && parent.children[k] == n
    modifies input, w.nodes
    ensures fresh(w'.nodes - w.nodes)
    ensures var r := ConfParse.ParseKeyed(t.fields, id, mode, old(input.Rest()), skip, override);
      Read(input, err, clean, r) && Became(old(At(w)), At(w'), parent, t, Left(r, n, k))
    ensures skip && n == null ==> Same(old(At(w)), At(w'), w, w')
    decreases |input.Rest()|, 8
  {
    hide ConfParse.ParseKeyed, ConfParse.ParseComponent, ConfParse.ParseBody, NonWhite, Input.Valid, Input.Rest,
      Ready, Became, At, Now, Rep, Reworked, Forest, Ranked, Left;
    BecameItself(At(w), parent, t);
    ReadyIn(At(w), parent, t);
    KeyGoesOn(t.fields, id, mode, input.Rest(), skip, override);
    ghost var text := input.Rest();
    var c := input.GetNonWhite();
    if c == Ch('.') {
      err, clean, w' := ParseComponent(input, parent, n, id, mode, skip, override, k, t, w);
    } else {
      var equals := c == Ch('=');
      if equals {
        text := input.Rest();
        c := input.GetNonWhite();
      } else if c == Eof {
        BodyAtEnd(t.fields, id, mode, old(input.Rest()), skip, override);
      }
      if equals && !c.Ch? {
        NotLoose(ConfParse.Fail(t.fields, input.Rest(), ErrorOf(c)), n, k);
        err, clean, w' := Some(ErrorOf(c)), true, w;
      } else {
        input.UngetNonWhite(c, text);
        err, clean, w' := ParseBody(input, parent, n, id, mode, skip, override, k, t, w);
      }
    }
  }

  // Nothing but white space is as good as nothing.
  lemma BodyAtEnd(fields: Fields, id: string, mode: ConfParse.Mode, text: string, skip: bool, override: bool)
    requires NonWhite(text) == Stop(UnexpectedEof, "")
    ensures ConfParse.ParseBody(fields, id, mode, text, skip, override)
         == ConfParse.ParseBody(fields, id, mode, "", skip, override)
  {
    hide ConfParse.ParseNested;
    assert NonWhite("") == Stop(UnexpectedEof, "");
  }

  // The component `id` of a key, followed by a dot.
  method ParseComponent(input: Input, parent: Config, n: Config?, id: string, mode: ConfParse.Mode,
                        skip: bool, override: bool, ghost k: nat, ghost t: Node, ghost w: World)
    returns (err: Option<Error>, ghost clean: bool, ghost w': World)
    requires input.Valid() && Ready(At(w), parent, t)
    requires n != null ==> skip && k < |t.fields| && k < |parent.children| && parent.children[k] == n
    modifies input, w.nodes
    ensures fresh(w'.nodes - w.nodes)
    ensures var r := ConfParse.ParseComponent(t.fields, id, mode, old(input.Rest()), skip, override);
      Read(input, err, clean, r) && Became(old(At(w)), At(w'), parent, t, Left(r, n, k))
    ensures skip && n == null ==> Same(old(At(w)), At(w'), w, w')
    decreases |input.Rest()|, 4
  {
    hide ConfParse.ParseDef, Search, Input.Valid, Input.Rest, Ready, Became, Rep, Reworked, Forest, Ranked;
    ghost var h := At(w);
    BecameItself(h, parent, t);
    ReadyIn(h, parent, t);
    if skip {
      err, clean, w' := ParseDef(input, parent, n, true, override, k, t, w);
      return;
    }
    w' := w;
    ghost var fs := t.fields;
    var found;
    ghost var j;
    found, j := FindChild(parent, id, t, w);
    if found != null {
      if mode == ConfParse.DontOverride {
        err, clean, w' := ParseDef(input, parent, found, true, override, j, t, w);
        return;
      }
      if mode != ConfParse.Override {
        err, clean, w' := ParseExisting(input, parent, found, id, override, j, t, w);
        return;
      }
      w' := DeleteChild(found, parent, j, t, w);
      fs := Drop(fs, j);
    } else if mode == ConfParse.Merge {
      return Some(NoEntry), true, w;
    }
    BecameReady(h, At(w'), parent, t, fs);
    ghost var w1, h1 := w', At(w');
    err, clean, w' := ParseNew(input, parent, id, override, t.(fields := fs), w1);
    BecameThen(h, h1, At(w'), parent, t, fs,
      ConfParse.ParseInside(fs, id, old(input.Rest()), override).fields);
  }

  // The rest of a key below the child number `k`, which must be a compound
  method ParseExisting(input: Input, parent: Config, n: Config, id: string, override: bool,
                       ghost k: nat, ghost t: Node, ghost w: World)
    returns (err: Option<Error>, ghost clean: bool, ghost w': World)
    requires input.Valid() && Ready(At(w), parent, t)
    requires k < |t.fields| && k < |parent.children| && parent.children[k] == n && t.fields[k].id == id
    modifies input, w.nodes
    ensures fresh(w'.nodes - w.nodes)
    ensures var r := ConfParse.ParseExisting(t.fields, k, old(input.Rest()), override);
      Read(input, err, clean, r) && Became(old(At(w)), At(w'), parent, t, r.fields)
    decreases |input.Rest()|, 3
  {
    hide ConfParse.ParseDef, Input.Valid, Input.Rest, Ready, Became, Rep, Reworked, Forest, Ranked;
    ghost var h := At(w);
    BecameItself(h, parent, t);
    ReadyIn(h, parent, t);
    ReadyChild(h, parent, t, k);
    if !n.value.Compound? {
      return Some(Invalid), true, w;
    }
    SetValue(n, n.value.(join := true), parent, k, t, w);
    ghost var fs := t.fields[k := Field(id, t.fields[k].node.(join := true))];
    ghost var h1 := At(w);
    BecameReady(h, h1, parent, t, fs);
    err, clean, w' := ParseInside(input, parent, n, override, k, t.(fields := fs), w);
    ghost var d := ConfParse.ParseDef(fs[k].node.fields, old(input.Rest()), false, override);
    BecameThen(h, h1, At(w'), parent, t, fs, ConfParse.Reopened(fs, k, d.fields));
    assert ConfParse.Reopened(fs, k, d.fields) == t.fields[k := Field(id, Compound(true, d.fields))];
  }

  // The rest of a key below a new joined compound `id`
  method ParseNew(input: Input, parent: Config, id: string, override: bool, ghost t: Node, ghost w: World)
    returns (err: Option<Error>, ghost clean: bool, ghost w': World)
    requires input.Valid() && Ready(At(w), parent, t)
    modifies input, w.nodes
    ensures fresh(w'.nodes - w.nodes)
    ensures var r := ConfParse.ParseInside(t.fields, id, old(input.Rest()), override);
      Read(input, err, clean, r) && Became(old(At(w)), At(w'), parent, t, r.fields)
    decreases |input.Rest()|, 3
  {
    hide ConfParse.ParseDef, Input.Valid, Input.Rest, Ready, Became;
    ghost var h := At(w);
    ReadyIn(h, parent, t);
    var n;
    n, w' := MakeAdd(parent, id, Compound(true, []), t, w);
    ghost var made := t.fields + [Field(id, Compound(true, []))];
    ghost var w1, h1 := w', At(w');
    BecameReady(h, h1, parent, t, made);
    err, clean, w' := ParseInside(input, parent, n, override, |t.fields|, t.(fields := made), w1);
    ghost var d := ConfParse.ParseDef([], old(input.Rest()), false, override);
    assert ConfParse.Reopened(made, |t.fields|, d.fields) == t.fields + [Field(id, Compound(true, d.fields))];
    BecameThen(h, h1, At(w'), parent, t, made, ConfParse.Reopened(made, |t.fields|, d.fields));
  }

  // ... inside the compound `n`, which is the child number `k`

  method ParseInside(input: Input, parent: Config, n: Config, override: bool,
                     ghost k: nat, ghost t: Node, ghost w: World)
    returns (err: Option<Error>, ghost clean: bool, ghost w': World)
    requires input.Valid() && Ready(At(w), parent, t)
    requires k < |t.fields| && k < |parent.children| && parent.children[k] == n && t.fields[k].node.Compound?
    modifies input, w.nodes
    ensures fresh(w'.nodes - w.nodes)
    ensures var r := ConfParse.ParseDef(t.fields[k].node.fields, old(input.Rest()), false, override);
      Read(input, err, clean, r) && Became(old(At(w)), At(w'), parent, t, ConfParse.Reopened(t.fields, k, r.fields))
    decreases |input.Rest()|, 2
  {
    hide ConfParse.ParseDef, Input.Valid, Input.Rest, Ready, Became;
    ReadyIn(At(w), parent, t);
    ghost var h, u := At(w), t.fields[k].node;
    ReadyChild(h, parent, t, k);
    err, clean, w' := ParseDef(input, n, null, false, override, 0, u, w);
    InnerBecame(h, At(w'), parent, t, k, ConfParse.ParseDef(u.fields, old(input.Rest()), false, override).fields);
  }

  // The last component of the key: which node, if any, the value is merged into.
  method ParseBody(input: Input, parent: Config, n: Config?, id: string, mode: ConfParse.Mode,
                   skip: bool, override: bool, ghost k: nat, ghost t: Node, ghost w: World)
    returns (err: Option<Error>, ghost clean: bool, ghost w': World)
    requires input.Valid() && Ready(At(w), parent, t)
    requires n != null ==> skip && k < |t.fields| && k < |parent.children| && parent.children[k] == n
    modifies input, w.nodes
    ensures fresh(w'.nodes - w.nodes)
    ensures var r := ConfParse.ParseBody(t.fields, id, mode, old(input.Rest()), skip, override);
      Read(input, err, clean, r) && Became(old(At(w)), At(w'), parent, t, Left(r, n, k))
    ensures skip && n == null ==> Same(old(At(w)), At(w'), w, w')
    decreases |input.Rest()|, 7
  {
    hide ConfParse.ParseContents, Search, NonWhite, Input.Valid, Input.Rest,
      Ready, Became, Rep, Reworked, Forest, Ranked;
    ghost var h := At(w);
    BecameItself(h, parent, t);
    ReadyIn(h, parent, t);
    if skip {
      err, clean, w' := ParseContents(input, parent, n, id, true, override, k, t, w);
      return;
    }
    var found;
    ghost var j;
    found, j := FindChild(parent, id, t, w);
    if found != null && mode == ConfParse.Override {
      w' := DeleteChild(found, parent, j, t, w);
      BecameReady(h, At(w'), parent, t, Drop(t.fields, j));
      ghost var w1, h1, u := w', At(w'), t.(fields := Drop(t.fields, j));
      err, clean, w' := ParseContents(input, parent, null, id, false, override, 0, u, w1);
      BecameThen(h, h1, At(w'), parent, t, u.fields,
        ConfParse.ParseContents(u.fields, None, id, old(input.Rest()), false, override).fields);
    } else if found != null && mode == ConfParse.DontOverride {
      err, clean, w' := ParseContents(input, parent, null, id, true, override, 0, t, w);
    } else if found == null && mode == ConfParse.Merge {
      var c := input.GetNonWhite();
      err, clean, w' := Some(NoEntry), true, w;
    } else {
      err, clean, w' := ParseContents(input, parent, found, id, false, override, j, t, w);
    }
  }

  method ParseContents(input: Input, parent: Config, n: Config?, id: string, skip: bool, override: bool,
                       ghost k: nat, ghost t: Node, ghost w: World)
    returns (err: Option<Error>, ghost clean: bool, ghost w': World)
    requires input.Valid() && Ready(At(w), parent, t)
    requires n != null ==> k < |t.fields| && k < |parent.children| && parent.children[k] == n
    modifies input, w.nodes
    ensures fresh(w'.nodes - w.nodes)
    ensures var r := ConfParse.ParseContents(t.fields, if n == null || skip then None else Some(k), id,
                                             old(input.Rest()), skip, override);
      && Read(input, err, clean, r)
      && Became(old(At(w)), At(w'), parent, t, if skip then Left(r, n, k) else r.fields)
    ensures skip && n == null ==> Same(old(At(w)), At(w'), w, w')
    decreases |input.Rest()|, 6
  {
    hide ConfParse.ParseBlock, ConfParse.ParseWord, NonWhite, Input.Valid, Input.Rest,
      Ready, Became, At, Now, Rep, Reworked, Forest, Ranked, Left;
    BecameItself(At(w), parent, t);
    ReadyIn(At(w), parent, t);
    ghost var text := input.Rest();
    var c := input.GetNonWhite();
    if c == Ch('{') || c == Ch('[') {
      if n != null { ChildKind(w, parent, t, k); }
      if !skip && n != null && !n.value.Compound? {
        return Some(Invalid), true, w;
      }
      err, clean, w' := ParseBlock(input, parent, n, id, c.c, skip, override, k, t, w);
    } else {
      input.UngetNonWhite(c, text);
      ghost var at := if n == null || skip then None else Some(k);
      WordFrom(t.fields, at, id, old(input.Rest()), skip);
      NotLoose(ConfParse.ParseWord(t.fields, at, id, old(input.Rest()), skip), n, k);
      clean := true;
      err, w' := ParseWord(input, parent, n, id, skip, k, t, w);
    }
  }

  // ... if it is a scalar
  method ParseWord(input: Input, parent: Config, n: Config?, id: string, skip: bool,
                   ghost k: nat, ghost t: Node, ghost w: World)
    returns (err: Option<Error>, ghost w': World)
    requires input.Valid() && Ready(At(w), parent, t)
    requires n != null && !skip ==> k < |t.fields| && k < |parent.children| && parent.children[k] == n
    modifies input, w.nodes
    ensures fresh(w'.nodes - w.nodes)
    ensures var r := ConfParse.ParseWord(t.fields, if n == null || skip then None else Some(k), id,
                                         old(input.Rest()), skip);
      Read(input, err, true, r) && Became(old(At(w)), At(w'), parent, t, r.fields)
    ensures skip ==> Same(old(At(w)), At(w'), w, w')
  {
    hide ConfParse.ParseValue, Input.Valid, Input.Rest, Ready, Became, At, Now, Rep, Reworked, Forest, Ranked;
    err, w' := ParseValue(input, parent, n, id, skip, k, t, w);
    if err.None? {
      SkipSeparator(input);
    }
  }

  // ... if it is a compound or an array
  method ParseBlock(input: Input, parent: Config, n: Config?, id: string, open: char,
                    skip: bool, override: bool, ghost k: nat, ghost t: Node, ghost w: World)
    returns (err: Option<Error>, ghost clean: bool, ghost w': World)
    requires input.Valid() && Ready(At(w), parent, t)
    requires n != null ==> k < |t.fields| && k < |parent.children| && parent.children[k] == n
    requires n != null && !skip ==> t.fields[k].node.Compound?
    modifies input, w.nodes
    ensures fresh(w'.nodes - w.nodes)
    ensures var r := ConfParse.ParseBlock(t.fields, if n == null || skip then None else Some(k), id, open,
                                          old(input.Rest()), skip, override);
      && Read(input, err, clean, r)
      && Became(old(At(w)), At(w'), parent, t, if skip then Left(r, n, k) else r.fields)
    ensures skip && n == null ==> Same(old(At(w)), At(w'), w, w')
    decreases |input.Rest()|, 5
  {
    hide ConfParse.ParseBrackets, Input.Valid, Input.Rest, Ready, Became, At, Now, Rep, Reworked, Forest, Ranked, Left;
    ReadyIn(At(w), parent, t);
    var closed;
    err, clean, closed, w' := ParseBrackets(input, parent, n, id, open, skip, override, k, t, w);
    ghost var b := ConfParse.ParseBrackets(t.fields, if n == null || skip then None else Some(k), id, open,
                                           old(input.Rest()), skip, override);
    LeftAnywhere(b, ConfParse.AfterSeparator(b.rest), n, k);
    if closed {
      SkipSeparator(input);
    }
  }

  // The brackets and what is in between. If they are not closed, the node is deleted.
  method ParseBrackets(input: Input, parent: Config, n0: Config?, id: string, open: char,
                       skip: bool, override: bool, ghost k0: nat, ghost t: Node, ghost w: World)
    returns (err: Option<Error>, ghost clean: bool, closed: bool, ghost w': World)
    requires input.Valid() && Ready(At(w), parent, t)
    requires n0 != null ==> k0 < |t.fields| && k0 < |parent.children| && parent.children[k0] == n0
    requires n0 != null && !skip ==> t.fields[k0].node.Compound?
    modifies input, w.nodes
    ensures fresh(w'.nodes - w.nodes) && input.Valid()
    ensures var r := ConfParse.ParseBrackets(t.fields, if n0 == null || skip then None else Some(k0), id, open,
                                             old(input.Rest()), skip, override);
      && Read(input, err, clean, r) && closed == !r.loose
      && Became(old(At(w)), At(w'), parent, t, if skip then Left(r, n0, k0) else r.fields)
    ensures skip && n0 == null ==> Same(old(At(w)), At(w'), w, w')
    decreases |input.Rest()|, 4
  {
    hide ConfParse.ParseNested, Input.Valid, Input.Rest, Ready, Became;
    ghost var h := At(w);
    BecameItself(h, parent, t);
    ReadyIn(h, parent, t);
    var n := n0;
    w' := w;
    ghost var k, fs := if skip then |t.fields| else k0, t.fields;
    if !skip && n == null {
      n, w' := MakeAdd(parent, id, Compound(false, []), t, w);
      k, fs := |fs|, fs + [Field(id, Compound(false, []))];
      BecameReady(h, At(w'), parent, t, fs);
    }
    ghost var w1, h1 := w', At(w');
    var ending;
    err, clean, ending, w' := ParseNested(input, parent, n, open, skip, override, k, t.(fields := fs), w1);
    ghost var r := ConfParse.ParseNested(fs, k, open, old(input.Rest()), skip, override);
    BecameThen(h, h1, At(w'), parent, t, fs, r.fields);
    closed := ending == ConfParse.Matched;
    if !closed && n != null {
      BecameReady(h, At(w'), parent, t, r.fields);
      ghost var w2, h2 := w', At(w');
      k := if skip then k0 else k;
      w' := DeleteChild(n, parent, k, t.(fields := r.fields), w2);
      BecameThen(h, h2, At(w'), parent, t, r.fields, Drop(r.fields, k));
    }
    if !closed {
      clean := clean && err != Some(Invalid) && err != Some(NoEntry);
      err := Some(UnexpectedChar);
    }
  }

  // White space in front of a value does not matter.
  lemma WordFrom(fields: Fields, at: Option<nat>, id: string, text: string, skip: bool)
    requires at.Some? ==> at.value < |fields|
    ensures ConfParse.ParseWord(fields, at, id, Peeked(text), skip) == ConfParse.ParseWord(fields, at, id, text, skip)
  {
    hide FreeString, DelimString, ConfParse.Scalar, ConfParse.Stored;
    match NonWhite(text)
    case Next(c, rest) => assert Peeked(text)[1..] == rest;
    case Stop(_, _) =>
  }

  // The comma or semicolon after a definition.
  method SkipSeparator(input: Input)
    requires input.Valid()
    modifies input
    ensures input.Valid() && input.Rest() == ConfParse.AfterSeparator(old(input.Rest()))
  {
    hide NonWhite, Input.Valid, Input.Rest;
    ghost var text := input.Rest();
    var c := input.GetNonWhite();
    if c != Ch(';') && c != Ch(',') {
      input.UngetNonWhite(c, text);
    }
  }

  // snd_config_load1
  method Load(config: Config, text: string, override: bool, ghost t: Node, ghost w: World)
    returns (err: Option<Error>, ghost w': World)
    requires Ready(At(w), config, t)
    modifies w.nodes
    ensures fresh(w'.nodes - w.nodes)
    ensures var r := ConfParse.Load(t.fields, text, override);
      err == r.status && Became(old(At(w)), At(w'), config, t, r.fields)
  {
    hide ConfParse.ParseDefs, Input.Valid, Input.Rest, Ready, Became;
    ReadyIn(At(w), config, t);
    var input := new Input(text);
    ghost var clean;
    err, clean, w' := ParseDefs(input, config, false, override, t, w);
    if err.None? {
      var c := input.GetChar();
      if c != Eof {
        err := Some(Invalid);
      }
    }
  }
}
