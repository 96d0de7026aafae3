// The recursive-descent parser of src/conf.c on trees as values. Every function
// returns the children it was given as the code leaves them, on success and on error.

module ConfParse {
  import opened ConfText
  import opened ConfTree

  // `status` is None for success. `clean` is false if an error that depends on the tree was
  // passed over on the way; `loose` is true if a definition failed because the
  // brackets around its own value did not match; `taken` is true if an array element was
  // given an id that was taken.
  datatype Parsed = Parsed(fields: Fields, rest: string, status: Option<Error>, clean: bool, loose: bool,
                           taken: bool)
  {
    predicate Ok() { status.None? }

    // It failed because of what is in the tree, not because of the text.
    predicate Misfit() { status == Some(Invalid) || status == Some(NoEntry) }
  }

  datatype Mode = MergeCreate | Merge | Override | DontOverride

  function Good(fields: Fields, rest: string): Parsed {
    Parsed(fields, rest, None, true, false, false)
  }

  function Fail(fields: Fields, rest: string, e: Error): Parsed {
    Parsed(fields, rest, Some(e), true, false, false)
  }

  // The scalar that a word or a quoted string stands for.
  function Scalar(s: string, delimited: bool): Node {
    if !delimited && s != "" && (IsDigit(s[0]) || s[0] == '-') then
      match ParseInt(s)
      case Some(i) => if i <= INT_MAX then Integer(i) else Integer64(i)
      case None => if IsReal(s) then Real(s) else Str(s)
    else Str(s)
  }

  // Storing a new scalar into an existing node keeps the type of the node; None if
  // the types do not go together.
  function Stored(old': Node, new': Node): Option<Node> {
    match (old', new')
    case (Integer(_), Integer(i)) => Some(Integer(i))
    case (Integer(_), Integer64(i)) => Some(Integer(i))
    case (Integer64(_), Integer(i)) => Some(Integer64(i))
    case (Integer64(_), Integer64(i)) => Some(Integer64(i))
    case (Real(_), Real(t)) => Some(new')
    case (Str(_), Str(s)) => Some(new')
    case _ => None
  }

  // parse_value, for the child number `at`, or for a new child `id` if there is none.
  function ParseValue(fields: Fields, at: Option<nat>, id: string, inp: string, skip: bool): (r: Parsed)
    requires at.Some? ==> at.value < |fields|
    ensures r.Ok() ==> |r.rest| < |inp|
    ensures |r.rest| <= |inp| && r.clean && !r.loose && !r.taken
    ensures skip ==> Skipped(fields, r)
  {
    match GetString(false, inp)
    case Bad(e, rest) => Fail(fields, rest, e)
    case Got(s, delimited, rest) =>
      if skip then Good(fields, rest)
      else
        var v := Scalar(s, delimited);
        match at
        case None => Good(fields + [Field(id, v)], rest)
        case Some(k) =>
          match Stored(fields[k].node, v)
          case None => Fail(fields, rest, Invalid)
          case Some(w) => Good(fields[k := Field(fields[k].id, w)], rest)
  }

  function DigitsText(n: nat): string {
    if n < 10 then ['0' + n as char] else DigitsText(n / 10) + ['0' + (n % 10) as char]
  }

  // How the text between brackets ended: with the right bracket, with another
  // character, or not at all.
  datatype Ending = Matched | Mismatched | NoMore(error: Error)

  // `inner` is what was read between the brackets, into the child number `k`.
  datatype Nested = Nested(fields: Fields, rest: string, inner: Parsed, ending: Ending)

  function Reopened(fields: Fields, k: nat, inner: Fields): Fields
    requires k < |fields| && fields[k].node.Compound?
  {
    fields[k := Field(fields[k].id, fields[k].node.(fields := inner))]
  }

  // What stands between `{` or `[` and its end, and the closing character.
  function ParseNested(fields: Fields, k: nat, open: char, inp: string, skip: bool, override: bool)
    : (r: Nested)
    requires !skip ==> k < |fields| && fields[k].node.Compound?
    ensures |r.rest| <= |inp| && (skip ==> r.fields == fields && StillClean(r.inner))
    ensures !skip ==> |r.fields| == |fields|
    ensures r.ending.Matched? ==> |r.rest| < |inp|
    decreases |inp|, 3
  {
    var old' := if skip then fields else fields[k].node.fields;
    var d := if open == '{' then ParseDefs(old', inp, skip, override)
             else ParseArrayDefs(old', 0, inp, skip, override);
    var kept := if skip then fields else Reopened(fields, k, d.fields);
    match NonWhite(d.rest)
    case Stop(e, rest) => Nested(kept, rest, d, NoMore(e))
    case Next(c, rest) =>
      Nested(kept, rest, d, if c == (if open == '{' then '}' else ']') then Matched else Mismatched)
  }

  // Skipping has no effect, and depends on nothing but the text.
  predicate Skipped(fields: Fields, r: Parsed) {
    r.fields == fields && r.clean && !r.Misfit() && !r.taken
  }

  predicate Loosely(r: Parsed) {
    r.loose ==> r.status == Some(UnexpectedChar)
  }

  // Whether all is still clean when the status of `inner` is forgotten.
  predicate StillClean(inner: Parsed) {
    inner.clean && !inner.Misfit()
  }

  // parse_array_def. An error between the brackets is forgotten if they close; a
  // child whose brackets do not match is deleted.
  function ParseArrayDef(fields: Fields, idx: nat, inp: string, skip: bool, override: bool): (r: Parsed)
    ensures |r.rest| <= |inp| && (skip ==> Skipped(fields, r)) && Loosely(r)
    ensures r.Ok() ==> |r.rest| < |inp|
    decreases |inp|, 1
  {
    var id := DigitsText(idx);
    match NonWhite(inp)
    case Stop(e, rest) => Fail(fields, rest, e)
    case Next(c, rest) =>
      var r := if c != '{' && c != '[' then ParseValue(fields, None, id, [c] + rest, skip)
               else ParseElement(fields, id, c, rest, skip, override);
      r.(taken := r.taken || (!skip && Search(fields, id).Some?))
  }

  // ... if the element is a compound or an array
  function ParseElement(fields: Fields, id: string, open: char, inp: string, skip: bool, override: bool): (r: Parsed)
    ensures |r.rest| <= |inp| && (skip ==> Skipped(fields, r)) && Loosely(r)
    decreases |inp|, 4
  {
    var made := if skip then fields else fields + [Field(id, Compound(false, []))];
    var n := ParseNested(made, |fields|, open, inp, skip, override);
    match n.ending
    case NoMore(e) => Parsed(n.fields, n.rest, Some(e), StillClean(n.inner), false, n.inner.taken)
    case Mismatched => Parsed(fields, n.rest, Some(UnexpectedChar), StillClean(n.inner), false, false)
    case Matched => Parsed(n.fields, n.rest, None, StillClean(n.inner), false, n.inner.taken)
  }

  // parse_array_defs, from the element number `idx` on
  function ParseArrayDefs(fields: Fields, idx: nat, inp: string, skip: bool, override: bool): (r: Parsed)
    ensures |r.rest| <= |inp| && (skip ==> Skipped(fields, r)) && Loosely(r)
    decreases |inp|, 2
  {
    match NonWhite(inp)
    case Stop(e, rest) => Fail(fields, rest, e)
    case Next(c, rest) =>
      if c == ']' then Good(fields, [c] + rest)
      else
        var d := ParseArrayDef(fields, idx, [c] + rest, skip, override);
        if !d.Ok() then d
        else
          var r := ParseArrayDefs(d.fields, idx + 1, d.rest, skip, override);
          r.(clean := d.clean && r.clean, taken := d.taken || r.taken)
  }

  // parse_defs
  function ParseDefs(fields: Fields, inp: string, skip: bool, override: bool): (r: Parsed)
    ensures |r.rest| <= |inp| && (skip ==> Skipped(fields, r)) && Loosely(r)
    decreases |inp|, 2
  {
    match NonWhite(inp)
    case Stop(UnexpectedEof, _) => Good(fields, "")
    case Stop(e, rest) => Fail(fields, rest, e)
    case Next(c, rest) =>
      if c == '}' then Good(fields, [c] + rest)
      else
        var d := ParseDef(fields, [c] + rest, skip, override);
        if !d.Ok() then d
        else
          var r := ParseDefs(d.fields, d.rest, skip, override);
          r.(clean := d.clean && r.clean, taken := d.taken || r.taken)
  }

  function ModeOf(c: char, override: bool): Mode {
    if c == '+' then MergeCreate else if c == '-' then Merge
    else if c == '?' then DontOverride else if c == '!' || override then Override
    else MergeCreate
  }

  // parse_def, up to the key's first component
  function ParseDef(fields: Fields, inp: string, skip: bool, override: bool): (r: Parsed)
    ensures |r.rest| <= |inp| && (skip ==> Skipped(fields, r)) && Loosely(r)
    ensures r.Ok() ==> |r.rest| < |inp|
    decreases |inp|, 1
  {
    match NonWhite(inp)
    case Stop(e, rest) => Fail(fields, rest, e)
    case Next(c, rest) =>
      match GetString(true, if c in "+-?!" then rest else [c] + rest)
      case Bad(e, rest1) => Fail(fields, rest1, e)
      case Got(id, _, rest1) => ParseKeyed(fields, id, ModeOf(c, override), rest1, skip, override)
  }

  // ... and from there on
  function ParseKeyed(fields: Fields, id: string, mode: Mode, inp: string, skip: bool, override: bool)
    : (r: Parsed)
    ensures |r.rest| <= |inp| && (skip ==> Skipped(fields, r)) && Loosely(r)
    decreases |inp|, 8
  {
    match NonWhite(inp)
    case Stop(_, _) => ParseBody(fields, id, mode, inp, skip, override)
    case Next(c, rest) =>
      if c == '.' then ParseComponent(fields, id, mode, rest, skip, override)
      else if c != '=' then ParseBody(fields, id, mode, [c] + rest, skip, override)
      else
        match NonWhite(rest)
        case Stop(e, rest2) => Fail(fields, rest2, e)
        case Next(c2, rest2) => ParseBody(fields, id, mode, [c2] + rest2, skip, override)
  }

  // The component `id` of a key, followed by a dot: goes down into that compound.
  function ParseComponent(fields: Fields, id: string, mode: Mode, inp: string, skip: bool, override: bool)
    : (r: Parsed)
    ensures |r.rest| <= |inp| && (skip ==> Skipped(fields, r)) && Loosely(r)
    decreases |inp|, 4
  {
    if skip then ParseDef(fields, inp, true, override) else
    match Search(fields, id)
    case None =>
      if mode == Merge then Fail(fields, inp, NoEntry) else ParseInside(fields, id, inp, override)
    case Some(k) =>
      if mode == DontOverride then Abandoned(ParseDef(fields, inp, true, override), k)
      else if mode == Override then ParseInside(Drop(fields, k), id, inp, override)
      else ParseExisting(fields, k, inp, override)
  }

  // The rest of a key below the child number `k`, which must be a compound.
  function ParseExisting(fields: Fields, k: nat, inp: string, override: bool): (r: Parsed)
    requires k < |fields|
    ensures |r.rest| <= |inp| && Loosely(r)
    decreases |inp|, 3
  {
    if !fields[k].node.Compound? then Fail(fields, inp, Invalid)
    else
      var d := ParseDef(fields[k].node.fields, inp, false, override);
      d.(fields := fields[k := Field(fields[k].id, Compound(true, d.fields))])
  }

  // While the rest of a definition is skipped, the code still holds on to the child
  // number `k`, because of which it is skipped: that is the node it deletes when the
  // brackets at the end do not match.
  function Abandoned(d: Parsed, k: nat): Parsed
    requires k < |d.fields|
  {
    if d.loose then d.(fields := Drop(d.fields, k)) else d
  }

  // The rest of a key below a new joined compound `id`.
  function ParseInside(fields: Fields, id: string, inp: string, override: bool): (r: Parsed)
    ensures |r.rest| <= |inp| && Loosely(r)
    decreases |inp|, 3
  {
    var d := ParseDef([], inp, false, override);
    d.(fields := fields + [Field(id, Compound(true, d.fields))])
  }

  // The last component `id`: which node, if any, the value is merged into.
  function ParseBody(fields: Fields, id: string, mode: Mode, inp: string, skip: bool, override: bool)
    : (r: Parsed)
    ensures |r.rest| <= |inp| && (skip ==> Skipped(fields, r)) && Loosely(r)
    ensures r.Ok() ==> |r.rest| < |inp|
    decreases |inp|, 7
  {
    if skip then ParseContents(fields, None, id, inp, true, override) else
    match Search(fields, id)
    case None =>
      if mode == Merge then Fail(fields, NonWhite(inp).rest, NoEntry)
      else ParseContents(fields, None, id, inp, false, override)
    case Some(k) =>
      if mode == DontOverride then ParseContents(fields, None, id, inp, true, override)
      else if mode == Override then ParseContents(Drop(fields, k), None, id, inp, false, override)
      else ParseContents(fields, Some(k), id, inp, false, override)
  }

  // The value, and the comma or semicolon after it.
  function ParseContents(fields: Fields, at: Option<nat>, id: string, inp: string, skip: bool, override: bool)
    : (r: Parsed)
    requires at.Some? ==> at.value < |fields|
    ensures |r.rest| <= |inp| && (skip ==> Skipped(fields, r)) && Loosely(r)
    ensures r.Ok() ==> |r.rest| < |inp|
    decreases |inp|, 6
  {
    var next := NonWhite(inp);
    if next.Next? && (next.c == '{' || next.c == '[') then
      if !skip && at.Some? && !fields[at.value].node.Compound? then Fail(fields, next.rest, Invalid)
      else ParseBlock(fields, at, id, next.c, next.rest, skip, override)
    else ParseWord(fields, at, id, inp, skip)
  }

  // ... if it is a scalar
  function ParseWord(fields: Fields, at: Option<nat>, id: string, inp: string, skip: bool): (r: Parsed)
    requires at.Some? ==> at.value < |fields|
    ensures |r.rest| <= |inp| && !r.loose && (skip ==> Skipped(fields, r))
    ensures r.Ok() ==> |r.rest| < |inp|
  {
    var v := ParseValue(fields, at, id, inp, skip);
    if v.Ok() then v.(rest := AfterSeparator(v.rest)) else v
  }

  // ... if it is a compound or an array
  function ParseBlock(fields: Fields, at: Option<nat>, id: string, open: char, inp: string,
                      skip: bool, override: bool): (r: Parsed)
    requires at.Some? && !skip ==> at.value < |fields| && fields[at.value].node.Compound?
    ensures |r.rest| <= |inp| && (skip ==> Skipped(fields, r)) && Loosely(r)
    decreases |inp|, 5
  {
    var b := ParseBrackets(fields, at, id, open, inp, skip, override);
    if b.loose then b else b.(rest := AfterSeparator(b.rest))
  }

  // What stands between the brackets. If they are not closed, the node is deleted.
  function ParseBrackets(fields: Fields, at: Option<nat>, id: string, open: char, inp: string,
                         skip: bool, override: bool): (r: Parsed)
    requires at.Some? && !skip ==> at.value < |fields| && fields[at.value].node.Compound?
    ensures |r.rest| <= |inp| && (skip ==> Skipped(fields, r)) && Loosely(r)
    decreases |inp|, 4
  {
    var made := if skip || at.Some? then fields else fields + [Field(id, Compound(false, []))];
    var k := if at.Some? then at.value else |fields|;
    var n := ParseNested(made, k, open, inp, skip, override);
    if n.ending.Matched? then Parsed(n.fields, n.rest, n.inner.status, n.inner.clean, false, n.inner.taken)
    else Parsed(if skip then fields else Drop(n.fields, k), n.rest, Some(UnexpectedChar), StillClean(n.inner),
                true, false)
  }

  function AfterSeparator(inp: string): (r: string)
    ensures |r| <= |inp|
  {
    match NonWhite(inp)
    case Next(c, rest) => if c == ';' || c == ',' then rest else [c] + rest
    case Stop(_, _) => Peeked(inp)
  }

  // snd_config_load1: the whole text must be consumed.
  function Load(fields: Fields, text: string, override: bool): Parsed {
    var d := ParseDefs(fields, text, false, override);
    if d.Ok() && d.rest != "" then d.(status := Some(Invalid)) else d
  }
}
