// The lexer of src/conf.c as functions on the text that is still to be read. A
// character that the code pushes back is simply still there.

module ConfText {
  const BS: char := '\U{08}'
  const VT: char := '\U{0B}'
  const FF: char := '\U{0C}'

  datatype Option<T> = None | Some(value: T)

  // Why reading stops. Files named by `<...>` can never be opened in this model.
  datatype Error = UnexpectedEof | UnexpectedChar | NoInclude | Invalid | NoEntry

  datatype Next = Next(c: char, rest: string) | Stop(error: Error, rest: string)

  datatype Lexeme = Got(s: string, delimited: bool, rest: string) | Bad(error: Error, rest: string)

  predicate IsWhite(c: char) {
    c == ' ' || c == FF || c == '\t' || c == '\n' || c == '\r'
  }

  predicate IsDigit(c: char) {
    '0' <= c <= '9'
  }

  predicate IsOctal(c: char) {
    '0' <= c <= '7'
  }

  function OctalVal(c: char): nat
    requires IsOctal(c)
  {
    c as int - '0' as int
  }

  // The rest of an octal escape, of which `seen` digits have been read.
  function Octal(num: nat, seen: nat, inp: string): (r: (nat, string))
    ensures |r.1| <= |inp|
    ensures (seen == 1 && num < 8) || (seen == 2 && num < 64) || (seen >= 3 && num < 512) ==> r.0 < 512
    decreases |inp|
  {
    if seen < 3 && inp != "" && IsOctal(inp[0]) then
      Octal(num * 8 + OctalVal(inp[0]), seen + 1, inp[1..])
    else (num, inp)
  }

  // What is stored of a number that an escape stands for.
  function Byte(c: char): char {
    (c as int % 256) as char
  }

  // get_quotedchar, which returns a number up to 511
  function QuotedChar(inp: string): (r: Option<(char, string)>)
    ensures r.Some? ==> |r.value.1| < |inp|
  {
    if inp == "" then None
    else
      var c, tail := inp[0], inp[1..];
      if IsOctal(c) then
        var (num, rest) := Octal(OctalVal(c), 1, tail);
        Some((num as char, rest))
      else Some((
        if c == 'n' then '\n' else if c == 't' then '\t' else if c == 'v' then VT
        else if c == 'b' then BS else if c == 'r' then '\r' else if c == 'f' then FF else c, tail))
  }

  // get_delimstring, after the opening delimiter. An escaped newline vanishes.
  function DelimString(delim: char, inp: string): (r: Option<(string, string)>)
    ensures r.Some? ==> |r.value.1| < |inp|
    decreases |inp|
  {
    if inp == "" then None
    else if inp[0] == '\\' then
      match QuotedChar(inp[1..])
      case None => None
      case Some((c, rest)) =>
        var r := DelimString(delim, rest);
        if c == '\n' || r.None? then r else Some(([Byte(c)] + r.value.0, r.value.1))
    else if inp[0] == delim then Some(("", inp[1..]))
    else
      var r := DelimString(delim, inp[1..]);
      if r.None? then None else Some(([inp[0]] + r.value.0, r.value.1))
  }

  // What follows a comment.
  function AfterComment(inp: string): (rest: string)
    ensures |rest| <= |inp|
  {
    if inp == "" then inp else if inp[0] == '\n' then inp[1..] else AfterComment(inp[1..])
  }

  predicate Closed(inp: string) {
    inp != "" && (inp[0] == '\n' || Closed(inp[1..]))
  }

  // get_nonwhite
  function NonWhite(inp: string): (r: Next)
    ensures r.Next? ==> |r.rest| < |inp| && !IsWhite(r.c) && r.c != '#' && r.c != '<'
    ensures |r.rest| <= |inp| && (r.Stop? ==> r.error == UnexpectedEof || r.error == NoInclude)
    ensures r.Stop? && r.error == UnexpectedEof ==> r.rest == ""
    decreases |inp|
  {
    if inp == "" then Stop(UnexpectedEof, "")
    else
      var c, tail := inp[0], inp[1..];
      if c == '<' then
        match DelimString('>', tail)
        case None => Stop(UnexpectedEof, "")
        case Some((_, rest)) => Stop(NoInclude, rest)
      else if c == '#' then
        if Closed(tail) then NonWhite(AfterComment(tail)) else Stop(UnexpectedEof, "")
      else if IsWhite(c) then NonWhite(tail)
      else Next(c, tail)
  }

  // Characters at which a bare word ends.
  predicate EndsWord(c: char, id: bool) {
    IsWhite(c) || c in "=,;{}[]'\"\\#" || (id && c == '.')
  }

  // get_freestring
  function FreeString(id: bool, inp: string): (r: (string, string))
    ensures |r.1| <= |inp|
    ensures inp != "" && !EndsWord(inp[0], id) ==> |r.1| < |inp|
    decreases |inp|
  {
    if inp == "" || EndsWord(inp[0], id) then ("", inp)
    else
      var r := FreeString(id, inp[1..]);
      ([inp[0]] + r.0, r.1)
  }

  // get_string
  function GetString(id: bool, inp: string): (r: Lexeme)
    ensures r.Got? ==> |r.rest| < |inp|
    ensures |r.rest| <= |inp| && (r.Bad? ==> r.error != Invalid && r.error != NoEntry)
  {
    match NonWhite(inp)
    case Stop(e, rest) => Bad(e, rest)
    case Next(c, rest) =>
      if c in "=,;.{}[]\\" then Bad(UnexpectedChar, rest)
      else if c == '\'' || c == '"' then
        match DelimString(c, rest)
        case None => Bad(UnexpectedEof, "")
        case Some((s, rest2)) => Got(s, true, rest2)
      else
        var (s, rest2) := FreeString(id, [c] + rest);
        Got(s, false, rest2)
  }

  // The text from the next character that is not white.
  function Peeked(inp: string): (r: string)
    ensures |r| <= |inp|
  {
    match NonWhite(inp)
    case Next(c, rest) => [c] + rest
    case Stop(UnexpectedEof, _) => ""
    case Stop(_, _) => inp
  }

  const LLONG_MAX := 0x7fff_ffff_ffff_ffff
  const LLONG_MIN := -0x8000_0000_0000_0000
  const INT_MAX := 0x7fff_ffff

  // The value of a digit in bases up to 16, or 16.
  function DigitOf(c: char): nat {
    if IsDigit(c) then c as int - '0' as int
    else if 'a' <= c <= 'f' then c as int - 'a' as int + 10
    else if 'A' <= c <= 'F' then c as int - 'A' as int + 10
    else 16
  }

  predicate AreDigits(base: nat, s: string) {
    forall c :: c in s ==> DigitOf(c) < base
  }

  function DigitsVal(base: nat, s: string, acc: nat): nat {
    if s == "" then acc else DigitsVal(base, s[1..], base * acc + DigitOf(s[0]))
  }

  function Unsigned(s: string): Option<nat> {
    if |s| > 2 && s[0] == '0' && (s[1] == 'x' || s[1] == 'X') then
      if AreDigits(16, s[2..]) then Some(DigitsVal(16, s[2..], 0)) else None
    else if s != "" && s[0] == '0' then
      if AreDigits(8, s) then Some(DigitsVal(8, s, 0)) else None
    else if s != "" && AreDigits(10, s) then Some(DigitsVal(10, s, 0))
    else None
  }

  // safe_strtoll on a word that starts with a digit or a minus sign: "%lli", which
  // saturates.
  function ParseInt(s: string): Option<int> {
    if s != "" && s[0] == '-' then
      match Unsigned(s[1..])
      case None => None
      case Some(n) => var v: int := -(n as int); Some(if v < LLONG_MIN then LLONG_MIN else v)
    else
      match Unsigned(s)
      case None => None
      case Some(n) => Some(if n > LLONG_MAX then LLONG_MAX else n)
  }

  function DropDigits(s: string): (r: string)
    ensures |r| <= |s|
  {
    if s != "" && IsDigit(s[0]) then DropDigits(s[1..]) else s
  }

  predicate IsExponent(s: string) {
    s == "" ||
    ((s[0] == 'e' || s[0] == 'E') &&
     var t := if |s| > 1 && (s[1] == '+' || s[1] == '-') then s[2..] else s[1..];
     t != "" && DropDigits(t) == "")
  }

  // Decimal floating-point numbers, as safe_strtod takes them.
  predicate IsReal(s: string) {
    var t := if s != "" && (s[0] == '-' || s[0] == '+') then s[1..] else s;
    var u := DropDigits(t);
    if u != "" && u[0] == '.' then
      var v := DropDigits(u[1..]);
      |t| > |v| + 1 && IsExponent(v)
    else |t| > |u| && IsExponent(u)
  }
}
