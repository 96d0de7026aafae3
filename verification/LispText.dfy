// The textual form of S-expressions: the lexer, the parser and the printer of
// src/alisp/alisp.c as functions on strings. Characters pushed back by the lexer are
// simply not consumed here.

module LispText {
  import opened LispSyntax

  const BEL: char := '\U{07}'
  const BS: char := '\U{08}'
  const VT: char := '\U{0B}'
  const FF: char := '\U{0C}'

  const LONG_MAX := 0x7fff_ffff_ffff_ffff
  const LONG_MIN := -0x8000_0000_0000_0000

  // Floats are recognised but not read.
  datatype Token = TEof | TChar(c: char) | TId(id: string) | TInt(text: string) | TFloat | TStr(s: string)

  predicate IsSpace(c: char) {
    c == '\n' || c == ' ' || c == FF || c == '\t' || c == VT || c == '\r'
  }

  predicate IsDigit(c: char) {
    '0' <= c <= '9'
  }

  predicate IsAlpha(c: char) {
    'a' <= c <= 'z' || 'A' <= c <= 'Z'
  }

  // Characters that continue an identifier; strchr also finds the terminating NUL.
  predicate IsIdChar(c: char) {
    IsDigit(c) || IsAlpha(c) || c in "!_-+*/%<>=&" || c == '\0'
  }

  // Characters that start one; a minus sign only if no digit follows.
  predicate IsIdStart(c: char) {
    IsAlpha(c) || c in "!_+*/%<>=&"
  }

  function Skip(inp: string): (rest: string)
    ensures |rest| <= |inp|
  {
    if inp == [] || inp[0] == '\n' then inp else Skip(inp[1..])
  }

  // The longest identifier tail at the head of `inp`.
  function IdTail(inp: string): (id: string)
    ensures |id| <= |inp|
  {
    if inp != [] && IsIdChar(inp[0]) then [inp[0]] + IdTail(inp[1..]) else []
  }

  // Scanning a number: the rest of its text and whether a fraction, or a fraction
  // and an exponent, have been seen.
  datatype Scan = Scan(text: string, isFloat: bool, rest: string)

  function ScanNumber(inp: string, isFloat: bool, hasExp: bool): (r: Scan)
    ensures |r.rest| <= |inp|
    decreases |inp|
  {
    if inp == [] then Scan([], isFloat, inp)
    else if inp[0] == '.' && !isFloat then
      if |inp| > 1 && IsDigit(inp[1]) then
        var r := ScanNumber(inp[1..], true, false);
        r.(text := ['.'] + r.text)
      else Scan([], isFloat, inp)
    else if inp[0] == 'e' && isFloat && !hasExp then
      if |inp| > 1 && IsDigit(inp[1]) then
        var r := ScanNumber(inp[2..], true, true);
        r.(text := [inp[1]] + r.text)
      else Scan([], isFloat, inp[1..])
    else if IsDigit(inp[0]) then
      var r := ScanNumber(inp[1..], isFloat, hasExp);
      r.(text := [inp[0]] + r.text)
    else Scan([], isFloat, inp)
  }

  // One escape of a string literal, after the backslash.
  function Unescape(c: char): string {
    if c == '\n' then ""
    else if c == 'a' then [BEL]
    else if c == 'b' then [BS]
    else if c == 'f' then [FF]
    else if c == 'n' then "\n"
    else if c == 'r' then "\r"
    else if c == 't' then "\t"
    else if c == 'v' then [VT]
    else [c]
  }

  // The contents of a string literal after its opening quote, and what follows it.
  // A literal that is not closed ends with the input.
  function ScanString(inp: string): (r: (string, string))
    ensures |r.1| <= |inp|
    decreases |inp|
  {
    if inp == [] then ("", inp)
    else if inp[0] == '"' then ("", inp[1..])
    else if inp[0] == '\\' then
      if |inp| == 1 then ([EOF_CHAR], [])
      else var r := ScanString(inp[2..]); (Unescape(inp[1]) + r.0, r.1)
    else var r := ScanString(inp[1..]); ([inp[0]] + r.0, r.1)
  }

  // EOF stored into a char buffer
  const EOF_CHAR: char := '\U{FF}'

  function GetToken(inp: string): (r: (Token, string))
    ensures |r.1| <= |inp|
    ensures r.0 != TEof ==> |r.1| < |inp|
    decreases |inp|
  {
    if inp == [] then (TEof, [])
    else
      var c, tail := inp[0], inp[1..];
      if IsSpace(c) then GetToken(tail)
      else if c == ';' then
        var t := Skip(tail);
        GetToken(if t == [] then t else t[1..])
      else if c == '?' then
        if tail == [] then (TInt("-1"), []) else (TInt(IntText(tail[0] as int)), tail[1..])
      else if IsDigit(c) || (c == '-' && tail != [] && IsDigit(tail[0])) then
        var n := ScanNumber(tail, false, false);
        (if n.isFloat then TFloat else TInt([c] + n.text), n.rest)
      else if IsIdStart(c) || c == '-' then
        var id := IdTail(tail);
        (TId([c] + id), tail[|id|..])
      else if c == '"' then
        var s := ScanString(tail);
        (TStr(s.0), s.1)
      else (TChar(c), tail)
  }

  function DigitsOf(n: nat): string {
    if n < 10 then ['0' + n as char] else DigitsOf(n / 10) + ['0' + (n % 10) as char]
  }

  // "%ld"
  function IntText(i: int): string {
    if i < 0 then "-" + DigitsOf(-i) else DigitsOf(i)
  }

  function DigitsVal(s: string, acc: nat): nat
    requires forall c :: c in s ==> IsDigit(c)
  {
    if s == [] then acc else
    assert IsDigit(s[0]);
    DigitsVal(s[1..], 10 * acc + (s[0] as int - '0' as int))
  }

  // atol, which saturates
  function Atol(s: string): int {
    var digits := if s != [] && s[0] == '-' then s[1..] else s;
    if !forall c :: c in digits ==> IsDigit(c) then 0
    else
      var d: int := DigitsVal(digits, 0);
      var v := if s != [] && s[0] == '-' then -d else d;
      if v > LONG_MAX then LONG_MAX else if v < LONG_MIN then LONG_MIN else v
  }

  // `Unread` stands for the NULL of parse_object; `Float` for a form with a float in it.
  datatype Parsed = Form(e: SExp, rest: string) | Unread | FloatForm

  function Quote(e: SExp): SExp {
    Cons(Id("quote"), Cons(e, Nil))
  }

  // parse_object(instance, 0)
  function Parse(inp: string): (r: Parsed)
    ensures r.Form? ==> |r.rest| < |inp|
    decreases |inp|, 2
  {
    var (tok, rest) := GetToken(inp);
    if tok == TEof then Unread else ParseToken(tok, rest)
  }

  // parse_object(instance, 1)
  function ParseToken(tok: Token, inp: string): (r: Parsed)
    ensures r.Form? ==> |r.rest| <= |inp|
    decreases |inp|, 3
  {
    match tok
    case TEof => Unread
    case TChar(c) =>
      if c == '(' then ParseForm(inp, false)
      else if c == '\'' then
        var r := Parse(inp);
        if r.Form? then Form(Quote(r.e), r.rest) else r
      else Unread
    case TId(id) =>
      Form(if id == "t" then T else if id == "nil" then Nil else Id(id), inp)
    case TInt(text) => Form(Int(Atol(text)), inp)
    case TFloat => FloatForm
    case TStr(s) => Form(Str(s), inp)
  }

  // parse_form; `started` tells whether the list has an element already.
  function ParseForm(inp: string, started: bool): (r: Parsed)
    ensures r.Form? ==> |r.rest| <= |inp|
    decreases |inp|, 1
  {
    var (tok, rest) := GetToken(inp);
    if tok == TEof || tok == TChar(')') then Form(Nil, rest)
    else if tok == TChar('.') then
      var (tok2, rest2) := GetToken(rest);
      if !started then Unread else
      var t := ParseToken(tok2, rest2);
      if !t.Form? then t else
      var (close, rest3) := GetToken(t.rest);
      if close == TChar(')') then Form(t.e, rest3) else Unread
    else
      var a := ParseToken(tok, rest);
      if !a.Form? then a else
      var d := ParseForm(a.rest, true);
      if d.Form? then Form(Cons(a.e, d.e), d.rest) else d
  }

  // princ_string, one character
  function Escape(c: char): string {
    if c == BEL then "\\a"
    else if c == BS then "\\b"
    else if c == FF then "\\f"
    else if c == '\n' then "\\n"
    else if c == '\r' then "\\r"
    else if c == '\t' then "\\t"
    else if c == VT then "\\v"
    else if c == '"' then "\\\""
    else [c]
  }

  function EscapeAll(s: string): string {
    if s == [] then [] else Escape(s[0]) + EscapeAll(s[1..])
  }

  // princ_object
  function Print(e: SExp): string
    decreases e, 0
  {
    match e
    case Nil => "nil"
    case T => "t"
    case Int(i) => IntText(i)
    case Str(s) => "\"" + EscapeAll(s) + "\""
    case Id(s) => s
    case Cons(a, d) => "(" + Print(a) + PrintTail(d) + ")"
  }

  // princ_cons after the first element
  function PrintTail(d: SExp): string
    decreases d, 1
  {
    match d
    case Nil => ""
    case Cons(a, d') => " " + Print(a) + PrintTail(d')
    case _ => " . " + Print(d)
  }
}
