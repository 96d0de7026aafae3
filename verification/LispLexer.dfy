// The lexer of src/alisp/alisp.c: characters come from the input or from a small
// stack of characters pushed back, tokens go to a buffer that grows on demand.
// It computes LispText.GetToken.

module LispLexer {
  import opened CharSource
  import opened LispText

  const LEX_BUF_MAX := 16

  datatype TokenKind = KEof | KChar(c: char) | KId | KInt | KFloat | KFloatE | KStr

  // How a number goes on at `r` ...
  lemma NumberStep(a: string, r: string, isFloat: bool, hasExp: bool)
    ensures var n := LispText.ScanNumber(r, isFloat, hasExp);
      if Head(r) == Ch('.') && !isFloat && IsDigitCode(Head(Tail(r))) then
        var m := LispText.ScanNumber(Tail(r), true, false);
        Join(a, n.text) == Join(a + ['.'], m.text) && n.isFloat == m.isFloat && n.rest == m.rest
      else if Head(r) == Ch('e') && isFloat && !hasExp then
        if IsDigitCode(Head(Tail(r))) then
          var m := LispText.ScanNumber(Tail(Tail(r)), true, true);
          Join(a, n.text) == Join(a + [Head(Tail(r)).c], m.text) && n.isFloat == m.isFloat && n.rest == m.rest
        else n == Scan("", isFloat, Tail(r))
      else if IsDigitCode(Head(r)) then
        var m := LispText.ScanNumber(Tail(r), isFloat, hasExp);
        Join(a, n.text) == Join(a + [Head(r).c], m.text) && n.isFloat == m.isFloat && n.rest == m.rest
      else n == Scan("", isFloat, r)
  {
    hide Join;
    if |r| > 1 {
      assert r[1..][1..] == r[2..];
      JoinStep(a, [r[1]], LispText.ScanNumber(r[2..], true, true).text);
    }
    if r != "" {
      JoinStep(a, ['.'], LispText.ScanNumber(r[1..], true, false).text);
      JoinStep(a, [r[0]], LispText.ScanNumber(r[1..], isFloat, hasExp).text);
    }
  }

  function AfterId(r: string): string {
    r[|IdTail(r)|..]
  }

  // ... an identifier ...
  lemma IdStep(a: string, r: string)
    ensures if r != "" && IsIdChar(r[0])
      then Join(a, IdTail(r)) == Join(a + [r[0]], IdTail(Tail(r))) && AfterId(r) == AfterId(Tail(r))
      else IdTail(r) == "" && AfterId(r) == r
  {
    if r != "" { JoinStep(a, [r[0]], IdTail(r[1..])); }
  }

  // ... and a string literal.
  lemma StringStep(a: string, c: char, r: string)
    ensures var n := LispText.ScanString([c] + r);
      if c == '"' then n == ("", r)
      else if c != '\\' then
        var m := LispText.ScanString(r); Join(a, n.0) == Join(a + [c], m.0) && n.1 == m.1
      else if r == "" then
        var m := LispText.ScanString(""); Join(a, n.0) == Join(a + [EOF_CHAR], m.0) && n.1 == m.1
      else
        var m := LispText.ScanString(Tail(r));
        Join(a, n.0) == Join(a + Unescape(r[0]), m.0) && n.1 == m.1
  {
    hide Join;
    assert ([c] + r)[1..] == r;
    JoinStep(a, [c], LispText.ScanString(r).0);
    JoinStep(a, [EOF_CHAR], "");
    assert [EOF_CHAR] + "" == [EOF_CHAR];
    if r != "" {
      assert ([c] + r)[2..] == r[1..];
      JoinStep(a, Unescape(r[0]), LispText.ScanString(r[1..]).0);
    }
  }

  predicate IsDigitCode(c: Code) {
    c.Ch? && IsDigit(c.c)
  }

  // The pushed-back characters in the order in which they will be read again.
  function Pushed(back: seq<Code>): string {
    if back == [] then "" else Text(back[|back|-1]) + Pushed(back[..|back|-1])
  }

  lemma PushedEmpty(back: seq<Code>)
    requires forall i :: 0 <= i < |back| ==> back[i] == Eof
    ensures Pushed(back) == ""
  {
  }

  function Power10(k: nat): nat {
    if k == 0 then 1 else 10 * Power10(k - 1)
  }

  lemma {:induction false} DigitsShort(n: nat, k: nat)
    requires 0 < k && n < Power10(k)
    ensures |DigitsOf(n)| <= k
  {
    if n >= 10 {
      DigitsShort(n / 10, k - 1);
    }
  }

  lemma CharCodeShort(c: char)
    ensures |IntText(c as int)| < 10
  {
    assert Power10(9) == 1000000000 by {
      assert Power10(4) == 10000;
      assert Power10(8) == 100000000;
    }
    DigitsShort(c as int, 9);
  }

  class Lexer {
    var inp: string         // not read yet
    var back: seq<Code>     // lex_buf up to lex_bufp
    var buffer: string      // token_buffer
    var bufferMax: nat
    var kind: TokenKind          // thistoken

    constructor (text: string)
      ensures Valid() && Rest() == text
    {
      inp, back, buffer, bufferMax, kind := text, [], "", 10, KEof;
    }

    // EOF is pushed back only at the end of the input.
    ghost predicate BackOk()
      reads `inp, `back
    {
      forall i :: 0 <= i < |back| && back[i] == Eof ==>
        inp == "" && forall j :: 0 <= j < i ==> back[j] == Eof
    }

    // The token and its terminator fit into the buffer.
    ghost predicate Sound()
      reads `inp, `back, `buffer, `bufferMax
    {
      BackOk() && |buffer| < bufferMax && 10 <= bufferMax
    }

    // Between tokens at most two characters are pushed back.
    ghost predicate Valid()
      reads this
    {
      Sound() && |back| <= 2
    }

    ghost function Rest(): string
      reads `inp, `back
    {
      Pushed(back) + inp
    }

    function Current(): Token
      reads this
    {
      match kind
      case KEof => TEof
      case KChar(c) => TChar(c)
      case KId => TId(buffer)
      case KInt => TInt(buffer)
      case KFloat => TFloat
      case KFloatE => TFloat
      case KStr => TStr(buffer)
    }

    // xgetc
    method Getc() returns (c: Code)
      requires Sound()
      modifies `inp, `back
      ensures Sound() && c == Head(old(Rest())) && Rest() == Tail(old(Rest()))
      ensures |back| == if |old(back)| > 0 then |old(back)| - 1 else 0
    {
      if |back| > 0 {
        c := back[|back|-1];
        if c == Eof { PushedEmpty(back[..|back|-1]); }
        back := back[..|back|-1];
      } else if inp == "" {
        c := Eof;
      } else {
        c, inp := Ch(inp[0]), inp[1..];
      }
    }

    // xungetc
    method Ungetc(c: Code)
      requires Sound() && |back| < LEX_BUF_MAX && (c == Eof ==> Rest() == "")
      modifies `back
      ensures Sound() && Rest() == Text(c) + old(Rest()) && |back| == |old(back)| + 1
    {
      if c == Eof { AllEof(back); }
      back := back + [c];
      assert back[..|back|-1] == old(back);
    }

    static lemma {:induction false} AllEof(back: seq<Code>)
      requires Pushed(back) == ""
      ensures forall i :: 0 <= i < |back| ==> back[i] == Eof
    {
      if back != [] {
        AllEof(back[..|back|-1]);
        assert |Text(back[|back|-1])| == 0;
      }
    }

    // *p++ = c, after making room
    method Append(c: char)
      requires Sound()
      modifies `buffer, `bufferMax
      ensures Sound() && buffer == old(buffer) + [c]
    {
      if |buffer| >= bufferMax - 1 {
        bufferMax := bufferMax + 10;
      }
      buffer := buffer + [c];
    }

    // Looks at the next character and pushes it back.
    method DigitFollows() returns (digit: bool)
      requires Sound() && |back| <= 1
      modifies `inp, `back
      ensures Sound() && |back| <= 1 && Rest() == old(Rest())
      ensures digit == IsDigitCode(Head(Rest()))
    {
      hide Rest, BackOk;
      Rejoin(Rest());
      var c := Getc();
      Ungetc(c);
      digit := IsDigitCode(c);
    }

    // Whether the character `c` that comes next continues the number in the buffer.
    method NumberChar() returns (c: Code, more: bool)
      requires Sound() && |back| <= 1 && (kind == KInt || kind == KFloat || kind == KFloatE)
      modifies `inp, `back, `kind
      ensures Sound() && |back| <= 1 && (kind == KInt || kind == KFloat || kind == KFloatE)
      ensures var n := LispText.ScanNumber(old(Rest()), old(kind) != KInt, old(kind) == KFloatE);
        if more then
          var m := LispText.ScanNumber(Rest(), kind != KInt, kind == KFloatE);
          && c.Ch? && |Rest()| < |old(Rest())| && n.isFloat == m.isFloat && n.rest == m.rest
          && Join(buffer, n.text) == Join(buffer + [c.c], m.text)
        else n == Scan("", kind != KInt, Text(c) + Rest()) && (c == Eof ==> Rest() == "")
    {
      hide Rest, BackOk, LispText.ScanNumber, Join;
      ghost var r := Rest();
      c := Getc();
      NumberStep(buffer, r, kind != KInt, kind == KFloatE);
      Rejoin(r);
      Rejoin(Tail(r));
      if c == Ch('.') && kind == KInt {
        more := DigitFollows();
        if more { kind := KFloat; }
      } else if c == Ch('e') && kind == KFloat {
        c := Getc();
        more := IsDigitCode(c);
        if more { kind := KFloatE; }
      } else {
        more := IsDigitCode(c);
      }
    }

    // The rest of a number that starts with `first`.
    method ScanNumber(first: char)
      requires Sound() && |back| <= 1
      modifies this
      ensures Valid()
      ensures var n := LispText.ScanNumber(old(Rest()), false, false);
        Current() == (if n.isFloat then TFloat else TInt([first] + n.text)) && Rest() == n.rest
    {
      hide Rest, BackOk, LispText.ScanNumber, Join, IsDigit;
      ghost var n := LispText.ScanNumber(Rest(), false, false);
      var c, more := Ch(first), true;
      buffer, kind := "", KInt;
      assert "" + [first] == [first];
      while more
        invariant Sound() && |back| <= 1 && (kind == KInt || kind == KFloat || kind == KFloatE)
        invariant if more then
            var m := LispText.ScanNumber(Rest(), kind != KInt, kind == KFloatE);
            && c.Ch? && n.isFloat == m.isFloat && n.rest == m.rest
            && Join([first], n.text) == Join(buffer + [c.c], m.text)
          else
            && Join([first], n.text) == Join(buffer, "") && n.isFloat == (kind != KInt)
            && n.rest == Text(c) + Rest() && (c == Eof ==> Rest() == "")
        decreases more, |Rest()|
      {
        Append(c.c);
        c, more := NumberChar();
      }
      Ungetc(c);
      JoinEnd(buffer);
      JoinIs([first], n.text);
    }

    // The rest of an identifier that starts with `first`.
    method ScanId(first: char)
      requires Sound() && |back| <= 1
      modifies this
      ensures Valid()
      ensures var id := IdTail(old(Rest()));
        Current() == TId([first] + id) && Rest() == AfterId(old(Rest()))
    {
      hide Rest, BackOk, Join, IdTail, AfterId;
      ghost var all := Rest();
      var c := Ch(first);
      buffer, kind := "", KId;
      assert "" + [first] == [first];
      while true
        invariant Sound() && |back| <= 1 && c.Ch? && kind == KId
        invariant Join([first], IdTail(all)) == Join(buffer + [c.c], IdTail(Rest()))
        invariant AfterId(all) == AfterId(Rest())
        decreases |Rest()|
      {
        ghost var r := Rest();
        IdStep(buffer + [c.c], r);
        Rejoin(r);
        Append(c.c);
        c := Getc();
        if !(c.Ch? && IsIdChar(c.c)) {
          Ungetc(c);
          JoinEnd(buffer);
          JoinIs([first], IdTail(all));
          return;
        }
      }
    }

    // A string literal after its opening quote.
    method ScanString()
      requires Sound() && |back| <= 1
      modifies this
      ensures Valid()
      ensures var s := LispText.ScanString(old(Rest())); Current() == TStr(s.0) && Rest() == s.1
    {
      hide Rest, BackOk, Join, LispText.ScanString, Unescape;
      ghost var all := LispText.ScanString(Rest());
      buffer, kind := "", KStr;
      Rejoin(Rest());
      var c := Getc();
      assert all == LispText.ScanString(Text(c) + Rest());
      JoinEnd(all.0);
      while c != Eof && c != Ch('"')
        invariant Sound() && |back| <= 1 && kind == KStr && (c == Eof ==> Rest() == "")
        invariant var m := LispText.ScanString(Text(c) + Rest());
          all.0 == Join(buffer, m.0) && all.1 == m.1
        decreases |Text(c) + Rest()|
      {
        ghost var r := Rest();
        StringStep(buffer, c.c, r);
        Rejoin(r);
        Rejoin(Tail(r));
        if c == Ch('\\') {
          AppendEscape();
        } else {
          Append(c.c);
        }
        c := Getc();
      }
      StringEnd(c, Rest());
      JoinEnd(buffer);
    }

    static lemma StringEnd(c: Code, r: string)
      requires if c == Eof then r == "" else c == Ch('"')
      ensures LispText.ScanString(Text(c) + r) == ("", r)
    {
      if c.Ch? { StringStep("", c.c, r); }
    }

    // The character after a backslash.
    method AppendEscape()
      requires Sound() && |back| <= 1
      modifies this
      ensures Sound() && |back| <= 1 && kind == old(kind) && Rest() == Tail(old(Rest()))
      ensures buffer == old(buffer)
        + if old(Rest()) == "" then [EOF_CHAR] else Unescape(old(Rest())[0])
    {
      hide Rest, BackOk;
      var c := Getc();
      match c
      case Eof => Append(EOF_CHAR);
      case Ch(x) =>
        if Unescape(x) != "" { Append(Unescape(x)[0]); }
    }

    method SkipComment() returns (c: Code)
      requires Sound() && |back| <= 1
      modifies `inp, `back
      ensures Sound() && |back| <= 1
      ensures var t := Skip(old(Rest())); Rest() == Tail(t) && c == Head(t)
    {
      hide Rest, BackOk;
      ghost var all := Rest();
      Rejoin(all);
      c := Getc();
      while c != Ch('\n') && c != Eof
        invariant Sound() && |back| <= 1 && (c == Eof ==> Rest() == "")
        invariant Skip(all) == Skip(Text(c) + Rest())
        decreases |Text(c) + Rest()|
      {
        assert (Text(c) + Rest())[1..] == Rest();
        Rejoin(Rest());
        c := Getc();
      }
    }

    // The code of the character after a question mark.
    method CharCode()
      requires Sound() && |back| <= 1
      modifies this
      ensures Valid() && Rest() == Tail(old(Rest()))
      ensures Current() == TInt(if old(Rest()) == "" then "-1" else IntText(old(Rest())[0] as int))
    {
      hide Rest, BackOk, IntText;
      var c := Getc();
      match c {
        case Eof => buffer := "-1";
        case Ch(y) =>
          CharCodeShort(y);
          buffer := IntText(y as int);
      }
      kind := KInt;
    }

    // The token that starts with `x`.
    method TokenAt(x: char)
      requires Sound() && |back| <= 1 && !IsSpace(x) && x != ';'
      modifies this
      ensures Valid() && (Current(), Rest()) == LispText.GetToken([x] + old(Rest()))
    {
      hide Rest, BackOk, LispText.ScanNumber, LispText.ScanString, IdTail, Skip, IntText, IsSpace, IsIdStart;
      ghost var r := Rest();
      assert ([x] + r)[1..] == r;
      if x == '?' {
        CharCode();
      } else if x == '-' {
        var digit := DigitFollows();
        if digit { ScanNumber('-'); } else { ScanId('-'); }
      } else if IsDigit(x) {
        ScanNumber(x);
      } else if IsIdStart(x) {
        ScanId(x);
      } else if x == '"' {
        ScanString();
      } else {
        kind := KChar(x);
      }
    }

    // gettoken
    method GetToken()
      requires Valid()
      modifies this
      ensures Valid() && (Current(), Rest()) == LispText.GetToken(old(Rest()))
    {
      hide Rest, BackOk, LispText.ScanNumber, LispText.ScanString, IdTail, Skip, IntText, IsSpace, IsIdStart, IsDigit;
      ghost var all := LispText.GetToken(Rest());
      while true
        invariant Valid() && all == LispText.GetToken(Rest())
        decreases |Rest()|
      {
        ghost var r := Rest();
        Rejoin(r);
        var c := Getc();
        if c == Eof {
          kind := KEof;
          return;
        }
        if c.c == ';' {
          NotSpace();
          c := SkipComment();
        } else if !IsSpace(c.c) {
          TokenAt(c.c);
          return;
        }
      }
    }

    static lemma NotSpace()
      ensures !IsSpace(';')
    {
    }
  }
}
