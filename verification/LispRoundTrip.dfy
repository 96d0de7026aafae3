// The reader undoes the printer.

module LispRoundTrip {
  import opened LispSyntax
  import opened LispText

  // Texts that the lexer reads back as one identifier.
  predicate IsLexId(s: string) {
    && s != [] && (IsIdStart(s[0]) || s[0] == '-')
    && (forall c :: c in s ==> IsIdChar(c))
    && !(s[0] == '-' && |s| > 1 && IsDigit(s[1]))
  }

  // Values whose printed form is read back: long integers, identifiers as the lexer
  // knows them, strings without a backslash.
  predicate IsPrintable(e: SExp) {
    match e
    case Nil => true
    case T => true
    case Int(i) => LONG_MIN <= i <= LONG_MAX
    case Str(s) => '\\' !in s
    case Id(s) => IsLexId(s) && s != "t" && s != "nil"
    case Cons(a, d) => IsPrintable(a) && IsPrintable(d)
  }

  // What may follow an atom without becoming part of it.
  predicate EndsAtom(rest: string) {
    rest == [] || (!IsIdChar(rest[0]) && rest[0] != '.')
  }

  lemma {:induction false} IdTailOf(s: string, rest: string)
    requires (forall c :: c in s ==> IsIdChar(c)) && EndsAtom(rest)
    ensures IdTail(s + rest) == s
  {
    if s == [] {
      assert s + rest == rest;
    } else {
      assert (s + rest)[1..] == s[1..] + rest;
      IdTailOf(s[1..], rest);
    }
  }

  // How a token is told by its first characters.
  lemma IdToken(c: char, tail: string)
    requires IsIdStart(c) || (c == '-' && !(tail != [] && IsDigit(tail[0])))
    ensures GetToken([c] + tail) == (TId([c] + IdTail(tail)), tail[|IdTail(tail)|..])
  {
    hide ScanNumber, ScanString, IdTail, Skip, IntText;
    assert ([c] + tail)[1..] == tail;
  }

  lemma NumberToken(c: char, tail: string)
    requires IsDigit(c) || (c == '-' && tail != [] && IsDigit(tail[0]))
    ensures var n := ScanNumber(tail, false, false);
      GetToken([c] + tail) == (if n.isFloat then TFloat else TInt([c] + n.text), n.rest)
  {
    hide ScanNumber, ScanString, IdTail, Skip, IntText;
    assert ([c] + tail)[1..] == tail;
  }

  lemma ReadId(s: string, rest: string)
    requires IsLexId(s) && EndsAtom(rest)
    ensures GetToken(s + rest) == (TId(s), rest)
  {
    hide GetToken, IdTail, IsIdStart;
    var tail := s[1..] + rest;
    assert s == [s[0]] + s[1..] && s + rest == [s[0]] + tail;
    IdTailOf(s[1..], rest);
    assert tail[|s|-1..] == rest;
    assert s[0] == '-' && tail != [] ==> tail[0] == if |s| > 1 then s[1] else rest[0];
    IdToken(s[0], tail);
  }

  lemma {:induction false} ScanDigits(s: string, rest: string)
    requires (forall c :: c in s ==> IsDigit(c)) && EndsAtom(rest)
    ensures ScanNumber(s + rest, false, false) == Scan(s, false, rest)
  {
    if s == [] {
      assert s + rest == rest;
    } else {
      assert (s + rest)[1..] == s[1..] + rest;
      assert s[0] in s;
      ScanDigits(s[1..], rest);
    }
  }

  lemma {:induction false} DigitsAreDigits(n: nat)
    ensures DigitsOf(n) != [] && forall c :: c in DigitsOf(n) ==> IsDigit(c)
  {
    if n >= 10 {
      DigitsAreDigits(n / 10);
    }
  }

  lemma {:induction false} DigitsValAppend(s: string, c: char, acc: nat)
    requires (forall c :: c in s ==> IsDigit(c)) && IsDigit(c)
    ensures forall x :: x in s + [c] ==> IsDigit(x)
    ensures DigitsVal(s + [c], acc) == 10 * DigitsVal(s, acc) + (c as int - '0' as int)
  {
    if s == [] {
      assert DigitsVal([c], acc) == DigitsVal([], 10 * acc + (c as int - '0' as int));
    } else {
      assert (s + [c])[1..] == s[1..] + [c] && s[0] in s;
      DigitsValAppend(s[1..], c, 10 * acc + (s[0] as int - '0' as int));
    }
  }

  lemma {:induction false} DigitsValOf(n: nat)
    ensures forall c :: c in DigitsOf(n) ==> IsDigit(c)
    ensures DigitsVal(DigitsOf(n), 0) == n
  {
    DigitsAreDigits(n);
    if n >= 10 {
      DigitsValOf(n / 10);
      DigitsValAppend(DigitsOf(n / 10), '0' + (n % 10) as char, 0);
    }
  }

  // Printing and reading a long is the identity; larger magnitudes saturate.
  lemma AtolOf(i: int)
    ensures Atol(IntText(i)) == if i > LONG_MAX then LONG_MAX else if i < LONG_MIN then LONG_MIN else i
  {
    var n: nat := if i < 0 then -i else i;
    DigitsValOf(n);
    DigitsAreDigits(n);
    if i < 0 {
      assert ("-" + DigitsOf(n))[1..] == DigitsOf(n);
    } else {
      assert DigitsOf(n)[0] in DigitsOf(n);
    }
  }

  lemma ReadInt(i: int, rest: string)
    requires EndsAtom(rest)
    ensures GetToken(IntText(i) + rest) == (TInt(IntText(i)), rest)
  {
    hide GetToken, ScanNumber, DigitsOf;
    var n: nat := if i < 0 then -i else i;
    DigitsAreDigits(n);
    var ds, t := DigitsOf(n), IntText(i);
    var tail := t[1..] + rest;
    assert t == [t[0]] + t[1..] && t + rest == [t[0]] + tail;
    assert forall c :: c in ds[1..] ==> c in ds;
    if i < 0 {
      assert t[1..] == ds && tail[0] == ds[0];
    } else {
      assert t[0] in ds;
    }
    ScanDigits(t[1..], rest);
    NumberToken(t[0], tail);
  }

  // The escape of one character is read back, unless it is a backslash.
  lemma ScanOne(c: char, tail: string)
    requires c != '\\'
    ensures ScanString(Escape(c) + tail) == ([c] + ScanString(tail).0, ScanString(tail).1)
  {
    var text := Escape(c) + tail;
    if |Escape(c)| == 2 {
      assert text[0] == '\\' && text[2..] == tail && Unescape(text[1]) == [c];
    } else {
      assert text[0] == c && text[1..] == tail;
    }
  }

  lemma EscapeHead(s: string, rest: string)
    requires s != []
    ensures EscapeAll(s) + "\"" + rest == Escape(s[0]) + (EscapeAll(s[1..]) + "\"" + rest)
  {
    hide Escape;
    var a, b := Escape(s[0]), EscapeAll(s[1..]);
    assert EscapeAll(s) == a + b;
    Regroup(a, b, "\"", rest);
  }

  lemma Regroup(a: string, b: string, c: string, d: string)
    ensures a + b + c + d == a + (b + c + d)
  {
  }

  lemma {:induction false} ScanEscaped(s: string, rest: string)
    requires '\\' !in s
    ensures ScanString(EscapeAll(s) + "\"" + rest) == (s, rest)
  {
    hide Escape;
    if s == [] {
      assert EscapeAll(s) + "\"" + rest == "\"" + rest;
    } else {
      EscapeHead(s, rest);
      ScanOne(s[0], EscapeAll(s[1..]) + "\"" + rest);
      ScanEscaped(s[1..], rest);
      assert s == [s[0]] + s[1..];
    }
  }

  function Backslashes(n: nat): string {
    seq(n, _ => '\\')
  }

  // Once a backslash has been printed raw, the characters read never catch up: what
  // is read for `u` does not even equal `u` with backslashes put in front.
  lemma {:induction false} ScanLags(n: nat, u: string, rest: string)
    requires n > 0 || (u != [] && u[0] == '\\')
    ensures ScanString(EscapeAll(u) + "\"" + rest).0 != Backslashes(n) + u
    decreases |u|
  {
    hide Escape, ScanString;
    var want, text := Backslashes(n) + u, EscapeAll(u) + "\"" + rest;
    assert want[0] == '\\';
    if u == [] {
      assert text == "\"" + rest;
      ScanQuote(rest);
    } else if u[0] != '\\' {
      EscapeHead(u, rest);
      ScanOne(u[0], EscapeAll(u[1..]) + "\"" + rest);
    } else {
      EscapeHead(u, rest);
      ScanRaw(u[1..], rest);
      assert Escape(u[0]) == "\\" by { EscapeBackslash(); }
      if |u| > 1 && u[1] == '\\' {
        ScanLags(n + 1, u[2..], rest);
        assert want == "\\" + (Backslashes(n + 1) + u[2..]);
        assert u[1..][1..] == u[2..];
        assert want[1..] == Backslashes(n + 1) + u[2..];
      } else {
        assert |u| > 1 ==> u[1..][0] == u[1];
        assert |u| > 1 ==> want[1] == if n > 0 then '\\' else u[1];
      }
    }
  }

  lemma EscapeBackslash()
    ensures Escape('\\') == "\\"
  {
  }

  lemma ScanQuote(rest: string)
    ensures ScanString("\"" + rest) == ("", rest)
  {
    assert ("\"" + rest)[1..] == rest;
  }

  // What is read for a raw backslash followed by the printed form of `u`: another
  // character than a backslash, or a backslash that is followed by something wrong,
  // or - for two backslashes - one of them.
  lemma ScanRaw(u: string, rest: string)
    ensures var r := ScanString("\\" + (EscapeAll(u) + "\"" + rest)).0;
      if u != [] && u[0] == '\\' then
        r == "\\" + ScanString(EscapeAll(u[1..]) + "\"" + rest).0
        && r[1..] == ScanString(EscapeAll(u[1..]) + "\"" + rest).0
      else r[0] != '\\' || (u != [] && (|r| == 1 || (r[1] != u[0] && r[1] != '\\')))
  {
    hide ScanString;
    var text := "\\" + (EscapeAll(u) + "\"" + rest);
    if u == [] {
      assert text == "\\" + (['"'] + rest);
      ScanEscape('"', rest);
    } else {
      var tail, x := EscapeAll(u[1..]) + "\"" + rest, Escape(u[0]);
      EscapeHead(u, rest);
      if |x| == 2 {
        assert text == "\\" + (['\\'] + ([x[1]] + tail));
        ScanEscape('\\', [x[1]] + tail);
        ScanLetter(x[1], tail);
      } else {
        assert text == "\\" + ([u[0]] + tail);
        ScanEscape(u[0], tail);
      }
    }
  }

  lemma ScanEscape(c: char, tail: string)
    ensures ScanString("\\" + ([c] + tail)).0 == Unescape(c) + ScanString(tail).0
  {
    assert ("\\" + ([c] + tail))[2..] == tail;
  }

  lemma ScanLetter(c: char, tail: string)
    requires c != '\\'
    ensures ScanString([c] + tail).0 == if c == '"' then [] else [c] + ScanString(tail).0
  {
    assert ([c] + tail)[1..] == tail;
  }

  lemma {:induction false} ScanWrong(s: string, rest: string)
    requires '\\' in s
    ensures ScanString(EscapeAll(s) + "\"" + rest).0 != s
  {
    hide Escape, ScanString;
    if s[0] == '\\' {
      ScanLags(0, s, rest);
      assert Backslashes(0) + s == s;
    } else {
      var tail := EscapeAll(s[1..]) + "\"" + rest;
      EscapeHead(s, rest);
      ScanOne(s[0], tail);
      ScanWrong(s[1..], rest);
      assert ([s[0]] + ScanString(tail).0)[1..] == ScanString(tail).0;
    }
  }

  lemma QuoteToken(text: string)
    ensures GetToken("\"" + text) == (TStr(ScanString(text).0), ScanString(text).1)
  {
    hide ScanNumber, ScanString, IdTail, Skip, IntText;
    assert ("\"" + text)[1..] == text;
  }

  // princ_string leaves backslashes alone, so exactly the strings without one are
  // read back.
  lemma StringReadsBack(s: string, rest: string)
    ensures Parse(Print(Str(s)) + rest) == Form(Str(s), rest) <==> '\\' !in s
  {
    hide GetToken, ScanString, EscapeAll;
    var text := EscapeAll(s) + "\"" + rest;
    assert Print(Str(s)) + rest == "\"" + text;
    QuoteToken(text);
    if '\\' !in s {
      ScanEscaped(s, rest);
    } else {
      ScanWrong(s, rest);
    }
  }

  lemma ReadStr(s: string, rest: string)
    requires '\\' !in s
    ensures GetToken("\"" + EscapeAll(s) + "\"" + rest) == (TStr(s), rest)
  {
    hide GetToken, ScanString, EscapeAll;
    var text := EscapeAll(s) + "\"" + rest;
    assert "\"" + EscapeAll(s) + "\"" + rest == "\"" + text;
    QuoteToken(text);
    ScanEscaped(s, rest);
  }

  // The printed form of every atom is one token.
  lemma ReadAtom(e: SExp, rest: string)
    requires IsPrintable(e) && !e.Cons? && EndsAtom(rest)
    ensures Parse(Print(e) + rest) == Form(e, rest)
    ensures var (tok, r) := GetToken(Print(e) + rest);
      r == rest && tok != TEof && !tok.TChar? && ParseToken(tok, r) == Form(e, rest)
  {
    match e
    case Nil => ReadId("nil", rest);
    case T => ReadId("t", rest);
    case Id(s) => ReadId(s, rest);
    case Int(i) =>
      ReadInt(i, rest);
      AtolOf(i);
    case Str(s) => ReadStr(s, rest);
  }

  lemma SkipBlank(rest: string)
    ensures GetToken(" " + rest) == GetToken(rest)
  {
    hide ScanNumber, ScanString, IdTail, Skip, IntText;
    assert (" " + rest)[1..] == rest;
  }

  lemma ReadChar(c: char, rest: string)
    requires c in "()'."
    ensures GetToken([c] + rest) == (TChar(c), rest)
  {
    hide ScanNumber, ScanString, IdTail, Skip, IntText;
    assert ([c] + rest)[1..] == rest;
  }

  // parse_object undoes princ_object, and consumes exactly the printed text.
  lemma {:induction false} ReadPrinted(e: SExp, rest: string)
    requires IsPrintable(e) && (e.Cons? || EndsAtom(rest))
    ensures Parse(Print(e) + rest) == Form(e, rest)
    ensures var (tok, r) := GetToken(Print(e) + rest);
      && tok != TEof && tok != TChar(')') && tok != TChar('.') && ParseToken(tok, r) == Form(e, rest)
    decreases e, 0
  {
    hide GetToken;
    if e.Cons? {
      ReadList(e, rest);
    } else {
      ReadAtom(e, rest);
    }
  }

  lemma {:induction false} ReadList(e: SExp, rest: string)
    requires IsPrintable(e) && e.Cons?
    ensures var inner := Print(e.car) + (PrintTail(e.cdr) + (")" + rest));
      GetToken(Print(e) + rest) == (TChar('('), inner) && ParseForm(inner, false) == Form(e, rest)
    decreases e, 0, 0
  {
    hide GetToken;
    var tail := PrintTail(e.cdr) + (")" + rest);
    assert Print(e) + rest == ['('] + (Print(e.car) + tail);
    ReadChar('(', Print(e.car) + tail);
    TailEndsAtom(e.cdr, ")" + rest);
    ReadPrinted(e.car, tail);
    ReadTail(e.cdr, rest);
  }

  lemma TailEndsAtom(d: SExp, rest: string)
    requires EndsAtom(rest)
    ensures EndsAtom(PrintTail(d) + rest)
  {
    hide Print;
    if d == Nil {
      assert PrintTail(d) + rest == rest;
    } else {
      assert PrintTail(d)[0] == ' ';
    }
  }

  lemma {:induction false} ReadTail(d: SExp, rest: string)
    requires IsPrintable(d)
    ensures ParseForm(PrintTail(d) + (")" + rest), true) == Form(d, rest)
    decreases d, 1
  {
    hide GetToken;
    if d == Nil {
      assert PrintTail(d) + (")" + rest) == [')'] + rest;
      ReadChar(')', rest);
    } else if d.Cons? {
      var tail := PrintTail(d.cdr) + (")" + rest);
      assert PrintTail(d) + (")" + rest) == " " + (Print(d.car) + tail);
      SkipBlank(Print(d.car) + tail);
      TailEndsAtom(d.cdr, ")" + rest);
      ReadPrinted(d.car, tail);
      ReadTail(d.cdr, rest);
    } else {
      var inner := Print(d) + (")" + rest);
      assert PrintTail(d) + (")" + rest) == " " + (['.'] + (" " + inner));
      SkipBlank(['.'] + (" " + inner));
      ReadChar('.', " " + inner);
      SkipBlank(inner);
      ReadPrinted(d, ")" + rest);
      assert ")" + rest == [')'] + rest;
      ReadChar(')', rest);
    }
  }
}
