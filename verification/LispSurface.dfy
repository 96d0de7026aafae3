// The conventions of Lisp texts in src/alisp/alisp.c: comments, blanks, characters,
// identifiers, quotes and numbers.

module LispSurface {
  import opened LispSyntax
  import opened LispText
  import opened LispRoundTrip

  lemma {:induction false} CommentEnds(c: string, text: string)
    requires '\n' !in c
    ensures Skip(c + "\n" + text) == "\n" + text
  {
    var all := c + "\n" + text;
    if c == "" {
      assert all == "\n" + text;
    } else {
      assert all == [c[0]] + (c[1..] + "\n" + text) && c[0] in c;
      assert all[1..] == c[1..] + "\n" + text;
      CommentEnds(c[1..], text);
    }
  }

  // A comment, or a blank, in front of a text changes nothing.
  lemma CommentLaw(c: string, text: string)
    requires '\n' !in c
    ensures Parse(";" + c + "\n" + text) == Parse(text)
  {
    hide ScanNumber, ScanString, IdTail, IntText, ParseToken;
    var all := ";" + c + "\n" + text;
    assert all == [';'] + (c + "\n" + text);
    assert all[1..] == c + "\n" + text && ("\n" + text)[1..] == text;
    CommentEnds(c, text);
    assert GetToken(all) == GetToken(text);
  }

  lemma BlankLaw(b: char, text: string)
    requires b in " \t\n\r\U{0B}\U{0C}"
    ensures Parse([b] + text) == Parse(text)
  {
    hide ScanNumber, ScanString, IdTail, IntText, ParseToken;
    assert ([b] + text)[1..] == text;
  }

  // `?c` is the number of the character.
  lemma CharacterLaw(c: char, text: string)
    ensures Parse("?" + ([c] + text)) == Form(Int(c as int), text)
  {
    hide ScanNumber, ScanString, IdTail, IntText, Atol, Skip;
    var all := "?" + ([c] + text);
    assert all[1..] == [c] + text && ([c] + text)[1..] == text;
    assert GetToken(all) == (TInt(IntText(c as int)), text);
    AtolOf(c as int);
  }

  // A quote in front of a form.
  lemma QuoteLaw(text: string)
    ensures Parse("'" + text) ==
      match Parse(text)
      case Form(e, rest) => Form(Cons(Id("quote"), Cons(e, Nil)), rest)
      case r => r
  {
    hide GetToken, ParseForm;
    ReadChar('\'', text);
    assert ['\''] + text == "'" + text;
  }

  predicate Starts(c: char) {
    'a' <= c <= 'z' || 'A' <= c <= 'Z' || c in "!_+*/%<>=&"
  }

  predicate GoesOn(c: char) {
    Starts(c) || '0' <= c <= '9' || c == '-'
  }

  // An identifier, up to the first character that cannot be in one.
  lemma NameLaw(w: string, rest: string)
    requires w != "" && Starts(w[0]) && forall c :: c in w ==> GoesOn(c)
    requires rest != "" ==> !GoesOn(rest[0]) && rest[0] != '\0'
    ensures Parse(w + rest) == Form(if w == "t" then T else if w == "nil" then Nil else Id(w), rest)
  {
    hide IsIdChar, IsIdStart, IdTail, GetToken, Starts, GoesOn;
    forall c | c in w ensures IsIdChar(c) { IdCharacter(c); }
    assert IsIdStart(w[0]) by { StartCharacter(w[0]); }
    if rest != "" { NoIdCharacter(rest[0]); }
    NameTail(w[1..], rest);
    var tail := w[1..] + rest;
    assert w + rest == [w[0]] + tail && w == [w[0]] + w[1..];
    IdToken(w[0], tail);
    assert tail[|w|-1..] == rest;
  }

  lemma IdCharacter(c: char)
    requires GoesOn(c)
    ensures IsIdChar(c)
  {
  }

  lemma NoIdCharacter(c: char)
    requires !GoesOn(c) && c != '\0'
    ensures !IsIdChar(c)
  {
  }

  lemma StartCharacter(c: char)
    requires Starts(c)
    ensures IsIdStart(c)
  {
  }

  lemma {:induction false} NameTail(s: string, rest: string)
    requires (forall c :: c in s ==> IsIdChar(c)) && (rest != "" ==> !IsIdChar(rest[0]))
    ensures IdTail(s + rest) == s
  {
    if s == "" {
      assert s + rest == rest;
    } else {
      assert (s + rest)[1..] == s[1..] + rest && s[0] in s && (s + rest)[0] == s[0];
      NameTail(s[1..], rest);
    }
  }

  predicate AreDigits(s: string) {
    s != "" && forall c :: c in s ==> '0' <= c <= '9'
  }

  lemma {:induction false} DigitsThen(s: string, isFloat: bool, rest: string)
    requires forall c :: c in s ==> '0' <= c <= '9'
    ensures var r, n := ScanNumber(rest, isFloat, false), ScanNumber(s + rest, isFloat, false);
      n == Scan(s + r.text, r.isFloat, r.rest)
  {
    var r := ScanNumber(rest, isFloat, false);
    if s == "" {
      assert s + rest == rest && s + r.text == r.text;
    } else {
      assert (s + rest)[1..] == s[1..] + rest && s[0] in s && forall c :: c in s[1..] ==> c in s;
      DigitsThen(s[1..], isFloat, rest);
      assert [s[0]] + (s[1..] + r.text) == s + r.text;
    }
  }

  // Digits with a fraction are a float, whatever follows ...
  lemma FloatLaw(a: string, b: string, rest: string)
    requires AreDigits(a) && AreDigits(b)
    ensures Parse(a + "." + b + rest) == FloatForm
  {
    hide GetToken;
    var more, fraction := a[1..] + ("." + (b + rest)), "." + (b + rest);
    assert a[0] in a && b[0] in b && a + "." + b + rest == [a[0]] + more;
    NumberToken(a[0], more);
    assert forall c :: c in a[1..] ==> c in a;
    DigitsThen(a[1..], false, fraction);
    assert fraction[1..] == b + rest && (b + rest)[0] == b[0];
    StaysFloat(b + rest, false);
  }

  // ... but with a lonely dot they are not.
  lemma DotLaw(a: string, rest: string)
    requires AreDigits(a) && (rest == "" || !IsDigit(rest[0]))
    ensures Parse(a + "." + rest) == Form(Int(Atol(a)), "." + rest)
  {
    hide GetToken, Atol;
    var less := a[1..] + ("." + rest);
    assert a[0] in a && a + "." + rest == [a[0]] + less;
    NumberToken(a[0], less);
    assert forall c :: c in a[1..] ==> c in a;
    DigitsThen(a[1..], false, "." + rest);
    assert ("." + rest)[1..] == rest;
    assert [a[0]] + (a[1..] + "") == a;
  }

  lemma {:induction false} StaysFloat(inp: string, hasExp: bool)
    ensures ScanNumber(inp, true, hasExp).isFloat
    decreases |inp|
  {
    if inp != "" {
      StaysFloat(inp[1..], hasExp);
      if |inp| > 1 { StaysFloat(inp[2..], true); }
    }
  }

  // In a string, an escaped newline vanishes, and a character that has no meaning as an
  // escape stands for itself.
  lemma EscapeLaw(c: char, text: string)
    requires c !in {'a', 'b', 'f', 'n', 'r', 't', 'v'}
    ensures var r, s := Parse("\"\\" + ([c] + text)), Parse("\"" + text);
      r.Form? && s.Form? && s.e.Str? && r.rest == s.rest
      && r.e == Str((if c == '\n' then "" else [c]) + s.e.s)
  {
    hide GetToken, ScanString, Unescape;
    var all := "\\" + ([c] + text);
    assert "\"\\" + ([c] + text) == "\"" + all;
    QuoteToken(all);
    QuoteToken(text);
    OtherEscape(c, text);
  }

  lemma OtherEscape(c: char, text: string)
    requires c !in {'a', 'b', 'f', 'n', 'r', 't', 'v'}
    ensures var r := ScanString(text);
      ScanString("\\" + ([c] + text)) == ((if c == '\n' then "" else [c]) + r.0, r.1)
  {
    hide Unescape;
    var all := "\\" + ([c] + text);
    assert all[2..] == text && all[1] == c && all[0] == '\\';
    assert Unescape(c) == if c == '\n' then "" else [c] by { Meaningless(c); }
  }

  lemma Meaningless(c: char)
    requires c !in {'a', 'b', 'f', 'n', 'r', 't', 'v'}
    ensures Unescape(c) == if c == '\n' then "" else [c]
  {
  }
}
