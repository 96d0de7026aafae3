// Which strings survive being printed and read again, exactly: string_print against
// get_string in src/conf.c.

module ConfStrings {
  import opened ConfText
  import opened ConfTree
  import opened ConfSave
  import opened ConfRoundTrip

  // What a C string can hold.
  predicate AreBytes(s: string) {
    forall c :: c in s ==> '\U{01}' <= c <= '\U{FF}'
  }

  predicate HasBadChar(s: string) {
    exists c :: c in s && !IsTextChar(c)
  }

  // The printed form of `u` between quotes, and what follows.
  function Printed(u: string, rest: string): string {
    EscapeAll(u) + "'" + rest
  }

  function ReadQuoted(text: string): Option<(string, string)> {
    DelimString('\'', text)
  }

  // `r`, with `o` read before it.
  function Before(o: string, r: Option<(string, string)>): Option<(string, string)> {
    if r.None? then None else Some((o + r.value.0, r.value.1))
  }

  // The text for `chunk` was read as `o`; if what should be left to read is not read from
  // the rest, then the whole was not read either.
  lemma Shift(w: string, chunk: string, u: string, o: string, rest: string, text: string)
    requires |o| <= |w + chunk|
    requires ReadQuoted(text) == Before(o, ReadQuoted(Printed(u, rest)))
    requires ReadQuoted(Printed(u, rest)) != Some(((w + chunk)[|o|..] + u, rest))
    ensures ReadQuoted(text) != Some((w + (chunk + u), rest))
  {
    var r := ReadQuoted(Printed(u, rest));
    if r.Some? && o + r.value.0 == w + (chunk + u) {
      assert r.value.0 == (o + r.value.0)[|o|..];
      assert (w + (chunk + u))[|o|..] == (w + chunk)[|o|..] + u;
    }
  }

  // One character that is read as itself.
  lemma ReadPlain(c: char, text: string)
    requires c != '\\' && c != '\''
    ensures ReadQuoted([c] + text) == Before([c], ReadQuoted(text))
  {
    assert ([c] + text)[1..] == text;
  }

  // One escape.
  lemma ReadEscape(text: string, c: char, more: string)
    requires QuotedChar(text) == Some((c, more))
    ensures ReadQuoted(['\\'] + text) == Before(if c == '\n' then "" else [Byte(c)], ReadQuoted(more))
  {
    assert (['\\'] + text)[1..] == text;
    assert ReadQuoted(more).Some? ==> "" + ReadQuoted(more).value.0 == ReadQuoted(more).value.0;
  }

  lemma BeforeBefore(a: string, b: string, r: Option<(string, string)>)
    ensures Before(a, Before(b, r)) == Before(a + b, r)
  {
    assert r.Some? ==> a + (b + r.value.0) == a + b + r.value.0;
  }

  lemma PrintedFirst(u: string, rest: string)
    requires u != ""
    ensures Printed(u, rest) == Escape(u[0]) + Printed(u[1..], rest)
  {
  }

  predicate IsUnprintable(c: char) {
    !IsTextChar(c) && c != '\n' && c != '\\'
  }

  lemma ThreeDigits(n: nat, tail: string)
    requires n < 256
    ensures QuotedChar(['0', '0' + (n / 64) as char, '0' + (n / 8 % 8) as char] + tail)
         == Some(((n / 8) as char, tail))
  {
    var b, c := '0' + (n / 64) as char, '0' + (n / 8 % 8) as char;
    var t2, t1 := [c] + tail, [b, c] + tail;
    assert (['0', b, c] + tail)[1..] == t1 && t1[1..] == t2 && t2[1..] == tail;
    assert Octal(n / 64 * 8 + n / 8 % 8, 3, tail) == (n / 8, tail);
    assert Octal(n / 64, 2, t2) == (n / 8, tail);
    assert Octal(0, 1, t1) == (n / 8, tail);
  }

  // "\0abc" stands for the first three digits, and the last one.
  lemma ReadUnprintable(c: char, text: string)
    requires IsUnprintable(c) && '\U{01}' <= c <= '\U{FF}'
    ensures |Escape(c)| == 5 && Escape(c)[0] == '\\' && Escape(c)[1] == '0'
    ensures forall i :: 0 < i < 5 ==> IsOctal(Escape(c)[i])
    ensures ReadQuoted(Escape(c) + text)
         == Before([(c as int / 8) as char, Escape(c)[4]], ReadQuoted(text))
  {
    hide DelimString;
    var n, e := c as int, Escape(c);
    ThreeDigits(n, [e[4]] + text);
    assert e + text == ['\\'] + (e[1..4] + ([e[4]] + text));
    assert e[1..4] == ['0', '0' + (n / 64) as char, '0' + (n / 8 % 8) as char];
    ReadEscape(e[1..4] + ([e[4]] + text), (n / 8) as char, [e[4]] + text);
    ReadPlain(e[4], text);
    BeforeBefore([(n / 8) as char], [e[4]], ReadQuoted(text));
    assert n / 8 != 10;
    assert [(n / 8) as char] + [e[4]] == [(n / 8) as char, e[4]];
  }

  // The digits after a backslash: up to three, which print as themselves.
  lemma {:induction false} DigitRun(num: nat, seen: nat, u: string, rest: string) returns (j: nat)
    requires 1 <= seen <= 3
    ensures j <= |u| && exists m :: Octal(num, seen, Printed(u, rest)) == (m, Printed(u[j..], rest))
    decreases |u|
  {
    var text := Printed(u, rest);
    if u != "" { PrintedFirst(u, rest); }
    if seen < 3 && u != "" && IsOctal(u[0]) {
      assert Escape(u[0]) == [u[0]];
      assert text[0] == u[0] && text[1..] == Printed(u[1..], rest);
      j := DigitRun(num * 8 + OctalVal(u[0]), seen + 1, u[1..], rest);
      assert u[1..][j..] == u[j+1..];
      j := j + 1;
    } else {
      j := 0;
      assert u[0..] == u;
      if seen < 3 { NoDigit(u, rest); }
      assert Octal(num, seen, text) == (num, text);
    }
  }

  lemma NoDigit(u: string, rest: string)
    requires u == "" || !IsOctal(u[0])
    ensures Printed(u, rest) != "" && !IsOctal(Printed(u, rest)[0])
  {
    if u != "" { PrintedFirst(u, rest); }
  }

  // What is read for a text character is that character ...
  lemma AfterTextChar(w: string, u: string, rest: string)
    requires u != "" && IsTextChar(u[0])
    requires ReadQuoted(Printed(u[1..], rest)) != Some(((w + [u[0]])[1..] + u[1..], rest))
    ensures ReadQuoted(Printed(u, rest)) != Some((w + u, rest))
  {
    hide DelimString, Escape, IsTextChar;
    PrintedFirst(u, rest);
    ReadEscapedChar(u[0], Printed(u[1..], rest));
    assert u == [u[0]] + u[1..];
    Shift(w, [u[0]], u[1..], [u[0]], rest, Printed(u, rest));
  }

  // ... and nothing for a newline.
  lemma AfterNewline(w: string, u: string, rest: string)
    requires u != "" && u[0] == '\n'
    requires ReadQuoted(Printed(u[1..], rest)) != Some((w + [u[0]] + u[1..], rest))
    ensures ReadQuoted(Printed(u, rest)) != Some((w + u, rest))
  {
    hide DelimString;
    var more := Printed(u[1..], rest);
    PrintedFirst(u, rest);
    assert "\\n" + more == ['\\'] + ("n" + more) && ("n" + more)[1..] == more;
    ReadEscape("n" + more, '\n', more);
    assert u == [u[0]] + u[1..] && (w + [u[0]])[0..] == w + [u[0]];
    Shift(w, [u[0]], u[1..], "", rest, Printed(u, rest));
  }

  // Unprintable characters are read as two others, neither of them what it should be.
  lemma AfterUnprintable(w: string, u: string, rest: string)
    requires u != "" && IsUnprintable(u[0]) && AreBytes(u)
    requires |w| >= 2 ==> ReadQuoted(Printed(u[1..], rest)) != Some(((w + [u[0]])[2..] + u[1..], rest))
    ensures ReadQuoted(Printed(u, rest)) != Some((w + u, rest))
  {
    hide DelimString, Escape;
    var c, more := u[0], Printed(u[1..], rest);
    assert c in u;
    PrintedFirst(u, rest);
    ReadUnprintable(c, more);
    var o := [(c as int / 8) as char, Escape(c)[4]];
    assert u == [c] + u[1..];
    if |w| >= 2 {
      Shift(w, [c], u[1..], o, rest, Printed(u, rest));
    } else {
      Differ(w, [c], u[1..], o, rest, Printed(u, rest), |w|);
    }
  }

  // A character that is read differs from what it should be.
  lemma Differ(w: string, chunk: string, u: string, o: string, rest: string, text: string, i: nat)
    requires ReadQuoted(text).Some? ==> o <= ReadQuoted(text).value.0
    requires i < |o| && i < |w + chunk| && o[i] != (w + chunk)[i]
    ensures ReadQuoted(text) != Some((w + (chunk + u), rest))
  {
    assert (w + (chunk + u))[i] == (w + chunk)[i];
  }

  // Reading runs ahead by `w`, or a bad character is still to come: what is read will
  // never be what it should be.
  lemma {:induction false} NeverReadBack(w: string, u: string, rest: string)
    requires AreBytes(u) && (w != "" || HasBadChar(u))
    ensures ReadQuoted(Printed(u, rest)) != Some((w + u, rest))
    decreases |u|, 2
  {
    hide DelimString, IsTextChar;
    if u == "" {
      AtTheEnd(w, rest);
    } else {
      var c, u1 := u[0], u[1..];
      assert u == [c] + u1 && forall x :: x in u1 ==> x in u;
      if IsTextChar(c) {
        NeverReadBack((w + [c])[1..], u1, rest);
        AfterTextChar(w, u, rest);
      } else if c == '\n' {
        NeverReadBack(w + [c], u1, rest);
        AfterNewline(w, u, rest);
      } else if c == '\\' {
        AfterBackslash(w, u, rest);
      } else {
        if |w| >= 2 { NeverReadBack((w + [c])[2..], u1, rest); }
        AfterUnprintable(w, u, rest);
      }
    }
  }

  lemma AtTheEnd(w: string, rest: string)
    requires w != ""
    ensures ReadQuoted(Printed("", rest)) != Some((w + "", rest))
  {
    assert Printed("", rest)[0] == '\'' && Printed("", rest)[1..] == rest;
    assert w + "" == w;
  }

  // A backslash is printed as it is, and takes the next character for an escape.
  lemma {:induction false} AfterBackslash(w: string, u: string, rest: string)
    requires AreBytes(u) && u != "" && u[0] == '\\'
    ensures ReadQuoted(Printed(u, rest)) != Some((w + u, rest))
    decreases |u|, 1
  {
    hide DelimString, IsTextChar;
    var u1 := u[1..];
    PrintedFirst(u, rest);
    assert u == ['\\'] + u1;
    if u1 == "" {
      assert u == "\\";
      QuoteEscaped(w, rest);
    } else {
      assert forall x :: x in u1 ==> x in u;
      var d := u1[0];
      assert d in u;
      if Escape(d) == [d] {
        AfterPlainEscape(w, u, rest);
      } else if d == '\'' {
        QuoteUnescaped(w, u1[1..], rest);
        assert u == ['\\', '\''] + u1[1..];
      } else if IsUnprintable(d) {
        AfterOctalEscape(w, u, rest);
      } else {
        LetterEscape(d);
        AfterLetterEscape(w, u, rest);
      }
    }
  }

  lemma LetterEscape(d: char)
    requires Escape(d) != [d] && d != '\'' && !IsUnprintable(d)
    ensures d == '\n' || (IsTextChar(d) && d < ' ')
  {
  }

  // The character after the backslash, and with digits possibly more, are printed as they
  // are: less is read than is there.
  lemma {:induction false} AfterPlainEscape(w: string, u: string, rest: string)
    requires AreBytes(u) && |u| > 1 && u[0] == '\\' && Escape(u[1]) == [u[1]]
    ensures ReadQuoted(Printed(u, rest)) != Some((w + u, rest))
    decreases |u|, 0
  {
    hide DelimString, QuotedChar, Escape;
    var u1 := u[1..];
    var q, k := QuotedRun(u1, rest);
    PrintedFirst(u, rest);
    BackslashRaw();
    var o, chunk, u2 := if q == '\n' then "" else [Byte(q)], ['\\'] + u1[..k], u1[k..];
    assert u == chunk + u2;
    ReadEscape(Printed(u1, rest), q, Printed(u2, rest));
    assert forall x :: x in u2 ==> x in u;
    NeverReadBack((w + chunk)[|o|..], u2, rest);
    Shift(w, chunk, u2, o, rest, Printed(u, rest));
  }

  lemma BackslashRaw()
    ensures Escape('\\') == ['\\']
  {
  }

  lemma QuotedRun(u: string, rest: string) returns (q: char, k: nat)
    requires u != "" && Escape(u[0]) == [u[0]]
    ensures 1 <= k <= |u| && QuotedChar(Printed(u, rest)) == Some((q, Printed(u[k..], rest)))
  {
    PrintedFirst(u, rest);
    assert Printed(u, rest)[1..] == Printed(u[1..], rest);
    if IsOctal(u[0]) {
      k := DigitRun(OctalVal(u[0]), 1, u[1..], rest);
      assert u[1..][k..] == u[k+1..];
      k := k + 1;
      q := QuotedChar(Printed(u, rest)).value.0;
    } else {
      k := 1;
      q := QuotedChar(Printed(u, rest)).value.0;
    }
  }

  // The backslash of an escaped quote is taken, and the quote ends the string too early.
  lemma QuoteUnescaped(w: string, u: string, rest: string)
    ensures ReadQuoted(Printed(['\\', '\''] + u, rest)) != Some((w + (['\\', '\''] + u), rest))
  {
    hide DelimString, EscapeAll, Escape;
    var more := Printed(u, rest);
    var all := ['\\', '\''] + u;
    var t := ['\''] + more;
    PrintedQuote(u, rest);
    assert (['\\'] + t)[1..] == t;
    ReadEscape(['\\'] + t, '\\', t);
    StringEnds(more);
    assert |more| > |rest|;
  }

  lemma PrintedQuote(u: string, rest: string)
    ensures Printed(['\\', '\''] + u, rest) == ['\\'] + (['\\'] + (['\''] + Printed(u, rest)))
  {
    hide Printed;
    var all, more := ['\\', '\''] + u, Printed(u, rest);
    assert all[1..] == ['\''] + u && (['\''] + u)[1..] == u;
    PrintedFirst(all, rest);
    PrintedFirst(['\''] + u, rest);
    assert Escape('\'') + more == ['\\'] + (['\''] + more);
  }

  lemma StringEnds(more: string)
    ensures ReadQuoted(['\''] + more) == Some(("", more))
  {
    assert (['\''] + more)[1..] == more;
  }

  lemma LetterRead(d: char)
    requires d == '\n' || (IsTextChar(d) && d < ' ')
    ensures |Escape(d)| == 2 && Escape(d)[0] == '\\'
    ensures Escape(d)[1] != d && Escape(d)[1] !in "'\\"
  {
  }

  // A letter that stands for a control character is read as the letter.
  lemma {:induction false} AfterLetterEscape(w: string, u: string, rest: string)
    requires AreBytes(u) && |u| > 1 && u[0] == '\\'
    requires u[1] == '\n' || (IsTextChar(u[1]) && u[1] < ' ')
    ensures ReadQuoted(Printed(u, rest)) != Some((w + u, rest))
    decreases |u|, 0
  {
    hide DelimString, Escape, IsTextChar;
    var d, u2 := u[1], u[2..];
    LetterRead(d);
    LetterText(u, rest);
    var o := ['\\', Escape(d)[1]];
    assert u == ['\\', d] + u2;
    if w == "" {
      Differ(w, ['\\', d], u2, o, rest, Printed(u, rest), 1);
    } else {
      assert forall x :: x in u2 ==> x in u;
      NeverReadBack((w + ['\\', d])[2..], u2, rest);
      Shift(w, ['\\', d], u2, o, rest, Printed(u, rest));
    }
  }

  lemma LetterText(u: string, rest: string)
    requires |u| > 1 && u[0] == '\\' && |Escape(u[1])| == 2 && Escape(u[1])[0] == '\\'
    requires Escape(u[1])[1] !in "'\\"
    ensures ReadQuoted(Printed(u, rest)) == Before(['\\', Escape(u[1])[1]], ReadQuoted(Printed(u[2..], rest)))
  {
    hide DelimString, Escape, Printed;
    var e, more := Escape(u[1])[1], Printed(u[2..], rest);
    BackslashRaw();
    PrintedFirst(u, rest);
    PrintedFirst(u[1..], rest);
    assert u[1..][1..] == u[2..] && Escape(u[1]) == ['\\', e];
    assert Printed(u, rest) == ['\\'] + (['\\'] + ([e] + more));
    assert (['\\'] + ([e] + more))[1..] == [e] + more;
    ReadEscape(['\\'] + ([e] + more), '\\', [e] + more);
    ReadPlain(e, more);
    BeforeBefore(['\\'], [e], ReadQuoted(more));
    assert ['\\'] + [e] == ['\\', e];
  }

  // The digits of an octal escape are read as digits.
  lemma {:induction false} AfterOctalEscape(w: string, u: string, rest: string)
    requires AreBytes(u) && |u| > 1 && u[0] == '\\' && IsUnprintable(u[1])
    ensures ReadQuoted(Printed(u, rest)) != Some((w + u, rest))
    decreases |u|, 0
  {
    hide DelimString, Escape;
    var d, u2 := u[1], u[2..];
    assert d in u;
    var o, more := Escape(d), Printed(u2, rest);
    PrintedFirst(u, rest);
    PrintedFirst(u[1..], rest);
    BackslashRaw();
    assert u[1..][1..] == u2 && u == ['\\', d] + u2;
    ReadUnprintable(d, more);
    ReadDigits(o, more);
    assert Printed(u, rest) == ['\\'] + (o + more);
    if |w| >= 4 {
      assert forall x :: x in u2 ==> x in u;
      NeverReadBack((w + ['\\', d])[5..], u2, rest);
      Shift(w, ['\\', d], u2, o, rest, Printed(u, rest));
    } else {
      Differ(w, ['\\', d], u2, o, rest, Printed(u, rest), if w == "" then 1 else |w|);
    }
  }

  lemma ReadDigits(o: string, more: string)
    requires |o| == 5 && o[0] == '\\' && forall i :: 0 < i < 5 ==> IsOctal(o[i])
    ensures ReadQuoted(['\\'] + (o + more)) == Before(o, ReadQuoted(more))
  {
    hide DelimString;
    var t1, t2, t3, t4 := o[1..] + more, o[2..] + more, o[3..] + more, [o[4]] + more;
    assert o + more == ['\\'] + t1 && t1 == [o[1]] + t2 && t2 == [o[2]] + t3 && t3 == [o[3]] + t4;
    assert (['\\'] + t1)[1..] == t1;
    ReadEscape(o + more, '\\', t1);
    ReadPlain(o[1], t2);
    ReadPlain(o[2], t3);
    ReadPlain(o[3], t4);
    ReadPlain(o[4], more);
    var r := ReadQuoted(more);
    BeforeBefore([o[3]], [o[4]], r);
    BeforeBefore([o[2]], [o[3]] + [o[4]], r);
    BeforeBefore([o[1]], [o[2]] + ([o[3]] + [o[4]]), r);
    BeforeBefore(['\\'], [o[1]] + ([o[2]] + ([o[3]] + [o[4]])), r);
    assert ['\\'] + ([o[1]] + ([o[2]] + ([o[3]] + [o[4]]))) == o;
  }

  // The closing quote is lost.
  lemma QuoteEscaped(w: string, rest: string)
    ensures ReadQuoted(Printed("\\", rest)) != Some((w + "\\", rest))
  {
    assert Printed("\\", rest) == ['\\'] + (['\''] + rest);
    assert (['\''] + rest)[1..] == rest;
    ReadEscape(['\''] + rest, '\'', rest);
  }

  // A string between quotes is read back exactly if it has no backslash, no newline and
  // nothing unprintable.
  lemma QuotedReadsBack(s: string, rest: string)
    requires AreBytes(s)
    ensures ReadQuoted(EscapeAll(s) + "'" + rest) == Some((s, rest)) <==> !HasBadChar(s)
  {
    hide DelimString, IsTextChar;
    if HasBadChar(s) {
      NeverReadBack("", s, rest);
      assert "" + s == s;
    } else {
      ReadEscaped(s, rest);
    }
  }

  lemma {:induction false} WordStops(id: bool, inp: string, i: nat)
    requires i < |inp| && EndsWord(inp[i], id)
    ensures |FreeString(id, inp).0| <= i
    decreases i
  {
    hide EndsWord;
    if !EndsWord(inp[0], id) { WordStops(id, inp[1..], i - 1); }
  }

  lemma {:induction false} CommentGoesOn(a: string, rest: string)
    requires '\n' !in a
    ensures AfterComment(a + rest) == AfterComment(rest)
  {
    if a == "" {
      assert a + rest == rest;
    } else {
      assert (a + rest)[1..] == a[1..] + rest && a[0] in a;
      CommentGoesOn(a[1..], rest);
    }
  }

  // A word that starts with `#` is skipped as a comment, with more than itself.
  lemma CommentSkipped(s: string, id: bool, rest: string)
    requires s != "" && s[0] == '#' && '\n' !in s
    ensures GetString(id, s + rest) != Got(s, false, rest)
  {
    hide FreeString, DelimString, NonWhite;
    var tail := s[1..] + rest;
    assert s + rest == ['#'] + tail && (s + rest)[1..] == tail;
    assert forall c :: c in s[1..] ==> c in s;
    CommentGoesOn(s[1..], rest);
    AfterHash(tail);
  }

  lemma AfterHash(tail: string)
    ensures var r := NonWhite(['#'] + tail);
      r.Stop? || (r == NonWhite(AfterComment(tail)) && |r.rest| < |AfterComment(tail)|)
  {
    assert (['#'] + tail)[1..] == tail;
  }

  // Where a word without quotes can start, and what ends it.
  lemma BareChars(s: string, id: bool)
    requires IsBare(s, id)
    ensures s != "" && forall c :: c in s ==> !IsWhite(c) && c !in "=,;.{}'\"" && (EndsWord(c, id) <==> c in "[]#\\")
  {
  }

  lemma WordStart(c: char, tail: string)
    requires !IsWhite(c)
    ensures c == '<' ==> NonWhite([c] + tail).Stop?
    ensures c != '<' && c != '#' ==> NonWhite([c] + tail) == Next(c, tail)
  {
    hide DelimString;
    assert ([c] + tail)[1..] == tail;
  }

  // A word without quotes must not start an inclusion, and must have none of the
  // characters at which words end, but which do not force quotes. Between quotes there
  // must be no backslash, no newline and nothing unprintable.
  predicate IsReadable(s: string, id: bool) {
    if IsBare(s, id) then s[0] != '<' && forall c :: c in s ==> c !in "[]#\\" else !HasBadChar(s)
  }

  lemma BareReadsBack(s: string, id: bool, rest: string)
    requires IsBare(s, id) && rest != "" && EndsWord(rest[0], id)
    ensures GetString(id, s + rest) == Got(s, false, rest) <==> IsReadable(s, id)
  {
    hide FreeString, DelimString, EndsWord, IsBare, NonWhite;
    BareChars(s, id);
    var c, tail := s[0], s[1..] + rest;
    assert c in s && s + rest == [c] + tail;
    WordStart(c, tail);
    if c == '#' {
      assert c in "[]#\\";
      CommentSkipped(s, id, rest);
    } else if c != '<' && c !in "[]#\\" {
      if i :| 0 <= i < |s| && s[i] in "[]#\\" {
        assert (s + rest)[i] == s[i];
        WordStops(id, s + rest, i);
      } else {
        ReadWord(s, id, rest);
      }
    }
  }

  // A string or an id is read back exactly if it is readable. The ids of savable trees must
  // not look like a mode either.
  lemma StringReadsBack(s: string, id: bool, rest: string)
    requires AreBytes(s) && rest != "" && EndsWord(rest[0], id)
    ensures GetString(id, StringPrint(s, id) + rest) == Got(s, !IsBare(s, id), rest) <==> IsReadable(s, id)
    ensures IsSavable(s, id) <==> IsReadable(s, id) && (id && IsBare(s, id) ==> s[0] !in "+-?!")
  {
    hide EndsWord, IsTextChar, DelimString, EscapeAll;
    SavableExactly(s, id);
    if IsBare(s, id) {
      BareReadsBack(s, id, rest);
    } else {
      var text := EscapeAll(s) + "'" + rest;
      assert StringPrint(s, id) + rest == ['\''] + text;
      assert (['\''] + text)[1..] == text;
      QuotedReadsBack(s, rest);
    }
  }

  lemma SavableExactly(s: string, id: bool)
    requires AreBytes(s)
    ensures IsSavable(s, id) <==> IsReadable(s, id) && (id && IsBare(s, id) ==> s[0] !in "+-?!")
  {
    if IsBare(s, id) {
      assert forall c :: c in s ==> (IsTextChar(c) <==> c != '\\');
    }
  }

  // A string is printed as it is exactly if it is not empty, does not look like a number
  // (unless it is an id), and has nothing in it that would end a word.
  lemma PrintedAsItIs(s: string, id: bool)
    requires AreBytes(s)
    ensures StringPrint(s, id) == s <==>
      && s != "" && (id || s[0] !in "0123456789-")
      && forall c :: c in s ==> '!' <= c <= '~' && c !in "=;,.{}'\""
  {
    hide EscapeAll;
    if !IsBare(s, id) && s != "" { assert s[0] in s; }
    if StringPrint(s, id) == s && !IsBare(s, id) { QuotedIsLonger(s); }
  }

  lemma {:induction false} EscapedLonger(s: string)
    ensures |EscapeAll(s)| >= |s|
  {
    hide Escape;
    if s != "" {
      EscapedLonger(s[1..]);
      assert |Escape(s[0])| >= 1 by { OneOrMore(s[0]); }
    }
  }

  lemma OneOrMore(c: char)
    ensures |Escape(c)| >= 1
  {
  }

  lemma QuotedIsLonger(s: string)
    ensures |"'" + EscapeAll(s) + "'"| > |s|
  {
    EscapedLonger(s);
  }

  // The layout: a line for each child, below its compound and with a tab more; but those of
  // a joined compound are written with a dot.
  lemma SavedExample(join: bool)
    ensures Save([Field("a", Compound(join, [Field("b", Str("c"))]))]) == if join then "a.b c\n" else "a {\n\tb c\n}\n"
  {
    hide SaveChildren, StringPrint, IdPrint, Tabs;
    var b := Field("b", Str("c"));
    var a := Compound(join, [b]);
    ExampleWords();
    assert [] + ["a"] == ["a"] && ["a"] + ["b"] == ["a", "b"] && [] + ["b"] == ["b"];
    SaveOne(Field("a", a), 0, []);
    SaveOne(b, 0, ["a"]);
    SaveOne(b, 1, []);
    assert SaveField(b, 0, ["a"]) == "a.b c\n" && SaveField(b, 1, []) == "\tb c\n";
    if !join { assert SaveValue(a, 0) == "{\n\tb c\n}"; }
  }

  lemma ExampleWords()
    ensures IdPrint(["a"]) == "a" && IdPrint(["b"]) == "b" && StringPrint("c", false) == "c"
    ensures IdPrint(["a", "b"]) == "a.b" && Tabs(1) == "\t" && Tabs(0) == ""
  {
    assert ["a", "b"][1..] == ["b"];
    assert StringPrint("a", true) == "a" && StringPrint("b", true) == "b";
  }

  lemma SaveOne(f: Field, level: nat, prefix: seq<string>)
    ensures SaveChildren([f], level, prefix) == SaveField(f, level, prefix)
  {
    assert SaveChildren([f][1..], level, prefix) == "";
  }
}
