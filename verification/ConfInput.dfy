// The lexer of src/conf.c on its input: one character can be pushed back, and words
// are collected in a buffer that doubles. It computes the functions of ConfText.

module ConfInput {
  import CharSource
  import opened ConfText

  // What get_char and its callers return: a character or an error code. Files to be
  // included cannot be opened.
  datatype Code = Eof | NoFile | Ch(c: char)

  function Text(c: Code): string {
    if c.Ch? then [c.c] else ""
  }

  function Head(s: string): Code {
    if s == "" then Eof else Ch(s[0])
  }

  // The error that a code stands for.
  function ErrorOf(c: Code): Error
    requires !c.Ch?
  {
    if c == Eof then UnexpectedEof else NoInclude
  }

  // `c` is what get_nonwhite finds in `text`, and `rest` is what it leaves.
  predicate IsNext(text: string, c: Code, rest: string) {
    match NonWhite(text)
    case Next(x, r) => c == Ch(x) && rest == r
    case Stop(e, r) => !c.Ch? && e == ErrorOf(c) && rest == r
  }

  const STR_BUFSIZE := 64

  // struct local_string
  class LocalString {
    var buf: string
    var alloc: nat

    constructor ()
      ensures Valid() && buf == ""
    {
      buf, alloc := "", STR_BUFSIZE;
    }

    predicate Valid()
      reads this
    {
      |buf| <= alloc && alloc > 0
    }

    // add_char_local_string
    method Add(c: char)
      requires Valid()
      modifies this
      ensures Valid() && buf == old(buf) + [c]
    {
      if |buf| >= alloc {
        alloc := alloc * 2;
      }
      buf := buf + [c];
    }
  }

  lemma Rejoin(s: string)
    ensures Text(Head(s)) + CharSource.Tail(s) == s
  {
  }

  // How a word goes on at `r`.
  lemma WordStep(a: string, id: bool, r: string)
    ensures var w := FreeString(id, r);
      if r != "" && !EndsWord(r[0], id) then
        var v := FreeString(id, CharSource.Tail(r));
        CharSource.Join(a, w.0) == CharSource.Join(a + [r[0]], v.0) && w.1 == v.1
      else w == ("", r)
  {
    if r != "" { CharSource.JoinStep(a, [r[0]], FreeString(id, r[1..]).0); }
  }

  // How a string between delimiters goes on at `r`.
  lemma DelimStep(a: string, delim: char, r: string)
    requires delim != '\\'
    ensures var w := DelimString(delim, r);
      if r == "" then w == None
      else if r[0] == '\\' then
        var q := QuotedChar(CharSource.Tail(r));
        if q.None? then w == None
        else Continues(a, w, if q.value.0 == '\n' then "" else [Byte(q.value.0)], DelimString(delim, q.value.1))
      else if r[0] == delim then w == Some(("", CharSource.Tail(r)))
      else Continues(a, w, [r[0]], DelimString(delim, CharSource.Tail(r)))
  {
    hide CharSource.Join;
    if r != "" {
      var d := DelimString(delim, r[1..]);
      if d.Some? { CharSource.JoinStep(a, [r[0]], d.value.0); }
      var q := QuotedChar(r[1..]);
      if q.Some? {
        var e := DelimString(delim, q.value.1);
        if e.Some? { CharSource.JoinStep(a, [Byte(q.value.0)], e.value.0); }
      }
      assert a + "" == a;
    }
  }

  // `w` is `v` with `s` in front, `a` having been collected before.
  predicate Continues(a: string, w: Option<(string, string)>, s: string, v: Option<(string, string)>) {
    match (w, v)
    case (Some((x, xr)), Some((y, yr))) => CharSource.Join(a, x) == CharSource.Join(a + s, y) && xr == yr
    case (None, None) => true
    case _ => false
  }

  lemma OctalStep(num: nat, seen: nat, r: string)
    ensures Octal(num, seen, r) ==
      if seen < 3 && r != "" && IsOctal(r[0]) then Octal(num * 8 + OctalVal(r[0]), seen + 1, CharSource.Tail(r))
      else (num, r)
  {
  }

  class Input {
    var inp: string     // not read yet
    var unget: bool
    var ch: Code        // pushed back, if `unget` is set
    ghost var refused: string   // the inclusion that failed, if its error is pushed back

    constructor (text: string)
      ensures Valid() && Rest() == text && !unget
    {
      inp, unget, ch, refused := text, false, Eof, "";
    }

    predicate Refused()
      reads this
    {
      unget && ch == NoFile
    }

    // The end of the input is pushed back only there, the other error only after text
    // that gives it.
    ghost predicate Valid()
      reads this
    {
      (unget && ch == Eof ==> inp == "") && (Refused() ==> IsNext(refused, NoFile, inp))
    }

    ghost function Rest(): string
      reads this
    {
      if Refused() then refused else (if unget then Text(ch) else "") + inp
    }

    // get_char
    method GetChar() returns (c: Code)
      requires Valid()
      modifies this
      ensures Valid() && !unget
      ensures if old(Refused()) then c == NoFile && IsNext(old(Rest()), c, Rest())
              else c == Head(old(Rest())) && Rest() == CharSource.Tail(old(Rest()))
    {
      if unget {
        assert !Refused() && ch.Ch? ==> Rest()[1..] == inp;
        unget := false;
        return ch;
      }
      c := Head(inp);
      inp := CharSource.Tail(inp);
    }

    // unget_char: at most one character is ever pushed back.
    method UngetChar(c: Code)
      requires Valid() && !unget && c != NoFile && (c == Eof ==> Rest() == "")
      modifies this
      ensures Valid() && !Refused() && unget && Rest() == Text(c) + old(Rest())
    {
      ch, unget := c, true;
    }

    // ... what get_nonwhite has found in `text`
    method UngetNonWhite(c: Code, ghost text: string)
      requires Valid() && !unget && IsNext(text, c, Rest())
      modifies this
      ensures Valid() && unget && (c.Ch? ==> !Refused()) && Rest() == Peeked(text)
    {
      hide NonWhite;
      ch, unget, refused := c, true, text;
    }

    // get_nonwhite, with get_char_skip_comments
    method GetNonWhite() returns (c: Code)
      requires Valid()
      modifies this
      ensures Valid() && !unget && IsNext(old(Rest()), c, Rest())
    {
      hide Rest, Valid, AfterComment, Closed, DelimString;
      ghost var all := NonWhite(Rest());
      while true
        invariant Valid() && all == NonWhite(Rest())
        decreases |Rest()|
      {
        ghost var r := Rest();
        c := GetChar();
        if c == Eof || c == NoFile {
          return;
        }
        if c.c == '<' {
          var name := GetDelimString('>');
          return if name == None then Eof else NoFile;
        }
        if c.c == '#' {
          var closed := SkipComment();
          if !closed {
            return Eof;
          }
        } else if !IsWhite(c.c) {
          return;
        }
      }
    }

    method SkipComment() returns (closed: bool)
      requires Valid() && !Refused()
      modifies this
      ensures Valid() && !unget && |Rest()| <= |old(Rest())|
      ensures closed == Closed(old(Rest())) && Rest() == AfterComment(old(Rest()))
      ensures !closed ==> Rest() == ""
    {
      hide Rest, Valid;
      ghost var all := Rest();
      while true
        invariant Valid() && !Refused() && |Rest()| <= |all|
        invariant Closed(all) == Closed(Rest()) && AfterComment(all) == AfterComment(Rest())
        decreases |Rest()|
      {
        var c := GetChar();
        if c == Eof {
          return false;
        }
        if c.c == '\n' {
          return true;
        }
      }
    }

    // get_quotedchar
    method GetQuotedChar() returns (c: Code)
      requires Valid() && !Refused()
      modifies this
      ensures Valid() && !Refused() && (c == Eof ==> !unget)
      ensures match QuotedChar(old(Rest()))
        case None => c == Eof && Rest() == ""
        case Some((x, rest)) => c == Ch(x) && Rest() == rest
    {
      hide Rest, Valid, Octal;
      c := GetChar();
      if c == Eof {
        return;
      }
      if IsOctal(c.c) {
        var num: nat, i: nat, more := OctalVal(c.c), 1, true;
        ghost var all := Octal(num, 1, Rest());
        while more && i < 3
          invariant Valid() && !Refused() && 1 <= i <= 3
          invariant all == (if more then Octal(num, i, Rest()) else (num, Rest()))
          invariant more ==> !unget
          decreases 3 - i, more
        {
          ghost var r := Rest();
          OctalStep(num, i, r);
          Rejoin(r);
          var d := GetChar();
          if d == Eof || !IsOctal(d.c) {
            UngetChar(d);
            more := false;
          } else {
            num := num * 8 + OctalVal(d.c);
            i := i + 1;
          }
        }
        OctalStep(num, i, Rest());
        return Ch(num as char);
      }
      match c.c
      case 'n' => return Ch('\n');
      case 't' => return Ch('\t');
      case 'v' => return Ch(VT);
      case 'b' => return Ch(BS);
      case 'r' => return Ch('\r');
      case 'f' => return Ch(FF);
      case _ =>
    }

    // get_freestring
    method GetFreeString(id: bool) returns (s: string)
      requires Valid() && !Refused()
      modifies this
      ensures Valid() && !Refused() && (s, Rest()) == FreeString(id, old(Rest()))
    {
      hide Rest, Valid, FreeString, EndsWord, CharSource.Join;
      var str := new LocalString();
      ghost var all := FreeString(id, Rest());
      CharSource.JoinEnd(all.0);
      while true
        invariant Valid() && !Refused() && str.Valid() && fresh(str)
        invariant var v := FreeString(id, Rest()); all.0 == CharSource.Join(str.buf, v.0) && all.1 == v.1
        decreases |Rest()|
      {
        ghost var r := Rest();
        WordStep(str.buf, id, r);
        Rejoin(r);
        var c := GetChar();
        if c == Eof {
          CharSource.JoinEnd(str.buf);
          return str.buf;
        }
        if EndsWord(c.c, id) {
          UngetChar(c);
          CharSource.JoinEnd(str.buf);
          return str.buf;
        }
        str.Add(c.c);
      }
    }

    // get_delimstring
    method GetDelimString(delim: char) returns (r: Option<string>)
      requires Valid() && !Refused() && delim != '\\'
      modifies this
      ensures Valid() && !Refused() && !unget
      ensures match DelimString(delim, old(Rest()))
        case None => r == None && Rest() == ""
        case Some((s, rest)) => r == Some(s) && Rest() == rest
    {
      hide Rest, Valid, DelimString, QuotedChar, CharSource.Join;
      var str := new LocalString();
      ghost var all := DelimString(delim, Rest());
      if all.Some? { CharSource.JoinEnd(all.value.0); }
      while true
        invariant Valid() && !Refused() && str.Valid() && fresh(str)
        invariant match (all, DelimString(delim, Rest()))
          case (Some((x, xr)), Some((y, yr))) => x == CharSource.Join(str.buf, y) && xr == yr
          case (None, None) => true
          case _ => false
        decreases |Rest()|
      {
        DelimStep(str.buf, delim, Rest());
        var c := GetChar();
        if c == Eof {
          return None;
        }
        if c.c == '\\' {
          c := GetQuotedChar();
          if c == Eof {
            return None;
          }
          if c.c == '\n' {
            assert str.buf + "" == str.buf;
            continue;
          }
          c := Ch(Byte(c.c));
        } else if c.c == delim {
          CharSource.JoinEnd(str.buf);
          return Some(str.buf);
        }
        str.Add(c.c);
      }
    }

    // get_string: the string, or the reason why there is none
    method GetString(id: bool) returns (s: string, delimited: bool, err: Option<Error>)
      requires Valid()
      modifies this
      ensures Valid()
      ensures match ConfText.GetString(id, old(Rest()))
        case Bad(e, rest) => err == Some(e) && Rest() == rest
        case Got(s', d, rest) => err == None && s == s' && delimited == d && Rest() == rest
    {
      hide Rest, Valid, FreeString, DelimString, NonWhite;
      s, delimited, err := "", false, None;
      ghost var text := Rest();
      var c := GetNonWhite();
      if !c.Ch? {
        err := Some(ErrorOf(c));
      } else if c.c in "=,;.{}[]\\" {
        err := Some(UnexpectedChar);
      } else if c.c == '\'' || c.c == '"' {
        var r := GetDelimString(c.c);
        match r
        case None => err := Some(UnexpectedEof);
        case Some(t) => s, delimited := t, true;
      } else {
        UngetNonWhite(c, text);
        s := GetFreeString(id);
      }
    }
  }
}
