// The conventions of configuration files in src/conf.c: comments, blanks, words, quotes and
// escapes, equal signs, separators, numbers and arrays.

module ConfSyntax {
  import opened ConfText
  import opened ConfTree
  import opened ConfParse
  import opened ConfSave
  import opened ConfRoundTrip
  import opened ConfModes
  import opened ConfFolds
  import ConfAssign
  import ConfArgs

  // ---- comments and blanks ----

  lemma {:induction false} CommentEnds(c: string, text: string)
    requires '\n' !in c
    ensures Closed(c + "\n" + text) && AfterComment(c + "\n" + text) == text
  {
    var all := c + "\n" + text;
    if c == "" {
      assert all == "\n" + text;
      assert all[1..] == text;
    } else {
      assert all == [c[0]] + (c[1..] + "\n" + text) && c[0] in c;
      assert all[1..] == c[1..] + "\n" + text;
      CommentEnds(c[1..], text);
    }
  }

  // A comment line, or a blank, in front of a text changes nothing about its reading.
  lemma CommentLaw(fields: Fields, c: string, text: string, o: bool)
    requires '\n' !in c
    ensures Load(fields, "#" + c + "\n" + text, o) == Load(fields, text, o)
  {
    hide ParseDefs;
    var all := "#" + c + "\n" + text;
    assert all == ['#'] + (c + "\n" + text);
    assert all[1..] == c + "\n" + text;
    CommentEnds(c, text);
    SameFile(fields, all, text, o);
  }

  lemma BlankLaw(fields: Fields, b: char, text: string, o: bool)
    requires b in " \t\n\r\U{0C}"
    ensures Load(fields, [b] + text, o) == Load(fields, text, o)
  {
    hide ParseDefs;
    assert ([b] + text)[1..] == text;
    SameFile(fields, [b] + text, text, o);
  }

  lemma SameFile(fields: Fields, a: string, b: string, o: bool)
    requires NonWhite(a) == NonWhite(b)
    ensures Load(fields, a, o) == Load(fields, b, o)
  {
    hide NonWhite, ParseDef;
  }

  // ---- words and quotes ----

  // Characters that end a word.
  const ENDS := " \t\n\r\U{0C}=,;{}[]'\"\\#"

  // A word goes up to the first of these; an identifier also ends at a dot.
  lemma WordLaw(id: bool, w: string, rest: string)
    requires w != "" && w[0] !in ".<" && (forall c :: c in w ==> c !in ENDS && (id ==> c != '.'))
    requires rest != "" ==> rest[0] in ENDS || (id && rest[0] == '.')
    ensures GetString(id, w + rest) == Got(w, false, rest)
  {
    hide FreeString, DelimString;
    var text := w + rest;
    assert w[0] in w && text == [w[0]] + text[1..];
    forall c | c in w ensures !EndsWord(c, id) {
    }
    ReadWord(w, id, rest);
  }

  // What stands between quotes of either kind is read as it is, if it has no backslash.
  lemma QuotesLaw(id: bool, delim: char, s: string, rest: string)
    requires delim in "'\"" && delim !in s && '\\' !in s
    ensures GetString(id, [delim] + s + [delim] + rest) == Got(s, true, rest)
  {
    hide DelimString;
    var text := [delim] + s + [delim] + rest;
    assert text == [delim] + (s + [delim] + rest);
    assert text[1..] == s + [delim] + rest;
    DelimReads(delim, s, rest);
  }

  lemma {:induction false} DelimReads(delim: char, s: string, rest: string)
    requires delim !in s && '\\' !in s && delim != '\\'
    ensures DelimString(delim, s + [delim] + rest) == Some((s, rest))
  {
    var text := s + [delim] + rest;
    if s == "" {
      assert text == [delim] + rest;
      assert text[1..] == rest;
    } else {
      assert text == [s[0]] + (s[1..] + [delim] + rest) && s[0] in s;
      assert text[1..] == s[1..] + [delim] + rest;
      DelimReads(delim, s[1..], rest);
      assert s == [s[0]] + s[1..];
    }
  }

  // The value of three octal digits.
  function Octals(a: char, b: char, c: char): nat
    requires a in "01234567" && b in "01234567" && c in "01234567"
  {
    64 * (a as int - '0' as int) + 8 * (b as int - '0' as int) + (c as int - '0' as int)
  }

  // An escape of three octal digits is the byte with that number; only the one for a newline
  // vanishes.
  lemma OctalLaw(delim: char, a: char, b: char, c: char, text: string)
    requires a in "01234567" && b in "01234567" && c in "01234567" && delim in "'\""
    ensures var r, n := DelimString(delim, text), Octals(a, b, c);
      DelimString(delim, ['\\'] + ([a] + ([b] + ([c] + text)))) ==
        if n == 10 then r else WithFront((n % 256) as char, r)
  {
    hide QuotedChar, DelimString;
    ThreeOctals(a, b, c, text);
    EscapeStep(delim, Octals(a, b, c) as char, [a] + ([b] + ([c] + text)), text);
  }

  lemma ThreeOctals(a: char, b: char, c: char, text: string)
    requires a in "01234567" && b in "01234567" && c in "01234567"
    ensures QuotedChar([a] + ([b] + ([c] + text))) == Some((Octals(a, b, c) as char, text))
  {
    var n := OctalVal(a);
    var m := n * 8 + OctalVal(b);
    assert ([a] + ([b] + ([c] + text)))[1..] == [b] + ([c] + text);
    assert ([b] + ([c] + text))[1..] == [c] + text && ([c] + text)[1..] == text;
    assert Octal(m * 8 + OctalVal(c), 3, text) == (m * 8 + OctalVal(c), text);
    assert Octal(m, 2, [c] + text) == (m * 8 + OctalVal(c), text);
  }

  // Fewer digits are enough if no other one follows.
  lemma ShortOctalLaw(delim: char, a: char, b: char, text: string)
    requires a in "01234567" && b in "01234567" && delim in "'\""
    requires text != "" ==> text[0] !in "01234567"
    ensures var r, n, m := DelimString(delim, text), Octals('0', '0', a), Octals('0', a, b);
      && DelimString(delim, ['\\'] + ([a] + text)) == WithFront(n as char, r)
      && DelimString(delim, ['\\'] + ([a] + ([b] + text))) == if m == 10 then r else WithFront(m as char, r)
  {
    hide QuotedChar, DelimString, Octals;
    OctalDigits(a, b, text);
    EscapeStep(delim, Octals('0', '0', a) as char, [a] + text, text);
    EscapeStep(delim, Octals('0', a, b) as char, [a] + ([b] + text), text);
  }

  // `r` with one more character in front.
  function WithFront(c: char, r: Option<(string, string)>): Option<(string, string)> {
    if r.None? then None else Some(([c] + r.value.0, r.value.1))
  }

  lemma OctalDigits(a: char, b: char, text: string)
    requires a in "01234567" && b in "01234567" && (text != "" ==> text[0] !in "01234567")
    ensures Octals('0', '0', a) < 8 && Octals('0', a, b) < 64
    ensures QuotedChar([a] + text) == Some((Octals('0', '0', a) as char, text))
    ensures QuotedChar([a] + ([b] + text)) == Some((Octals('0', a, b) as char, text))
  {
    var n := OctalVal(a);
    assert ([a] + text)[1..] == text && ([a] + ([b] + text))[1..] == [b] + text && ([b] + text)[1..] == text;
    assert text != "" ==> !IsOctal(text[0]) by { if text != "" { NoOctal(text[0]); } }
    assert Octal(n, 1, text) == (n, text);
    assert Octal(n * 8 + OctalVal(b), 2, text) == (n * 8 + OctalVal(b), text);
    assert Octal(n, 1, [b] + text) == (n * 8 + OctalVal(b), text);
  }

  lemma NoOctal(c: char)
    requires c !in "01234567"
    ensures !IsOctal(c)
  {
  }

  lemma EscapeStep(delim: char, c: char, text: string, more: string)
    requires QuotedChar(text) == Some((c, more))
    ensures var r := DelimString(delim, more);
      DelimString(delim, ['\\'] + text) == if c == '\n' then r else WithFront((c as int % 256) as char, r)
  {
    hide QuotedChar;
    assert (['\\'] + text)[1..] == text;
  }

  // The escapes with a meaning; any other character stands for itself, but a newline
  // vanishes, even if it is written as `\n`.
  lemma EscapeLaw(delim: char, c: char, text: string)
    requires c !in "01234567" && c as int < 256
    ensures var r := DelimString(delim, text);
      DelimString(delim, ['\\'] + ([c] + text)) ==
        if c == 'n' || c == '\n' then r
        else WithFront(if c == 't' then '\t' else if c == 'r' then '\r' else if c == 'b' then '\U{08}'
                      else if c == 'v' then '\U{0B}' else if c == 'f' then '\U{0C}' else c, r)
  {
    hide DelimString, Octal;
    NoOctal(c);
    assert ([c] + text)[1..] == text;
    EscapeStep(delim, QuotedChar([c] + text).value.0, [c] + text, text);
  }

  // ---- equal signs and separators ----

  // An equal sign between key and value changes nothing, unless a dot follows.
  lemma EqualLaw(fields: Fields, text: string, plain: string, id: string, rest: string, more: string, o: bool)
    requires StartsWith(text, id, rest) && NonWhite(rest) == Next('=', more)
    requires StartsWith(plain, id, more) && NonWhite(more).Next? && NonWhite(more).c !in ".="
    ensures ParseDef(fields, text, false, o) == ParseDef(fields, plain, false, o)
  {
    hide ParseKeyed, StartsWith;
    Prefixed(fields, '+', text, id, rest, o);
    Prefixed(fields, '+', plain, id, more, o);
    EqualKeyed(fields, id, ModeOf('x', o), rest, more, o);
  }

  lemma EqualKeyed(fields: Fields, id: string, m: Mode, rest: string, more: string, o: bool)
    requires NonWhite(rest) == Next('=', more) && NonWhite(more).Next? && NonWhite(more).c !in ".="
    ensures ParseKeyed(fields, id, m, rest, false, o) == ParseKeyed(fields, id, m, more, false, o)
  {
    hide NonWhite, ParseBody, ParseComponent;
  }

  // A comma or semicolon behind a value belongs to the definition.
  lemma SeparatorLaw(fields: Fields, id: string, v: Node, sep: char, rest: string)
    requires IsNew(fields, id) && IsSavable(id, true) && IsScalar(v) && IsSavableNode(v) && sep in ",;"
    ensures ParseDef(fields, StringPrint(id, true) + (" " + (SaveValue(v, 0) + ([sep] + rest))), false, false)
         == Good(fields + [Field(id, v)], rest)
  {
    hide GetString, NonWhite, SaveValue, Scalar, IsSavableNode, IsSavable, StringPrint, ParseKeyed, ParseDef;
    var value := SaveValue(v, 0) + ([sep] + rest);
    KeyStart(id, " " + value);
    SeparatorKeyed(fields, id, v, sep, rest);
  }

  lemma SeparatorKeyed(fields: Fields, id: string, v: Node, sep: char, rest: string)
    requires IsNew(fields, id) && IsScalar(v) && IsSavableNode(v) && sep in ",;"
    ensures ParseKeyed(fields, id, MergeCreate, " " + (SaveValue(v, 0) + ([sep] + rest)), false, false)
         == Good(fields + [Field(id, v)], rest)
  {
    hide GetString, NonWhite, SaveValue, Scalar, IsSavableNode, AfterSeparator;
    var value := SaveValue(v, 0) + ([sep] + rest);
    ReadScalar(v, 0, [sep] + rest);
    ToContents(fields, id, value);
    assert AfterSeparator([sep] + rest) == rest by { Separated(sep, rest); }
  }

  lemma Separated(sep: char, rest: string)
    requires sep in ",;"
    ensures AfterSeparator([sep] + rest) == rest
  {
    assert ([sep] + rest)[1..] == rest;
  }

  // ---- numbers ----

  const DIGITS := "0123456789abcdef"

  // A number in a base up to 16.
  function InBase(base: nat, n: nat): string
    requires 2 <= base <= 16
  {
    if n < base then [DIGITS[n]] else InBase(base, n / base) + [DIGITS[n % base]]
  }

  lemma DigitsLaw(i: nat)
    requires i < 16
    ensures DigitOf(DIGITS[i]) == i
  {
  }

  lemma {:induction false} BaseAppend(base: nat, s: string, c: char, acc: nat)
    ensures DigitsVal(base, s + [c], acc) == base * DigitsVal(base, s, acc) + DigitOf(c)
  {
    if s == "" {
      assert DigitsVal(base, [c], acc) == DigitsVal(base, "", base * acc + DigitOf(c));
    } else {
      assert (s + [c])[1..] == s[1..] + [c];
      BaseAppend(base, s[1..], c, base * acc + DigitOf(s[0]));
    }
  }

  lemma Divide(base: nat, n: nat)
    requires 2 <= base <= n
    ensures n / base < n && base * (n / base) + n % base == n
  {
  }

  lemma {:induction false} BaseValue(base: nat, n: nat)
    requires 2 <= base <= 16
    ensures AreDigits(base, InBase(base, n)) && DigitsVal(base, InBase(base, n), 0) == n && InBase(base, n) != ""
    decreases n
  {
    hide DigitOf, DigitsVal;
    if n < base {
      DigitsLaw(n);
      OneDigit(base, DIGITS[n]);
    } else {
      Divide(base, n);
      var q, r := n / base, n % base;
      BaseValue(base, q);
      DigitsLaw(r);
      BaseAppend(base, InBase(base, q), DIGITS[r], 0);
    }
  }

  lemma OneDigit(base: nat, c: char)
    ensures DigitsVal(base, [c], 0) == DigitOf(c)
  {
    assert DigitsVal(base, [c], 0) == DigitsVal(base, "", base * 0 + DigitOf(c));
  }

  // Integers may be in base sixteen or eight.
  lemma BasesLaw(n: nat)
    ensures n <= LLONG_MAX ==>
      ParseInt("0x" + InBase(16, n)) == Some(n) && ParseInt("0" + InBase(8, n)) == Some(n)
      && ParseInt("-0x" + InBase(16, n)) == Some(-(n as int))
  {
    hide DigitsVal, InBase;
    BaseValue(16, n);
    BaseValue(8, n);
    var x, o := "0x" + InBase(16, n), "0" + InBase(8, n);
    assert x[2..] == InBase(16, n) && ("-" + x)[1..] == x && "-0x" + InBase(16, n) == "-" + x;
    assert o[1..] == InBase(8, n);
    assert o[1] in o[1..] && AreDigits(8, o);
    assert DigitsVal(8, o, 0) == DigitsVal(8, o[1..], 0) by { LeadingZero(InBase(8, n)); }
  }

  lemma LeadingZero(s: string)
    ensures DigitsVal(8, "0" + s, 0) == DigitsVal(8, s, 0)
  {
    assert ("0" + s)[1..] == s;
  }

  predicate AreDecimal(s: string) {
    forall c :: c in s ==> c in "0123456789"
  }

  lemma {:induction false} DropAll(s: string, rest: string)
    requires AreDecimal(s) && (rest != "" ==> !IsDigit(rest[0]))
    ensures DropDigits(s + rest) == rest
  {
    if s == "" {
      assert s + rest == rest;
    } else {
      assert (s + rest)[1..] == s[1..] + rest && s[0] in s;
      DropAll(s[1..], rest);
    }
  }

  // The exponent of a real number.
  predicate IsExp(e: string) {
    && |e| > 1 && e[0] in "eE"
    && (AreDecimal(e[1..]) || (|e| > 2 && e[1] in "+-" && AreDecimal(e[2..])))
  }

  lemma ExpIs(e: string)
    requires IsExp(e)
    ensures IsExponent(e) && !IsDigit(e[0]) && e[0] != '.'
  {
    var t := if e[1] == '+' || e[1] == '-' then e[2..] else e[1..];
    assert e[1] in e[1..];
    assert AreDecimal(t) && t != "";
    DropAll(t, "");
    assert t + "" == t;
  }

  // Digits with a fraction, or an exponent, or both, are a real number.
  lemma RealsLaw(minus: bool, a: string, b: string, e: string)
    requires a != "" && AreDecimal(a) && AreDecimal(b) && (e != "" ==> IsExp(e))
    ensures var f := (if minus then "-" else "") + (a + ("." + (b + e)));
      Scalar(f, false) == Real(f) && ConfArgs.Typed("real", f) == Some(Real(f))
    ensures var g := (if minus then "-" else "") + (a + e);
      e != "" ==> Scalar(g, false) == Real(g) && ConfArgs.Typed("real", g) == Some(Real(g))
  {
    hide DigitsVal, Unsigned, IsExp;
    if e != "" { ExpIs(e); }
    Realness(minus, a, "." + (b + e));
    assert ("." + (b + e))[1..] == b + e;
    DropAll(b, e);
    NoInt(a, "." + (b + e));
    IntOfSigned(minus, a, "." + (b + e));
    if e != "" {
      Realness(minus, a, e);
      NoInt(a, e);
      IntOfSigned(minus, a, e);
    }
  }

  // What is left of a number after its sign and its digits.
  lemma Realness(minus: bool, a: string, more: string)
    requires a != "" && AreDecimal(a) && more != "" && !IsDigit(more[0])
    ensures var g := (if minus then "-" else "") + (a + more);
      && g != "" && (IsDigit(g[0]) || g[0] == '-')
      && IsReal(g) == if more[0] == '.' then IsExponent(DropDigits(more[1..])) else IsExponent(more)
  {
    hide IsExponent;
    var t := a + more;
    assert a[0] in a && t[0] == a[0] && IsDigit(t[0]);
    DropAll(a, more);
    assert |t| > |more|;
    if minus {
      Unsign("-" + t, t);
    } else {
      assert "" + t == t;
      Unsign(t, t);
    }
  }

  // What counts is what follows the sign.
  lemma Unsign(s: string, t: string)
    requires t != "" && IsDigit(t[0]) && (s == t || s == "-" + t)
    ensures s != "" && (IsDigit(s[0]) || s[0] == '-')
    ensures var u := DropDigits(t);
      IsReal(s) == if u != "" && u[0] == '.' then |t| > |DropDigits(u[1..])| + 1 && IsExponent(DropDigits(u[1..]))
                   else |t| > |u| && IsExponent(u)
  {
    hide IsExponent, DropDigits;
    assert s[0] == '-' ==> s[1..] == t;
  }

  lemma IntOfSigned(minus: bool, a: string, more: string)
    requires a != "" && AreDecimal(a) && Unsigned(a + more).None?
    ensures ParseInt((if minus then "-" else "") + (a + more)).None?
  {
    hide Unsigned;
    assert a[0] in a && (a + more)[0] == a[0];
    assert ("-" + (a + more))[1..] == a + more && "" + (a + more) == a + more;
  }

  // A word that goes on with such a character is no integer.
  lemma NoInt(a: string, more: string)
    requires a != "" && AreDecimal(a) && more != "" && DigitOf(more[0]) >= 10 && more[0] !in "xX"
    ensures Unsigned(a + more).None?
  {
    hide DigitsVal;
    var t := a + more;
    assert a[0] in a && t[0] == a[0] && t[|a|] == more[0];
    assert if |a| > 1 then t[1] == a[1] && a[1] in a else t[1] == more[0];
  }

  // One that starts with digits but is neither is a string.
  lemma WordsLaw(a: string, more: string)
    requires a != "" && AreDecimal(a) && more != "" && more[0] !in "0123456789.eExX"
    ensures Scalar(a + more, false) == Str(a + more)
  {
    hide Unsigned;
    assert DigitOf(more[0]) >= 10;
    NoInt(a, more);
    IntOfSigned(false, a, more);
    Realness(false, a, more);
    assert "" + (a + more) == a + more;
  }

  // An integer has the smallest type that holds it; quoted, or without a digit or a minus
  // sign in front, a value is a string.
  lemma ScalarsLaw(s: string, i: int)
    ensures Scalar(s, true) == Str(s)
    ensures s == "" || s[0] !in "0123456789-" ==> Scalar(s, false) == Str(s)
    ensures LLONG_MIN <= i <= LLONG_MAX ==>
      Scalar(IntText(i), false) == if i <= INT_MAX then Integer(i) else Integer64(i)
  {
    hide ParseInt, IntText, IsReal;
    ReadInt(i);
    IntChars(i);
  }

  // ---- arrays ----

  predicate AreElements(nodes: seq<Node>) {
    forall n :: n in nodes ==> IsScalar(n) && IsSavableNode(n)
  }

  function Elements(nodes: seq<Node>): string {
    if nodes == [] then "" else SaveValue(nodes[0], 0) + " " + Elements(nodes[1..])
  }

  function NumberedFrom(idx: nat, nodes: seq<Node>): (r: Fields)
    ensures |r| == |nodes| && forall i :: 0 <= i < |r| ==> r[i] == Field(DigitsText(idx + i), nodes[i])
    decreases nodes
  {
    if nodes == [] then [] else [Field(DigitsText(idx), nodes[0])] + NumberedFrom(idx + 1, nodes[1..])
  }

  lemma DigitsDiffer(i: nat, j: nat)
    requires i != j
    ensures DigitsText(i) != DigitsText(j)
  {
    hide Unsigned;
    ReadDigits(i);
    ReadDigits(j);
  }

  ghost predicate AllBelow(fields: Fields, idx: nat) {
    forall f, j: nat :: f in fields && f.id == DigitsText(j) ==> j < idx
  }

  lemma NotTaken(acc: Fields, idx: nat)
    requires AllBelow(acc, idx)
    ensures Search(acc, DigitsText(idx)).None?
  {
  }

  lemma ElementRead(acc: Fields, idx: nat, n: Node, more: string, o: bool)
    requires AllBelow(acc, idx) && IsScalar(n) && IsSavableNode(n)
    ensures var text, f := SaveValue(n, 0) + (" " + more), Field(DigitsText(idx), n);
      && ParseArrayDefs(acc, idx, text, false, o) == ParseArrayDefs(acc + [f], idx + 1, " " + more, false, o)
      && AllBelow(acc + [f], idx + 1)
  {
    hide GetString, NonWhite, SaveValue, Scalar, IsSavableNode, DigitsText;
    var text := SaveValue(n, 0) + (" " + more);
    ReadScalar(n, 0, " " + more);
    assert [text[0]] + text[1..] == text;
    var f := Field(DigitsText(idx), n);
    NotTaken(acc, idx);
    assert ParseArrayDef(acc, idx, text, false, o) == Good(acc + [f], " " + more);
    forall g, j: nat | g in acc + [f] && g.id == DigitsText(j) ensures j < idx + 1 {
      if g == f && j != idx { DigitsDiffer(idx, j); }
    }
  }

  lemma {:induction false} ElementsRead(acc: Fields, idx: nat, nodes: seq<Node>, tail: string, o: bool)
    requires AllBelow(acc, idx) && AreElements(nodes)
    ensures ParseArrayDefs(acc, idx, " " + (Elements(nodes) + ("]" + tail)), false, o)
         == Good(acc + NumberedFrom(idx, nodes), "]" + tail)
    decreases nodes
  {
    hide SaveValue, IsSavableNode, AllBelow, DigitsText, ParseArrayDef, ParseArrayDefs, NumberedFrom, Elements,
      IsScalar, NonWhite;
    BlankElements(acc, idx, Elements(nodes) + ("]" + tail), o);
    ElementsStep(acc, idx, nodes, tail);
    if nodes == [] {
      ElementsEnd(acc, idx, tail, o);
    } else {
      var f, more := Field(DigitsText(idx), nodes[0]), Elements(nodes[1..]) + ("]" + tail);
      assert nodes[0] in nodes;
      ElementRead(acc, idx, nodes[0], more, o);
      ElementsRead(acc + [f], idx + 1, nodes[1..], tail, o);
    }
  }

  lemma ElementsStep(acc: Fields, idx: nat, nodes: seq<Node>, tail: string)
    ensures var text, r := Elements(nodes) + ("]" + tail), acc + NumberedFrom(idx, nodes);
      if nodes == [] then text == "]" + tail && r == acc
      else
        && text == SaveValue(nodes[0], 0) + (" " + (Elements(nodes[1..]) + ("]" + tail)))
        && r == acc + [Field(DigitsText(idx), nodes[0])] + NumberedFrom(idx + 1, nodes[1..])
  {
    hide SaveValue, DigitsText;
  }

  lemma BlankElements(acc: Fields, idx: nat, text: string, o: bool)
    ensures ParseArrayDefs(acc, idx, " " + text, false, o) == ParseArrayDefs(acc, idx, text, false, o)
  {
    hide NonWhite, ParseArrayDef;
    ConfRoundTrip.SkipBlank(text);
  }

  lemma ElementsEnd(acc: Fields, idx: nat, tail: string, o: bool)
    ensures NonWhite("]" + tail) == Next(']', tail)
    ensures ParseArrayDefs(acc, idx, "]" + tail, false, o) == Good(acc, "]" + tail)
  {
    assert ("]" + tail)[1..] == tail;
    assert [']'] + tail == "]" + tail;
  }

  // An array `key [ v0 v1 ... ]` is a compound whose children have the numbers of the
  // elements for their ids.
  lemma ArrayLaw(fields: Fields, id: string, nodes: seq<Node>, o: bool)
    requires IsNew(fields, id) && IsSavable(id, true) && AreElements(nodes)
    ensures Load(fields, StringPrint(id, true) + (" " + ("[ " + (Elements(nodes) + "]\n"))), o)
         == Good(fields + [Field(id, Compound(false, Numbered(nodes)))], "")
  {
    hide IsSavable, StringPrint, ParseKeyed, NonWhite, ParseDef, Load;
    var inner := " " + (Elements(nodes) + ("]" + "\n"));
    var value := "[" + inner;
    var text := StringPrint(id, true) + (" " + value);
    assert text == StringPrint(id, true) + (" " + ("[ " + (Elements(nodes) + "]\n")));
    KeyStart(id, " " + value);
    StartsWell(id, true, " " + value);
    NewKeyed(fields, id, o, value);
    ArrayRead(fields, id, nodes, o);
    OneDefinition(fields, text, fields + [Field(id, Compound(false, Numbered(nodes)))], o);
  }

  lemma NewKeyed(fields: Fields, id: string, o: bool, value: string)
    requires IsNew(fields, id) && value != "" && value[0] == '['
    ensures ParseKeyed(fields, id, ModeOf('x', o), " " + value, false, o)
         == ParseBlock(fields, None, id, '[', value[1..], false, o)
  {
    hide ParseBlock, ParseComponent;
    assert (" " + value)[1..] == value && [value[0]] + value[1..] == value;
    SearchLast(fields, Field(id, Str("")));
    var m := ModeOf('x', o);
    assert NonWhite(value) == Next('[', value[1..]) && NonWhite(" " + value) == NonWhite(value);
    assert ParseKeyed(fields, id, m, " " + value, false, o) == ParseBody(fields, id, m, value, false, o);
    assert ParseBody(fields, id, m, value, false, o) == ParseContents(fields, None, id, value, false, o);
  }

  lemma ArrayRead(fields: Fields, id: string, nodes: seq<Node>, o: bool)
    requires IsNew(fields, id) && AreElements(nodes)
    ensures ParseBlock(fields, None, id, '[', " " + (Elements(nodes) + ("]" + "\n")), false, o)
         == Good(fields + [Field(id, Compound(false, Numbered(nodes)))], "")
  {
    hide ParseArrayDefs, ParseDefs, NonWhite, Elements, AfterSeparator, DigitsText;
    ElementsRead([], 0, nodes, "\n", o);
    ElementsEnd([], 0, "\n", o);
    ConfAssign.NothingLeft();
    assert [] + NumberedFrom(0, nodes) == Numbered(nodes);
    var made := fields + [Field(id, Compound(false, []))];
    var inner := " " + (Elements(nodes) + ("]" + "\n"));
    assert ParseNested(made, |fields|, '[', inner, false, o)
        == Nested(Reopened(made, |fields|, Numbered(nodes)), "\n", Good(Numbered(nodes), "]\n"), Matched);
    assert made[|fields| := Field(id, Compound(false, Numbered(nodes)))]
        == fields + [Field(id, Compound(false, Numbered(nodes)))];
  }
}
