// Reading a text character by character, as both lexers of the library do.

module CharSource {
  // What a read returns: a character, or the end of the input.
  datatype Code = Eof | Ch(c: char)

  function Text(c: Code): string {
    match c case Eof => "" case Ch(x) => [x]
  }

  function Head(s: string): Code {
    if s == [] then Eof else Ch(s[0])
  }

  function Tail(s: string): string {
    if s == [] then [] else s[1..]
  }

  lemma Rejoin(s: string)
    ensures Text(Head(s)) + Tail(s) == s
  {
  }

  // Text that was collected, and text that is to come.
  function Join(a: string, b: string): string {
    a + b
  }

  lemma JoinIs(a: string, b: string)
    ensures Join(a, b) == a + b
  {
  }

  lemma JoinStep(a: string, b: string, t: string)
    ensures Join(a, b + t) == Join(a + b, t)
  {
    assert a + (b + t) == (a + b) + t;
  }

  lemma JoinEnd(a: string)
    ensures Join(a, "") == a && Join("", a) == a
  {
  }
}
