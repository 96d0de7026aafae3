// S-expressions of the ALSA Lisp and the accessors of src/alisp/alisp.c that
// look at them without touching memory.

module LispSyntax {

  // One value of the interpreter, unfolded to a tree. Floats and raw pointers
  // are not part of this model.
  datatype SExp =
    | Nil
    | T
    | Int(i: int)
    | Str(s: string)
    | Id(s: string)
    | Cons(car: SExp, cdr: SExp)

  function Car(e: SExp): SExp {
    if e.Cons? then e.car else Nil
  }

  function Cdr(e: SExp): SExp {
    if e.Cons? then e.cdr else Nil
  }

  // Identifiers and strings both name bindings.
  predicate IsName(e: SExp) {
    e.Id? || e.Str?
  }

  function NameOf(e: SExp): string
    requires IsName(e)
  {
    e.s
  }

  // The number of conses on the cdr spine, as count_list computes it.
  function Count(e: SExp): nat {
    if e.Cons? then 1 + Count(e.cdr) else 0
  }

  predicate IsProperList(e: SExp) {
    e.Nil? || (e.Cons? && IsProperList(e.cdr))
  }

  function Elements(e: SExp): (s: seq<SExp>)
    ensures |s| == Count(e)
  {
    if e.Cons? then [e.car] + Elements(e.cdr) else []
  }

  predicate AllNames(e: SExp) {
    e.Cons? ==> IsName(e.car) && AllNames(e.cdr)
  }

  function Names(e: SExp): (s: seq<string>)
    requires AllNames(e)
    ensures |s| == Count(e)
  {
    if e.Cons? then [NameOf(e.car)] + Names(e.cdr) else []
  }

  predicate Distinct<X(==)>(s: seq<X>) {
    forall i, j :: 0 <= i < j < |s| ==> s[i] != s[j]
  }

  // A parameter list the interpreter can bind and restore: a proper list of
  // distinct names.
  predicate IsParameterList(e: SExp) {
    IsProperList(e) && AllNames(e) && Distinct(Names(e))
  }

  function ToSet<X>(s: seq<X>): set<X> {
    set x | x in s
  }
}
