// The type and the reference count of an object share one 32-bit word
// (src/alisp/alisp_local.h). The masks and shifts are written as arithmetic: the low
// 28 bits of a word are its remainder, the high four its quotient.

module LispWord {
  const COUNTS := 0x1000_0000  // ALISP_REFS_MASK + 1
  const WORDS := 0x1_0000_0000

  type Word = w: int | 0 <= w < WORDS

  // w & ALISP_REFS_MASK
  function GetRefs(w: Word): Word { w % COUNTS }

  // w >> ALISP_TYPE_SHIFT
  function GetType(w: Word): Word { w / COUNTS }

  // (w & ~ALISP_TYPE_MASK) | (kind << ALISP_TYPE_SHIFT)
  function WithType(w: Word, kind: Word): Word
    requires kind < 16
  {
    kind * COUNTS + w % COUNTS
  }

  // (w & ~ALISP_REFS_MASK) | (refs & ALISP_REFS_MASK)
  function WithRefs(w: Word, refs: Word): Word {
    w - w % COUNTS + refs % COUNTS
  }

  class Header {
    var typeRefs: Word

    // alisp_set_type
    method SetType(kind: Word)
      requires kind < 16
      modifies this
      ensures GetType(typeRefs) == kind && GetRefs(typeRefs) == old(GetRefs(typeRefs))
      ensures typeRefs == old(Step(typeRefs, Retype(kind)))
    {
      typeRefs := WithType(typeRefs, kind);
    }

    // alisp_set_refs: a count that does not fit loses its upper bits.
    method SetRefs(refs: Word)
      modifies this
      ensures GetRefs(typeRefs) == refs % COUNTS && GetType(typeRefs) == old(GetType(typeRefs))
      ensures typeRefs == old(Step(typeRefs, Recount(refs)))
    {
      typeRefs := WithRefs(typeRefs, refs);
    }

    // alisp_inc_refs
    method IncRefs() returns (r: Word)
      modifies this
      ensures typeRefs == old(Step(typeRefs, Inc)) && r == old(GetRefs(typeRefs)) + 1
    {
      r := GetRefs(typeRefs) + 1;
      SetRefs(r);
    }

    // alisp_dec_refs, in unsigned arithmetic
    method DecRefs() returns (r: Word)
      modifies this
      ensures typeRefs == old(Step(typeRefs, Dec))
      ensures r == 0 <==> old(GetRefs(typeRefs)) == 1
    {
      r := (GetRefs(typeRefs) - 1) % WORDS;
      SetRefs(r);
    }
  }

  datatype Op = Retype(kind: Word) | Recount(refs: Word) | Inc | Dec

  predicate Fits(op: Op) {
    op.Retype? ==> op.kind < 16
  }

  // What one operation does to the word ...
  function Step(w: Word, op: Op): Word
    requires Fits(op)
  {
    match op
    case Retype(kind) => WithType(w, kind)
    case Recount(refs) => WithRefs(w, refs)
    case Inc => WithRefs(w, GetRefs(w) + 1)
    case Dec => WithRefs(w, (GetRefs(w) - 1) % WORDS)
  }

  function Steps(w: Word, ops: seq<Op>): Word
    requires forall op :: op in ops ==> Fits(op)
    decreases ops
  {
    if ops == [] then w else
    assert ops[0] in ops;
    Steps(Step(w, ops[0]), ops[1..])
  }

  // ... and to a type and an unbounded count kept in two variables.
  function NextType(t: int, op: Op): int {
    if op.Retype? then op.kind else t
  }

  function NextCount(n: int, op: Op): int {
    match op
    case Retype(_) => n
    case Recount(refs) => refs
    case Inc => n + 1
    case Dec => n - 1
  }

  function TypeAfter(t: int, ops: seq<Op>): int
    decreases ops
  {
    if ops == [] then t else TypeAfter(NextType(t, ops[0]), ops[1..])
  }

  function CountAfter(n: int, ops: seq<Op>): int
    decreases ops
  {
    if ops == [] then n else CountAfter(NextCount(n, ops[0]), ops[1..])
  }

  lemma StepParts(w: Word, op: Op)
    requires Fits(op)
    ensures GetType(Step(w, op)) == NextType(GetType(w), op)
    ensures GetRefs(Step(w, op)) == NextCount(GetRefs(w), op) % COUNTS
  {
  }

  lemma RefsBound(w: Word)
    ensures GetRefs(w) % COUNTS == GetRefs(w)
  {
  }

  lemma {:induction false} CountModulo(n: int, m: int, ops: seq<Op>)
    requires n % COUNTS == m % COUNTS
    ensures CountAfter(n, ops) % COUNTS == CountAfter(m, ops) % COUNTS
    decreases ops
  {
    if ops != [] {
      CountModulo(NextCount(n, ops[0]), NextCount(m, ops[0]), ops[1..]);
    }
  }

  // Any run of operations acts on the word as on two separate variables; the count
  // is right modulo 2^28, and so exactly if it stays in range.
  lemma {:induction false} FieldsAreIndependent(w: Word, ops: seq<Op>)
    requires forall op :: op in ops ==> Fits(op)
    ensures GetType(Steps(w, ops)) == TypeAfter(GetType(w), ops)
    ensures GetRefs(Steps(w, ops)) == CountAfter(GetRefs(w), ops) % COUNTS
    decreases ops
  {
    hide GetType, GetRefs, Step;
    if ops != [] {
      assert ops[0] in ops;
      StepParts(w, ops[0]);
      FieldsAreIndependent(Step(w, ops[0]), ops[1..]);
      CountModulo(GetRefs(Step(w, ops[0])), NextCount(GetRefs(w), ops[0]), ops[1..]);
    } else {
      RefsBound(w);
    }
  }
}
