// The begin/end counters of include/iatomic.h: one writer brackets its changes to
// some shared fields, and any number of readers find out whether what they have
// read is in one piece. Memory is sequentially consistent here.

module AtomicCounters {
  const WORDS := 0x1_0000_0000

  type UInt = n: int | 0 <= n < WORDS

  function Increment(n: UInt): UInt {
    (n + 1) % WORDS
  }

  class AtomicWrite {
    var begin: UInt
    var end: UInt

    // snd_atomic_write_init
    constructor ()
      ensures begin == end == 0
    {
      begin, end := 0, 0;
    }

    // snd_atomic_write_begin
    method Begin(ghost s: State, ghost rs: map<int, AtomicRead>)
      requires Shows(this, rs, s) && Enabled(s, WriteBegin)
      modifies `begin
      ensures Shows(this, rs, Do(s, WriteBegin))
    {
      begin := (begin + 1) % WORDS;
    }

    // snd_atomic_write_end
    method End(ghost s: State, ghost rs: map<int, AtomicRead>)
      requires Shows(this, rs, s) && Enabled(s, WriteEnd)
      modifies `end
      ensures Shows(this, rs, Do(s, WriteEnd))
    {
      end := (end + 1) % WORDS;
    }
  }

  class AtomicRead {
    const write: AtomicWrite
    var end: UInt

    // snd_atomic_read_init
    constructor (w: AtomicWrite)
      ensures write == w
    {
      write := w;
    }

    // snd_atomic_read_begin, as the reader number `id`
    method Begin(ghost s: State, ghost rs: map<int, AtomicRead>, ghost id: int)
      requires Shows(write, rs, s) && forall i :: i in rs && rs[i] == this ==> i == id
      modifies this
      ensures Shows(write, rs[id := this], Do(s, ReadBegin(id)))
    {
      end := write.end;
    }

    // snd_atomic_read_ok. With fewer than 2^32 writes since, it tells that everything read
    // was left by one and the same completed write.
    method Ok(ghost s: State, ghost rs: map<int, AtomicRead>, ghost id: int) returns (ok: bool)
      requires Shows(write, rs, s) && Invariant(s) && id in rs && rs[id] == this
      ensures ok <==> (s.begun - s.readers[id].start) % WORDS == 0
      ensures ok && s.begun - s.readers[id].start < WORDS ==> SeenIn(s.readers[id].seen, s.left[s.readers[id].start])
    {
      hide SeenIn;
      assert ReaderOk(s, s.readers[id]);
      ok := end == write.begin;
    }
  }

  // The objects are in the state `s`, the readers with their numbers.
  ghost predicate Shows(w: AtomicWrite, rs: map<int, AtomicRead>, s: State)
    reads w, rs.Values
  {
    && w.begin == s.begin && w.end == s.end && rs.Keys == s.readers.Keys
    && forall id :: id in rs ==> rs[id].write == w && rs[id].end == s.readers[id].end
  }

  predicate Accepts(readEnd: UInt, begin: UInt) {
    readEnd == begin
  }

  type Memory = map<string, int>

  // A reader has copied `end` into its own counter, and some fields. `start` is the
  // number of writes that had been completed by then; the protocol does not know it.
  datatype Reader = Reader(end: UInt, start: nat, seen: Memory)

  // `begun`, `done` and `left` record the history for the sake of the proofs: the
  // writes begun and completed, and the fields as each completed write left them.
  datatype State = State(
    begin: UInt, end: UInt, fields: Memory, readers: map<int, Reader>,
    begun: nat, done: nat, left: seq<Memory>)

  datatype Step =
    | WriteBegin
    | WriteField(name: string, value: int)
    | WriteEnd
    | ReadBegin(id: int)
    | ReadField(id: int, name: string)

  function Start(fields: Memory): State {
    State(0, 0, fields, map[], 0, 0, [fields])
  }

  // The one writer alternates between begin and end; readers step at any time.
  predicate Enabled(s: State, step: Step) {
    match step
    case WriteBegin => s.begun == s.done
    case WriteField(_, _) => s.begun == s.done + 1
    case WriteEnd => s.begun == s.done + 1
    case ReadBegin(_) => true
    case ReadField(id, name) => id in s.readers && name in s.fields
  }

  function Do(s: State, step: Step): State
    requires Enabled(s, step)
  {
    match step
    case WriteBegin => s.(begin := Increment(s.begin), begun := s.begun + 1)
    case WriteField(name, value) => s.(fields := s.fields[name := value])
    case WriteEnd => s.(end := Increment(s.end), done := s.done + 1, left := s.left + [s.fields])
    case ReadBegin(id) => s.(readers := s.readers[id := Reader(s.end, s.done, map[])])
    case ReadField(id, name) =>
      var r := s.readers[id];
      s.(readers := s.readers[id := r.(seen := r.seen[name := s.fields[name]])])
  }

  predicate CanRun(s: State, steps: seq<Step>)
    decreases steps
  {
    steps == [] || (Enabled(s, steps[0]) && CanRun(Do(s, steps[0]), steps[1..]))
  }

  function Run(s: State, steps: seq<Step>): State
    requires CanRun(s, steps)
    decreases steps
  {
    if steps == [] then s else Run(Do(s, steps[0]), steps[1..])
  }

  // Everything a reader has seen was left by the write numbered `k`.
  predicate SeenIn(seen: Memory, memory: Memory) {
    forall name :: name in seen ==> name in memory && seen[name] == memory[name]
  }

  predicate ReaderOk(s: State, r: Reader)
    requires s.done < |s.left|
  {
    && r.start <= s.done && r.end == r.start % WORDS
    && (s.begun == r.start ==> SeenIn(r.seen, s.left[r.start]))
  }

  predicate Invariant(s: State) {
    && s.done <= s.begun <= s.done + 1 && |s.left| == s.done + 1
    && s.begin == s.begun % WORDS && s.end == s.done % WORDS
    && (s.begun == s.done ==> s.fields == s.left[s.done])
    && forall id :: id in s.readers ==> ReaderOk(s, s.readers[id])
  }

  lemma StepKeepsInvariant(s: State, step: Step)
    requires Invariant(s) && Enabled(s, step)
    ensures Invariant(Do(s, step))
  {
  }

  lemma {:induction false} RunKeepsInvariant(s: State, steps: seq<Step>)
    requires Invariant(s) && CanRun(s, steps)
    ensures Invariant(Run(s, steps))
    decreases steps
  {
    hide Invariant, Do, Enabled;
    if steps != [] {
      StepKeepsInvariant(s, steps[0]);
      RunKeepsInvariant(Do(s, steps[0]), steps[1..]);
    }
  }

  // In every interleaving, a reader is told its data is good exactly if the number
  // of writes begun since the last one it knows to be complete is a multiple of 2^32.
  lemma AcceptedExactly(fields: Memory, steps: seq<Step>, id: int)
    requires CanRun(Start(fields), steps) && id in Run(Start(fields), steps).readers
    ensures var s := Run(Start(fields), steps); var r := s.readers[id];
      r.start <= s.begun && (Accepts(r.end, s.begin) <==> (s.begun - r.start) % WORDS == 0)
  {
    hide Run, CanRun, SeenIn;
    RunKeepsInvariant(Start(fields), steps);
    var s := Run(Start(fields), steps);
    assert ReaderOk(s, s.readers[id]);
    Congruent(s.readers[id].start, s.begun);
  }

  lemma Congruent(a: nat, b: nat)
    requires a <= b
    ensures a % WORDS == b % WORDS <==> (b - a) % WORDS == 0
  {
  }

  // Untorn reads: if fewer than 2^32 writes were begun meanwhile, then all fields of
  // an accepted read have the values that one and the same completed write left.
  lemma AcceptedReadsAreUntorn(fields: Memory, steps: seq<Step>, id: int)
    requires CanRun(Start(fields), steps) && id in Run(Start(fields), steps).readers
    ensures var s := Run(Start(fields), steps); var r := s.readers[id];
      Accepts(r.end, s.begin) && s.begun - r.start < WORDS ==>
        r.start < |s.left| && SeenIn(r.seen, s.left[r.start])
  {
    hide Run, CanRun, SeenIn;
    RunKeepsInvariant(Start(fields), steps);
    AcceptedExactly(fields, steps, id);
  }

  // The counters never drift apart by more than the write in progress.
  lemma CountersStayClose(fields: Memory, steps: seq<Step>)
    requires CanRun(Start(fields), steps)
    ensures var s := Run(Start(fields), steps);
      s.begin == s.end || s.begin == Increment(s.end)
  {
    hide Run, CanRun;
    RunKeepsInvariant(Start(fields), steps);
  }

  // A write of 1 to both fields.
  const ONES: seq<Step> := [WriteBegin, WriteField("a", 1), WriteField("b", 1), WriteEnd]

  function Repeat(n: nat): seq<Step> {
    if n == 0 then [] else ONES + Repeat(n - 1)
  }

  lemma {:induction false} RunConcat(s: State, a: seq<Step>, b: seq<Step>)
    requires CanRun(s, a) && CanRun(Run(s, a), b)
    ensures CanRun(s, a + b) && Run(s, a + b) == Run(Run(s, a), b)
    decreases a
  {
    hide Do, Enabled;
    if a == [] {
      assert a + b == b;
    } else {
      assert (a + b)[1..] == a[1..] + b;
      RunConcat(Do(s, a[0]), a[1..], b);
    }
  }

  lemma RunOnes(s: State)
    requires s.begun == s.done
    ensures CanRun(s, ONES)
    ensures Run(s, ONES) ==
      State(Increment(s.begin), Increment(s.end), s.fields["a" := 1]["b" := 1], s.readers,
            s.begun + 1, s.done + 1, s.left + [s.fields["a" := 1]["b" := 1]])
  {
    var s1 := Do(s, WriteBegin);
    var s2 := Do(s1, WriteField("a", 1));
    var s3 := Do(s2, WriteField("b", 1));
    var s4 := Do(s3, WriteEnd);
    assert ONES[1..][1..] == [WriteField("b", 1), WriteEnd];
    assert ONES[1..] == [WriteField("a", 1), WriteField("b", 1), WriteEnd];
    assert CanRun(s4, []) && Run(s4, []) == s4;
    assert [WriteEnd][1..] == [];
    assert CanRun(s3, [WriteEnd]) && Run(s3, [WriteEnd]) == s4;
    assert [WriteField("b", 1), WriteEnd][1..] == [WriteEnd];
    assert CanRun(s2, [WriteField("b", 1), WriteEnd]) && Run(s2, [WriteField("b", 1), WriteEnd]) == s4;
    assert CanRun(s1, ONES[1..]) && Run(s1, ONES[1..]) == s4;
  }

  lemma RunNothing(s: State)
    ensures CanRun(s, []) && Run(s, []) == s
  {
  }

  lemma {:induction false} RunRepeat(s: State, n: nat)
    requires s.begun == s.done && s.fields == map["a" := 1, "b" := 1]
    ensures CanRun(s, Repeat(n))
    ensures var t := Run(s, Repeat(n));
      && t.begun == t.done == s.done + n && t.fields == s.fields && t.readers == s.readers
      && |t.left| == |s.left| + n && (forall k :: 0 <= k < |s.left| ==> t.left[k] == s.left[k])
      && (forall k :: |s.left| <= k < |t.left| ==> t.left[k] == s.fields)
    decreases n
  {
    hide CanRun, Run, Do, Enabled;
    if n == 0 {
      RunNothing(s);
    } else {
      RunOnes(s);
      assert s.fields["a" := 1]["b" := 1] == s.fields;
      RunRepeat(Run(s, ONES), n - 1);
      RunConcat(s, ONES, Repeat(n - 1));
    }
  }

  // A reader that reads one field, sleeps through 2^32 writes, and reads another.
  function SlowRead(): seq<Step> {
    [ReadBegin(0), ReadField(0, "a")] + (ONES + (Repeat(WORDS - 1) + [ReadField(0, "b")]))
  }

  lemma RunTwo(s: State, a: Step, b: Step)
    requires Enabled(s, a) && Enabled(Do(s, a), b)
    ensures CanRun(s, [a, b]) && Run(s, [a, b]) == Do(Do(s, a), b)
    ensures CanRun(s, [a]) && Run(s, [a]) == Do(s, a)
  {
    assert [a, b][1..] == [b] && [b][1..] == [] && [a][1..] == [];
    assert CanRun(Do(s, a), [b]) && Run(Do(s, a), [b]) == Do(Do(s, a), b);
  }

  // The bound is sharp: after 2^32 writes in the middle of a read, a mixture that no
  // write ever left is accepted.
  lemma TornAfterWrapAround()
    ensures var start := Start(map["a" := 0, "b" := 0]);
      && CanRun(start, SlowRead())
      && var s := Run(start, SlowRead());
         && 0 in s.readers && Accepts(s.readers[0].end, s.begin)
         && s.begun - s.readers[0].start == WORDS
         && forall k :: 0 <= k < |s.left| ==> !SeenIn(s.readers[0].seen, s.left[k])
  {
    hide CanRun, Run, Repeat;
    var fields: Memory := map["a" := 0, "b" := 0];
    var s0 := Start(fields);
    RunTwo(s0, ReadBegin(0), ReadField(0, "a"));
    var s1 := Run(s0, [ReadBegin(0), ReadField(0, "a")]);
    RunOnes(s1);
    var s2 := Run(s1, ONES);
    assert s2.fields == map["a" := 1, "b" := 1];
    RunRepeat(s2, WORDS - 1);
    var s3 := Run(s2, Repeat(WORDS - 1));
    RunTwo(s3, ReadField(0, "b"), ReadField(0, "b"));
    RunConcat(s2, Repeat(WORDS - 1), [ReadField(0, "b")]);
    RunConcat(s1, ONES, Repeat(WORDS - 1) + [ReadField(0, "b")]);
    RunConcat(s0, [ReadBegin(0), ReadField(0, "a")], ONES + (Repeat(WORDS - 1) + [ReadField(0, "b")]));
    var s := Run(s0, SlowRead());
    var r := s.readers[0];
    AcceptedExactly(fields, SlowRead(), 0);
    assert r.seen["a"] == 0 && r.seen["b"] == 1;
    assert s.left[0] == fields && forall k :: 1 <= k < |s.left| ==> s.left[k]["a"] == 1;
  }

  // What the protocol is for, with at most `n` writes in the middle of a read: whatever is
  // accepted was left by one write.
  ghost predicate UntornUpTo(n: nat) {
    forall fields: Memory, steps: seq<Step>, id: int :: UntornAt(n, fields, steps, id)
  }

  ghost predicate UntornAt(n: nat, fields: Memory, steps: seq<Step>, id: int) {
    CanRun(Start(fields), steps) && id in Run(Start(fields), steps).readers ==>
      var s := Run(Start(fields), steps);
      Accepts(s.readers[id].end, s.begin) && s.begun - s.readers[id].start <= n ==>
        exists k :: 0 <= k < |s.left| && SeenIn(s.readers[id].seen, s.left[k])
  }

  // It holds exactly for fewer than 2^32 writes.
  lemma UntornExactly(n: nat)
    ensures UntornUpTo(n) <==> n < WORDS
  {
    hide Run, CanRun, SeenIn;
    if n < WORDS {
      forall fields: Memory, steps: seq<Step>, id: int ensures UntornAt(n, fields, steps, id) {
        if CanRun(Start(fields), steps) && id in Run(Start(fields), steps).readers {
          AcceptedReadsAreUntorn(fields, steps, id);
        }
      }
    } else {
      TornAfterWrapAround();
      assert !UntornAt(n, map["a" := 0, "b" := 0], SlowRead(), 0);
    }
  }
}
