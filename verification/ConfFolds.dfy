// The ordered folds over unordered children in src/confmisc.c: `@func concat` and
// `@func iadd` combine the children whose ids are the numbers 0, 1, 2, ...

module ConfFolds {
  import opened ConfText
  import opened ConfTree
  import opened ConfSave
  import opened ConfArgs
  import opened ConfParse
  import opened ConfRoundTrip

  // safe_strtol on an id
  function Number(id: string): Option<int> {
    match Signed(id)
    case None => None
    case Some(i) => if LLONG_MIN <= i <= LLONG_MAX then Some(i) else None
  }

  predicate AllNumbers(fields: Fields) {
    forall f :: f in fields ==> Number(f.id).Some?
  }

  // snd_config_get_ascii. An integer is printed into 12 bytes.
  function Ascii(node: Node): Option<string> {
    match node
    case Integer(i) =>
      var t := IntText(i);
      if |t| == 12 then None else Some(if |t| < 12 then t else t[..11])
    case Integer64(i) => Some(IntText(i))
    case Real(t) => Some(t)
    case Str(s) => Some(s)
    case Compound(_, _) => None
  }

  // snd_config_get_integer
  function LongOf(node: Node): Option<int> {
    match node case Integer(i) => Some(i) case _ => None
  }

  predicate Has(fields: Fields, j: int) {
    exists f :: f in fields && Number(f.id) == Some(j)
  }

  // Nodes for the indices 0, 1, ..., one for each ...
  predicate AreFirst(fields: Fields, picked: seq<Field>) {
    forall j :: 0 <= j < |picked| ==> picked[j] in fields && Number(picked[j].id) == Some(j)
  }

  // ... up to the first missing index
  predicate IsPicked(fields: Fields, picked: seq<Field>) {
    AreFirst(fields, picked) && !Has(fields, |picked|)
  }

  function Texts(picked: seq<Field>): Option<string> {
    if picked == [] then Some("")
    else
      var n := |picked| - 1;
      match (Texts(picked[..n]), Ascii(picked[n].node))
      case (Some(a), Some(b)) => Some(a + b)
      case _ => None
  }

  function Sum(picked: seq<Field>): Option<int> {
    if picked == [] then Some(0)
    else
      var n := |picked| - 1;
      match (Sum(picked[..n]), LongOf(picked[n].node))
      case (Some(a), Some(b)) => Some(a + b)
      case _ => None
  }

  // The indices found so far all belong to different children.
  lemma {:induction false} Pigeonhole(fields: Fields, n: nat)
    requires forall j :: 0 <= j < n ==> Has(fields, j)
    ensures n <= |fields|
    decreases n
  {
    hide Number;
    if n > 0 {
      assert Has(fields, n - 1);
      var m :| 0 <= m < |fields| && Number(fields[m].id) == Some(n - 1);
      var rest := Drop(fields, m);
      forall j | 0 <= j < n - 1 ensures Has(rest, j) {
        assert Has(fields, j);
        var k :| 0 <= k < |fields| && Number(fields[k].id) == Some(j);
        assert fields[k] == if k < m then rest[k] else rest[k-1];
      }
      Pigeonhole(rest, n - 1);
    }
  }

  lemma Bounded(fields: Fields, picked: seq<Field>)
    requires AreFirst(fields, picked)
    ensures |picked| <= |fields|
  {
    hide Number;
    forall j | 0 <= j < |picked| ensures Has(fields, j) {
      assert picked[j] in fields && Number(picked[j].id) == Some(j);
    }
    Pigeonhole(fields, |picked|);
  }

  // What snd_func_concat makes of the children, of which it has taken `picked`, in this
  // order. It succeeds if all ids are numbers, all values taken have a text, and there is
  // one.
  predicate Concatenated(fields: Fields, picked: seq<Field>, res: Option<string>) {
    if !AllNumbers(fields) then res == None
    else
      AreFirst(fields, picked) &&
      match res
      case Some(text) => picked != [] && IsPicked(fields, picked) && Texts(picked) == Some(text)
      case None => (picked == [] && IsPicked(fields, picked)) || Texts(picked) == None
  }

  // The passes of snd_func_concat
  method Concat(fields: Fields) returns (res: Option<string>, picked: seq<Field>)
    ensures Concatenated(fields, picked, res)
    ensures forall nodes: seq<Node> :: IsNumbered(fields, nodes) && nodes != [] ==> IsConcatOf(nodes, res)
  {
    hide Number, Ascii, Texts, IsNumbered, IsConcatOf;
    picked := [];
    TextsAppend([], Field("", Integer(0)));
    var text, idx, hit := "", 0, true;
    while hit
      invariant idx == |picked| && Texts(picked) == Some(text)
      invariant AreFirst(fields, picked)
      invariant !hit ==> AllNumbers(fields) && !Has(fields, idx)
      decreases |fields| - idx, hit
    {
      hit := false;
      ghost var start := idx;
      for k := 0 to |fields|
        invariant idx == |picked| >= start && Texts(picked) == Some(text) && (hit <==> idx > start)
        invariant AreFirst(fields, picked)
        invariant forall m :: 0 <= m < k ==> Number(fields[m].id).Some?
        invariant !hit ==> forall m :: 0 <= m < k ==> Number(fields[m].id) != Some(idx)
      {
        var i := Number(fields[k].id);
        if i.None? {
          ConcatOfNumbered(fields, picked, None);
          return None, picked;
        }
        if i.value == idx {
          var t := Ascii(fields[k].node);
          TextsAppend(picked, fields[k]);
          picked, idx := picked + [fields[k]], idx + 1;
          if t.None? {
            ConcatOfNumbered(fields, picked, None);
            return None, picked;
          }
          text := text + t.value;
          hit := true;
        }
      }
      Bounded(fields, picked);
    }
    res := if picked == [] then None else Some(text);
    ConcatOfNumbered(fields, picked, res);
  }

  lemma TextsAppend(picked: seq<Field>, f: Field)
    ensures Texts([]) == Some("")
    ensures Texts(picked + [f]) ==
      match (Texts(picked), Ascii(f.node))
      case (Some(a), Some(b)) => Some(a + b)
      case _ => None
  {
    hide Ascii;
    assert (picked + [f])[..|picked|] == picked;
  }

  lemma SumAppend(picked: seq<Field>, f: Field)
    ensures Sum([]) == Some(0)
    ensures Sum(picked + [f]) ==
      match (Sum(picked), LongOf(f.node))
      case (Some(a), Some(b)) => Some(a + b)
      case _ => None
  {
    assert (picked + [f])[..|picked|] == picked;
  }

  // What snd_func_iops makes of the children, with an accumulator that does not overflow.
  // Addition is as documented; multiplication also starts from zero, and never leaves it.
  predicate Folded(fields: Fields, multiply: bool, picked: seq<Field>, res: Option<int>) {
    if !AllNumbers(fields) then res == None
    else
      AreFirst(fields, picked) &&
      match res
      case Some(v) => IsPicked(fields, picked) && Sum(picked).Some? && v == (if multiply then 0 else Sum(picked).value)
      case None => Sum(picked) == None
  }

  // The passes of snd_func_iops
  method FoldIntegers(fields: Fields, multiply: bool) returns (res: Option<int>, picked: seq<Field>)
    ensures Folded(fields, multiply, picked, res)
    ensures forall nodes: seq<Node> :: IsNumbered(fields, nodes) ==> IsFoldOf(nodes, multiply, res)
  {
    hide Number, Sum, LongOf, IsNumbered, IsFoldOf;
    picked := [];
    SumAppend([], Field("", Str("")));
    var result, idx, hit := 0, 0, true;
    while hit
      invariant idx == |picked| && Sum(picked).Some? && result == (if multiply then 0 else Sum(picked).value)
      invariant AreFirst(fields, picked)
      invariant !hit ==> AllNumbers(fields) && !Has(fields, idx)
      decreases |fields| - idx, hit
    {
      hit := false;
      ghost var start := idx;
      for k := 0 to |fields|
        invariant idx == |picked| >= start && Sum(picked).Some? && (hit <==> idx > start)
        invariant result == if multiply then 0 else Sum(picked).value
        invariant AreFirst(fields, picked)
        invariant forall m :: 0 <= m < k ==> Number(fields[m].id).Some?
        invariant !hit ==> forall m :: 0 <= m < k ==> Number(fields[m].id) != Some(idx)
      {
        var i := Number(fields[k].id);
        if i.None? {
          FoldOfNumbered(fields, multiply, picked, None);
          return None, picked;
        }
        if i.value == idx {
          var v := LongOf(fields[k].node);
          SumAppend(picked, fields[k]);
          picked, idx := picked + [fields[k]], idx + 1;
          if v.None? {
            FoldOfNumbered(fields, multiply, picked, None);
            return None, picked;
          }
          result := if multiply then result * v.value else result + v.value;
          hit := true;
        }
      }
      Bounded(fields, picked);
    }
    res := Some(result);
    FoldOfNumbered(fields, multiply, picked, res);
  }

  predicate DistinctNumbers(fields: Fields) {
    forall i, j :: 0 <= i < j < |fields| ==> Number(fields[i].id) != Number(fields[j].id)
  }

  // If no two ids denote the same number, the order of the children does not matter:
  // there is only one way to pick, as far as one goes.
  lemma PickedAlike(fields: Fields, others: Fields, a: seq<Field>, b: seq<Field>)
    requires DistinctNumbers(fields) && multiset(fields) == multiset(others)
    requires AreFirst(fields, a) && AreFirst(others, b)
    ensures (|a| <= |b| ==> a == b[..|a|]) && (|b| <= |a| ==> b == a[..|b|])
    ensures (IsPicked(fields, a) ==> |b| <= |a|) && (IsPicked(others, b) ==> |a| <= |b|)
    ensures AllNumbers(fields) <==> AllNumbers(others)
  {
    hide Number;
    assert forall f :: f in fields <==> f in multiset(fields);
    assert forall f :: f in others <==> f in multiset(others);
    assert forall j :: 0 <= j < |b| ==> b[j] in fields && Has(fields, j);
    assert forall j :: 0 <= j < |a| ==> a[j] in others && Has(others, j);
    forall j | 0 <= j < |a| && j < |b| ensures a[j] == b[j] {
      SameNumber(fields, a[j], b[j]);
    }
  }

  lemma {:induction false} TextsFail(picked: seq<Field>, n: nat)
    requires n <= |picked| && Texts(picked[..n]) == None
    ensures Texts(picked) == None
    decreases |picked|
  {
    hide Ascii;
    if n < |picked| {
      assert picked[..|picked|-1][..n] == picked[..n];
      TextsFail(picked[..|picked|-1], n);
    } else {
      assert picked[..n] == picked;
    }
  }

  lemma {:induction false} SumFails(picked: seq<Field>, n: nat)
    requires n <= |picked| && Sum(picked[..n]) == None
    ensures Sum(picked) == None
    decreases |picked|
  {
    hide LongOf;
    if n < |picked| {
      assert picked[..|picked|-1][..n] == picked[..n];
      SumFails(picked[..|picked|-1], n);
    } else {
      assert picked[..n] == picked;
    }
  }

  // Two runs of `@func concat` on the same children in different orders give the same text,
  // or both fail.
  lemma ConcatOrderIrrelevant(fields: Fields, others: Fields, a: seq<Field>, r: Option<string>,
                              b: seq<Field>, q: Option<string>)
    requires DistinctNumbers(fields) && multiset(fields) == multiset(others)
    requires Concatenated(fields, a, r) && Concatenated(others, b, q)
    ensures r == q
  {
    hide Number, Texts, Has;
    PickedAlike(fields, others, [], []);
    if AllNumbers(fields) {
      PickedAlike(fields, others, a, b);
      if r.Some? && q == None && |b| <= |a| && Texts(b) == None { TextsFail(a, |b|); }
      if q.Some? && r == None && |a| <= |b| && Texts(a) == None { TextsFail(b, |a|); }
      assert a[..|a|] == a && b[..|b|] == b;
    }
  }

  // The same for `@func iadd` and `@func imul`.
  lemma FoldOrderIrrelevant(fields: Fields, others: Fields, multiply: bool, a: seq<Field>, r: Option<int>,
                            b: seq<Field>, q: Option<int>)
    requires DistinctNumbers(fields) && multiset(fields) == multiset(others)
    requires Folded(fields, multiply, a, r) && Folded(others, multiply, b, q)
    ensures r == q
  {
    hide Number, Sum, Has;
    PickedAlike(fields, others, [], []);
    if AllNumbers(fields) {
      PickedAlike(fields, others, a, b);
      if r.Some? && q == None { SumFails(a, |b|); }
      if q.Some? && r == None { SumFails(b, |a|); }
      assert a[..|a|] == a && b[..|b|] == b;
    }
  }

  lemma SameNumber(fields: Fields, f: Field, g: Field)
    requires DistinctNumbers(fields) && f in fields && g in fields && Number(f.id) == Number(g.id)
    ensures f == g
  {
    hide Number;
    var i :| 0 <= i < |fields| && fields[i] == f;
    var j :| 0 <= j < |fields| && fields[j] == g;
  }

  // ---- numbered children ----

  // The children are `nodes`, in any order, and have the numbers 0, 1, ... for their ids.
  ghost predicate IsNumbered(fields: Fields, nodes: seq<Node>) {
    |nodes| <= LLONG_MAX && multiset(fields) == multiset(Numbered(nodes))
  }

  function Numbered(nodes: seq<Node>): (r: Fields)
    ensures |r| == |nodes| && forall i :: 0 <= i < |r| ==> r[i] == Field(DigitsText(i), nodes[i])
  {
    seq(|nodes|, i requires 0 <= i < |nodes| => Field(DigitsText(i), nodes[i]))
  }

  function Joined(ss: seq<string>): string {
    if ss == [] then "" else ss[0] + Joined(ss[1..])
  }

  // An integer whose text would have twelve characters.
  predicate IsWide(i: int) {
    100_000_000_000 <= i < 1_000_000_000_000 || -100_000_000_000 < i <= -10_000_000_000
  }

  // Only these have no text.
  predicate HasText(node: Node) {
    !node.Compound? && (node.Integer? ==> !IsWide(node.i))
  }

  // A string is its own text. That of an integer, if it is not cut off, can be read back.
  predicate IsTextOf(node: Node, t: string) {
    match node
    case Integer(i) =>
      if -10_000_000_000 < i < 100_000_000_000 then t == IntText(i) && ParseInt(t) == Some(i) else |t| == 11
    case Integer64(i) => t == IntText(i) && (LLONG_MIN <= i <= LLONG_MAX ==> ParseInt(t) == Some(i))
    case Real(text) => t == text
    case Str(s) => t == s
    case Compound(_, _) => false
  }

  predicate AreTextsOf(nodes: seq<Node>, ts: seq<string>) {
    |ts| == |nodes| && forall i :: 0 <= i < |ts| ==> IsTextOf(nodes[i], ts[i])
  }

  ghost predicate IsConcatOf(nodes: seq<Node>, res: Option<string>) {
    && (res.Some? <==> forall n :: n in nodes ==> HasText(n))
    && (res.Some? ==> exists ts :: AreTextsOf(nodes, ts) && res == Some(Joined(ts)))
  }

  function Total(nodes: seq<Node>): int {
    if nodes == [] then 0 else (if nodes[0].Integer? then nodes[0].i else 0) + Total(nodes[1..])
  }

  ghost predicate IsFoldOf(nodes: seq<Node>, multiply: bool, res: Option<int>) {
    && (res.Some? <==> forall n :: n in nodes ==> n.Integer?)
    && (res.Some? ==> res == Some(if multiply then 0 else Total(nodes)))
  }

  // A number is the number that its decimal text denotes.
  lemma NumberOfText(j: nat)
    requires j <= LLONG_MAX
    ensures Number(DigitsText(j)) == Some(j)
  {
    hide DigitsText, Unsigned;
    DigitsTextDigits(j);
    ReadDigits(j);
    assert DigitsText(j)[0] in DigitsText(j);
  }

  function Pow10(k: nat): nat {
    if k == 0 then 1 else 10 * Pow10(k - 1)
  }

  lemma {:induction false} DigitsLen(n: nat, k: nat)
    requires k > 0
    ensures |DigitsText(n)| <= k <==> n < Pow10(k)
    decreases k
  {
    assert Pow10(1) == 10 * Pow10(0);
    if n >= 10 {
      if k == 1 {
        DigitsTextDigits(n / 10);
      } else {
        DigitsLen(n / 10, k - 1);
      }
    } else {
      PowGrows(k);
    }
  }

  lemma {:induction false} PowGrows(k: nat)
    requires k > 0
    ensures Pow10(k) >= 10
  {
    if k > 1 { PowGrows(k - 1); }
  }

  lemma Powers()
    ensures Pow10(10) == 10_000_000_000 && Pow10(11) == 100_000_000_000 && Pow10(12) == 1_000_000_000_000
  {
    assert Pow10(5) == 100_000;
    assert Pow10(10) == 10_000_000_000;
  }

  lemma IntWidth(i: int)
    ensures |IntText(i)| == 12 <==> IsWide(i)
    ensures |IntText(i)| < 12 <==> -10_000_000_000 < i < 100_000_000_000
  {
    hide DigitsText, Pow10;
    Powers();
    var n: nat := if i < 0 then -i else i;
    DigitsLen(n, 10);
    DigitsLen(n, 11);
    DigitsLen(n, 12);
  }

  lemma AsciiIs(node: Node)
    ensures Ascii(node).Some? <==> HasText(node)
    ensures Ascii(node).Some? ==> IsTextOf(node, Ascii(node).value)
  {
    hide IntText, ParseInt;
    if node.Integer? || node.Integer64? {
      IntWidth(node.i);
      ReadInt(node.i);
    }
  }

  lemma {:induction false} JoinedAppend(ss: seq<string>, t: string)
    ensures Joined(ss + [t]) == Joined(ss) + t
  {
    if ss == [] {
      assert [t][1..] == [] && ss + [t] == [t];
    } else {
      assert (ss + [t])[1..] == ss[1..] + [t];
      JoinedAppend(ss[1..], t);
    }
  }

  lemma {:induction false} TotalAppend(nodes: seq<Node>, n: Node)
    ensures Total(nodes + [n]) == Total(nodes) + if n.Integer? then n.i else 0
  {
    if nodes == [] {
      assert [n][1..] == [] && nodes + [n] == [n];
    } else {
      assert (nodes + [n])[1..] == nodes[1..] + [n];
      TotalAppend(nodes[1..], n);
    }
  }

  lemma {:induction false} TextsAre(picked: seq<Field>) returns (ts: seq<string>)
    ensures Texts(picked).Some? <==> forall f :: f in picked ==> HasText(f.node)
    ensures Texts(picked).Some? ==>
      && |ts| == |picked| && (forall i :: 0 <= i < |ts| ==> IsTextOf(picked[i].node, ts[i]))
      && Texts(picked).value == Joined(ts)
  {
    hide Ascii, HasText, IsTextOf;
    ts := [];
    if picked != [] {
      var n := |picked| - 1;
      var ts' := TextsAre(picked[..n]);
      AsciiIs(picked[n].node);
      assert picked == picked[..n] + [picked[n]];
      if Texts(picked).Some? {
        ts := ts' + [Ascii(picked[n].node).value];
        JoinedAppend(ts', Ascii(picked[n].node).value);
      }
    }
  }

  lemma {:induction false} SumIs(picked: seq<Field>, nodes: seq<Node>)
    requires |nodes| == |picked| && forall i :: 0 <= i < |nodes| ==> picked[i].node == nodes[i]
    ensures Sum(picked).Some? <==> forall n :: n in nodes ==> n.Integer?
    ensures Sum(picked).Some? ==> Sum(picked).value == Total(nodes)
  {
    if picked != [] {
      var n := |picked| - 1;
      SumIs(picked[..n], nodes[..n]);
      assert nodes == nodes[..n] + [nodes[n]];
      TotalAppend(nodes[..n], nodes[n]);
    }
  }

  // What is picked of numbered children.
  lemma PickedNumbered(fields: Fields, nodes: seq<Node>, picked: seq<Field>)
    requires IsNumbered(fields, nodes) && AreFirst(fields, picked)
    ensures AllNumbers(fields) && |picked| <= |nodes| && picked == Numbered(nodes)[..|picked|]
    ensures IsPicked(fields, picked) <==> |picked| == |nodes|
  {
    hide Number, DigitsText;
    var all := Numbered(nodes);
    assert forall f :: f in fields <==> f in multiset(fields);
    assert forall f :: f in all <==> f in multiset(all);
    forall i | 0 <= i < |all| ensures Number(all[i].id) == Some(i) && all[i] in fields {
      NumberOfText(i);
      assert all[i] in all;
    }
    forall j | 0 <= j < |picked| ensures j < |nodes| && picked[j] == all[j] {
      var i :| 0 <= i < |all| && all[i] == picked[j];
    }
    assert picked != [] ==> picked[|picked|-1] in picked;
    if |picked| < |nodes| {
      assert Has(fields, |picked|);
    } else {
      forall f | f in fields ensures Number(f.id) != Some(|picked|) {
        var i :| 0 <= i < |all| && all[i] == f;
      }
    }
  }

  // So `@func concat` of them fails exactly if one has no text, and otherwise joins their
  // texts in the order of their numbers.
  lemma ConcatOfNumbered(fields: Fields, picked: seq<Field>, res: Option<string>)
    requires Concatenated(fields, picked, res)
    ensures forall nodes: seq<Node> :: IsNumbered(fields, nodes) && nodes != [] ==> IsConcatOf(nodes, res)
  {
    hide IsNumbered, Texts, HasText, IsTextOf, Number, IsPicked, Joined;
    forall nodes: seq<Node> | IsNumbered(fields, nodes) && nodes != [] ensures IsConcatOf(nodes, res) {
      PickedNumbered(fields, nodes, []);
      PickedNumbered(fields, nodes, picked);
      var ts := TextsAre(picked);
      forall i | 0 <= i < |picked| ensures picked[i].node == nodes[i] && nodes[i] in nodes && picked[i] in picked {
      }
      if res.Some? {
        assert AreTextsOf(nodes, ts);
        forall n | n in nodes ensures HasText(n) {
          var i :| 0 <= i < |nodes| && nodes[i] == n;
          assert picked[i] in picked;
        }
      }
    }
  }

  // And `@func iadd` fails exactly if one is not an integer, and otherwise adds them up.
  lemma FoldOfNumbered(fields: Fields, multiply: bool, picked: seq<Field>, res: Option<int>)
    requires Folded(fields, multiply, picked, res)
    ensures forall nodes: seq<Node> :: IsNumbered(fields, nodes) ==> IsFoldOf(nodes, multiply, res)
  {
    hide IsNumbered, Sum, Number, IsPicked, Total;
    forall nodes: seq<Node> | IsNumbered(fields, nodes) ensures IsFoldOf(nodes, multiply, res) {
      PickedNumbered(fields, nodes, []);
      PickedNumbered(fields, nodes, picked);
      SumIs(picked, nodes[..|picked|]);
      assert res.Some? ==> nodes[..|picked|] == nodes;
      forall n | n in nodes[..|picked|] ensures n in nodes {
      }
    }
  }

  // The documented use: strings are concatenated in the order of their numbers.
  lemma ConcatOfStrings(fields: Fields, ss: seq<string>, picked: seq<Field>, res: Option<string>)
    requires IsNumbered(fields, seq(|ss|, i requires 0 <= i < |ss| => Str(ss[i]))) && ss != []
    requires Concatenated(fields, picked, res)
    ensures res == Some(Joined(ss))
  {
    hide IsNumbered, Concatenated, Joined;
    var nodes := seq(|ss|, i requires 0 <= i < |ss| => Str(ss[i]));
    ConcatOfNumbered(fields, picked, res);
    assert nodes != [] && forall n :: n in nodes ==> HasText(n);
    var ts :| AreTextsOf(nodes, ts) && res == Some(Joined(ts));
    assert ts == ss;
  }
}
