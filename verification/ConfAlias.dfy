// What an alias stands for, said with children alone (SND_CONFIG_SEARCH_ALIAS in src/conf.c).

module ConfAlias {
  import opened ConfText
  import opened ConfTree
  import opened ConfSearch

  // Where a key is looked up first: in the base only, if there is one.
  function FirstOf(config: Fields, base: Option<Fields>, key: string): Option<Node> {
    match base
    case None => Child(config, key)
    case Some(b) => Child(b, key)
  }

  // Where the later ones are: at the top level, and in the base only if it has none there.
  function LaterOf(config: Fields, base: Option<Fields>, key: string): Option<Node> {
    match (Child(config, key), base)
    case (Some(n), _) => Some(n)
    case (None, Some(b)) => Child(b, key)
    case (None, None) => None
  }

  // A chain of aliases from `key` on: every entry but the last is a string, and names the
  // next one.
  predicate IsChain(config: Fields, base: Option<Fields>, key: string, fs: seq<Field>) {
    && fs != [] && fs[0].id == key && FirstOf(config, base, key) == Some(fs[0].node)
    && forall i, j :: 0 <= i < |fs| && j == i + 1 < |fs| ==> Names(config, base, fs[i], fs[j])
  }

  predicate Names(config: Fields, base: Option<Fields>, f: Field, g: Field) {
    f.node.Str? && g.id == f.node.s && LaterOf(config, base, g.id) == Some(g.node)
  }

  // It does not go on.
  predicate IsLast(config: Fields, base: Option<Fields>, f: Field) {
    f.node.Str? ==> LaterOf(config, base, f.node.s).None?
  }

  // Its end can be reached in the 1001 rounds there are.
  predicate IsShort(fs: seq<Field>)
    requires fs != []
  {
    |fs| <= 1000 || (|fs| == 1001 && !fs[1000].node.Str?)
  }

  predicate LeadsTo(config: Fields, base: Option<Fields>, key: string, fs: seq<Field>, f: Field) {
    IsChain(config, base, key, fs) && IsLast(config, base, f) && IsShort(fs) && fs[|fs|-1] == f
  }

  // An alias is found to be `f` exactly if a short enough chain leads there, and not found
  // exactly if there is nothing at its start. Everything else is an error.
  lemma ResolveFollowsChildren(config: Fields, base: Option<Fields>, key: string)
    ensures var r := Resolve(config, base, key);
      && (r == NotFound <==> FirstOf(config, base, key).None?)
      && forall f :: r == Found(f) <==> exists fs :: LeadsTo(config, base, key, fs, f)
  {
    hide Look, Hop, Child, Resolve;
    var r := Resolve(config, base, key);
    assert FirstOf(config, base, key).None? <==> Hop(config, base, key, 0).None? by { FirstLook(config, base, key); }
    ResolveIs(config, base, key);
    FollowIsChainEnd(config, base, key, 0);
    forall f ensures r == Found(f) <==> exists fs :: LeadsTo(config, base, key, fs, f) {
      if r == Found(f) {
        var i :| InTime(config, base, key, i) && Hop(config, base, key, i) == Some(f);
        var fs := ChainTo(config, base, key, i);
        ChainEnds(config, base, key, fs, i);
      }
      if fs :| LeadsTo(config, base, key, fs, f) {
        HopsAre(config, base, key, fs, |fs| - 1);
        HopsEnd(config, base, key, fs);
        assert InTime(config, base, key, |fs| - 1);
        var j :| InTime(config, base, key, j) && Hop(config, base, key, j) == Some(r.field);
        EndUnique(config, base, key, |fs| - 1, j);
      }
    }
  }

  lemma ResolveIs(config: Fields, base: Option<Fields>, key: string)
    ensures Resolve(config, base, key) == Follow(config, base, true, key, None, MAX_LOOP)
  {
    hide Follow;
  }

  lemma FirstLook(config: Fields, base: Option<Fields>, key: string)
    ensures Hop(config, base, key, 0) ==
      match FirstOf(config, base, key) case None => None case Some(n) => Some(Field(key, n))
  {
    hide Child, Entry;
  }

  lemma LaterLook(config: Fields, base: Option<Fields>, key: string)
    ensures Look(config, base, false, key) ==
      match LaterOf(config, base, key) case None => None case Some(n) => Some(Field(key, n))
  {
    hide Child, Entry;
  }

  lemma {:induction false} HopsAre(config: Fields, base: Option<Fields>, key: string, fs: seq<Field>, i: nat)
    requires IsChain(config, base, key, fs) && i < |fs|
    ensures Hop(config, base, key, i) == Some(fs[i])
    decreases i
  {
    hide Look, Child, FirstOf, LaterOf;
    if i == 0 {
      FirstLook(config, base, key);
    } else {
      HopsAre(config, base, key, fs, i - 1);
      assert Names(config, base, fs[i-1], fs[i]);
      HopStep(config, base, key, i);
      LaterLook(config, base, fs[i].id);
    }
  }

  lemma HopsEnd(config: Fields, base: Option<Fields>, key: string, fs: seq<Field>)
    requires IsChain(config, base, key, fs)
    ensures Hop(config, base, key, |fs|).None? <==> IsLast(config, base, fs[|fs|-1])
  {
    hide Look, Child, FirstOf, LaterOf, Hop;
    var f := fs[|fs|-1];
    HopsAre(config, base, key, fs, |fs| - 1);
    HopStep(config, base, key, |fs|);
    if f.node.Str? { LaterLook(config, base, f.node.s); }
  }

  lemma {:induction false} ChainTo(config: Fields, base: Option<Fields>, key: string, i: nat)
    returns (fs: seq<Field>)
    requires Hop(config, base, key, i).Some?
    ensures |fs| == i + 1 && IsChain(config, base, key, fs) && Hop(config, base, key, i) == Some(fs[i])
    decreases i
  {
    hide Look, Child, FirstOf, LaterOf, Hop;
    HopStep(config, base, key, i);
    var f := Hop(config, base, key, i).value;
    if i == 0 {
      FirstLook(config, base, key);
      fs := [f];
    } else {
      fs := ChainTo(config, base, key, i - 1);
      LaterLook(config, base, fs[i-1].node.s);
      ChainAppend(config, base, key, fs, f);
      fs := fs + [f];
    }
  }

  lemma ChainAppend(config: Fields, base: Option<Fields>, key: string, fs: seq<Field>, f: Field)
    requires IsChain(config, base, key, fs) && Names(config, base, fs[|fs|-1], f)
    ensures IsChain(config, base, key, fs + [f])
  {
    hide Names, FirstOf;
  }

  lemma ChainEnds(config: Fields, base: Option<Fields>, key: string, fs: seq<Field>, i: nat)
    requires InTime(config, base, key, i) && IsChain(config, base, key, fs) && |fs| == i + 1
    ensures LeadsTo(config, base, key, fs, fs[i]) && Hop(config, base, key, i) == Some(fs[i])
  {
    hide Hop, IsChain;
    HopsAre(config, base, key, fs, i);
    HopsEnd(config, base, key, fs);
  }

  // The order of the two places, spelled out. With a base, the key itself must be in there,
  // whatever the top level has; the string that it is names something at the top level, and
  // something in the base only if there is nothing there.
  lemma BaseThenTop(config: Fields, base: Fields, key: string)
    ensures var r := Resolve(config, Some(base), key);
      match Child(base, key)
      case None => r == NotFound
      case Some(Str(s)) =>
        (match (Child(config, s), Child(base, s))
         case (Some(n), _) => (if n.Str? then n.s == s ==> r == Circular else r == Found(Field(s, n)))
         case (None, Some(n)) => (if n.Str? then n.s == s ==> r == Circular else r == Found(Field(s, n)))
         case (None, None) => r == Found(Field(key, Str(s))))
      case Some(n) => r == Found(Field(key, n))
  {
    hide Child, Entry, Look;
    FirstLook(config, Some(base), key);
    FollowStep(config, Some(base), true, key, None, MAX_LOOP);
    var f := Look(config, Some(base), true, key);
    if f.Some? && f.value.node.Str? {
      LaterLook(config, Some(base), f.value.node.s);
      FollowStep(config, Some(base), false, f.value.node.s, f, MAX_LOOP - 1);
    }
  }

  // Without a base, only the top level counts.
  lemma TopOnly(config: Fields, key: string)
    ensures var r := Resolve(config, None, key);
      match Child(config, key)
      case None => r == NotFound
      case Some(Str(s)) =>
        (match Child(config, s)
         case None => r == Found(Field(key, Str(s)))
         case Some(n) => if n.Str? then n.s == s ==> r == Circular else r == Found(Field(s, n)))
      case Some(n) => r == Found(Field(key, n))
  {
    hide Child, Entry, Look;
    FirstLook(config, None, key);
    FollowStep(config, None, true, key, None, MAX_LOOP);
    var f := Look(config, None, true, key);
    if f.Some? && f.value.node.Str? {
      LaterLook(config, None, f.value.node.s);
      FollowStep(config, None, false, f.value.node.s, f, MAX_LOOP - 1);
    }
  }
}
