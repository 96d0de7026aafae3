// Searching a configuration tree: dotted keys and aliases (src/conf.c).

module ConfSearch {
  import opened ConfText
  import opened ConfTree

  // The child `id` of a list of children.
  function Child(fields: Fields, id: string): (r: Option<Node>)
    ensures r.Some? <==> exists f :: f in fields && f.id == id
  {
    match Search(fields, id)
    case None => None
    case Some(k) =>
      assert fields[k] in fields;
      Some(fields[k].node)
  }

  function Entry(fields: Fields, id: string): (r: Option<Field>)
    ensures r.Some? ==> r.value.id == id && Child(fields, id) == Some(r.value.node)
    ensures r.None? ==> Child(fields, id) == None
  {
    match Search(fields, id)
    case None => None
    case Some(k) => Some(fields[k])
  }

  // The node that a sequence of ids leads to.
  function Find(node: Node, path: seq<string>): Option<Node>
    decreases path
  {
    if path == [] then Some(node)
    else if !node.Compound? then None
    else
      match Child(node.fields, path[0])
      case None => None
      case Some(n) => Find(n, path[1..])
  }

  // strchr(key, '.'), as an index
  function Dot(key: string): (k: nat)
    ensures k <= |key| && (forall i :: 0 <= i < k ==> key[i] != '.')
    ensures k < |key| ==> key[k] == '.'
  {
    if key == "" || key[0] == '.' then 0 else 1 + Dot(key[1..])
  }

  // The components of a key.
  function Split(key: string): (path: seq<string>)
    ensures path != []
    decreases |key|
  {
    var k := Dot(key);
    if k == |key| then [key] else [key[..k]] + Split(key[k+1..])
  }

  function Join(path: seq<string>): string {
    if path == [] then "" else if |path| == 1 then path[0] else path[0] + "." + Join(path[1..])
  }

  lemma {:induction false} SplitJoin(path: seq<string>)
    requires path != [] && forall p :: p in path ==> '.' !in p
    ensures Split(Join(path)) == path
    decreases path
  {
    var key := Join(path);
    assert path[0] in path;
    if |path| == 1 {
      assert Dot(key) == |key|;
    } else {
      var more := Join(path[1..]);
      assert key == path[0] + ("." + more);
      assert key[|path[0]|] == '.' && forall i :: 0 <= i < |path[0]| ==> key[i] != '.';
      assert Dot(key) == |path[0]| && key[..|path[0]|] == path[0] && key[|path[0]|+1..] == more;
      SplitJoin(path[1..]);
    }
  }

  // snd_config_search
  method SearchKey(config: Node, key: string) returns (r: Option<Node>)
    ensures r == Find(config, Split(key))
  {
    var c, k := config, key;
    while true
      invariant Find(config, Split(key)) == Find(c, Split(k))
      decreases |k|
    {
      if !c.Compound? {
        return None;
      }
      var p := Dot(k);
      if p == |k| {
        r := Child(c.fields, k);
        var last: seq<string> := [k];
        assert Split(k) == last && last[1..] == [];
        return;
      }
      var n := Child(c.fields, k[..p]);
      assert Split(k) == [k[..p]] + Split(k[p+1..]);
      if n.None? {
        return None;
      }
      c, k := n.value, k[p+1..];
    }
  }

  const MAX_LOOP := 1000

  // One lookup of an alias. With a base, the first one is made below the base only.
  function Look(config: Fields, base: Option<Fields>, first: bool, key: string): (r: Option<Field>)
    ensures r.Some? ==> r.value.id == key
  {
    var direct := if first && base.Some? then None else Entry(config, key);
    if direct.Some? || base.None? then direct else Entry(base.value, key)
  }

  datatype Alias = Found(field: Field) | NotFound | Circular

  // SND_CONFIG_SEARCH_ALIAS for keys of one component, below a compound, from one of its
  // rounds on: `res` was found last, and up to `maxloop` + 1 rounds are left.
  function Follow(config: Fields, base: Option<Fields>, first: bool, key: string, res: Option<Field>,
                  maxloop: nat): Alias
    requires first ==> maxloop > 0
    decreases maxloop
  {
    match Look(config, base, first, key)
    case None => if res.None? then NotFound else Found(res.value)
    case Some(f) =>
      if !f.node.Str? then Found(f)
      else if !first && (f.node.s == key || maxloop == 0) then Circular
      else Follow(config, base, false, f.node.s, Some(f), maxloop - 1)
  }

  // What an alias stands for.
  function Resolve(config: Fields, base: Option<Fields>, key: string): Alias {
    Follow(config, base, true, key, None, MAX_LOOP)
  }

  // snd_config_search_alias on such keys. It makes at most 1001 rounds.
  method SearchAlias(config: Fields, base: Option<Fields>, key: string)
    returns (r: Alias, rounds: nat)
    requires SingleKeys(config, base, key)
    ensures rounds <= MAX_LOOP + 1 && r == Resolve(config, base, key)
  {
    hide Look;
    var res: Option<Field>, k, first, maxloop := None, key, true, MAX_LOOP;
    rounds := 0;
    while true
      invariant rounds == MAX_LOOP - maxloop <= MAX_LOOP && first == (rounds == 0)
      invariant Follow(config, base, first, k, res, maxloop) == Resolve(config, base, key)
      decreases maxloop
    {
      var oldKey := k;
      var found := Look(config, base, first, k);
      rounds := rounds + 1;
      if found.None? {
        return if res.None? then NotFound else Found(res.value), rounds;
      }
      res := found;
      if !res.value.node.Str? {
        return Found(res.value), rounds;
      }
      k := res.value.node.s;
      if !first && (k == oldKey || maxloop <= 0) {
        return Circular, rounds;
      }
      first := false;
      maxloop := maxloop - 1;
    }
  }

  // The entry that lookup number `i` finds, each key being the value of the string
  // found before.
  function Hop(config: Fields, base: Option<Fields>, key: string, i: nat): Option<Field> {
    if i == 0 then Look(config, base, true, key)
    else
      match Hop(config, base, key, i - 1)
      case Some(Field(_, Str(s))) => Look(config, base, false, s)
      case _ => None
  }

  // Every key on the way has one component.
  ghost predicate SingleKeys(config: Fields, base: Option<Fields>, key: string) {
    '.' !in key && forall i: nat :: SingleKeyAt(Hop(config, base, key, i))
  }

  predicate SingleKeyAt(f: Option<Field>) {
    f.Some? && f.value.node.Str? ==> '.' !in f.value.node.s
  }

  // The chain ends at number `i`: with something that is not a string, or with a
  // string that names nothing.
  predicate EndsAt(config: Fields, base: Option<Fields>, key: string, i: nat) {
    Hop(config, base, key, i).Some? && Hop(config, base, key, i + 1).None?
  }

  // An end that is near enough.
  predicate InTime(config: Fields, base: Option<Fields>, key: string, i: nat) {
    EndsAt(config, base, key, i) &&
    (i < MAX_LOOP || (i == MAX_LOOP && !Hop(config, base, key, i).value.node.Str?))
  }

  lemma {:induction false} Prefixes(config: Fields, base: Option<Fields>, key: string, i: nat, j: nat)
    requires i <= j && Hop(config, base, key, j).Some?
    ensures Hop(config, base, key, i).Some?
    ensures i < j ==> Hop(config, base, key, i).value.node.Str?
    decreases j - i
  {
    hide Look;
    if i < j { Prefixes(config, base, key, i, j - 1); }
  }

  lemma EndUnique(config: Fields, base: Option<Fields>, key: string, i: nat, j: nat)
    requires EndsAt(config, base, key, i) && EndsAt(config, base, key, j)
    ensures i == j
  {
    hide Look, Hop;
    if i < j { Prefixes(config, base, key, i + 1, j); }
    if j < i { Prefixes(config, base, key, j + 1, i); }
  }

  // An alias resolves to the end of its chain of strings, exactly if that is near
  // enough; to nothing, exactly if the first lookup fails; otherwise to an error.
  lemma ResolveIsChainEnd(config: Fields, base: Option<Fields>, key: string)
    requires SingleKeys(config, base, key)
    ensures var r := Resolve(config, base, key);
      && (r.NotFound? <==> Hop(config, base, key, 0).None?)
      && (r.Found? <==> exists i :: InTime(config, base, key, i))
      && (r.Found? ==> exists i ::
           InTime(config, base, key, i) && Hop(config, base, key, i) == Some(r.field))
  {
    hide Look;
    FollowIsChainEnd(config, base, key, 0);
  }

  lemma FollowStep(config: Fields, base: Option<Fields>, first: bool, key: string, res: Option<Field>,
                   maxloop: nat)
    requires first ==> maxloop > 0
    ensures Follow(config, base, first, key, res, maxloop) ==
      match Look(config, base, first, key)
      case None => if res.None? then NotFound else Found(res.value)
      case Some(f) =>
        if !f.node.Str? then Found(f)
        else if !first && (f.node.s == key || maxloop == 0) then Circular
        else Follow(config, base, false, f.node.s, Some(f), maxloop - 1)
  {
    hide Look;
  }

  lemma HopStep(config: Fields, base: Option<Fields>, key: string, i: nat)
    ensures Hop(config, base, key, i) ==
      if i == 0 then Look(config, base, true, key)
      else
        match Hop(config, base, key, i - 1)
        case Some(Field(_, Str(s))) => Look(config, base, false, s)
        case _ => None
  {
    hide Look;
  }

  lemma EndHere(config: Fields, base: Option<Fields>, key: string, i: nat)
    requires Hop(config, base, key, i).Some? && Hop(config, base, key, i + 1).None?
    ensures EndsAt(config, base, key, i)
  {
    hide Look, Hop;
  }

  // ... from round number `i` on.
  lemma {:induction false} FollowIsChainEnd(config: Fields, base: Option<Fields>, key: string, i: nat)
    requires i <= MAX_LOOP
    requires i > 0 ==> Hop(config, base, key, i - 1).Some? && Hop(config, base, key, i - 1).value.node.Str?
    ensures var h := if i == 0 then None else Hop(config, base, key, i - 1);
      var k := if i == 0 then key else h.value.node.s;
      var r := Follow(config, base, i == 0, k, h, MAX_LOOP - i);
      && (r.NotFound? <==> Hop(config, base, key, 0).None?)
      && (r.Found? ==> exists j ::
           InTime(config, base, key, j) && Hop(config, base, key, j) == Some(r.field))
      && (r.Circular? ==> forall j :: !InTime(config, base, key, j))
      && (r.NotFound? ==> forall j :: !InTime(config, base, key, j))
    decreases MAX_LOOP - i
  {
    hide Look, Hop, Follow, EndsAt;
    var h := if i == 0 then None else Hop(config, base, key, i - 1);
    var k := if i == 0 then key else h.value.node.s;
    var found := Hop(config, base, key, i);
    HopStep(config, base, key, i);
    if i > 0 { Prefixes(config, base, key, 0, i - 1); }
    var r := Follow(config, base, i == 0, k, h, MAX_LOOP - i);
    FollowStep(config, base, i == 0, k, h, MAX_LOOP - i);
    if found.None? {
      if i == 0 {
        NoChain(config, base, key);
      } else {
        EndHere(config, base, key, i - 1);
      }
    } else if !found.value.node.Str? {
      HopStep(config, base, key, i + 1);
      EndHere(config, base, key, i);
    } else if i > 0 && found.value.node.s == k {
      SelfReference(config, base, key, i);
    } else if i == MAX_LOOP {
      TooLong(config, base, key);
    } else {
      FollowIsChainEnd(config, base, key, i + 1);
    }
  }

  lemma NoChain(config: Fields, base: Option<Fields>, key: string)
    requires Hop(config, base, key, 0).None?
    ensures forall i :: !InTime(config, base, key, i)
  {
    hide Look, Hop;
    forall i: nat | InTime(config, base, key, i) ensures false {
      Prefixes(config, base, key, 0, i);
    }
  }

  lemma TooLong(config: Fields, base: Option<Fields>, key: string)
    requires Hop(config, base, key, MAX_LOOP).Some? && Hop(config, base, key, MAX_LOOP).value.node.Str?
    ensures forall i :: !InTime(config, base, key, i)
  {
    hide Look, Hop;
    forall i: nat | InTime(config, base, key, i) ensures false {
      if i < MAX_LOOP { Prefixes(config, base, key, i + 1, MAX_LOOP); }
    }
  }

  // A string that names itself.
  lemma SelfReference(config: Fields, base: Option<Fields>, key: string, i: nat)
    requires i > 0 && Hop(config, base, key, i - 1).Some? && Hop(config, base, key, i).Some?
    requires Hop(config, base, key, i - 1).value.node.Str? && Hop(config, base, key, i).value.node.Str?
    requires Hop(config, base, key, i).value.node == Hop(config, base, key, i - 1).value.node
    ensures forall j :: !InTime(config, base, key, j)
  {
    hide Look;
    Cycle(config, base, key, i, i + 1);
  }

  lemma {:induction false} Period(config: Fields, base: Option<Fields>, key: string, i: nat, j: nat, n: nat)
    requires i < j && Hop(config, base, key, i) == Hop(config, base, key, j)
    ensures Hop(config, base, key, i + n) == Hop(config, base, key, j + n)
    decreases n
  {
    hide Look;
    if n > 0 { Period(config, base, key, i, j, n - 1); }
  }

  // A chain that comes back to a string it has been at never ends, so following it
  // gives an error.
  lemma Cycle(config: Fields, base: Option<Fields>, key: string, i: nat, j: nat)
    requires i < j && Hop(config, base, key, j).Some?
    requires Hop(config, base, key, i) == Hop(config, base, key, j)
    ensures forall k :: !EndsAt(config, base, key, k)
  {
    hide Look, Hop;
    forall k: nat | EndsAt(config, base, key, k) ensures false {
      if k < j {
        Prefixes(config, base, key, k + 1, j);
      } else {
        Period(config, base, key, i, j, k - j);
        Period(config, base, key, i, j, k - j + 1);
        assert EndsAt(config, base, key, i + (k - j));
        EndUnique(config, base, key, k, i + (k - j));
      }
    }
  }

  lemma CyclesAreErrors(config: Fields, base: Option<Fields>, key: string, i: nat, j: nat)
    requires SingleKeys(config, base, key)
    requires i < j && Hop(config, base, key, j).Some?
    requires Hop(config, base, key, i) == Hop(config, base, key, j)
    ensures Resolve(config, base, key) == Circular
  {
    hide Look, Hop, Resolve;
    Cycle(config, base, key, i, j);
    Prefixes(config, base, key, 0, j);
    ResolveIsChainEnd(config, base, key);
  }
}
