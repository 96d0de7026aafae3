// Configuration trees as values: a compound holds its children in order.

module ConfTree {
  import opened ConfText

  // Reals are kept as the text they were read from.
  datatype Node =
    | Integer(i: int)
    | Integer64(i: int)
    | Real(text: string)
    | Str(s: string)
    | Compound(join: bool, fields: seq<Field>)

  datatype Field = Field(id: string, node: Node)

  type Fields = seq<Field>

  // _snd_config_search
  function Search(fields: Fields, id: string): (r: Option<nat>)
    ensures r.Some? ==> r.value < |fields| && fields[r.value].id == id
    ensures r.Some? ==> forall i :: 0 <= i < r.value ==> fields[i].id != id
    ensures r.None? ==> forall f :: f in fields ==> f.id != id
  {
    if fields == [] then None
    else if fields[0].id == id then Some(0)
    else
      match Search(fields[1..], id)
      case None => None
      case Some(k) => Some(k + 1)
  }

  function Drop(fields: Fields, k: nat): Fields
    requires k < |fields|
  {
    fields[..k] + fields[k+1..]
  }

  predicate UniqueIds(fields: Fields) {
    forall i, j :: 0 <= i < j < |fields| ==> fields[i].id != fields[j].id
  }

  // No two siblings share an id, at any depth.
  predicate WellFormed(node: Node)
    decreases node
  {
    node.Compound? ==> AllWellFormed(node.fields)
  }

  predicate AllWellFormed(fields: Fields)
    decreases fields
  {
    UniqueIds(fields) && forall f :: f in fields ==> WellFormed(f.node)
  }
}
