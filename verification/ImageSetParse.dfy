/** The bound on expanded nodes in `parseImageSetConfigText` (`backend/src/imagesetConfigValidator.js`). */
module ImageSetParse {
  import opened JsonValue

  const MAX_YAML_NODES := 20000

  /** All values of a tree, itself included. */
  function Size(v: Json): nat
    decreases v, 1, 0
  {
    match v
    case Arr(items) => 1 + ItemsSize(v, |items|)
    case Obj(fields) => 1 + FieldsSize(v, |fields|)
    case _ => 1
  }

  function ItemsSize(v: Json, n: nat): nat
    requires v.Arr? && n <= |v.items|
    decreases v, 0, n
  {
    if n == 0 then 0 else ItemsSize(v, n - 1) + Size(v.items[n - 1])
  }

  function FieldsSize(v: Json, n: nat): nat
    requires v.Obj? && n <= |v.fields|
    decreases v, 0, n
  {
    if n == 0 then 0
    else
      assert v.fields[n - 1].1 < v.fields[n - 1];
      FieldsSize(v, n - 1) + Size(v.fields[n - 1].1)
  }

  lemma {:induction false} ItemsSizeGrows(v: Json, m: nat, n: nat)
    requires v.Arr? && m <= n <= |v.items|
    ensures ItemsSize(v, m) <= ItemsSize(v, n)
    decreases n
  {
    if m < n {
      ItemsSizeGrows(v, m, n - 1);
    }
  }

  lemma {:induction false} FieldsSizeGrows(v: Json, m: nat, n: nat)
    requires v.Obj? && m <= n <= |v.fields|
    ensures FieldsSize(v, m) <= FieldsSize(v, n)
    decreases n
  {
    if m < n {
      FieldsSizeGrows(v, m, n - 1);
    }
  }

  class Counter {
    var nodes: nat

    constructor ()
      ensures nodes == 0
    {
      nodes := 0;
    }

    /** Counts a tree, and gives up one node past the limit. */
    method Count(v: Json)
      requires nodes <= MAX_YAML_NODES
      modifies this
      ensures nodes <= MAX_YAML_NODES + 1
      ensures nodes > MAX_YAML_NODES <==> old(nodes) + Size(v) > MAX_YAML_NODES
      ensures nodes <= MAX_YAML_NODES ==> nodes == old(nodes) + Size(v)
      decreases v
    {
      nodes := nodes + 1;
      if nodes > MAX_YAML_NODES {
        return;
      }
      if v.Arr? {
        var i := 0;
        while i < |v.items|
          invariant 0 <= i <= |v.items| && nodes == old(nodes) + 1 + ItemsSize(v, i) <= MAX_YAML_NODES
        {
          ItemsSizeGrows(v, i + 1, |v.items|);
          Count(v.items[i]);
          if nodes > MAX_YAML_NODES {
            return;
          }
          i := i + 1;
        }
      } else if v.Obj? {
        var i := 0;
        while i < |v.fields|
          invariant 0 <= i <= |v.fields| && nodes == old(nodes) + 1 + FieldsSize(v, i) <= MAX_YAML_NODES
        {
          FieldsSizeGrows(v, i + 1, |v.fields|);
          assert v.fields[i].1 < v.fields[i];
          Count(v.fields[i].1);
          if nodes > MAX_YAML_NODES {
            return;
          }
          i := i + 1;
        }
      }
    }
  }

  /** The early exits change no verdict: a document is refused exactly when the whole tree is too large. */
  method TooManyNodes(doc: Json) returns (refused: bool)
    ensures refused <==> Size(doc) > 20_000
  {
    var counter := new Counter();
    counter.Count(doc);
    refused := counter.nodes > MAX_YAML_NODES;
  }
}
