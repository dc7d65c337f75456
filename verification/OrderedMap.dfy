/** JavaScript objects and Maps used as dictionaries: keys keep the place of their first insertion. */
module OrderedMap {
  import opened Wrappers

  type Assoc<V> = seq<(string, V)>

  function Lookup<V>(m: Assoc<V>, key: string): Option<V> {
    if m == [] then None else if m[0].0 == key then Some(m[0].1) else Lookup(m[1..], key)
  }

  predicate Has<V>(m: Assoc<V>, key: string) {
    Lookup(m, key).Some?
  }

  /** Assignment: replaces in place, or appends. */
  function Put<V>(m: Assoc<V>, key: string, value: V): Assoc<V> {
    if m == [] then [(key, value)]
    else if m[0].0 == key then [(key, value)] + m[1..]
    else [m[0]] + Put(m[1..], key, value)
  }

  function Keys<V>(m: Assoc<V>): (ks: seq<string>)
    ensures |ks| == |m|
    ensures forall i :: 0 <= i < |m| ==> ks[i] == m[i].0
  {
    seq(|m|, i requires 0 <= i < |m| => m[i].0)
  }

  ghost predicate DistinctKeys<V>(m: Assoc<V>) {
    forall i, j :: 0 <= i < j < |m| ==> m[i].0 != m[j].0
  }

  lemma {:induction false} LookupPut<V>(m: Assoc<V>, key: string, value: V, other: string)
    ensures Lookup(Put(m, key, value), other) == if other == key then Some(value) else Lookup(m, other)
  {
    if m != [] && m[0].0 != key {
      LookupPut(m[1..], key, value, other);
    }
  }

  lemma {:induction false} LookupAt<V>(m: Assoc<V>, i: nat)
    requires i < |m| && DistinctKeys(m)
    ensures Lookup(m, m[i].0) == Some(m[i].1)
  {
    if i > 0 {
      assert m[0].0 != m[i].0;
      LookupAt(m[1..], i - 1);
    }
  }

  lemma {:induction false} HasIffKey<V>(m: Assoc<V>, key: string)
    ensures Has(m, key) <==> key in Keys(m)
  {
    if m != [] {
      HasIffKey(m[1..], key);
      assert Keys(m) == [m[0].0] + Keys(m[1..]);
    }
  }

  lemma {:induction false} PutKeys<V>(m: Assoc<V>, key: string, value: V)
    ensures Keys(Put(m, key, value)) == if Has(m, key) then Keys(m) else Keys(m) + [key]
  {
    if m != [] {
      assert Keys(m) == [m[0].0] + Keys(m[1..]);
      if m[0].0 != key {
        PutKeys(m[1..], key, value);
        assert Keys(Put(m, key, value)) == [m[0].0] + Keys(Put(m[1..], key, value));
      }
    }
  }

  lemma PutDistinct<V>(m: Assoc<V>, key: string, value: V)
    requires DistinctKeys(m)
    ensures DistinctKeys(Put(m, key, value))
  {
    PutKeys(m, key, value);
    HasIffKey(m, key);
    var p := Put(m, key, value);
    assert forall i :: 0 <= i < |p| ==> p[i].0 == Keys(p)[i];
    assert forall i :: 0 <= i < |m| ==> m[i].0 == Keys(m)[i];
  }

  lemma {:induction false} LookupConcat<V>(a: Assoc<V>, b: Assoc<V>, key: string)
    ensures Lookup(a + b, key) == if Has(a, key) then Lookup(a, key) else Lookup(b, key)
  {
    if a == [] {
      assert a + b == b;
    } else if a[0].0 != key {
      LookupConcat(a[1..], b, key);
      assert (a + b)[1..] == a[1..] + b;
    }
  }
}
