/** Python's insertion-ordered `dict`, as a sequence of key/value pairs
    whose keys are kept distinct by assignment. */
module Dicts {
  import opened Options
  import opened Seqs

  type Dict<K, V> = seq<(K, V)>

  /** `list(d.keys())`. */
  function Keys<K, V>(d: Dict<K, V>): (r: seq<K>)
    ensures |r| == |d| && forall i | 0 <= i < |d| :: r[i] == d[i].0
  {
    seq(|d|, i requires 0 <= i < |d| => d[i].0)
  }

  /** The keys of a non-empty dictionary: its first key, then the rest. */
  lemma KeysCons<K, V>(d: Dict<K, V>)
    requires d != []
    ensures Keys(d) == [d[0].0] + Keys(d[1..])
  {
  }

  /** `d.get(k)`: the value of the first entry with key `k`. */
  function Lookup<K(==), V>(d: Dict<K, V>, k: K): (r: Option<V>)
    ensures r.None? <==> k !in Keys(d)
    ensures r.Some? ==> (k, r.value) in d
  {
    if d == [] then None
    else if d[0].0 == k then Some(d[0].1)
    else
      KeysCons(d);
      Lookup(d[1..], k)
  }

  /** `d[k] = v`: an existing key keeps its place and takes the new value;
      a new key goes at the end. */
  function Assign<K(==), V>(d: Dict<K, V>, k: K, v: V): (r: Dict<K, V>)
    ensures Keys(r) == if k in Keys(d) then Keys(d) else Keys(d) + [k]
  {
    if d == [] then [(k, v)]
    else
      var rest := if d[0].0 == k then d[1..] else Assign(d[1..], k, v);
      var r := [if d[0].0 == k then (k, v) else d[0]] + rest;
      KeysCons(d);
      KeysCons(r);
      assert r[1..] == rest;
      assert k in Keys(d) <==> k == d[0].0 || k in Keys(d[1..]);
      r
  }

  /** After `d[k] = v`, `k` maps to `v` and every other key to what it
      mapped to before. */
  lemma {:induction false} AssignLookup<K, V>(d: Dict<K, V>, k: K, v: V, k': K)
    ensures Lookup(Assign(d, k, v), k') == if k' == k then Some(v) else Lookup(d, k')
  {
    if d != [] && d[0].0 != k {
      AssignLookup(d[1..], k, v, k');
    }
  }

  /** In a dictionary built by assignment every key occurs once, so each
      entry is what looking up its key gives. */
  lemma EntryIsLookup<K, V>(d: Dict<K, V>, i: nat)
    requires NoDuplicates(Keys(d)) && i < |d|
    ensures Lookup(d, d[i].0) == Some(d[i].1)
  {
    var k := d[i].0;
    assert Keys(d)[i] == k;
    var r := Lookup(d, k);
    var j :| 0 <= j < |d| && d[j] == (k, r.value);
    assert Keys(d)[j] == Keys(d)[i];
  }
}
