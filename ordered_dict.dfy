/**
 * A Python dict as the scraper uses it: an insertion-ordered list of
 * key/value entries. Assigning to a key already present replaces its value
 * where it stands; assigning to a new key appends it at the end.
 */
module OrderedDict {
  import opened Wrappers
  import opened Links

  datatype Entry<K, V> = Entry(key: K, value: V)

  type Dict<K, V> = seq<Entry<K, V>>

  /** The keys in iteration order. */
  function Keys<K, V>(d: Dict<K, V>): seq<K> {
    if d == [] then [] else [d[0].key] + Keys(d[1..])
  }

  /** There is one key per entry. */
  lemma {:induction false} KeysLength<K, V>(d: Dict<K, V>)
    ensures |Keys(d)| == |d|
  {
    if d != [] {
      KeysLength(d[1..]);
    }
  }

  /** `d[k]` in Python, with `None` for a missing key. */
  function Lookup<K(==), V>(d: Dict<K, V>, k: K): (r: Option<V>)
    ensures r.Some? <==> k in Keys(d)
  {
    if d == [] then None
    else if d[0].key == k then Some(d[0].value)
    else Lookup(d[1..], k)
  }

  /** `d[k] = v` in Python. */
  function Assign<K(==), V>(d: Dict<K, V>, k: K, v: V): Dict<K, V> {
    if d == [] then [Entry(k, v)]
    else if d[0].key == k then [Entry(k, v)] + d[1..]
    else [d[0]] + Assign(d[1..], k, v)
  }

  /** Assigning to an existing key keeps the key order; a new key goes last. */
  lemma {:induction false} AssignKeys<K, V>(d: Dict<K, V>, k: K, v: V)
    ensures Keys(Assign(d, k, v)) == if k in Keys(d) then Keys(d) else Keys(d) + [k]
  {
    if d != [] && d[0].key != k {
      var rest := Assign(d[1..], k, v);
      AssignKeys(d[1..], k, v);
      var r := Assign(d, k, v);
      assert r[1..] == rest;
      assert Keys(r) == [d[0].key] + Keys(rest);
      assert Keys(d) == [d[0].key] + Keys(d[1..]);
    } else if d != [] {
      assert Assign(d, k, v)[1..] == d[1..];
    }
  }

  /** After `d[k] = v`, key `k` holds `v` and every other key holds what it held before. */
  lemma {:induction false} AssignLookup<K, V>(d: Dict<K, V>, k: K, v: V)
    ensures Lookup(Assign(d, k, v), k) == Some(v)
    ensures forall k' :: k' != k ==> Lookup(Assign(d, k, v), k') == Lookup(d, k')
  {
    if d != [] && d[0].key != k {
      AssignLookup(d[1..], k, v);
      assert Assign(d, k, v)[1..] == Assign(d[1..], k, v);
    } else if d != [] {
      assert Assign(d, k, v)[1..] == d[1..];
    }
  }

  /** Assignment never makes a key occur twice. */
  lemma AssignKeepsDistinct<K, V>(d: Dict<K, V>, k: K, v: V)
    requires NoDuplicates(Keys(d))
    ensures NoDuplicates(Keys(Assign(d, k, v)))
  {
    AssignKeys(d, k, v);
    if k !in Keys(d) {
      NoDuplicatesSnoc(Keys(d), k);
    }
  }

  /** The assignments `d[k] = v` for every pair `(k, v)` of `pairs`, in order. */
  function AssignAll<K(==), V>(d: Dict<K, V>, pairs: seq<(K, V)>): Dict<K, V> {
    if pairs == [] then d
    else
      var n := |pairs| - 1;
      Assign(AssignAll(d, pairs[..n]), pairs[n].0, pairs[n].1)
  }

  /** The keys of `pairs`, in order. */
  function Labels<K, V>(pairs: seq<(K, V)>): (ks: seq<K>)
    ensures |ks| == |pairs|
  {
    seq(|pairs|, i requires 0 <= i < |pairs| => pairs[i].0)
  }

  /** The value the last pair with key `k` carries, if any pair has key `k`. */
  function LastValue<K(==), V>(pairs: seq<(K, V)>, k: K): (r: Option<V>)
    ensures r.None? <==> forall j :: 0 <= j < |pairs| ==> pairs[j].0 != k
    ensures r.Some? ==> exists j :: 0 <= j < |pairs| && pairs[j] == (k, r.value)
                                 && forall j' :: j < j' < |pairs| ==> pairs[j'].0 != k
  {
    if pairs == [] then None
    else
      var n := |pairs| - 1;
      if pairs[n].0 == k then Some(pairs[n].1) else LastValue(pairs[..n], k)
  }

  /** The pair at `i` decides the last value of its key when no later pair has that key. */
  lemma {:induction false} LastValueAt<K, V>(pairs: seq<(K, V)>, k: K, i: nat)
    requires i < |pairs| && pairs[i].0 == k
    requires forall j :: i < j < |pairs| ==> pairs[j].0 != k
    ensures LastValue(pairs, k) == Some(pairs[i].1)
  {
    var n := |pairs| - 1;
    if i < n {
      LastValueAt(pairs[..n], k, i);
    }
  }

  /**
   * Key order after a run of assignments: the original keys, then every new
   * key in order of first assignment, each once.
   */
  lemma {:induction false} AssignAllKeys<K, V>(d: Dict<K, V>, pairs: seq<(K, V)>)
    requires NoDuplicates(Keys(d))
    ensures Keys(AssignAll(d, pairs)) == Dedup(Keys(d) + Labels(pairs))
    ensures NoDuplicates(Keys(AssignAll(d, pairs)))
  {
    if pairs == [] {
      assert Keys(d) + Labels(pairs) == Keys(d);
      DedupOfDistinct(Keys(d));
    } else {
      var n := |pairs| - 1;
      AssignAllKeys(d, pairs[..n]);
      var before := Keys(d) + Labels(pairs[..n]);
      var k := pairs[n].0;
      var prior := AssignAll(d, pairs[..n]);
      assert AssignAll(d, pairs) == Assign(prior, k, pairs[n].1);
      AssignKeys(prior, k, pairs[n].1);
      AssignKeepsDistinct(prior, k, pairs[n].1);
      assert Labels(pairs) == Labels(pairs[..n]) + [k];
      assert Keys(d) + Labels(pairs) == before + [k];
      DedupSnoc(before, k);
      DedupHas(before, k);
    }
  }

  /** After a run of assignments, each key holds the last value assigned to it, or its old value. */
  lemma {:induction false} AssignAllLookup<K, V>(d: Dict<K, V>, pairs: seq<(K, V)>, k: K)
    ensures Lookup(AssignAll(d, pairs), k) == if LastValue(pairs, k).Some? then LastValue(pairs, k) else Lookup(d, k)
  {
    if pairs != [] {
      var n := |pairs| - 1;
      AssignAllLookup(d, pairs[..n], k);
      AssignLookup(AssignAll(d, pairs[..n]), pairs[n].0, pairs[n].1);
    }
  }
}
