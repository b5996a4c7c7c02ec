/** An insertion-ordered map from names: the keys in the order they were first
    inserted, and the entries. Re-inserting an existing key replaces its entry
    and keeps its position; removing a key keeps the order of the others. */
module OrderedMap {
  import opened Wrappers

  datatype OMap<V> = OMap(keys: seq<string>, entries: map<string, V>)

  predicate Distinct(ks: seq<string>) {
    forall i, j :: 0 <= i < j < |ks| ==> ks[i] != ks[j]
  }

  /** The representation invariant: each key listed once, and listed exactly
      when it has an entry. */
  predicate Valid<V>(m: OMap<V>) {
    Distinct(m.keys) && (forall k :: k in m.entries ==> k in m.keys) && (forall k :: k in m.keys ==> k in m.entries)
  }

  function Empty<V>(): (r: OMap<V>)
    ensures Valid(r) && |r.keys| == 0 && r.entries == map[]
  {
    OMap([], map[])
  }

  function Get<V>(m: OMap<V>, k: string): (r: Option<V>)
    ensures r.Some? <==> k in m.entries
    ensures r.Some? ==> r.value == m.entries[k]
  {
    if k in m.entries then Some(m.entries[k]) else None
  }

  /** Insert or replace the entry of `k`. */
  function Put<V>(m: OMap<V>, k: string, v: V): (r: OMap<V>)
    requires Valid(m)
    ensures Valid(r)
    ensures Get(r, k) == Some(v)
    ensures forall k' :: k' != k ==> Get(r, k') == Get(m, k')
    ensures k in m.entries ==> r.keys == m.keys
    ensures k !in m.entries ==> r.keys == m.keys + [k]
  {
    if k in m.entries then OMap(m.keys, m.entries[k := v])
    else OMap(m.keys + [k], m.entries[k := v])
  }

  /** The keys of `ks` other than `k`, in order. */
  function Without(ks: seq<string>, k: string): (r: seq<string>)
    ensures forall x :: x in r <==> x in ks && x != k
    ensures Distinct(ks) ==> Distinct(r)
    ensures k !in ks ==> r == ks
  {
    if |ks| == 0 then []
    else if ks[0] == k then Without(ks[1..], k)
    else
      var rest := Without(ks[1..], k);
      assert Distinct(ks) ==> ks[0] !in ks[1..];
      assert forall i :: 1 <= i < |[ks[0]] + rest| ==> ([ks[0]] + rest)[i] == rest[i - 1];
      [ks[0]] + rest
  }

  /** Remove the entry of `k`, if any. */
  function Remove<V>(m: OMap<V>, k: string): (r: OMap<V>)
    requires Valid(m)
    ensures Valid(r)
    ensures Get(r, k).None?
    ensures forall k' :: k' != k ==> Get(r, k') == Get(m, k')
    ensures r.keys == Without(m.keys, k)
  {
    OMap(Without(m.keys, k), m.entries - {k})
  }

  /** The entries in key order. */
  function Values<V>(m: OMap<V>): (r: seq<V>)
    requires Valid(m)
    ensures |r| == |m.keys|
    ensures forall i :: 0 <= i < |m.keys| ==> r[i] == m.entries[m.keys[i]]
  {
    seq(|m.keys|, i requires 0 <= i < |m.keys| => m.entries[m.keys[i]])
  }

  /** Putting the same entry twice is putting it once. */
  lemma PutIdempotent<V>(m: OMap<V>, k: string, v: V)
    requires Valid(m)
    ensures Put(Put(m, k, v), k, v) == Put(m, k, v)
  {
  }

  /** Removing a key that is absent changes nothing. */
  lemma RemoveAbsent<V>(m: OMap<V>, k: string)
    requires Valid(m) && k !in m.entries
    ensures Remove(m, k) == m
  {
  }

  /** Removing a key just put leaves what was there before, when it was absent. */
  lemma RemovePut<V>(m: OMap<V>, k: string, v: V)
    requires Valid(m) && k !in m.entries
    ensures Remove(Put(m, k, v), k) == m
  {
    WithoutLast(m.keys, k);
  }

  lemma {:induction false} WithoutLast(ks: seq<string>, k: string)
    requires k !in ks
    ensures Without(ks + [k], k) == ks
  {
    if |ks| > 0 {
      assert (ks + [k])[1..] == ks[1..] + [k];
      WithoutLast(ks[1..], k);
    } else {
      assert ks + [k] == [k];
    }
  }
}
