/**
 * A JavaScript `Map` keyed by strings: the entries plus the insertion order of their keys,
 * which decides the order every `for (const [k, v] of m)` loop visits them in.
 */
module OrderedMaps {

  predicate Distinct(ks: seq<string>) {
    forall i, j :: 0 <= i < j < |ks| ==> ks[i] != ks[j]
  }

  /** `ks` with every occurrence of `k` taken out, the other keys in their old order */
  function Without(ks: seq<string>, k: string): (r: seq<string>)
    ensures forall x :: x in r <==> x in ks && x != k
    ensures |r| <= |ks|
    ensures Distinct(ks) ==> Distinct(r)
    ensures k !in ks ==> r == ks
  {
    if ks == [] then []
    else
      var rest := Without(ks[1..], k);
      if ks[0] == k then rest
      else
        assert Distinct(ks) ==> ks[0] !in ks[1..];
        [ks[0]] + rest
  }

  datatype OMap<V> = OMap(keys: seq<string>, entries: map<string, V>) {

    /** The key order lists every key once and nothing else. */
    ghost predicate Valid() {
      && Distinct(keys)
      && (forall k :: k in entries <==> k in keys)
    }

    predicate Has(k: string) {
      k in entries
    }

    /** `m.set(k, v)`: a present key keeps its place, a new one goes last */
    function Set(k: string, v: V): (r: OMap<V>)
      ensures r.entries == entries[k := v]
      ensures r.keys == if k in entries then keys else keys + [k]
      ensures Valid() ==> r.Valid()
    {
      if k in entries then OMap(keys, entries[k := v])
      else
        assert Valid() ==> k !in keys;
        OMap(keys + [k], entries[k := v])
    }

    /** `m.delete(k)`: the entry goes, the other keys keep their order */
    function Delete(k: string): (r: OMap<V>)
      ensures r.entries == entries - {k}
      ensures r.keys == Without(keys, k)
      ensures Valid() ==> r.Valid()
    {
      OMap(Without(keys, k), entries - {k})
    }

    /** `Array.from(m.values())` */
    function Values(): (r: seq<V>)
      requires Valid()
      ensures |r| == |keys|
      ensures forall i :: 0 <= i < |keys| ==> r[i] == entries[keys[i]]
    {
      seq(|keys|, i requires 0 <= i < |keys| => assert keys[i] in keys; entries[keys[i]])
    }
  }

  function Empty<V>(): (r: OMap<V>)
    ensures r.Valid() && r.keys == [] && r.entries == map[]
  {
    OMap([], map[])
  }

  /** Setting a new key and deleting it again gives back the map it started from. */
  lemma DeleteUndoesSet<V>(m: OMap<V>, k: string, v: V)
    requires m.Valid() && !m.Has(k)
    ensures m.Set(k, v).Delete(k) == m
  {
    assert k !in m.keys;
    var r := m.Set(k, v).Delete(k);
    assert r.keys == Without(m.keys + [k], k);
    WithoutAppended(m.keys, k);
    assert r.entries == m.entries;
  }

  /** Writing a key twice is writing it once with the later value. */
  lemma SetTwice<V>(m: OMap<V>, k: string, a: V, b: V)
    ensures m.Set(k, a).Set(k, b) == m.Set(k, b)
  {
  }

  /** Writing back the value a key already has changes nothing, its position included. */
  lemma SetUnchanged<V>(m: OMap<V>, k: string)
    requires m.Has(k)
    ensures m.Set(k, m.entries[k]) == m
  {
  }

  lemma {:induction false} WithoutAppended(ks: seq<string>, k: string)
    requires k !in ks
    ensures Without(ks + [k], k) == ks
  {
    if ks == [] {
      assert [k][1..] == [];
    } else {
      assert (ks + [k])[1..] == ks[1..] + [k];
      WithoutAppended(ks[1..], k);
    }
  }
}
