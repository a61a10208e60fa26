/**
 An insertion-ordered dictionary keyed by strings, as a `Distribution` node
 keeps its variables, parameters and child distributions. Assigning to a key
 that is already present replaces its value where it stands; a new key is
 appended at the end.
 */
module OrderedMaps {
  import opened Wrappers

  datatype Entry<V> = Entry(key: string, value: V)

  /** The keys of a list of entries, in order. */
  function KeysOf<V>(es: seq<Entry<V>>): (ks: seq<string>)
    ensures |ks| == |es|
    ensures forall i :: 0 <= i < |es| ==> ks[i] == es[i].key
  {
    seq(|es|, i requires 0 <= i < |es| => es[i].key)
  }

  /** The value of the first entry whose key is `k`. */
  function Lookup<V>(es: seq<Entry<V>>, k: string): Option<V>
  {
    if |es| == 0 then None
    else if es[0].key == k then Some(es[0].value)
    else Lookup(es[1..], k)
  }

  /** Replace the value of the first entry keyed `k`, or append a new entry. */
  function Put<V>(es: seq<Entry<V>>, k: string, v: V): (r: seq<Entry<V>>)
    ensures |r| == |es| || |r| == |es| + 1
  {
    if |es| == 0 then [Entry(k, v)]
    else if es[0].key == k then [Entry(k, v)] + es[1..]
    else [es[0]] + Put(es[1..], k, v)
  }

  /** No key occurs twice. */
  predicate DistinctKeys<V>(es: seq<Entry<V>>) {
    forall i, j :: 0 <= i < j < |es| ==> es[i].key != es[j].key
  }

  lemma {:induction false} LookupSpec<V>(es: seq<Entry<V>>, k: string)
    ensures Lookup(es, k).None? <==> k !in KeysOf(es)
    ensures Lookup(es, k).Some? ==> exists i :: 0 <= i < |es| && es[i] == Entry(k, Lookup(es, k).value)
  {
    if |es| > 0 && es[0].key != k {
      LookupSpec(es[1..], k);
      assert KeysOf(es) == [es[0].key] + KeysOf(es[1..]);
      if Lookup(es, k).Some? {
        var i :| 0 <= i < |es[1..]| && es[1..][i] == Entry(k, Lookup(es, k).value);
        assert es[i + 1] == Entry(k, Lookup(es, k).value);
      }
    }
  }

  lemma {:induction false} PutLookup<V>(es: seq<Entry<V>>, k: string, v: V)
    ensures Lookup(Put(es, k, v), k) == Some(v)
    ensures forall k' :: k' != k ==> Lookup(Put(es, k, v), k') == Lookup(es, k')
  {
    if |es| > 0 && es[0].key != k {
      var rest := Put(es[1..], k, v);
      PutLookup(es[1..], k, v);
      assert ([es[0]] + rest)[1..] == rest;
    } else if |es| > 0 {
      assert ([Entry(k, v)] + es[1..])[1..] == es[1..];
    }
  }

  lemma {:induction false} PutKeepsKeys<V>(es: seq<Entry<V>>, k: string, v: V)
    ensures k in KeysOf(es) ==> KeysOf(Put(es, k, v)) == KeysOf(es)
  {
    if |es| > 0 && k in KeysOf(es) {
      var r := Put(es, k, v);
      if es[0].key == k {
        assert r == [Entry(k, v)] + es[1..];
        forall i | 0 <= i < |es|
          ensures KeysOf(r)[i] == KeysOf(es)[i]
        {
          if i > 0 {
            assert r[i] == es[i];
          }
        }
      } else {
        var rest := Put(es[1..], k, v);
        assert r == [es[0]] + rest;
        assert KeysOf(es)[1..] == KeysOf(es[1..]);
        PutKeepsKeys(es[1..], k, v);
        forall i | 0 <= i < |es|
          ensures KeysOf(r)[i] == KeysOf(es)[i]
        {
          if i > 0 {
            assert r[i] == rest[i - 1];
            assert KeysOf(rest)[i - 1] == KeysOf(es[1..])[i - 1];
          }
        }
      }
    }
  }

  lemma {:induction false} PutAppends<V>(es: seq<Entry<V>>, k: string, v: V)
    ensures k !in KeysOf(es) ==> Put(es, k, v) == es + [Entry(k, v)]
  {
    if |es| > 0 && k !in KeysOf(es) {
      assert KeysOf(es)[0] == es[0].key;
      assert KeysOf(es)[1..] == KeysOf(es[1..]);
      PutAppends(es[1..], k, v);
      assert es == [es[0]] + es[1..];
    }
  }

  /** What `Put` does to lookups and to the key order. */
  lemma PutSpec<V>(es: seq<Entry<V>>, k: string, v: V)
    ensures Lookup(Put(es, k, v), k) == Some(v)
    ensures forall k' :: k' != k ==> Lookup(Put(es, k, v), k') == Lookup(es, k')
    ensures k in KeysOf(es) ==> KeysOf(Put(es, k, v)) == KeysOf(es)
    ensures k !in KeysOf(es) ==> Put(es, k, v) == es + [Entry(k, v)]
  {
    PutLookup(es, k, v);
    PutKeepsKeys(es, k, v);
    PutAppends(es, k, v);
  }

  lemma PutKeepsDistinct<V>(es: seq<Entry<V>>, k: string, v: V)
    ensures DistinctKeys(es) ==> DistinctKeys(Put(es, k, v))
  {
    PutSpec(es, k, v);
    var ks, ks' := KeysOf(es), KeysOf(Put(es, k, v));
    if DistinctKeys(es) {
      forall i, j | 0 <= i < j < |ks'|
        ensures ks'[i] != ks'[j]
      {
        assert i < |ks|;
        if j == |ks| {
          assert ks' == ks + [k];
        }
      }
    }
  }

  lemma {:induction false} PutInPlace<V>(es: seq<Entry<V>>, k: string, v: V)
    ensures DistinctKeys(es) ==> forall i :: 0 <= i < |es| ==>
      Put(es, k, v)[i] == (if es[i].key == k then Entry(k, v) else es[i])
  {
    if DistinctKeys(es) && |es| > 0 {
      if es[0].key != k {
        PutInPlace(es[1..], k, v);
        var r := Put(es, k, v);
        assert r == [es[0]] + Put(es[1..], k, v);
        forall i | 1 <= i < |es|
          ensures r[i] == (if es[i].key == k then Entry(k, v) else es[i])
        {
          assert es[1..][i - 1] == es[i];
        }
      } else {
        assert forall i :: 1 <= i < |es| ==> es[i].key != k;
      }
    }
  }

  datatype OrderedMap<V> = OrderedMap(entries: seq<Entry<V>>) {

    /** The keys, in insertion order. */
    function Keys(): (ks: seq<string>)
      ensures |ks| == |entries|
      ensures forall i :: 0 <= i < |entries| ==> ks[i] == entries[i].key
    {
      KeysOf(entries)
    }

    /** The values, in insertion order (`OrderedDict.values()`). */
    function Values(): (vs: seq<V>)
      ensures |vs| == |entries|
      ensures forall i :: 0 <= i < |entries| ==> vs[i] == entries[i].value
    {
      seq(|entries|, i requires 0 <= i < |entries| => entries[i].value)
    }

    /** No key occurs twice: every map built by `Set` from `Empty` has this. */
    predicate Valid() {
      DistinctKeys(entries)
    }

    /** The value stored under `k`, if any. */
    function Get(k: string): (r: Option<V>)
      ensures r.None? <==> k !in Keys()
      ensures r.Some? ==> exists i :: 0 <= i < |entries| && entries[i] == Entry(k, r.value)
    {
      LookupSpec(entries, k);
      Lookup(entries, k)
    }

    /**
     `self[k] = v`: the entry for `k` holds `v` afterwards, every other key
     keeps its value, and the keys stay in insertion order.
     */
    function Set(k: string, v: V): (r: OrderedMap<V>)
      ensures r.Get(k) == Some(v)
      ensures forall k' :: k' != k ==> r.Get(k') == Get(k')
      ensures k in Keys() ==> r.Keys() == Keys()
      ensures k !in Keys() ==> r.entries == entries + [Entry(k, v)]
      ensures Valid() ==> r.Valid()
      ensures Valid() ==> forall i :: 0 <= i < |entries| ==>
        r.entries[i] == (if entries[i].key == k then Entry(k, v) else entries[i])
    {
      PutSpec(entries, k, v);
      PutKeepsDistinct(entries, k, v);
      PutInPlace(entries, k, v);
      OrderedMap(Put(entries, k, v))
    }
  }

  /** A fresh, empty dictionary (`OrderedDict()`). */
  function Empty<V>(): (m: OrderedMap<V>)
    ensures m.Keys() == [] && m.Valid()
    ensures forall k :: m.Get(k) == None
  {
    OrderedMap([])
  }

  /** One assignment to a fresh dictionary: a single entry. */
  lemma SetOnceOnEmpty<V>(k: string, a: V)
    ensures Empty<V>().Set(k, a).entries == [Entry(k, a)]
    ensures Empty<V>().Set(k, a).Keys() == [k] && Empty<V>().Set(k, a).Values() == [a]
    ensures Empty<V>().Set(k, a).Valid()
  {
    assert Put([], k, a) == [Entry(k, a)];
  }

  /**
   Two assignments to a fresh dictionary: two entries in assignment order, or
   one entry holding the second value when both keys are equal.
   */
  lemma SetTwiceOnEmpty<V>(ka: string, a: V, kb: string, b: V)
    ensures ka != kb ==> Empty<V>().Set(ka, a).Set(kb, b).entries == [Entry(ka, a), Entry(kb, b)]
    ensures ka != kb ==> Empty<V>().Set(ka, a).Set(kb, b).Keys() == [ka, kb]
    ensures ka != kb ==> Empty<V>().Set(ka, a).Set(kb, b).Values() == [a, b]
    ensures ka == kb ==> Empty<V>().Set(ka, a).Set(kb, b).entries == [Entry(kb, b)]
    ensures ka == kb ==> Empty<V>().Set(ka, a).Set(kb, b).Keys() == [kb]
    ensures ka == kb ==> Empty<V>().Set(ka, a).Set(kb, b).Values() == [b]
    ensures Empty<V>().Set(ka, a).Set(kb, b).Valid()
  {
    var one: seq<Entry<V>> := [Entry(ka, a)];
    assert Put([], ka, a) == one;
    assert one[1..] == [];
    if ka == kb {
      assert Put(one, kb, b) == [Entry(kb, b)] + one[1..];
    } else {
      assert Put(one, kb, b) == [one[0]] + Put(one[1..], kb, b);
    }
  }
}
