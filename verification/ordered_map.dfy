/**
 An insertion-ordered name -> value map: the behaviour of a JavaScript object
 used as a dictionary (`side.panels[name] = div`, `for (name in side.panels)`).
 Assigning to an existing name replaces its value and keeps its position;
 a new name is enumerated after all earlier ones.
 */
module OrderedMap {
  import opened Wrappers
  import opened SeqOps

  datatype Entry<K, V> = Entry(key: K, value: V)

  /** The names in enumeration order. */
  function Keys<K, V>(m: seq<Entry<K, V>>): (ks: seq<K>)
    ensures |ks| == |m|
    ensures forall i :: 0 <= i < |m| ==> ks[i] == m[i].key
  {
    if m == [] then [] else [m[0].key] + Keys(m[1..])
  }

  /** The values in enumeration order. */
  function Values<K, V>(m: seq<Entry<K, V>>): (vs: seq<V>)
    ensures |vs| == |m|
    ensures forall i :: 0 <= i < |m| ==> vs[i] == m[i].value
  {
    if m == [] then [] else [m[0].value] + Values(m[1..])
  }

  /** Each name is bound at most once. */
  predicate DistinctKeys<K(==), V>(m: seq<Entry<K, V>>)
  {
    NoDup(Keys(m))
  }

  /** `m[k]`: the value bound to `k`, or `None` (JavaScript `undefined`). */
  function Get<K(==), V>(m: seq<Entry<K, V>>, k: K): (r: Option<V>)
    ensures r.None? <==> k !in Keys(m)
    ensures r.Some? ==> Entry(k, r.value) in m
  {
    if m == [] then None
    else if m[0].key == k then Some(m[0].value)
    else Get(m[1..], k)
  }

  /** `m[k] = v`. */
  function Put<K(==,!new), V>(m: seq<Entry<K, V>>, k: K, v: V): (r: seq<Entry<K, V>>)
    ensures Get(r, k) == Some(v)
    ensures forall k' :: k' != k ==> Get(r, k') == Get(m, k')
  {
    if m == [] then [Entry(k, v)]
    else if m[0].key == k then [Entry(k, v)] + m[1..]
    else
      var r := [m[0]] + Put(m[1..], k, v);
      assert r[1..] == Put(m[1..], k, v);
      r
  }

  /** A name already present keeps its position; a new name goes last. */
  lemma {:induction false} PutKeys<K(!new), V>(m: seq<Entry<K, V>>, k: K, v: V)
    ensures Keys(Put(m, k, v)) == if k in Keys(m) then Keys(m) else Keys(m) + [k]
  {
    if m == [] {
      assert Keys(Put(m, k, v)) == [k];
    } else {
      var r := Put(m, k, v);
      assert Keys(m) == [m[0].key] + Keys(m[1..]);
      assert Keys(r) == [r[0].key] + Keys(r[1..]);
      if m[0].key == k {
        assert r[1..] == m[1..];
      } else {
        assert r[1..] == Put(m[1..], k, v);
        PutKeys(m[1..], k, v);
        assert k in Keys(m) <==> k in Keys(m[1..]);
      }
    }
  }

  lemma PutKeepsKeysDistinct<K(!new), V>(m: seq<Entry<K, V>>, k: K, v: V)
    requires DistinctKeys(m)
    ensures DistinctKeys(Put(m, k, v))
  {
    PutKeys(m, k, v);
  }

  /** Storing `v` introduces no value other than `v`. */
  lemma {:induction false} PutValuesFrom<K(!new), V(!new)>(m: seq<Entry<K, V>>, k: K, v: V)
    ensures forall x :: x in Values(Put(m, k, v)) ==> x == v || x in Values(m)
  {
    if m == [] {
    } else if m[0].key == k {
      assert ([Entry(k, v)] + m[1..])[1..] == m[1..];
    } else {
      var r := Put(m, k, v);
      PutValuesFrom(m[1..], k, v);
      assert r[1..] == Put(m[1..], k, v);
      assert Values(r) == [m[0].value] + Values(r[1..]);
      assert Values(m) == [m[0].value] + Values(m[1..]);
    }
  }

  /** Storing a value not yet present adds no duplicate value. */
  lemma {:induction false} PutValuesNoDup<K(!new), V(!new)>(m: seq<Entry<K, V>>, k: K, v: V)
    requires v !in Values(m) && NoDup(Values(m))
    ensures NoDup(Values(Put(m, k, v)))
  {
    if m == [] {
    } else if m[0].key == k {
      var r := Put(m, k, v);
      assert r[1..] == m[1..];
      assert Values(m) == [m[0].value] + Values(m[1..]);
      assert Values(r) == [v] + Values(m[1..]);
      NoDupCons(m[0].value, Values(m[1..]));
      NoDupCons(v, Values(m[1..]));
    } else {
      var r := Put(m, k, v);
      assert Values(m) == [m[0].value] + Values(m[1..]);
      NoDupCons(m[0].value, Values(m[1..]));
      PutValuesNoDup(m[1..], k, v);
      PutValuesFrom(m[1..], k, v);
      assert r[1..] == Put(m[1..], k, v);
      assert Values(r) == [m[0].value] + Values(r[1..]);
      NoDupCons(m[0].value, Values(r[1..]));
    }
  }
}
