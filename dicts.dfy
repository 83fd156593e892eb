/** Python's insertion-ordered `dict` with string keys, as a sequence of key/value entries.
    `Put` is the assignment `d[k] = v`: an existing key keeps its position
    and gets the new value, a new key goes to the end. */
module Dicts {

  import opened Basics

  /** An insertion-ordered dict, for the categories result whose order is
      read. The environments and projects of a configuration are only looked
      up by name, never iterated, so they are plain `map`s. */
  type Dict<V> = seq<(string, V)>

  /** The keys in iteration order. */
  function Keys<V>(d: Dict<V>): (ks: seq<string>)
    ensures |ks| == |d|
    ensures forall i :: 0 <= i < |d| ==> ks[i] == d[i].0
  {
    if d == [] then [] else [d[0].0] + Keys(d[1..])
  }

  /** No key occurs twice. */
  predicate Distinct(ks: seq<string>)
  {
    forall i, j :: 0 <= i < j < |ks| ==> ks[i] != ks[j]
  }

  /** `d.get(k)`: the value of the first entry with key `k`. Every dict
      built with `Put` keeps its keys distinct (`PutDistinct`), and then the
      entry is unique (`GetEntry`). */
  function Get<V>(d: Dict<V>, k: string): (r: Option<V>)
    ensures r == None <==> k !in Keys(d)
    ensures r.Some? ==> exists i :: 0 <= i < |d| && d[i] == (k, r.value)
  {
    if d == [] then None
    else if d[0].0 == k then Some(d[0].1)
    else Get(d[1..], k)
  }

  /** With distinct keys, `Get` returns the value of the entry carrying the key. */
  lemma GetEntry<V>(d: Dict<V>, k: string, i: nat)
    requires Distinct(Keys(d))
    requires i < |d| && d[i].0 == k
    ensures Get(d, k) == Some(d[i].1)
  {
    assert Keys(d)[i] == k;
    var j :| 0 <= j < |d| && d[j] == (k, Get(d, k).value);
    assert Keys(d)[j] == k;
  }

  /** `d[k] = v`. */
  function Put<V>(d: Dict<V>, k: string, v: V): (r: Dict<V>)
    ensures Keys(r) == if k in Keys(d) then Keys(d) else Keys(d) + [k]
    ensures Get(r, k) == Some(v)
    ensures forall j :: j != k ==> Get(r, j) == Get(d, j)
  {
    if d == [] then [(k, v)]
    else if d[0].0 == k then
      assert ([(k, v)] + d[1..])[1..] == d[1..];
      [(k, v)] + d[1..]
    else
      var rest := Put(d[1..], k, v);
      PutBehind(d[0], d[1..], rest, k, v);
      assert d == [d[0]] + d[1..];
      [d[0]] + rest
  }

  /** An entry with another key, put in front of a dict and of its updated
      version, keeps the update's properties. */
  lemma PutBehind<V>(e: (string, V), d: Dict<V>, r: Dict<V>, k: string, v: V)
    requires e.0 != k
    requires Keys(r) == if k in Keys(d) then Keys(d) else Keys(d) + [k]
    requires Get(r, k) == Some(v)
    requires forall j :: j != k ==> Get(r, j) == Get(d, j)
    ensures Keys([e] + r) == if k in Keys([e] + d) then Keys([e] + d) else Keys([e] + d) + [k]
    ensures Get([e] + r, k) == Some(v)
    ensures forall j :: j != k ==> Get([e] + r, j) == Get([e] + d, j)
  {
    PutBehindKeys(e.0, Keys(d), Keys(r), k);
    KeysCons(e, r);
    KeysCons(e, d);
    GetCons(e, r);
    GetCons(e, d);
  }

  /** The key equation of an update survives a key put in front. */
  lemma PutBehindKeys(x: string, ks: seq<string>, rs: seq<string>, k: string)
    requires x != k
    requires rs == if k in ks then ks else ks + [k]
    ensures [x] + rs == if k in [x] + ks then [x] + ks else [x] + ks + [k]
  {
    assert k in [x] + ks <==> k in ks;
  }

  /** The keys of a dict with an entry in front. */
  lemma KeysCons<V>(e: (string, V), d: Dict<V>)
    ensures Keys([e] + d) == [e.0] + Keys(d)
  {
    assert ([e] + d)[1..] == d;
  }

  /** Looking a key up in a dict with an entry in front. */
  lemma GetCons<V>(e: (string, V), d: Dict<V>)
    ensures forall j :: Get([e] + d, j) == if e.0 == j then Some(e.1) else Get(d, j)
  {
    assert ([e] + d)[1..] == d;
  }

  /** Assignment never makes a key occur twice. */
  lemma PutDistinct<V>(d: Dict<V>, k: string)
    ensures Distinct(Keys(d)) ==> forall v :: Distinct(Keys(Put(d, k, v)))
  {
    var ks := Keys(d);
    if Distinct(ks) && k !in ks {
      assert forall i :: 0 <= i < |ks| ==> (ks + [k])[i] == ks[i];
    }
  }
}
