/** Python dictionaries with string keys, which remember insertion order:
    a sequence of (key, value) pairs with distinct keys. `Put` is
    `d[k] = v` (an existing key keeps its place), `Merge` is `d |= e`, and
    `Get` is the lookup `d.get(k)`. */
module Dicts {
  import opened Base

  type Dict<V> = seq<(string, V)>

  function Keys<V>(d: Dict<V>): (ks: seq<string>)
    ensures |ks| == |d|
    ensures forall i :: 0 <= i < |d| ==> ks[i] == d[i].0
  {
    if d == [] then [] else [d[0].0] + Keys(d[1..])
  }

  predicate UniqueKeys<V>(d: Dict<V>) {
    forall i, j :: 0 <= i < j < |d| ==> d[i].0 != d[j].0
  }

  /** `d.get(k)`: the value stored under `k`, if any. */
  function Get<V>(d: Dict<V>, k: string): (r: Option<V>)
    ensures r.Some? <==> k in Keys(d)
  {
    if d == [] then None
    else if d[0].0 == k then Some(d[0].1)
    else Get(d[1..], k)
  }

  /** `d[k] = v` */
  function Put<V>(d: Dict<V>, k: string, v: V): (r: Dict<V>)
    ensures k in Keys(d) ==> Keys(r) == Keys(d)
    ensures k !in Keys(d) ==> Keys(r) == Keys(d) + [k]
  {
    if d == [] then [(k, v)]
    else if d[0].0 == k then [(k, v)] + d[1..]
    else
      var t := Put(d[1..], k, v);
      assert Keys(d) == [d[0].0] + Keys(d[1..]);
      assert Keys([d[0]] + t) == [d[0].0] + Keys(t);
      [d[0]] + t
  }

  /** `d[k] = v` keeps the keys distinct. */
  lemma PutUnique<V>(d: Dict<V>, k: string, v: V)
    requires UniqueKeys(d)
    ensures UniqueKeys(Put(d, k, v))
  {
    var r := Put(d, k, v);
    var kd, kr := Keys(d), Keys(r);
    forall i, j | 0 <= i < j < |r| ensures r[i].0 != r[j].0 {
      assert r[i].0 == kr[i] && r[j].0 == kr[j];
      if j < |d| {
        assert kr[i] == kd[i] == d[i].0 && kr[j] == kd[j] == d[j].0;
      } else {
        assert k !in kd && kr[j] == k && kr[i] == kd[i];
      }
    }
  }

  /** After `d[k] = v`, `k` holds `v` and every other key what it held. */
  lemma {:induction false} PutGet<V>(d: Dict<V>, k: string, v: V, x: string)
    ensures Get(Put(d, k, v), x) == if x == k then Some(v) else Get(d, x)
  {
    if d != [] && d[0].0 != k {
      PutGet(d[1..], k, v, x);
      assert Put(d, k, v)[1..] == Put(d[1..], k, v);
    } else if d != [] {
      assert Put(d, k, v)[1..] == d[1..];
    }
  }

  /** `d |= e`: the entries of `e` put into `d` one after another. */
  function Merge<V>(d: Dict<V>, e: Dict<V>): (r: Dict<V>)
    decreases |e|
  {
    if e == [] then d else Merge(Put(d, e[0].0, e[0].1), e[1..])
  }

  /** After `d |= e` a key holds its value in `e` if `e` has it, and its
      value in `d` otherwise. */
  lemma {:induction false} MergeGet<V>(d: Dict<V>, e: Dict<V>, x: string)
    requires UniqueKeys(e)
    ensures Get(Merge(d, e), x) == if x in Keys(e) then Get(e, x) else Get(d, x)
    decreases |e|
  {
    if e != [] {
      var d' := Put(d, e[0].0, e[0].1);
      PutGet(d, e[0].0, e[0].1, x);
      MergeGet(d', e[1..], x);
      assert Keys(e) == [e[0].0] + Keys(e[1..]);
    }
  }

  /** Merging never drops a key, and adds exactly the keys of `e`. */
  lemma {:induction false} MergeKeys<V>(d: Dict<V>, e: Dict<V>, x: string)
    ensures x in Keys(Merge(d, e)) <==> x in Keys(d) || x in Keys(e)
    decreases |e|
  {
    if e != [] {
      MergeKeys(Put(d, e[0].0, e[0].1), e[1..], x);
      assert Keys(e) == [e[0].0] + Keys(e[1..]);
    }
  }

  /** Merging one entry more puts that entry into the earlier merge. */
  lemma {:induction false} MergeSnoc<V>(d: Dict<V>, e: Dict<V>, k: string, v: V)
    ensures Merge(d, e + [(k, v)]) == Put(Merge(d, e), k, v)
    decreases |e|
  {
    if e == [] {
      assert e + [(k, v)] == [(k, v)];
    } else {
      assert (e + [(k, v)])[0] == e[0] && (e + [(k, v)])[1..] == e[1..] + [(k, v)];
      MergeSnoc(Put(d, e[0].0, e[0].1), e[1..], k, v);
    }
  }

  /** `d |= e` keeps the keys of `d` distinct. */
  lemma {:induction false} MergeUnique<V>(d: Dict<V>, e: Dict<V>)
    requires UniqueKeys(d)
    ensures UniqueKeys(Merge(d, e))
    decreases |e|
  {
    if e != [] {
      PutUnique(d, e[0].0, e[0].1);
      MergeUnique(Put(d, e[0].0, e[0].1), e[1..]);
    }
  }
}
