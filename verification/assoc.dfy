/** Insertion-ordered dictionaries.

    Python dictionaries remember the order in which keys were first inserted,
    and the heat-map code depends on that order (the first row that holds a
    character wins a lookup; the first shift entry that produces a character
    wins a reverse lookup). An `Assoc` is a sequence of key/value pairs in
    that order. `Put` is `d[k] = v`: an existing key keeps its slot and gets
    the new value, a new key is appended. `Update` is `d.update(e)`. */
module Assoc {
  import opened Wrappers

  type Assoc<K, V> = seq<(K, V)>

  /** The keys in insertion order (`d.keys()`). */
  function Keys<K, V>(a: Assoc<K, V>): (ks: seq<K>)
    ensures |ks| == |a|
    ensures forall i :: 0 <= i < |a| ==> ks[i] == a[i].0
  {
    if |a| == 0 then [] else [a[0].0] + Keys(a[1..])
  }

  /** Every key occurs once, as in any Python dictionary. */
  predicate DistinctKeys<K(==), V>(a: Assoc<K, V>) {
    forall i, j :: 0 <= i < j < |a| ==> a[i].0 != a[j].0
  }

  /** `d.get(k)`: the value stored under `k`, if any. */
  function Get<K(==), V>(a: Assoc<K, V>, k: K): (r: Option<V>)
    ensures r.Some? <==> k in Keys(a)
    ensures r.Some? ==> (k, r.value) in a
  {
    if |a| == 0 then None
    else if a[0].0 == k then Some(a[0].1)
    else
      assert Keys(a) == [a[0].0] + Keys(a[1..]);
      Get(a[1..], k)
  }

  /** In a dictionary, the entry at any slot is what a lookup of its key returns. */
  lemma {:induction false} GetSlot<K, V>(a: Assoc<K, V>, i: nat)
    requires DistinctKeys(a)
    requires i < |a|
    ensures Get(a, a[i].0) == Some(a[i].1)
  {
    if i > 0 {
      assert a[0].0 != a[i].0;
      assert a[1..][i - 1] == a[i];
      GetSlot(a[1..], i - 1);
    }
  }

  /** A lookup in a sequence with a known first entry. */
  lemma GetCons<K, V>(p: (K, V), a: Assoc<K, V>, k: K)
    ensures Get([p] + a, k) == if p.0 == k then Some(p.1) else Get(a, k)
  {
    assert ([p] + a)[1..] == a;
  }

  /** The keys of a sequence with a known first entry. */
  lemma KeysCons<K, V>(p: (K, V), a: Assoc<K, V>)
    ensures Keys([p] + a) == [p.0] + Keys(a)
  {
    assert ([p] + a)[1..] == a;
  }

  /** A sequence with a known first entry is a dictionary when its tail is one
      and does not repeat the first key. */
  lemma DistinctCons<K, V>(p: (K, V), a: Assoc<K, V>)
    ensures DistinctKeys([p] + a) <==> p.0 !in Keys(a) && DistinctKeys(a)
  {
    var r := [p] + a;
    assert r[0] == p;
    if DistinctKeys(r) {
      forall i, j | 0 <= i < j < |a| ensures a[i].0 != a[j].0 {
        assert r[i + 1] == a[i] && r[j + 1] == a[j];
      }
      forall j | 0 <= j < |Keys(a)| ensures Keys(a)[j] != p.0 {
        assert r[j + 1] == a[j];
      }
    }
    if p.0 !in Keys(a) && DistinctKeys(a) {
      forall i, j | 0 <= i < j < |r| ensures r[i].0 != r[j].0 {
        if i == 0 {
          assert r[j].0 == Keys(a)[j - 1];
        } else {
          assert r[i] == a[i - 1] && r[j] == a[j - 1];
        }
      }
    }
  }

  /** `d[k] = v`. */
  function Put<K(==,!new), V>(a: Assoc<K, V>, k: K, v: V): (r: Assoc<K, V>)
    ensures Get(r, k) == Some(v)
    ensures forall k' :: k' != k ==> Get(r, k') == Get(a, k')
    ensures Keys(r) == if k in Keys(a) then Keys(a) else Keys(a) + [k]
    ensures DistinctKeys(a) ==> DistinctKeys(r)
  {
    if |a| == 0 then [(k, v)]
    else
      assert a == [a[0]] + a[1..];
      KeysCons(a[0], a[1..]);
      DistinctCons(a[0], a[1..]);
      if a[0].0 == k then
        PutHead(a, k, v);
        [(k, v)] + a[1..]
      else
        var rest := Put(a[1..], k, v);
        PutTailGet(a, k, v, rest);
        PutTailKeys(a, k, rest);
        PutTailDistinct(a, k, rest);
        [a[0]] + rest
  }

  lemma PutHead<K, V>(a: Assoc<K, V>, k: K, v: V)
    requires |a| > 0 && a[0].0 == k
    ensures var r := [(k, v)] + a[1..];
      && Get(r, k) == Some(v)
      && (forall k' :: k' != k ==> Get(r, k') == Get(a, k'))
      && Keys(r) == Keys(a)
      && (DistinctKeys(a) ==> DistinctKeys(r))
  {
    var r := [(k, v)] + a[1..];
    assert a == [a[0]] + a[1..];
    KeysCons(a[0], a[1..]);
    KeysCons((k, v), a[1..]);
    DistinctCons(a[0], a[1..]);
    DistinctCons((k, v), a[1..]);
    forall k' | k' != k ensures Get(r, k') == Get(a, k') {
      GetCons((k, v), a[1..], k');
      GetCons(a[0], a[1..], k');
    }
  }

  lemma PutTailGet<K, V>(a: Assoc<K, V>, k: K, v: V, rest: Assoc<K, V>)
    requires |a| > 0 && a[0].0 != k
    requires Get(rest, k) == Some(v)
    requires forall k' :: k' != k ==> Get(rest, k') == Get(a[1..], k')
    ensures Get([a[0]] + rest, k) == Some(v)
    ensures forall k' :: k' != k ==> Get([a[0]] + rest, k') == Get(a, k')
  {
    assert a == [a[0]] + a[1..];
    GetCons(a[0], rest, k);
    forall k' | k' != k ensures Get([a[0]] + rest, k') == Get(a, k') {
      GetCons(a[0], rest, k');
      GetCons(a[0], a[1..], k');
    }
  }

  lemma PutTailKeys<K, V>(a: Assoc<K, V>, k: K, rest: Assoc<K, V>)
    requires |a| > 0 && a[0].0 != k
    requires Keys(rest) == if k in Keys(a[1..]) then Keys(a[1..]) else Keys(a[1..]) + [k]
    ensures Keys([a[0]] + rest) == if k in Keys(a) then Keys(a) else Keys(a) + [k]
  {
    assert Keys(a) == [a[0].0] + Keys(a[1..]) by {
      ConsSplit(a);
      KeysCons(a[0], a[1..]);
    }
    KeysCons(a[0], rest);
    if k !in Keys(a[1..]) {
      AppendAssocs([a[0].0], Keys(a[1..]), [k]);
    }
  }

  lemma PutTailDistinct<K, V>(a: Assoc<K, V>, k: K, rest: Assoc<K, V>)
    requires |a| > 0 && a[0].0 != k
    requires Keys(rest) == if k in Keys(a[1..]) then Keys(a[1..]) else Keys(a[1..]) + [k]
    requires DistinctKeys(a[1..]) ==> DistinctKeys(rest)
    ensures DistinctKeys(a) ==> DistinctKeys([a[0]] + rest)
  {
    assert a == [a[0]] + a[1..];
    DistinctCons(a[0], a[1..]);
    DistinctCons(a[0], rest);
    if DistinctKeys(a) {
      assert a[0].0 !in Keys(rest);
    }
  }

  /** `d.update(e)` for a dictionary `e`: the entries of `e` are put into `d` in
      order. */
  function Update<K(==,!new), V>(a: Assoc<K, V>, e: Assoc<K, V>): (r: Assoc<K, V>)
    requires DistinctKeys(e)
    ensures forall k :: Get(r, k) == if k in Keys(e) then Get(e, k) else Get(a, k)
    ensures forall k :: k in Keys(r) <==> k in Keys(a) || k in Keys(e)
    ensures forall k :: k in Keys(a) ==> k in Keys(r)
    ensures DistinctKeys(a) ==> DistinctKeys(r)
    ensures Keys(r) == Keys(a) + NewKeys(Keys(a), Keys(e))
    decreases |e|
  {
    if |e| == 0 then a
    else
      var a' := Put(a, e[0].0, e[0].1);
      var r := Update(a', e[1..]);
      ConsSplit(e);
      KeysCons(e[0], e[1..]);
      DistinctCons(e[0], e[1..]);
      forall k ensures Get(r, k) == if k in Keys(e) then Get(e, k) else Get(a, k) {
        GetCons(e[0], e[1..], k);
      }
      assert Keys(r) == Keys(a) + NewKeys(Keys(a), Keys(e)) by {
        UpdateOrderStep(Keys(a), Keys(a'), Keys(e), Keys(r));
      }
      r
  }

  /** The keys of `es` that are not among `ks`, in the order of `es`: the keys
      `d.update(e)` appends. */
  function NewKeys<K(==,!new)>(ks: seq<K>, es: seq<K>): (r: seq<K>)
    ensures forall k :: k in r <==> k in es && k !in ks
    decreases |es|
  {
    if |es| == 0 then []
    else if es[0] in ks then NewKeys(ks, es[1..])
    else [es[0]] + NewKeys(ks, es[1..])
  }

  /** A key that `es` does not hold makes no difference to `NewKeys`. */
  lemma {:induction false} NewKeysSkip<K(!new)>(ks: seq<K>, k: K, es: seq<K>)
    requires k !in es
    ensures NewKeys(ks + [k], es) == NewKeys(ks, es)
    decreases |es|
  {
    if |es| > 0 {
      assert es[0] in ks + [k] <==> es[0] in ks;
      NewKeysSkip(ks, k, es[1..]);
    }
  }

  /** One step of `Update`: putting the first entry of `e`, then the rest,
      appends the new keys of `e` in order. */
  lemma UpdateOrderStep<K(!new)>(ka: seq<K>, ka': seq<K>, ke: seq<K>, kr: seq<K>)
    requires |ke| > 0 && ke[0] !in ke[1..]
    requires ka' == if ke[0] in ka then ka else ka + [ke[0]]
    requires kr == ka' + NewKeys(ka', ke[1..])
    ensures kr == ka + NewKeys(ka, ke)
  {
    if ke[0] !in ka {
      NewKeysSkip(ka, ke[0], ke[1..]);
      AppendAssocs(ka, [ke[0]], NewKeys(ka, ke[1..]));
    }
  }

  /** Putting a new key appends it at the end. */
  lemma {:induction false} PutAbsent<K(!new), V>(a: Assoc<K, V>, k: K, v: V)
    requires k !in Keys(a)
    ensures Put(a, k, v) == a + [(k, v)]
    decreases |a|
  {
    if |a| > 0 {
      var rest := a[1..] + [(k, v)];
      assert Put(a[1..], k, v) == rest by {
        KeysCons(a[0], a[1..]);
        PutAbsent(a[1..], k, v);
      }
      assert Put(a, k, v) == [a[0]] + Put(a[1..], k, v) by {
        KeysCons(a[0], a[1..]);
        PutTail(a, k, v);
      }
      AppendAssocs([a[0]], a[1..], [(k, v)]);
      ConsSplit(a);
    }
  }

  lemma ConsSplit<T>(a: seq<T>)
    requires |a| > 0
    ensures [a[0]] + a[1..] == a
  {
  }

  lemma AppendAssocs<T>(a: seq<T>, b: seq<T>, c: seq<T>)
    ensures a + (b + c) == (a + b) + c
  {
  }

  /** `d[k] = v` for a key other than the first one leaves the first entry. */
  lemma PutTail<K(!new), V>(a: Assoc<K, V>, k: K, v: V)
    requires |a| > 0 && a[0].0 != k
    ensures Put(a, k, v) == [a[0]] + Put(a[1..], k, v)
  {
  }
}
