/**
 PHP associative arrays with string keys, as the class uses them for `__data`,
 `__fields_format`, a fetched row and a WHERE argument: a sequence of key/value
 entries kept in insertion order. PHP never holds a key twice; `DistinctKeys`
 states that, and the updates below preserve it.
 */
module OrderedMap {
  import opened PhpValues

  /** The keys in entry order (PHP's `array_keys`). */
  function Keys<V>(m: seq<(string, V)>): seq<string>
  {
    seq(|m|, i requires 0 <= i < |m| => m[i].0)
  }

  /** No key occurs twice. */
  predicate DistinctKeys<V>(m: seq<(string, V)>)
  {
    |m| == 0 || (m[0].0 !in Keys(m[1..]) && DistinctKeys(m[1..]))
  }

  lemma KeysCons<V>(m: seq<(string, V)>)
    requires |m| > 0
    ensures Keys(m) == [m[0].0] + Keys(m[1..])
  {
  }

  /** A key sequence with every occurrence of `k` dropped, the rest in their order. */
  function Without(ks: seq<string>, k: string): seq<string>
  {
    if |ks| == 0 then []
    else if ks[0] == k then Without(ks[1..], k)
    else [ks[0]] + Without(ks[1..], k)
  }

  /** Reading `$m[$k]`: the value stored under `k`, or None when the key is absent. */
  function Lookup<V>(m: seq<(string, V)>, k: string): (r: Option<V>)
    ensures r.Some? <==> k in Keys(m)
    ensures r.Some? ==> (k, r.value) in m
  {
    if |m| == 0 then None
    else
      KeysCons(m);
      if m[0].0 == k then Some(m[0].1) else Lookup(m[1..], k)
  }

  /** In a PHP array every entry is what a read of its key returns. */
  lemma {:induction false} LookupEntry<V>(m: seq<(string, V)>, i: nat)
    requires DistinctKeys(m) && i < |m|
    ensures Lookup(m, m[i].0) == Some(m[i].1)
  {
    if i > 0 {
      KeysCons(m);
      assert m[i].0 in Keys(m[1..]) by { assert Keys(m[1..])[i - 1] == m[i].0; }
      LookupEntry(m[1..], i - 1);
    }
  }

  /** Writing `$m[$k] = $v`: an existing key keeps its position, a new key goes last. */
  function Put<V>(m: seq<(string, V)>, k: string, v: V): (r: seq<(string, V)>)
    ensures Keys(r) == if k in Keys(m) then Keys(m) else Keys(m) + [k]
    ensures Lookup(r, k) == Some(v)
    ensures forall k' :: k' != k ==> Lookup(r, k') == Lookup(m, k')
  {
    if |m| == 0 then [(k, v)]
    else
      KeysCons(m);
      if m[0].0 == k then
        var r := [(k, v)] + m[1..];
        KeysCons(r);
        assert r[1..] == m[1..];
        r
      else
        var t := Put(m[1..], k, v);
        var r := [m[0]] + t;
        KeysCons(r);
        assert r[1..] == t;
        r
  }

  /** Writing a key never creates a duplicate. */
  lemma {:induction false} PutKeepsDistinct<V>(m: seq<(string, V)>, k: string, v: V)
    requires DistinctKeys(m)
    ensures DistinctKeys(Put(m, k, v))
  {
    if |m| > 0 {
      var r := Put(m, k, v);
      KeysCons(m);
      KeysCons(r);
      if m[0].0 == k {
        assert r[1..] == m[1..];
      } else {
        PutKeepsDistinct(m[1..], k, v);
        assert r[1..] == Put(m[1..], k, v);
      }
    }
  }

  /** `unset($m[$k])`: the entry for `k` is dropped, the others keep their order. */
  function Remove<V>(m: seq<(string, V)>, k: string): (r: seq<(string, V)>)
    ensures Lookup(r, k) == None
    ensures forall k' :: k' != k ==> Lookup(r, k') == Lookup(m, k')
    ensures forall k' :: k' in Keys(r) <==> k' in Keys(m) && k' != k
    ensures Keys(r) == Without(Keys(m), k)
    ensures k !in Keys(m) ==> r == m
  {
    if |m| == 0 then []
    else
      KeysCons(m);
      assert Keys(m)[1..] == Keys(m[1..]);
      var t := Remove(m[1..], k);
      if m[0].0 == k then t
      else
        var r := [m[0]] + t;
        KeysCons(r);
        assert r[1..] == t;
        r
  }

  /** Unsetting a key never creates a duplicate, and removes exactly one entry when the key was there. */
  lemma {:induction false} RemoveKeepsDistinct<V>(m: seq<(string, V)>, k: string)
    requires DistinctKeys(m)
    ensures DistinctKeys(Remove(m, k))
    ensures k in Keys(m) ==> |Remove(m, k)| == |m| - 1
  {
    if |m| > 0 {
      KeysCons(m);
      RemoveKeepsDistinct(m[1..], k);
      if m[0].0 != k {
        var r := Remove(m, k);
        KeysCons(r);
        assert r[1..] == Remove(m[1..], k);
      }
    }
  }
}
