/** A Python `dict` where its insertion order is observable: key/value pairs
    in the order the keys were first inserted. */
module OrderedMap {
  import opened Wrappers
  import opened Lookup

  type OMap<K, V> = seq<(K, V)>

  function Keys<K, V>(m: OMap<K, V>): (ks: seq<K>)
    ensures |ks| == |m|
    ensures forall i :: 0 <= i < |m| ==> ks[i] == m[i].0
  {
    if |m| == 0 then [] else [m[0].0] + Keys(m[1..])
  }

  predicate DistinctKeys<K(==), V>(m: OMap<K, V>) {
    forall i, j :: 0 <= i < j < |m| ==> m[i].0 != m[j].0
  }

  /** `d.get(k)`: the value stored under the first pair with key `k`. */
  function Get<K(==), V>(m: OMap<K, V>, k: K): (r: Option<V>)
    ensures r.Some? <==> k in Keys(m)
  {
    if |m| == 0 then None
    else if m[0].0 == k then Some(m[0].1)
    else Get(m[1..], k)
  }

  /** `d[k] = v`: a present key keeps its position and takes the new value;
      a new key goes to the end. */
  function Put<K(==), V>(m: OMap<K, V>, k: K, v: V): (r: OMap<K, V>)
    ensures k in Keys(m) ==> Keys(r) == Keys(m)
    ensures k !in Keys(m) ==> Keys(r) == Keys(m) + [k]
  {
    if |m| == 0 then [(k, v)]
    else if m[0].0 == k then
      var r := [(k, v)] + m[1..];
      assert r[1..] == m[1..];
      r
    else
      var r := [m[0]] + Put(m[1..], k, v);
      assert r[1..] == Put(m[1..], k, v);
      r
  }

  /** After `d[k] = v`, `d.get(k)` is `v` and every other key reads as before. */
  lemma {:induction false} PutGet<K, V>(m: OMap<K, V>, k: K, v: V, k': K)
    ensures Get(Put(m, k, v), k) == Some(v)
    ensures k' != k ==> Get(Put(m, k, v), k') == Get(m, k')
  {
    if |m| > 0 && m[0].0 != k {
      PutGet(m[1..], k, v, k');
    }
  }

  /** Assignment never duplicates a key. */
  lemma PutDistinct<K, V>(m: OMap<K, V>, k: K, v: V)
    requires DistinctKeys(m)
    ensures DistinctKeys(Put(m, k, v))
  {
    var r := Put(m, k, v);
    var ks := Keys(m);
    var rs := Keys(r);
    forall i, j | 0 <= i < j < |r|
      ensures r[i].0 != r[j].0
    {
      assert rs[i] == r[i].0 && rs[j] == r[j].0;
      if j < |m| {
        assert ks[i] == m[i].0 && ks[j] == m[j].0;
      } else {
        assert rs[j] == k;
        assert ks[i] == m[i].0;
      }
    }
  }

  /** The loop `for x in xs: d[key(x)] = value(x)` from an empty dict, skipping
      items without a key. */
  function FromSeq<T, K(==), V>(xs: seq<T>, key: T -> Option<K>, value: T -> V): (m: OMap<K, V>)
    ensures DistinctKeys(m)
  {
    if |xs| == 0 then []
    else
      var m := FromSeq(xs[..|xs| - 1], key, value);
      var x := xs[|xs| - 1];
      match key(x)
      case None => m
      case Some(k) => PutDistinct(m, k, value(x)); Put(m, k, value(x))
  }

  /** The dict's keys are exactly the keys of the keyed items. */
  lemma {:induction false} FromSeqKeySet<T, K, V>(xs: seq<T>, key: T -> Option<K>, value: T -> V)
    ensures forall i :: 0 <= i < |xs| && key(xs[i]).Some? ==> key(xs[i]).value in Keys(FromSeq(xs, key, value))
    ensures forall j :: 0 <= j < |FromSeq(xs, key, value)| ==>
      exists i :: 0 <= i < |xs| && key(xs[i]) == Some(FromSeq(xs, key, value)[j].0)
  {
    if |xs| > 0 {
      var init := xs[..|xs| - 1];
      var x := xs[|xs| - 1];
      FromSeqKeySet(init, key, value);
      var m := FromSeq(init, key, value);
      var r := FromSeq(xs, key, value);
      assert forall i :: 0 <= i < |init| ==> init[i] == xs[i];
      match key(x)
      case None =>
        assert r == m;
        forall j | 0 <= j < |r|
          ensures exists i :: 0 <= i < |xs| && key(xs[i]) == Some(r[j].0)
        {
          var i :| 0 <= i < |init| && key(init[i]) == Some(m[j].0);
          assert key(xs[i]) == Some(r[j].0);
        }
      case Some(k) =>
        assert r == Put(m, k, value(x));
        assert k in Keys(r);
        forall j | 0 <= j < |r|
          ensures exists i :: 0 <= i < |xs| && key(xs[i]) == Some(r[j].0)
        {
          assert Keys(r)[j] == r[j].0;
          if j < |m| {
            assert Keys(m)[j] == m[j].0;
            var i :| 0 <= i < |init| && key(init[i]) == Some(m[j].0);
            assert key(xs[i]) == Some(r[j].0);
          } else {
            assert k !in Keys(m);
            assert Keys(r)[j] == k;
            assert key(xs[|xs| - 1]) == Some(r[j].0);
          }
        }
    } else {
      assert FromSeq(xs, key, value) == [];
    }
  }

  /** The keyed items' pairs in item order, repeats included. */
  function Pairs<T, K, V>(xs: seq<T>, key: T -> Option<K>, value: T -> V): (ps: seq<(K, V)>)
    ensures |ps| <= |xs|
  {
    if |xs| == 0 then []
    else
      var ps := Pairs(xs[..|xs| - 1], key, value);
      var x := xs[|xs| - 1];
      match key(x)
      case None => ps
      case Some(k) => ps + [(k, value(x))]
  }

  /** Assigning a new key appends its pair. */
  lemma {:induction false} PutNew<K, V>(m: OMap<K, V>, k: K, v: V)
    requires k !in Keys(m)
    ensures Put(m, k, v) == m + [(k, v)]
  {
    if |m| > 0 {
      assert Keys(m)[0] == m[0].0;
      assert forall i :: 0 <= i < |m| - 1 ==> Keys(m[1..])[i] == Keys(m)[i + 1];
      PutNew(m[1..], k, v);
      assert [m[0]] + (m[1..] + [(k, v)]) == m + [(k, v)];
    }
  }

  /** When no two items share a key, the dict holds every keyed item's pair,
      in item order. */
  lemma {:induction false} FromSeqPairs<T, K, V>(xs: seq<T>, key: T -> Option<K>, value: T -> V)
    requires forall i, j :: 0 <= i < j < |xs| && key(xs[i]).Some? ==> key(xs[i]) != key(xs[j])
    ensures FromSeq(xs, key, value) == Pairs(xs, key, value)
  {
    if |xs| > 0 {
      var init := xs[..|xs| - 1];
      var x := xs[|xs| - 1];
      FromSeqPairs(init, key, value);
      FromSeqKeySet(init, key, value);
      var m := FromSeq(init, key, value);
      match key(x)
      case None =>
      case Some(k) =>
        forall j | 0 <= j < |m| ensures Keys(m)[j] != k {
          var i :| 0 <= i < |init| && key(init[i]) == Some(m[j].0);
          assert init[i] == xs[i];
        }
        PutNew(m, k, value(x));
    }
  }

  /** The keys of the keyed items, in item order, repeats included. */
  function KeyList<T, K>(xs: seq<T>, key: T -> Option<K>): (ks: seq<K>)
    ensures |ks| <= |xs|
  {
    if |xs| == 0 then []
    else
      var ks := KeyList(xs[..|xs| - 1], key);
      match key(xs[|xs| - 1])
      case None => ks
      case Some(k) => ks + [k]
  }

  /** Looking a key up in the dict finds what the comprehension that keeps the
      last value per key would hold. */
  lemma {:induction false} FromSeqGet<T, K, V>(xs: seq<T>, key: T -> Option<K>, value: T -> V, k: K)
    ensures Get(FromSeq(xs, key, value), k) ==
      (if k in LastWins(xs, key, value) then Some(LastWins(xs, key, value)[k]) else None)
  {
    if |xs| > 0 {
      var init := xs[..|xs| - 1];
      var x := xs[|xs| - 1];
      FromSeqGet(init, key, value, k);
      var m := FromSeq(init, key, value);
      match key(x)
      case None =>
      case Some(k0) =>
        PutGet(m, k0, value(x), k);
    }
  }

  /** When no two items share a key, the dict's keys come in item order. */
  lemma {:induction false} FromSeqKeys<T, K, V>(xs: seq<T>, key: T -> Option<K>, value: T -> V)
    requires forall i, j :: 0 <= i < j < |xs| && key(xs[i]).Some? ==> key(xs[i]) != key(xs[j])
    ensures Keys(FromSeq(xs, key, value)) == KeyList(xs, key)
  {
    if |xs| > 0 {
      var init := xs[..|xs| - 1];
      var x := xs[|xs| - 1];
      FromSeqKeys(init, key, value);
      var m := FromSeq(init, key, value);
      match key(x)
      case None =>
      case Some(k) =>
        KeyListKeys(init, key, k);
        assert k !in Keys(m);
    }
  }

  lemma {:induction false} KeyListKeys<T, K>(xs: seq<T>, key: T -> Option<K>, k: K)
    ensures k in KeyList(xs, key) ==> exists i :: 0 <= i < |xs| && key(xs[i]) == Some(k)
  {
    if |xs| > 0 {
      var init := xs[..|xs| - 1];
      KeyListKeys(init, key, k);
      if k in KeyList(init, key) {
        var i :| 0 <= i < |init| && key(init[i]) == Some(k);
        assert key(xs[i]) == Some(k);
      }
    }
  }

  /** A stored pair is what `Get` finds, and what `Get` finds is stored. */
  lemma {:induction false} GetPair<K, V>(m: OMap<K, V>, k: K, v: V)
    requires DistinctKeys(m)
    ensures Get(m, k) == Some(v) <==> (k, v) in m
  {
    if |m| > 0 {
      assert DistinctKeys(m[1..]);
      GetPair(m[1..], k, v);
      if m[0].0 == k {
        forall j | 1 <= j < |m| ensures m[j] != (k, v) { assert m[0].0 != m[j].0; }
        assert (k, v) in m ==> m[0] == (k, v);
      }
      assert m == [m[0]] + m[1..];
    }
  }

  /** Keys given in increasing order come out in increasing order. */
  lemma {:induction false} KeyListIncreasing<T>(xs: seq<T>, key: T -> Option<int>)
    requires forall i, j :: 0 <= i < j < |xs| && key(xs[i]).Some? && key(xs[j]).Some? ==> key(xs[i]).value < key(xs[j]).value
    ensures forall a, b :: 0 <= a < b < |KeyList(xs, key)| ==> KeyList(xs, key)[a] < KeyList(xs, key)[b]
  {
    if |xs| > 0 {
      var init := xs[..|xs| - 1];
      var ks := KeyList(init, key);
      KeyListIncreasing(init, key);
      match key(xs[|xs| - 1])
      case None =>
      case Some(k) =>
        forall a | 0 <= a < |ks| ensures ks[a] < k {
          KeyListKeys(init, key, ks[a]);
          var i :| 0 <= i < |init| && key(init[i]) == Some(ks[a]);
          assert init[i] == xs[i];
        }
    }
  }
}
