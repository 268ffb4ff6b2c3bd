/** The dict comprehension `{key(x): value(x) for x in xs}` (and the
    equivalent loop of `d[key] = value` assignments): items without a key
    are skipped, and a later item overwrites an earlier one with the same
    key. `TryLastWins` is the same loop when building a value can raise. */
module Lookup {
  import opened Wrappers

  function LastWins<T, K, V>(xs: seq<T>, key: T -> Option<K>, value: T -> V): (m: map<K, V>)
    ensures m.Keys == set i | 0 <= i < |xs| && key(xs[i]).Some? :: key(xs[i]).value
  {
    if |xs| == 0 then map[]
    else
      var init := xs[..|xs| - 1];
      var m := LastWins(init, key, value);
      var x := xs[|xs| - 1];
      assert forall i :: 0 <= i < |init| ==> init[i] == xs[i];
      match key(x)
      case None => m
      case Some(k) => m[k := value(x)]
  }

  /** The value stored under a key comes from the last item carrying it. */
  lemma {:induction false} LastWinsValue<T, K, V>(xs: seq<T>, key: T -> Option<K>, value: T -> V, i: nat)
    requires i < |xs| && key(xs[i]).Some?
    requires forall j :: i < j < |xs| ==> key(xs[j]) != key(xs[i])
    ensures key(xs[i]).value in LastWins(xs, key, value)
    ensures LastWins(xs, key, value)[key(xs[i]).value] == value(xs[i])
  {
    if i < |xs| - 1 {
      var init := xs[..|xs| - 1];
      assert init[i] == xs[i];
      LastWinsValue(init, key, value, i);
    }
  }

  /** The loop `for x in xs: if key(x) is not None: d[key(x)] = value(x)`
      where `value` can raise: the first keyed item whose value fails ends it. */
  function TryLastWins<T, K, V, E>(xs: seq<T>, key: T -> Option<K>, value: T -> Result<V, E>): Result<map<K, V>, E> {
    if |xs| == 0 then Success(map[])
    else
      var m :- TryLastWins(xs[..|xs| - 1], key, value);
      var x := xs[|xs| - 1];
      match key(x)
      case None => Success(m)
      case Some(k) =>
        var v :- value(x);
        Success(m[k := v])
  }

  /** The loop succeeds exactly when every keyed item's value does, and then
      it builds the comprehension that keeps the last value per key. `plain`
      agrees with `value` wherever `value` succeeds. */
  lemma {:induction false} TryLastWinsSucceeds<T, K, V, E>(xs: seq<T>, key: T -> Option<K>, value: T -> Result<V, E>, plain: T -> V)
    requires forall x :: value(x).Success? ==> plain(x) == value(x).value
    ensures TryLastWins(xs, key, value).Success? <==>
      forall i :: 0 <= i < |xs| && key(xs[i]).Some? ==> value(xs[i]).Success?
    ensures TryLastWins(xs, key, value).Success? ==>
      TryLastWins(xs, key, value).value == LastWins(xs, key, plain)
  {
    if |xs| > 0 {
      var init := xs[..|xs| - 1];
      TryLastWinsSucceeds(init, key, value, plain);
      assert forall i :: 0 <= i < |init| ==> init[i] == xs[i];
    }
  }
}
