/** The list-building loops of the pipeline: `for x in xs: if keep(x):
    out.append(f(x))`, the plain filter it is a map of, and the variant
    where one function both decides and builds. */
module Lists {
  import opened Wrappers

  function Filter<T>(xs: seq<T>, keep: T -> bool): (ys: seq<T>)
    ensures |ys| <= |xs|
    ensures forall k :: 0 <= k < |ys| ==> keep(ys[k])
    ensures forall y :: y in ys ==> y in xs
  {
    if |xs| == 0 then []
    else (if keep(xs[0]) then [xs[0]] else []) + Filter(xs[1..], keep)
  }

  function KeepMap<T, U>(xs: seq<T>, keep: T -> bool, f: T -> U): (ys: seq<U>)
    ensures |ys| <= |xs|
  {
    if |xs| == 0 then []
    else (if keep(xs[0]) then [f(xs[0])] else []) + KeepMap(xs[1..], keep, f)
  }

  /** The loop's output is `f` applied to the kept items, in order. */
  lemma {:induction false} KeepMapOfFilter<T, U>(xs: seq<T>, keep: T -> bool, f: T -> U)
    ensures |KeepMap(xs, keep, f)| == |Filter(xs, keep)|
    ensures forall k :: 0 <= k < |Filter(xs, keep)| ==> KeepMap(xs, keep, f)[k] == f(Filter(xs, keep)[k])
  {
    if |xs| > 0 {
      KeepMapOfFilter(xs[1..], keep, f);
      var ys := KeepMap(xs, keep, f);
      var rest := KeepMap(xs[1..], keep, f);
      var kept := Filter(xs, keep);
      var restKept := Filter(xs[1..], keep);
      if keep(xs[0]) {
        forall k | 0 <= k < |kept|
          ensures ys[k] == f(kept[k])
        {
          if k > 0 {
            assert ys[k] == rest[k - 1];
            assert kept[k] == restKept[k - 1];
          }
        }
      } else {
        assert ys == rest;
        assert kept == restKept;
      }
    }
  }

  /** `for x in xs: y = f(x); if y is not None: out.append(y)`. */
  function Collect<T, U>(xs: seq<T>, f: T -> Option<U>): (ys: seq<U>)
    ensures |ys| <= |xs|
  {
    if |xs| == 0 then []
    else
      var rest := Collect(xs[1..], f);
      match f(xs[0])
      case None => rest
      case Some(y) => [y] + rest
  }

  /** When `f` yields a value exactly for the items `keep` accepts, the loop
      yields one value per kept item, in order, each the one `f` made from
      that item. */
  lemma {:induction false} CollectFilter<T, U>(xs: seq<T>, f: T -> Option<U>, keep: T -> bool)
    requires forall x :: f(x).Some? <==> keep(x)
    ensures |Collect(xs, f)| == |Filter(xs, keep)|
    ensures forall j :: 0 <= j < |Filter(xs, keep)| ==> f(Filter(xs, keep)[j]) == Some(Collect(xs, f)[j])
  {
    if |xs| > 0 {
      CollectFilter(xs[1..], f, keep);
      var ys := Collect(xs, f);
      var rest := Collect(xs[1..], f);
      var kept := Filter(xs, keep);
      var restKept := Filter(xs[1..], keep);
      if keep(xs[0]) {
        assert ys == [f(xs[0]).value] + rest;
        assert kept == [xs[0]] + restKept;
        forall j | 0 <= j < |kept|
          ensures f(kept[j]) == Some(ys[j])
        {
          if j > 0 {
            assert ys[j] == rest[j - 1];
            assert kept[j] == restKept[j - 1];
          }
        }
      } else {
        assert ys == rest;
        assert kept == restKept;
      }
    }
  }

  /** Whatever every produced value satisfies, every collected value does. */
  lemma {:induction false} CollectAll<T, U>(xs: seq<T>, f: T -> Option<U>, p: U -> bool)
    requires forall x :: f(x).Some? ==> p(f(x).value)
    ensures forall y :: y in Collect(xs, f) ==> p(y)
  {
    if |xs| > 0 {
      CollectAll(xs[1..], f, p);
    }
  }

  /** `[f(x) for x in xs]` where `f` can raise: the first failure ends it. */
  function TryMap<T, U, E>(xs: seq<T>, f: T -> Result<U, E>): (r: Result<seq<U>, E>)
    ensures r.Success? <==> forall i :: 0 <= i < |xs| ==> f(xs[i]).Success?
    ensures r.Success? ==> |r.value| == |xs| && forall i :: 0 <= i < |xs| ==> r.value[i] == f(xs[i]).value
  {
    if |xs| == 0 then Success([])
    else
      var init := xs[..|xs| - 1];
      assert forall i :: 0 <= i < |init| ==> init[i] == xs[i];
      var ys :- TryMap(init, f);
      var y :- f(xs[|xs| - 1]);
      Success(ys + [y])
  }

  /** `for x in xs: y = f(x); if y is not None: out.append(y)` where `f`
      can raise: the first failure ends it. */
  function TryCollect<T, U, E>(xs: seq<T>, f: T -> Result<Option<U>, E>): (r: Result<seq<U>, E>)
    ensures r.Success? <==> forall i :: 0 <= i < |xs| ==> f(xs[i]).Success?
    ensures r.Failure? ==>
      exists i :: 0 <= i < |xs| && f(xs[i]) == Failure(r.error) && (forall j :: 0 <= j < i ==> f(xs[j]).Success?)
    ensures r.Success? ==> |r.value| <= |xs|
  {
    if |xs| == 0 then Success([])
    else
      var first :- f(xs[0]);
      var rest :- TryCollect(xs[1..], f);
      Success((if first.Some? then [first.value] else []) + rest)
  }

  /** When `f` yields a value exactly for the items `keep` accepts, a
      successful loop yields one value per kept item, in order, each the
      one `f` made from that item. */
  lemma {:induction false} TryCollectFilter<T, U, E>(xs: seq<T>, f: T -> Result<Option<U>, E>, keep: T -> bool)
    requires forall x :: f(x).Success? ==> (f(x).value.Some? <==> keep(x))
    requires TryCollect(xs, f).Success?
    ensures |TryCollect(xs, f).value| == |Filter(xs, keep)|
    ensures forall j :: 0 <= j < |Filter(xs, keep)| ==> f(Filter(xs, keep)[j]) == Success(Some(TryCollect(xs, f).value[j]))
  {
    if |xs| > 0 {
      TryCollectFilter(xs[1..], f, keep);
      var ys := TryCollect(xs, f).value;
      var rest := TryCollect(xs[1..], f).value;
      var kept := Filter(xs, keep);
      var restKept := Filter(xs[1..], keep);
      if keep(xs[0]) {
        assert ys == [f(xs[0]).value.value] + rest;
        assert kept == [xs[0]] + restKept;
        forall j | 0 <= j < |kept|
          ensures f(kept[j]) == Success(Some(ys[j]))
        {
          if j > 0 {
            assert ys[j] == rest[j - 1];
            assert kept[j] == restKept[j - 1];
          }
        }
      } else {
        assert ys == rest;
        assert kept == restKept;
      }
    }
  }

  /** Whatever every produced value satisfies, every collected value does. */
  lemma {:induction false} TryCollectAll<T, U, E>(xs: seq<T>, f: T -> Result<Option<U>, E>, p: U -> bool)
    requires forall x :: f(x).Success? && f(x).value.Some? ==> p(f(x).value.value)
    ensures TryCollect(xs, f).Success? ==> forall y :: y in TryCollect(xs, f).value ==> p(y)
  {
    if |xs| > 0 {
      TryCollectAll(xs[1..], f, p);
    }
  }
}
