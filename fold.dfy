/// The shape shared by the scripts' reading loops: a state threaded through
/// the input items in order, where an item may stop the loop with an error.
module Folds {
  import opened Results

  /** The state after running `step` over `items` in order from `init`,
      stopping at the first failure. `step` also receives the item's index. */
  function Fold<X, S, E>(items: seq<X>, init: S, step: (S, X, nat) -> Result<S, E>): Result<S, E> {
    if items == [] then Success(init)
    else
      match Fold(items[..|items| - 1], init, step)
      case Failure(e) => Failure(e)
      case Success(st) => step(st, items[|items| - 1], |items| - 1)
  }

  /** Once an item has failed, the items after it do not matter. */
  lemma {:induction false} FoldFailureStays<X, S, E>(items: seq<X>, i: nat, init: S,
                                                     step: (S, X, nat) -> Result<S, E>)
    requires i <= |items| && Fold(items[..i], init, step).Failure?
    ensures Fold(items, init, step) == Fold(items[..i], init, step)
  {
    if i < |items| {
      var n := |items| - 1;
      assert items[..n][..i] == items[..i];
      FoldFailureStays(items[..n], i, init, step);
    } else {
      assert items[..i] == items;
    }
  }

  /** One more item, after a prefix that succeeded. */
  lemma {:induction false} FoldStep<X, S, E>(items: seq<X>, i: nat, init: S, step: (S, X, nat) -> Result<S, E>, st: S)
    requires i < |items| && Fold(items[..i], init, step) == Success(st)
    ensures Fold(items[..i + 1], init, step) == step(st, items[i], i)
  {
    assert items[..i + 1][..i] == items[..i];
  }

  /** The premise of `FoldFailsIff` at one state. */
  lemma StepInstance<X, S, E>(st: S, x: X, k: nat, step: (S, X, nat) -> Result<S, E>,
                              bad: X -> bool, index: E -> nat)
    requires forall st: S, x: X, k: nat {:trigger step(st, x, k)} ::
               (step(st, x, k).Failure? <==> bad(x))
               && (step(st, x, k).Failure? ==> index(step(st, x, k).error) == k)
    ensures step(st, x, k).Failure? <==> bad(x)
    ensures step(st, x, k).Failure? ==> index(step(st, x, k).error) == k
  {
  }

  /** A fold whose step fails exactly on the `bad` items, naming the item,
      fails exactly when some item is bad, and names the first one. */
  lemma {:induction false} FoldFailsIff<X, S, E>(items: seq<X>, init: S,
                                                 step: (S, X, nat) -> Result<S, E>,
                                                 bad: X -> bool, index: E -> nat)
    requires forall st: S, x: X, k: nat {:trigger step(st, x, k)} ::
               (step(st, x, k).Failure? <==> bad(x))
               && (step(st, x, k).Failure? ==> index(step(st, x, k).error) == k)
    ensures Fold(items, init, step).Failure? <==> exists i :: 0 <= i < |items| && bad(items[i])
    ensures Fold(items, init, step).Failure? ==>
              var k := index(Fold(items, init, step).error);
              k < |items| && bad(items[k]) && forall j :: 0 <= j < k ==> !bad(items[j])
  {
    if items != [] {
      var n: nat := |items| - 1;
      var prefix := items[..n];
      FoldFailsIff(prefix, init, step, bad, index);
      assert forall j :: 0 <= j < n ==> prefix[j] == items[j];
      var prev := Fold(prefix, init, step);
      if prev.Failure? {
        var k := index(prev.error);
        assert bad(items[k]);
      } else {
        var r := step(prev.value, items[n], n);
        assert Fold(items, init, step) == r;
        StepInstance(prev.value, items[n], n, step, bad, index);
        assert forall j :: 0 <= j < n ==> !bad(items[j]);
        if bad(items[n]) {
          assert index(Fold(items, init, step).error) == n;
        } else {
          assert forall j :: 0 <= j <= n ==> !bad(items[j]);
        }
      }
    }
  }

  /** The premise of `FoldFailsFirst` at one state. */
  lemma CheckInstance<X, S, E, V>(st: S, x: X, k: nat, step: (S, X, nat) -> Result<S, E>, check: X -> Result<V, E>)
    requires forall st: S, x: X, k: nat {:trigger step(st, x, k)} ::
               (step(st, x, k).Failure? <==> check(x).Failure?)
               && (step(st, x, k).Failure? ==> step(st, x, k).error == check(x).error)
    ensures step(st, x, k).Failure? <==> check(x).Failure?
    ensures step(st, x, k).Failure? ==> step(st, x, k).error == check(x).error
  {
  }

  /** A fold whose step fails exactly when `check` fails on the item, with
      `check`'s error, fails exactly when some item fails `check`, with the
      error of the first such item. */
  lemma {:induction false} FoldFailsFirst<X, S, E, V>(items: seq<X>, init: S,
                                                      step: (S, X, nat) -> Result<S, E>, check: X -> Result<V, E>)
    requires forall st: S, x: X, k: nat {:trigger step(st, x, k)} ::
               (step(st, x, k).Failure? <==> check(x).Failure?)
               && (step(st, x, k).Failure? ==> step(st, x, k).error == check(x).error)
    ensures Fold(items, init, step).Failure? <==> exists k :: 0 <= k < |items| && check(items[k]).Failure?
    ensures Fold(items, init, step).Failure? ==>
              exists k :: 0 <= k < |items| && check(items[k]).Failure?
                && check(items[k]).error == Fold(items, init, step).error
                && forall j :: 0 <= j < k ==> check(items[j]).Success?
  {
    if items != [] {
      var n: nat := |items| - 1;
      var prefix := items[..n];
      FoldFailsFirst(prefix, init, step, check);
      var prev := Fold(prefix, init, step);
      if prev.Failure? {
        var k :| 0 <= k < n && check(prefix[k]).Failure? && check(prefix[k]).error == prev.error
          && forall j :: 0 <= j < k ==> check(prefix[j]).Success?;
        assert prefix[k] == items[k];
        assert forall j :: 0 <= j < k ==> prefix[j] == items[j];
      } else {
        assert Fold(items, init, step) == step(prev.value, items[n], n);
        CheckInstance(prev.value, items[n], n, step, check);
        forall j | 0 <= j < n
          ensures check(items[j]).Success?
        {
          assert prefix[j] == items[j];
        }
        if check(items[n]).Failure? {
          assert check(items[n]).error == Fold(items, init, step).error;
        } else {
          assert forall j :: 0 <= j <= n ==> check(items[j]).Success?;
        }
      }
    }
  }

  /** The values `f` gives the items, in item order, skipping the items it
      gives none for: a loop that appends to an output list. */
  function Collect<X, Y>(items: seq<X>, f: X -> Option<Y>): seq<Y> {
    if items == [] then []
    else
      Collect(items[..|items| - 1], f)
      + match f(items[|items| - 1]) case Some(y) => [y] case None => []
  }

  lemma {:induction false} CollectStep<X, Y>(items: seq<X>, i: nat, f: X -> Option<Y>)
    requires i < |items|
    ensures Collect(items[..i + 1], f) == Collect(items[..i], f) + match f(items[i]) case Some(y) => [y] case None => []
  {
    assert items[..i + 1][..i] == items[..i];
  }

  /** Items are handled independently and in order. */
  lemma {:induction false} CollectAppend<X, Y>(items1: seq<X>, items2: seq<X>, f: X -> Option<Y>)
    ensures Collect(items1 + items2, f) == Collect(items1, f) + Collect(items2, f)
    decreases |items2|
  {
    if items2 == [] {
      assert items1 + items2 == items1;
    } else {
      var n := |items2| - 1;
      CollectAppend(items1, items2[..n], f);
      assert (items1 + items2)[..|items1| + n] == items1 + items2[..n];
      assert (items1 + items2)[|items1| + n] == items2[n];
    }
  }

  /** Every value collected comes from an item, and every item's value is
      collected. */
  lemma {:induction false} CollectMembers<X, Y>(items: seq<X>, f: X -> Option<Y>, y: Y)
    ensures y in Collect(items, f) <==> exists k :: 0 <= k < |items| && f(items[k]) == Some(y)
  {
    if items != [] {
      var n := |items| - 1;
      var prefix := items[..n];
      CollectMembers(prefix, f, y);
      var last: seq<Y> := match f(items[n]) case Some(z) => [z] case None => [];
      assert Collect(items, f) == Collect(prefix, f) + last;
      assert y in Collect(items, f) <==> y in Collect(prefix, f) || y in last;
      assert y in last <==> f(items[n]) == Some(y);
      if exists k :: 0 <= k < n && f(prefix[k]) == Some(y) {
        var k :| 0 <= k < n && f(prefix[k]) == Some(y);
        assert prefix[k] == items[k];
      }
      if exists k :: 0 <= k < |items| && f(items[k]) == Some(y) {
        var k :| 0 <= k < |items| && f(items[k]) == Some(y);
        if k < n {
          assert prefix[k] == items[k];
        }
      }
    }
  }

  /** At most one value per item. */
  lemma {:induction false} CollectLength<X, Y>(items: seq<X>, f: X -> Option<Y>)
    ensures |Collect(items, f)| <= |items|
  {
    if items != [] {
      CollectLength(items[..|items| - 1], f);
    }
  }

  /** The map built by a loop that stores, for every item `f` gives a key
      and a value for, that value under that key: later items overwrite. */
  function Assign<X, K, V>(items: seq<X>, f: X -> Option<(K, V)>): map<K, V> {
    if items == [] then map[]
    else
      var m := Assign(items[..|items| - 1], f);
      match f(items[|items| - 1])
      case None => m
      case Some(kv) => m[kv.0 := kv.1]
  }

  lemma {:induction false} AssignStep<X, K, V>(items: seq<X>, i: nat, f: X -> Option<(K, V)>)
    requires i < |items|
    ensures Assign(items[..i + 1], f) ==
      match f(items[i]) case None => Assign(items[..i], f) case Some(kv) => Assign(items[..i], f)[kv.0 := kv.1]
  {
    assert items[..i + 1][..i] == items[..i];
  }

  /** A key is present exactly when some item gives it, and holds the value
      of the last item that does. */
  lemma {:induction false} AssignLastWins<X, K, V>(items: seq<X>, f: X -> Option<(K, V)>, key: K)
    ensures key in Assign(items, f) <==> exists k :: 0 <= k < |items| && f(items[k]).Some? && f(items[k]).value.0 == key
    ensures key in Assign(items, f) ==>
      exists k :: 0 <= k < |items| && f(items[k]) == Some((key, Assign(items, f)[key]))
        && forall j :: k < j < |items| ==> f(items[j]).None? || f(items[j]).value.0 != key
  {
    if items != [] {
      var n := |items| - 1;
      AssignLastWins(items[..n], f, key);
      assert forall k :: 0 <= k < n ==> items[..n][k] == items[k];
      match f(items[n])
      case None =>
      case Some(kv) =>
        if kv.0 == key {
          assert f(items[n]) == Some((key, Assign(items, f)[key]));
        }
    }
  }

  /** The list a loop builds by appending what each item yields, where an
      item may also crash the loop (`Failure(())`); the failure names the
      item. */
  function Gather<X, Y>(items: seq<X>, g: X -> Result<Option<Y>, ()>): (r: Result<seq<Y>, nat>)
    ensures r.Failure? ==> r.error < |items|
  {
    if items == [] then Success([])
    else
      var n := |items| - 1;
      match Gather(items[..n], g)
      case Failure(k) => Failure(k)
      case Success(ys) =>
        match g(items[n])
        case Failure(_) => Failure(n)
        case Success(None) => Success(ys)
        case Success(Some(y)) => Success(ys + [y])
  }

  lemma {:induction false} GatherStep<X, Y>(items: seq<X>, i: nat, g: X -> Result<Option<Y>, ()>, ys: seq<Y>)
    requires i < |items| && Gather(items[..i], g) == Success(ys)
    ensures Gather(items[..i + 1], g) ==
      match g(items[i])
      case Failure(_) => Failure(i)
      case Success(None) => Success(ys)
      case Success(Some(y)) => Success(ys + [y])
  {
    assert items[..i + 1][..i] == items[..i];
  }

  lemma {:induction false} GatherFailureStays<X, Y>(items: seq<X>, i: nat, g: X -> Result<Option<Y>, ()>)
    requires i <= |items| && Gather(items[..i], g).Failure?
    ensures Gather(items, g) == Gather(items[..i], g)
  {
    if i < |items| {
      var n := |items| - 1;
      assert items[..n][..i] == items[..i];
      GatherFailureStays(items[..n], i, g);
    } else {
      assert items[..i] == items;
    }
  }

  /** What an item adds to the list when it does not crash. */
  function Yield<X, Y>(g: X -> Result<Option<Y>, ()>): X -> Option<Y> {
    x => if g(x).Success? then g(x).value else None
  }

  /** The loop crashes exactly when some item crashes, and at the first one;
      otherwise it builds the list of the items' yields in item order. */
  lemma {:induction false} GatherIsCollect<X, Y>(items: seq<X>, g: X -> Result<Option<Y>, ()>)
    ensures Gather(items, g).Failure? <==> exists k :: 0 <= k < |items| && g(items[k]).Failure?
    ensures Gather(items, g).Failure? ==>
      var k := Gather(items, g).error;
      k < |items| && g(items[k]).Failure? && forall j :: 0 <= j < k ==> g(items[j]).Success?
    ensures Gather(items, g).Success? ==> Gather(items, g).value == Collect(items, Yield(g))
  {
    if items != [] {
      var n := |items| - 1;
      var prefix := items[..n];
      GatherIsCollect(prefix, g);
      assert forall j :: 0 <= j < n ==> prefix[j] == items[j];
      if Gather(prefix, g).Failure? {
        var k := Gather(prefix, g).error;
        assert g(items[k]).Failure?;
      } else if g(items[n]).Failure? {
        assert forall j :: 0 <= j < n ==> g(items[j]).Success?;
      } else {
        assert forall j :: 0 <= j <= n ==> g(items[j]).Success?;
        assert Yield(g)(items[n]) == g(items[n]).value;
      }
    }
  }
}
