/**
 * The loop shape both constraint parsers share: apply a fallible
 * constructor to each item in order, appending successes, and stop at the
 * first failure.
 */
module Results {
  import opened Wrappers

  /** Every item's success value in order, or the error of the first item that fails. */
  function CollectAll<X, T, E>(xs: seq<X>, f: X -> Result<T, E>): (r: Result<seq<T>, E>)
    ensures r.Success? ==> |r.value| == |xs|
  {
    if xs == [] then Success([])
    else
      match CollectAll(xs[..|xs| - 1], f)
      case Failure(e) => Failure(e)
      case Success(ts) =>
        match f(xs[|xs| - 1])
        case Failure(e) => Failure(e)
        case Success(t) => Success(ts + [t])
  }

  /** The whole succeeds exactly when every item does, and then holds each item's value in order. */
  lemma {:induction false} CollectAllSuccess<X, T, E>(xs: seq<X>, f: X -> Result<T, E>)
    ensures CollectAll(xs, f).Success? <==> forall i | 0 <= i < |xs| :: f(xs[i]).Success?
    ensures CollectAll(xs, f).Success? ==> forall i | 0 <= i < |xs| :: CollectAll(xs, f).value[i] == f(xs[i]).value
  {
    if xs != [] {
      var init := xs[..|xs| - 1];
      CollectAllSuccess(init, f);
      assert forall i | 0 <= i < |init| :: init[i] == xs[i];
    }
  }

  /** A failure carries the error of the first item that fails. */
  lemma {:induction false} CollectAllFailure<X, T, E>(xs: seq<X>, f: X -> Result<T, E>)
    requires CollectAll(xs, f).Failure?
    ensures exists i | 0 <= i < |xs| ::
      f(xs[i]).Failure? && f(xs[i]).error == CollectAll(xs, f).error && forall j | 0 <= j < i :: f(xs[j]).Success?
  {
    var init := xs[..|xs| - 1];
    assert forall i | 0 <= i < |init| :: init[i] == xs[i];
    CollectAllSuccess(init, f);
    if CollectAll(init, f).Failure? {
      CollectAllFailure(init, f);
      var i :| 0 <= i < |init| && f(init[i]).Failure? && f(init[i]).error == CollectAll(init, f).error
        && forall j | 0 <= j < i :: f(init[j]).Success?;
      assert f(xs[i]).Failure? && f(xs[i]).error == CollectAll(xs, f).error;
    } else {
      assert f(xs[|xs| - 1]).Failure?;
    }
  }

  /** One more successful item extends the collected prefix by its value. */
  lemma CollectAllSnoc<X, T, E>(xs: seq<X>, f: X -> Result<T, E>, i: nat, ts: seq<T>)
    requires i < |xs| && CollectAll(xs[..i], f) == Success(ts) && f(xs[i]).Success?
    ensures CollectAll(xs[..i + 1], f) == Success(ts + [f(xs[i]).value])
  {
    assert xs[..i + 1][..i] == xs[..i];
  }

  /** The first failing item decides the error of the whole. */
  lemma CollectAllFirstFailure<X, T, E>(xs: seq<X>, f: X -> Result<T, E>, i: nat)
    requires i < |xs| && f(xs[i]).Failure? && CollectAll(xs[..i], f).Success?
    ensures CollectAll(xs, f) == Failure(f(xs[i]).error)
  {
    assert xs[..i + 1][..i] == xs[..i];
    CollectAllSuccess(xs[..i], f);
    CollectAllSuccess(xs, f);
    CollectAllFailure(xs, f);
    var k :| 0 <= k < |xs| && f(xs[k]).Failure? && f(xs[k]).error == CollectAll(xs, f).error
      && forall j | 0 <= j < k :: f(xs[j]).Success?;
    assert k == i;
  }
}
