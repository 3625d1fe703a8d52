/** Optional values and success-or-error results, used where the Python code
    raises ValueError (a failed parse) instead of returning a value. */
module Results {

  datatype Option<+T> = None | Some(value: T)

  datatype Result<+T, +E> = Success(value: T) | Failure(error: E)

  /** A loop that applies `f` to each element in order and collects the
      values; the first failure ends the loop with its error, as an exception
      raised inside a Python loop does. */
  function MapAll<A, T, E>(xs: seq<A>, f: A -> Result<T, E>): Result<seq<T>, E>
    decreases |xs|
  {
    if xs == [] then Success([])
    else
      match MapAll(xs[..|xs| - 1], f)
      case Failure(e) => Failure(e)
      case Success(vs) =>
        match f(xs[|xs| - 1])
        case Failure(e) => Failure(e)
        case Success(v) => Success(vs + [v])
  }

  /** The loop succeeds exactly when every element succeeds, and then holds
      one value per element, in order; otherwise it fails with the error of
      the first element that fails. */
  lemma {:induction false} MapAllSpec<A, T, E>(xs: seq<A>, f: A -> Result<T, E>)
    ensures MapAll(xs, f).Success? <==> forall i :: 0 <= i < |xs| ==> f(xs[i]).Success?
    ensures MapAll(xs, f).Success? ==>
      && |MapAll(xs, f).value| == |xs|
      && forall i :: 0 <= i < |xs| ==> f(xs[i]) == Success(MapAll(xs, f).value[i])
    ensures MapAll(xs, f).Failure? ==>
      exists i :: 0 <= i < |xs| && f(xs[i]) == Failure(MapAll(xs, f).error)
        && forall j :: 0 <= j < i ==> f(xs[j]).Success?
    decreases |xs|
  {
    if xs != [] {
      var front := xs[..|xs| - 1];
      MapAllSpec(front, f);
      assert forall i :: 0 <= i < |front| ==> front[i] == xs[i];
    }
  }

  /** Once a prefix fails, the whole loop fails with the same error: no later
      element is looked at. */
  lemma {:induction false} MapAllPrefixFailure<A, T, E>(xs: seq<A>, f: A -> Result<T, E>, n: nat)
    requires n <= |xs| && MapAll(xs[..n], f).Failure?
    ensures MapAll(xs, f) == MapAll(xs[..n], f)
    decreases |xs| - n
  {
    if n < |xs| {
      assert xs[..n + 1][..n] == xs[..n];
      MapAllPrefixFailure(xs, f, n + 1);
    } else {
      assert xs[..n] == xs;
    }
  }

  /** When every element succeeds with the value at the same position of
      `ys`, the loop returns exactly `ys`. */
  lemma {:induction false} MapAllSuccess<A, T, E>(xs: seq<A>, f: A -> Result<T, E>, ys: seq<T>)
    requires |ys| == |xs|
    requires forall i :: 0 <= i < |xs| ==> f(xs[i]) == Success(ys[i])
    ensures MapAll(xs, f) == Success(ys)
    decreases |xs|
  {
    if xs != [] {
      var n := |xs| - 1;
      MapAllSuccess(xs[..n], f, ys[..n]);
      assert ys == ys[..n] + [ys[n]];
    }
  }
}
