/** Option and Result: the error paths of the modelled Python code (exceptions
    that abort a script or a stage) are returned as Failure values. */
module Wrappers {

  datatype Option<+T> = None | Some(value: T)

  datatype Result<+R, +E> = Success(value: R) | Failure(error: E)

  /** Apply `f` to every element in order: all the results, or the error
      of the first element that fails. */
  function Collect<X, R, E>(xs: seq<X>, f: X -> Result<R, E>): (r: Result<seq<R>, E>)
    ensures r.Success? <==> forall k :: 0 <= k < |xs| ==> f(xs[k]).Success?
    ensures r.Success? ==>
      |r.value| == |xs| && forall k :: 0 <= k < |xs| ==> r.value[k] == f(xs[k]).value
    ensures r.Failure? ==>
      exists k :: 0 <= k < |xs| && f(xs[k]) == Failure(r.error) &&
        forall j :: 0 <= j < k ==> f(xs[j]).Success?
  {
    if xs == [] then Success([])
    else
      var init := xs[..|xs| - 1];
      match Collect(init, f)
      case Failure(e) => Failure(e)
      case Success(rs) =>
        match f(xs[|xs| - 1])
        case Failure(e) => Failure(e)
        case Success(x) => Success(rs + [x])
  }

  /** Extending a successful prefix by one successful element appends its
      value. */
  lemma {:induction false} CollectStep<X, R, E>(xs: seq<X>, f: X -> Result<R, E>, i: nat)
    requires i < |xs| && Collect(xs[..i], f).Success? && f(xs[i]).Success?
    ensures Collect(xs[..i + 1], f) == Success(Collect(xs[..i], f).value + [f(xs[i]).value])
  {
    assert xs[..i + 1][..i] == xs[..i];
  }

  /** When every element before `i` succeeds and element `i` fails, the
      whole collection fails with element `i`'s error. */
  lemma CollectFirstFailure<X, R, E>(xs: seq<X>, f: X -> Result<R, E>, i: nat)
    requires i < |xs| && Collect(xs[..i], f).Success? && f(xs[i]).Failure?
    ensures Collect(xs, f) == Failure(f(xs[i]).error)
  {
    assert xs[..i + 1][..i] == xs[..i];
    CollectFailureExtends(xs, f, i + 1);
  }

  /** A failing prefix fixes the outcome of the whole collection. */
  lemma {:induction false} CollectFailureExtends<X, R, E>(xs: seq<X>, f: X -> Result<R, E>, j: nat)
    requires j <= |xs| && Collect(xs[..j], f).Failure?
    ensures Collect(xs, f) == Collect(xs[..j], f)
    decreases |xs| - j
  {
    if j < |xs| {
      assert xs[..j + 1][..j] == xs[..j];
      CollectFailureExtends(xs, f, j + 1);
    } else {
      assert xs[..j] == xs;
    }
  }
}
