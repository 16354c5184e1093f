/** Option and Result, used for Python's `None` and for raised exceptions. */
module Wrappers {
  datatype Option<+T> = None | Some(value: T) {
    function GetOr(default: T): T {
      match this
      case Some(v) => v
      case None => default
    }
  }

  datatype Result<+R, +E> = Success(value: R) | Failure(error: E)

  /**
   * A loop that applies `f` to each element in turn and raises the first
   * error it meets: the results in order, or that first error.
   */
  function MapAll<A, B, E>(xs: seq<A>, f: A -> Result<B, E>): Result<seq<B>, E>
  {
    if xs == [] then Success([])
    else
      match MapAll(xs[..|xs| - 1], f)
      case Failure(e) => Failure(e)
      case Success(bs) =>
        match f(xs[|xs| - 1])
        case Failure(e) => Failure(e)
        case Success(b) => Success(bs + [b])
  }

  /** Once a prefix fails, the whole list fails with the same error. */
  lemma {:induction false} MapAllPrefixFailure<A, B, E>(xs: seq<A>, k: nat, f: A -> Result<B, E>)
    requires k <= |xs| && MapAll(xs[..k], f).Failure?
    ensures MapAll(xs, f) == MapAll(xs[..k], f)
    decreases |xs| - k
  {
    if k < |xs| {
      assert xs[..k + 1][..k] == xs[..k];
      MapAllPrefixFailure(xs, k + 1, f);
    } else {
      assert xs[..k] == xs;
    }
  }

  /** One more element: its result is appended, or its error becomes the error of the whole list. */
  lemma MapAllStep<A, B, E>(xs: seq<A>, i: nat, bs: seq<B>, f: A -> Result<B, E>)
    requires i < |xs| && MapAll(xs[..i], f) == Success(bs)
    ensures f(xs[i]).Success? ==> MapAll(xs[..i + 1], f) == Success(bs + [f(xs[i]).value])
    ensures f(xs[i]).Failure? ==> MapAll(xs, f) == Failure(f(xs[i]).error)
  {
    assert xs[..i + 1][..i] == xs[..i];
    if f(xs[i]).Failure? {
      MapAllPrefixFailure(xs, i + 1, f);
    }
  }

  /** It succeeds exactly when every element succeeds. */
  lemma {:induction false} MapAllSuccess<A, B, E>(xs: seq<A>, f: A -> Result<B, E>)
    ensures MapAll(xs, f).Success? <==> forall i :: 0 <= i < |xs| ==> f(xs[i]).Success?
  {
    if xs != [] {
      var p := xs[..|xs| - 1];
      MapAllSuccess(p, f);
      assert forall i :: 0 <= i < |p| ==> p[i] == xs[i];
      if MapAll(p, f).Failure? {
        var k :| 0 <= k < |p| && f(p[k]).Failure?;
        assert f(xs[k]).Failure?;
      }
    }
  }

  /** On success, result `i` is the result of element `i`. */
  lemma {:induction false} MapAllValues<A, B, E>(xs: seq<A>, f: A -> Result<B, E>)
    requires MapAll(xs, f).Success?
    ensures var bs := MapAll(xs, f).value;
            |bs| == |xs| && forall i :: 0 <= i < |xs| ==> f(xs[i]) == Success(bs[i])
  {
    if xs != [] {
      var p := xs[..|xs| - 1];
      MapAllValues(p, f);
      var bs := MapAll(p, f).value;
      var r := bs + [f(xs[|xs| - 1]).value];
      assert forall i :: 0 <= i < |p| ==> p[i] == xs[i] && r[i] == bs[i];
    }
  }

  /** A failure is the error of the first element that fails. */
  lemma {:induction false} MapAllFailure<A, B, E>(xs: seq<A>, f: A -> Result<B, E>)
    requires MapAll(xs, f).Failure?
    ensures exists k :: 0 <= k < |xs| && f(xs[k]) == Failure(MapAll(xs, f).error)
                        && forall i :: 0 <= i < k ==> f(xs[i]).Success?
  {
    var p := xs[..|xs| - 1];
    assert forall i :: 0 <= i < |p| ==> p[i] == xs[i];
    if MapAll(p, f).Failure? {
      MapAllFailure(p, f);
    } else {
      MapAllSuccess(p, f);
    }
  }
}
