/** Option and the outcome of a Python call (a value, or an exception that escapes). */
module Wrappers {

  datatype Option<+T> = None | Some(value: T)

  /** What a Python call does: returns a value, or raises an exception, named by its class. */
  datatype Outcome<+T> = Ok(value: T) | Raised(exception: string) {

    predicate IsFailure() {
      Raised?
    }

    function PropagateFailure<U>(): Outcome<U>
      requires Raised?
    {
      Raised(exception)
    }

    function Extract(): T
      requires Ok?
    {
      value
    }
  }

  /** A loop that calls `f` on each element in turn and collects the results; the first
      exception ends it. */
  function MapAll<X, T>(xs: seq<X>, f: X -> Outcome<T>): Outcome<seq<T>>
    decreases |xs|
  {
    if xs == [] then Ok([])
    else
      var pre :- MapAll(xs[..|xs| - 1], f);
      var t :- f(xs[|xs| - 1]);
      Ok(pre + [t])
  }

  /** The loop completes exactly when every call does. */
  lemma {:induction false} MapAllOk<X, T>(xs: seq<X>, f: X -> Outcome<T>)
    ensures MapAll(xs, f).Ok? <==> forall i :: 0 <= i < |xs| ==> f(xs[i]).Ok?
    decreases |xs|
  {
    if xs != [] {
      var pre := xs[..|xs| - 1];
      MapAllOk(pre, f);
      assert forall i :: 0 <= i < |pre| ==> pre[i] == xs[i];
    }
  }

  /** A completed loop has one result per element, each what its call returned. */
  lemma {:induction false} MapAllValues<X, T>(xs: seq<X>, f: X -> Outcome<T>)
    requires MapAll(xs, f).Ok?
    ensures var r := MapAll(xs, f).value;
      |r| == |xs| && forall i :: 0 <= i < |xs| ==> f(xs[i]) == Ok(r[i])
    decreases |xs|
  {
    if xs != [] {
      var pre := xs[..|xs| - 1];
      MapAllValues(pre, f);
      assert forall i :: 0 <= i < |pre| ==> pre[i] == xs[i];
    }
  }
}
