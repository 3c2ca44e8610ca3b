/** Failure-compatible wrappers used by every parser and writer of the model.
    A Go routine that panics or crashes on malformed input is modelled as a
    `Failure` carrying the reason. */
module Results {

  datatype Option<+T> = None | Some(value: T) {

    predicate IsFailure() {
      None?
    }

    function PropagateFailure<U>(): Option<U>
      requires None?
    {
      None
    }

    function Extract(): T
      requires Some?
    {
      value
    }

    /** Converts a missing value into a failure with the given reason. */
    function ToResult<E>(error: E): Result<T, E> {
      match this
      case Some(v) => Success(v)
      case None => Failure(error)
    }
  }

  datatype Result<+T, +E> = Success(value: T) | Failure(error: E) {

    predicate IsFailure() {
      Failure?
    }

    function PropagateFailure<U>(): Result<U, E>
      requires Failure?
    {
      Failure(error)
    }

    function Extract(): T
      requires Success?
    {
      value
    }
  }

  /** The values of a list of optional results, if every one is present. */
  function AllSome<T>(xs: seq<Option<T>>): (r: Option<seq<T>>)
    ensures r.Some? <==> forall k :: 0 <= k < |xs| ==> xs[k].Some?
    ensures r.Some? ==> |r.value| == |xs| && forall k :: 0 <= k < |xs| ==> xs[k] == Some(r.value[k])
    decreases |xs|
  {
    if |xs| == 0 then Some([])
    else if xs[0].None? then None
    else
      var rest := AllSome(xs[1..]);
      assert forall k :: 1 <= k < |xs| ==> xs[k] == xs[1..][k - 1];
      if rest.None? then None else Some([xs[0].value] + rest.value)
  }

  /** `f` applied to every element, if it succeeds on each. */
  function MapAll<S, T>(xs: seq<S>, f: S -> Option<T>): (r: Option<seq<T>>)
    ensures r.Some? <==> forall k :: 0 <= k < |xs| ==> f(xs[k]).Some?
    ensures r.Some? ==> |r.value| == |xs| && forall k :: 0 <= k < |xs| ==> f(xs[k]) == Some(r.value[k])
  {
    var ys := seq(|xs|, k requires 0 <= k < |xs| => f(xs[k]));
    assert forall k :: 0 <= k < |xs| ==> ys[k] == f(xs[k]);
    AllSome(ys)
  }

  /** When `f` gives `ys[k]` on every `xs[k]`, the map gives `ys`. */
  lemma MapAllOf<S, T>(xs: seq<S>, f: S -> Option<T>, ys: seq<T>)
    requires |ys| == |xs| && forall k :: 0 <= k < |xs| ==> f(xs[k]) == Some(ys[k])
    ensures MapAll(xs, f) == Some(ys)
  {
    var r := MapAll(xs, f);
    assert r.Some?;
    assert forall k :: 0 <= k < |xs| ==> r.value[k] == ys[k];
    assert r.value == ys;
  }

  /** `f` applied to every element in order, stopping at the first failure,
      which is the result. */
  function MapResults<S, T, E>(xs: seq<S>, f: S -> Result<T, E>): (r: Result<seq<T>, E>)
    ensures r.Success? <==> forall k :: 0 <= k < |xs| ==> f(xs[k]).Success?
    ensures r.Success? ==> (|r.value| == |xs| && forall k :: 0 <= k < |xs| ==> f(xs[k]) == Success(r.value[k]))
    ensures r.Failure? ==>
      exists k :: 0 <= k < |xs| && f(xs[k]) == Failure(r.error) && forall j :: 0 <= j < k ==> f(xs[j]).Success?
    decreases |xs|
  {
    if |xs| == 0 then Success([])
    else
      var first :- f(xs[0]);
      assert forall k :: 1 <= k < |xs| ==> xs[k] == xs[1..][k - 1];
      var rest :- MapResults(xs[1..], f);
      Success([first] + rest)
  }
}
