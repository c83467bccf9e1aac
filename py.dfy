/** Values shared by every part of the model: Python's `None`-or-value, and
    the outcome of a Python expression that may raise one of the exceptions
    the core's code can run into. */
module Py {

  datatype Option<+T> = None | Some(value: T)

  /** The Python exceptions the modelled code can raise. */
  datatype PyError =
    | KeyError          // a dictionary lookup of a missing key
    | IndexError        // `[i]` past the end of a list
    | ValueError        // `int()` of text that is not an integer
    | AttributeError    // a string method called on a non-string value
    | UnboundLocalError // a local read before any assignment

  /** The outcome of evaluating an expression: a value or a raised exception. */
  datatype Result<+T> = Ok(value: T) | Err(error: PyError)

  /** Element `j` is the first of `xs` whose expression raises. */
  predicate FirstRaise<X, Y>(xs: seq<X>, f: X -> Result<Y>, j: int)
  {
    0 <= j < |xs| && f(xs[j]).Err? && forall i :: 0 <= i < j ==> f(xs[i]).Ok?
  }

  /** A list comprehension `[f(x) for x in xs]` whose element expression may
      raise: all the values in order, or the exception of the first element
      that raises, which aborts the comprehension. */
  function MapOrRaise<X, Y>(xs: seq<X>, f: X -> Result<Y>): (r: Result<seq<Y>>)
    ensures r.Ok? <==> forall i :: 0 <= i < |xs| ==> f(xs[i]).Ok?
    ensures r.Ok? ==> |r.value| == |xs|
    ensures r.Ok? ==> forall i :: 0 <= i < |xs| ==> f(xs[i]) == Ok(r.value[i])
    ensures r.Err? ==> exists j :: FirstRaise(xs, f, j) && r.error == f(xs[j]).error
    decreases |xs|
  {
    if |xs| == 0 then Ok([])
    else
      var init := xs[..|xs| - 1];
      assert forall i :: 0 <= i < |init| ==> init[i] == xs[i];
      match MapOrRaise(init, f)
      case Err(e) =>
        var j :| FirstRaise(init, f, j) && e == f(init[j]).error;
        assert FirstRaise(xs, f, j);
        Err(e)
      case Ok(ys) =>
        match f(xs[|xs| - 1])
        case Err(e) =>
          assert FirstRaise(xs, f, |xs| - 1);
          Err(e)
        case Ok(y) => Ok(ys + [y])
  }

  /** Once a prefix of the comprehension raises, the whole comprehension
      raises with the same exception. */
  lemma {:induction false} MapOrRaisePrefix<X, Y>(xs: seq<X>, f: X -> Result<Y>, k: nat)
    requires k <= |xs|
    requires MapOrRaise(xs[..k], f).Err?
    ensures MapOrRaise(xs, f) == MapOrRaise(xs[..k], f)
    decreases |xs| - k
  {
    if k < |xs| {
      assert xs[..k + 1][..k] == xs[..k];
      MapOrRaisePrefix(xs, f, k + 1);
    } else {
      assert xs[..k] == xs;
    }
  }

  /** A list built by extending it, element by element in order, with the
      values `f` gives for each element. */
  function FlatMap<X, Y>(xs: seq<X>, f: X -> seq<Y>): seq<Y>
  {
    if |xs| == 0 then [] else FlatMap(xs[..|xs| - 1], f) + f(xs[|xs| - 1])
  }

  /** The values of a concatenation are the values of its parts, in order. */
  lemma {:induction false} FlatMapAppend<X, Y>(xs: seq<X>, ys: seq<X>, f: X -> seq<Y>)
    ensures FlatMap(xs + ys, f) == FlatMap(xs, f) + FlatMap(ys, f)
    decreases |ys|
  {
    if |ys| == 0 {
      assert xs + ys == xs;
    } else {
      var all := xs + ys;
      assert all[..|all| - 1] == xs + ys[..|ys| - 1];
      FlatMapAppend(xs, ys[..|ys| - 1], f);
    }
  }

  /** Elements that each give at most one value give at most one value each. */
  lemma {:induction false} FlatMapAtMostOne<X, Y>(xs: seq<X>, f: X -> seq<Y>)
    requires forall x :: |f(x)| <= 1
    ensures |FlatMap(xs, f)| <= |xs|
    decreases |xs|
  {
    if |xs| > 0 {
      FlatMapAtMostOne(xs[..|xs| - 1], f);
    }
  }

  /** A property every element gives only values with, every value has. */
  lemma {:induction false} FlatMapAll<X, Y>(xs: seq<X>, f: X -> seq<Y>, p: Y -> bool)
    requires forall x, y :: y in f(x) ==> p(y)
    ensures forall y :: y in FlatMap(xs, f) ==> p(y)
    decreases |xs|
  {
    if |xs| > 0 {
      FlatMapAll(xs[..|xs| - 1], f, p);
    }
  }
}
