/** Option/Result values and the Python exceptions the model raises, plus a
    mapping combinator that stops at the first failure, as a Python loop or
    list comprehension does when one of its steps raises. */
module Wrappers {

  datatype Option<+T> = None | Some(value: T)

  /** The exceptions the modelled code raises. A KeyError carries the missing
      key (None when Python looked up None); ElementKeyError is a KeyError whose
      key is an XML element object rather than a string; NoneTypeKeyError is
      the KeyError whose key is the class of None, which lxml's element
      builder raises on a None attribute value, having no rule to render that
      type; SyntaxError is what
      the XML parser raises on a member that is not XML. */
  datatype Error =
    | TypeError
    | KeyError(key: Option<string>)
    | ElementKeyError
    | NoneTypeKeyError
    | AttributeError
    | SyntaxError

  datatype Result<+T> = Ok(value: T) | Err(error: Error)

  /** Applies `f` to each element in order; the first failure wins. */
  function MapResult<A, B>(xs: seq<A>, f: A -> Result<B>): (r: Result<seq<B>>)
    ensures r.Ok? ==> |r.value| == |xs|
    ensures r.Ok? ==> forall i :: 0 <= i < |xs| ==> f(xs[i]) == Ok(r.value[i])
    ensures r.Ok? <==> forall i :: 0 <= i < |xs| ==> f(xs[i]).Ok?
    decreases |xs|
  {
    if xs == [] then Ok([])
    else
      match f(xs[0])
      case Err(e) => Err(e)
      case Ok(y) =>
        match MapResult(xs[1..], f)
        case Err(e) => Err(e)
        case Ok(ys) =>
          assert forall i :: 1 <= i < |xs| ==> xs[i] == xs[1..][i - 1];
          Ok([y] + ys)
  }

  /** A failing map stops at its first failing element: the error is that
      element's, and every element before it maps to Ok. */
  lemma {:induction false} MapResultFirstError<A, B>(xs: seq<A>, f: A -> Result<B>)
    ensures MapResult(xs, f).Err? ==>
      exists i :: 0 <= i < |xs| && f(xs[i]) == Err(MapResult(xs, f).error) && (forall j :: 0 <= j < i ==> f(xs[j]).Ok?)
    decreases |xs|
  {
    if xs != [] && f(xs[0]).Ok? && MapResult(xs, f).Err? {
      MapResultFirstError(xs[1..], f);
      var i :| 0 <= i < |xs[1..]| && f(xs[1..][i]) == Err(MapResult(xs[1..], f).error) &&
        (forall j :: 0 <= j < i ==> f(xs[1..][j]).Ok?);
      assert forall j :: 1 <= j <= i ==> xs[j] == xs[1..][j - 1];
      assert f(xs[i + 1]) == Err(MapResult(xs, f).error);
    }
  }

  /** Puts already computed values in front of a result. */
  function Prepend<B>(done: seq<B>, rest: Result<seq<B>>): Result<seq<B>>
  {
    match rest
    case Ok(ys) => Ok(done + ys)
    case Err(e) => Err(e)
  }

  /** One step of MapResult from the front; the shape a loop invariant needs. */
  lemma MapResultStep<A, B>(xs: seq<A>, i: nat, f: A -> Result<B>, done: seq<B>)
    requires i < |xs|
    ensures f(xs[i]).Ok? ==>
      Prepend(done, MapResult(xs[i..], f)) == Prepend(done + [f(xs[i]).value], MapResult(xs[i + 1..], f))
    ensures f(xs[i]).Err? ==> MapResult(xs[i..], f) == Err(f(xs[i]).error)
  {
    assert xs[i..][0] == xs[i];
    assert xs[i..][1..] == xs[i + 1..];
    if f(xs[i]).Ok? {
      var y := f(xs[i]).value;
      match MapResult(xs[i + 1..], f)
      case Err(e) =>
      case Ok(ys) =>
        assert done + ([y] + ys) == (done + [y]) + ys;
    }
  }

  /** Mapping over a concatenation maps the first part, then the second. */
  lemma {:induction false} MapResultConcat<A, B>(a: seq<A>, b: seq<A>, f: A -> Result<B>)
    ensures MapResult(a + b, f) == (match MapResult(a, f)
      case Err(e) => Err(e)
      case Ok(xs) => Prepend(xs, MapResult(b, f)))
    decreases |a|
  {
    if a == [] {
      assert a + b == b;
      match MapResult(b, f)
      case Err(_) =>
      case Ok(ys) => assert [] + ys == ys;
    } else {
      assert (a + b)[0] == a[0] && (a + b)[1..] == a[1..] + b;
      MapResultConcat(a[1..], b, f);
      match f(a[0])
      case Err(_) =>
      case Ok(y) =>
        match MapResult(a[1..], f)
        case Err(_) =>
        case Ok(xs) =>
          match MapResult(b, f)
          case Err(_) =>
          case Ok(ys) => assert [y] + (xs + ys) == ([y] + xs) + ys;
    }
  }
}
