/** Value types shared by the C and the JavaScript programs, and the "convert
    every element or fail" pattern both readers follow. */
module Common {

  datatype Option<T> = None | Some(value: T)

  datatype Result<T, E> = Ok(value: T) | Err(error: E)

  /** An IEEE-754 double as the programs inspect it. Finite values are
      modelled by the real they denote; rounding is not modelled. */
  datatype Double = Finite(value: real) | PosInf | NegInf | NaN {
    /** `isfinite(x)` in C, `Number.isFinite(x)` in JavaScript. */
    predicate IsFinite() { Finite? }
  }

  /** `f` applied to every element of `xs`, in order, if it succeeds on all
      of them; nothing otherwise. */
  function CollectAll<S, T>(xs: seq<S>, f: S -> Option<T>): (r: Option<seq<T>>)
    ensures r.Some? ==> |r.value| == |xs|
    decreases |xs|
  {
    if xs == [] then Some([])
    else
      match CollectAll(xs[..|xs| - 1], f)
      case None => None
      case Some(ys) =>
        match f(xs[|xs| - 1])
        case None => None
        case Some(y) => Some(ys + [y])
  }

  /** The collection succeeds exactly when `f` succeeds on every element,
      and then its element k is what `f` made of `xs[k]`. */
  lemma {:induction false} CollectAllSpec<S, T>(xs: seq<S>, f: S -> Option<T>)
    ensures CollectAll(xs, f).Some? <==> forall k :: 0 <= k < |xs| ==> f(xs[k]).Some?
    ensures CollectAll(xs, f).Some? ==>
              forall k :: 0 <= k < |xs| ==> f(xs[k]) == Some(CollectAll(xs, f).value[k])
    decreases |xs|
  {
    if xs != [] {
      var init := xs[..|xs| - 1];
      CollectAllSpec(init, f);
      assert forall k :: 0 <= k < |init| ==> init[k] == xs[k];
    }
  }

  /** One more element that converts extends a successful collection. */
  lemma CollectAllSnoc<S, T>(xs: seq<S>, x: S, f: S -> Option<T>)
    requires CollectAll(xs, f).Some? && f(x).Some?
    ensures CollectAll(xs + [x], f) == Some(CollectAll(xs, f).value + [f(x).value])
  {
    assert (xs + [x])[..|xs|] == xs;
  }

  /** One element that does not convert makes the whole collection fail. */
  lemma CollectAllStops<S, T>(a: seq<S>, x: S, b: seq<S>, f: S -> Option<T>)
    requires f(x).None?
    ensures CollectAll(a + [x] + b, f).None?
  {
    CollectAllSpec(a + [x] + b, f);
    assert (a + [x] + b)[|a|] == x;
  }

  /** A successful collection of `a + [x] + b` starts with the collection
      of `a`, followed by what `f` made of `x`. */
  lemma CollectAllAround<S, T>(a: seq<S>, x: S, b: seq<S>, f: S -> Option<T>)
    requires CollectAll(a + [x] + b, f).Some?
    ensures CollectAll(a, f).Some? && f(x).Some?
    ensures |a| < |CollectAll(a + [x] + b, f).value|
    ensures CollectAll(a + [x] + b, f).value[..|a|] == CollectAll(a, f).value
    ensures CollectAll(a + [x] + b, f).value[|a|] == f(x).value
  {
    var all := a + [x] + b;
    CollectAllSpec(a, f);
    CollectAllSpec(all, f);
    assert all[|a|] == x;
    assert forall k :: 0 <= k < |a| ==> all[k] == a[k];
  }

  lemma AppendAssoc<T>(a: seq<T>, b: seq<T>, c: seq<T>)
    ensures a + (b + c) == a + b + c
  {
  }

  /** `f` applied to every element of `xs`, in order, stopping at the first
      error, which is the result: `xs.map(f)` with an `f` that throws. */
  function MapResult<S, T, E>(xs: seq<S>, f: S -> Result<T, E>): (r: Result<seq<T>, E>)
    ensures r.Ok? ==> |r.value| == |xs|
    decreases |xs|
  {
    if xs == [] then Ok([])
    else
      match MapResult(xs[..|xs| - 1], f)
      case Err(e) => Err(e)
      case Ok(ys) =>
        match f(xs[|xs| - 1])
        case Err(e) => Err(e)
        case Ok(y) => Ok(ys + [y])
  }

  /** The map succeeds exactly when `f` succeeds on every element, and then
      its element k is what `f` made of `xs[k]`. */
  lemma {:induction false} MapResultSpec<S, T, E>(xs: seq<S>, f: S -> Result<T, E>)
    ensures MapResult(xs, f).Ok? <==> forall k :: 0 <= k < |xs| ==> f(xs[k]).Ok?
    ensures MapResult(xs, f).Ok? ==>
              forall k :: 0 <= k < |xs| ==> f(xs[k]) == Ok(MapResult(xs, f).value[k])
    decreases |xs|
  {
    if xs != [] {
      var init := xs[..|xs| - 1];
      MapResultSpec(init, f);
      assert forall k :: 0 <= k < |init| ==> init[k] == xs[k];
      if MapResult(init, f).Err? {
        var k :| 0 <= k < |init| && f(init[k]).Err?;
        assert f(xs[k]).Err?;
      }
    }
  }

  /** A failed map reports the error of the first element `f` fails on. */
  lemma {:induction false} MapResultFirstError<S, T, E>(xs: seq<S>, f: S -> Result<T, E>) returns (k: nat)
    requires MapResult(xs, f).Err?
    ensures k < |xs| && f(xs[k]) == Err(MapResult(xs, f).error)
    ensures forall j :: 0 <= j < k ==> f(xs[j]).Ok?
    decreases |xs|
  {
    var init := xs[..|xs| - 1];
    if MapResult(init, f).Err? {
      k := MapResultFirstError(init, f);
      assert forall j :: 0 <= j <= k ==> init[j] == xs[j];
    } else {
      k := |xs| - 1;
      MapResultSpec(init, f);
      assert forall j :: 0 <= j < k ==> init[j] == xs[j];
    }
  }
}
