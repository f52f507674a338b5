/** Outcomes of the modelled scripts: a value, or the built-in exception Python would raise. */
module Results {

  /** The two built-in exceptions the modelled code can raise
      (`math.log2` raises `ValueError` for a "math domain error"). */
  datatype Exception = IndexError | ValueError

  datatype Result<+T> = Ok(value: T) | Err(error: Exception)

  /** A Python `for` loop over `xs` that applies `f` to each element and
      collects the results, where the first exception aborts the loop. */
  function Traverse<A, B>(xs: seq<A>, f: A -> Result<B>): (r: Result<seq<B>>)
    ensures r.Ok? <==> forall i :: 0 <= i < |xs| ==> f(xs[i]).Ok?
    ensures r.Ok? ==> |r.value| == |xs| && forall i :: 0 <= i < |xs| ==> r.value[i] == f(xs[i]).value
    ensures r.Err? ==>
      exists k :: 0 <= k < |xs| && f(xs[k]) == Err(r.error) && forall i :: 0 <= i < k ==> f(xs[i]).Ok?
  {
    if xs == [] then Ok([])
    else
      match f(xs[0])
      case Err(e) => Err(e)
      case Ok(y) =>
        match Traverse(xs[1..], f)
        case Err(e) =>
          assert forall i :: 1 <= i < |xs| ==> xs[i] == xs[1..][i - 1];
          Err(e)
        case Ok(ys) => Ok([y] + ys)
  }

  /** When every element maps to a value, the traversal yields exactly those values. */
  lemma TraverseOk<A, B>(xs: seq<A>, f: A -> Result<B>, ys: seq<B>)
    requires |xs| == |ys| && forall i :: 0 <= i < |xs| ==> f(xs[i]) == Ok(ys[i])
    ensures Traverse(xs, f) == Ok(ys)
  {
    var r := Traverse(xs, f);
    assert r.value == ys;
  }
}
