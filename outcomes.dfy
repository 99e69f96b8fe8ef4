/** Failure-carrying results, standing in for the exceptions the script can raise. */
module Outcomes {

  /** A value, or the error that stopped the computation. */
  datatype Result<T, E> = Ok(value: T) | Err(error: E)

  /** A value that may be absent. */
  datatype Option<T> = None | Some(value: T)

  /**
    `f` applied to every element in order, as a loop that raises at the
    first element `f` rejects: the results, or the index of that element.
   */
  function TryMap<A, B>(f: A -> Option<B>, xs: seq<A>): Result<seq<B>, nat>
  {
    if xs == [] then Ok([])
    else
      var n := |xs| - 1;
      match TryMap(f, xs[..n])
      case Err(k) => Err(k)
      case Ok(ys) =>
        match f(xs[n])
        case None => Err(n)
        case Some(y) => Ok(ys + [y])
  }

  /**
    TryMap succeeds exactly when `f` accepts every element, and then result
    `i` is `f`'s value at element `i`; otherwise it reports the first element
    `f` rejects.
   */
  lemma {:induction false} TryMapSpec<A, B>(f: A -> Option<B>, xs: seq<A>)
    ensures TryMap(f, xs).Ok? <==> forall i :: 0 <= i < |xs| ==> f(xs[i]).Some?
    ensures TryMap(f, xs).Ok? ==>
      |TryMap(f, xs).value| == |xs| && forall i :: 0 <= i < |xs| ==> f(xs[i]) == Some(TryMap(f, xs).value[i])
    ensures TryMap(f, xs).Err? ==>
      var k := TryMap(f, xs).error;
      k < |xs| && f(xs[k]).None? && forall j :: 0 <= j < k ==> f(xs[j]).Some?
  {
    if xs != [] {
      var n := |xs| - 1;
      TryMapSpec(f, xs[..n]);
      assert forall i :: 0 <= i < n ==> xs[..n][i] == xs[i];
    }
  }

  /** One more accepted element appends its value. */
  lemma TryMapExtend<A, B>(f: A -> Option<B>, xs: seq<A>, i: nat, ys: seq<B>)
    requires i < |xs| && TryMap(f, xs[..i]) == Ok(ys) && f(xs[i]).Some?
    ensures TryMap(f, xs[..i + 1]) == Ok(ys + [f(xs[i]).value])
  {
    assert xs[..i + 1][..i] == xs[..i];
  }

  /** After a run of accepted elements, a rejected one stops the whole map at its index. */
  lemma TryMapStop<A, B>(f: A -> Option<B>, xs: seq<A>, i: nat)
    requires i < |xs| && TryMap(f, xs[..i]).Ok? && f(xs[i]).None?
    ensures TryMap(f, xs) == Err(i)
  {
    TryMapSpec(f, xs[..i]);
    TryMapSpec(f, xs);
    assert forall j :: 0 <= j < i ==> xs[..i][j] == xs[j];
  }
}
