/** The optional-value datatype shared by every module of the model. `None`
    stands for JavaScript's `null` or `undefined` wherever the source returns
    or stores one of them in place of a value. */
module Wrappers {

  datatype Option<+T> = None | Some(value: T) {

    /** Returns the value in `Some`, or `default` for `None`. */
    function GetOr(default: T): (r: T)
      ensures Some? ==> r == value
      ensures None? ==> r == default
    {
      match this
      case Some(v) => v
      case None => default
    }
  }

  /** `.filter(v => v)` over values that are either `null` or truthy: drops
      the `None`s. The ensures give length and membership; the order of the
      kept values is carried by the body, which callers unfold one element
      at a time. */
  function Compact<T>(xs: seq<Option<T>>): (r: seq<T>)
    ensures |r| <= |xs|
    ensures forall x <- r :: Some(x) in xs
    ensures forall i :: 0 <= i < |xs| && xs[i].Some? ==> xs[i].value in r
  {
    if |xs| == 0 then []
    else
      var init := xs[..|xs| - 1];
      assert forall o <- init :: o in xs;
      Compact(init) + (if xs[|xs| - 1].Some? then [xs[|xs| - 1].value] else [])
  }
}
