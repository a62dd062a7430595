/** How a step of the conversion ends: with a value, with a JavaScript exception
    (a property read on `undefined`, which is what every fixed-index builder does on a
    fragment of the wrong shape), or never (the bracket loop of `MatchFences`). */
module Wrappers {

  datatype Outcome<+T> = Ok(value: T) | Throws | Diverges

  /** `[a, b, ...].map(f)` where each call of `f` may fail: the first failure wins,
      and a failure anywhere is a failure of the whole list. */
  function Collect<T>(rs: seq<Outcome<T>>): (r: Outcome<seq<T>>)
    ensures r.Ok? <==> forall i :: 0 <= i < |rs| ==> rs[i].Ok?
    ensures r.Ok? ==> |r.value| == |rs| && forall i :: 0 <= i < |rs| ==> r.value[i] == rs[i].value
    ensures r.Diverges? ==> exists i :: 0 <= i < |rs| && rs[i].Diverges?
  {
    if rs == [] then Ok([])
    else match rs[0]
      case Throws => Throws
      case Diverges => Diverges
      case Ok(x) =>
        match Collect(rs[1..])
        case Throws => Throws
        case Diverges => Diverges
        case Ok(xs) => Ok([x] + xs)
  }
}
