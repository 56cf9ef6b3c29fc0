/** First-match lookups over the page's element collections. Every lookup the
    controller performs (getElementById, querySelector and Array indexOf)
    returns the first element, in document or list order, that fits. */
module Lookup {

  datatype Option<+T> = None | Some(value: T)

  /** The index of the first element of `s` that satisfies `p`, if there is one. */
  function Find<T>(s: seq<T>, p: T -> bool): (r: Option<nat>)
    ensures r.Some? ==> r.value < |s| && p(s[r.value])
    ensures r.Some? ==> forall j :: 0 <= j < r.value ==> !p(s[j])
    ensures r.None? <==> forall j :: 0 <= j < |s| ==> !p(s[j])
    decreases |s|
  {
    if |s| == 0 then None
    else if p(s[0]) then Some(0)
    else
      match Find(s[1..], p)
      case None => None
      case Some(i) => Some(i + 1)
  }

  /** Array.prototype.indexOf: the first position of `x` in `s`, or -1. */
  function IndexOf<T(==)>(s: seq<T>, x: T): (i: int)
    ensures -1 <= i < |s|
    ensures i == -1 <==> x !in s
    ensures 0 <= i ==> s[i] == x && x !in s[..i]
  {
    match Find(s, y => y == x)
    case None => -1
    case Some(k) => k
  }
}
