/** Linear search for the first element with a property, shared by the logger and the server. */
module Search {
  import opened Wrappers

  /**
   * The index of the first element of `s` that satisfies `p`, if any: a
   * Python loop that stops at its first hit with `break`, or a query's
   * `.first()`.
   */
  function FirstIndex<T>(s: seq<T>, p: T -> bool): (r: Option<nat>)
    ensures r.None? <==> forall j :: 0 <= j < |s| ==> !p(s[j])
    ensures r.Some? ==> r.value < |s| && p(s[r.value])
                        && forall j :: 0 <= j < r.value ==> !p(s[j])
  {
    if |s| == 0 then None
    else if p(s[0]) then Some(0)
    else
      match FirstIndex(s[1..], p)
      case None => None
      case Some(i) => Some(i + 1)
  }
}
