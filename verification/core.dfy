/** Optional and error-carrying values, and a first-match search over sequences,
    shared by every module of the catalog bot model. */
module Core {

  /** Python's `None` or a present value. */
  datatype Option<+T> = None | Some(value: T)

  /** The outcome of an operation that can be refused with a reason. */
  datatype Result<+T, +E> = Ok(value: T) | Err(error: E)

  /** Index of the first element of `s` satisfying `p`: the shape of every
      `for ... in ...: if ...: return` loop in the bot. */
  function FirstIndex<T>(s: seq<T>, p: T -> bool): (r: Option<nat>)
    ensures r.Some? ==> r.value < |s| && p(s[r.value])
    ensures r.Some? ==> forall j :: 0 <= j < r.value ==> !p(s[j])
    ensures r.None? <==> forall j :: 0 <= j < |s| ==> !p(s[j])
  {
    if |s| == 0 then None
    else if p(s[0]) then Some(0)
    else match FirstIndex(s[1..], p)
         case None => None
         case Some(i) => Some(i + 1)
  }
}
