/**
 * The linear search both the coroutine scheduler (_co_getmeta) and the
 * file table (find_entry) perform: walk the records in order and stop at
 * the first one whose key is the one sought.
 */
module Lookup {
  import opened Wrappers

  /** The index of the first element of s whose key is k, if any. */
  function FirstWithKey<T, K(==)>(s: seq<T>, key: T -> K, k: K): (r: Option<nat>)
    ensures r.Some? ==> r.value < |s| && key(s[r.value]) == k
    ensures r.Some? ==> forall j | 0 <= j < r.value :: key(s[j]) != k
    ensures r.None? <==> forall j | 0 <= j < |s| :: key(s[j]) != k
  {
    if |s| == 0 then None
    else if key(s[0]) == k then Some(0)
    else match FirstWithKey(s[1..], key, k)
      case None => None
      case Some(i) => Some(i + 1)
  }
}
