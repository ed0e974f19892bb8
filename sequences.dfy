/** Searching a sequence, as `List.IndexOf` and the `GetEntry` lookups do. */
module Sequences {
  /** Position of the first element satisfying `p`, or -1 when there is none. */
  function FirstIndex<T>(s: seq<T>, p: T -> bool): (r: int)
    ensures -1 <= r < |s|
    ensures r == -1 <==> forall i :: 0 <= i < |s| ==> !p(s[i])
    ensures r >= 0 ==> p(s[r]) && forall i :: 0 <= i < r ==> !p(s[i])
    decreases |s|
  {
    if |s| == 0 then -1
    else if p(s[0]) then 0
    else
      var r := FirstIndex(s[1..], p);
      if r == -1 then -1 else r + 1
  }
}
