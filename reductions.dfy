/** `np.min` and `np.max` over a non-empty array (both raise on an empty one). */
module Reductions {

  function MinOf(s: seq<real>): (m: real)
    requires |s| > 0
    ensures forall k :: 0 <= k < |s| ==> m <= s[k]
    ensures exists k :: 0 <= k < |s| && m == s[k]
  {
    if |s| == 1 then s[0]
    else
      var rest := MinOf(s[1..]);
      assert forall k :: 1 <= k < |s| ==> s[1..][k - 1] == s[k];
      if s[0] <= rest then s[0] else rest
  }

  function MaxOf(s: seq<real>): (m: real)
    requires |s| > 0
    ensures forall k :: 0 <= k < |s| ==> s[k] <= m
    ensures exists k :: 0 <= k < |s| && m == s[k]
  {
    if |s| == 1 then s[0]
    else
      var rest := MaxOf(s[1..]);
      assert forall k :: 1 <= k < |s| ==> s[1..][k - 1] == s[k];
      if s[0] >= rest then s[0] else rest
  }

  function MinIndex(s: seq<int>): (m: int)
    requires |s| > 0
    ensures forall k :: 0 <= k < |s| ==> m <= s[k]
    ensures exists k :: 0 <= k < |s| && m == s[k]
  {
    if |s| == 1 then s[0]
    else
      var rest := MinIndex(s[1..]);
      assert forall k :: 1 <= k < |s| ==> s[1..][k - 1] == s[k];
      if s[0] <= rest then s[0] else rest
  }

  function MaxIndex(s: seq<int>): (m: int)
    requires |s| > 0
    ensures forall k :: 0 <= k < |s| ==> s[k] <= m
    ensures exists k :: 0 <= k < |s| && m == s[k]
  {
    if |s| == 1 then s[0]
    else
      var rest := MaxIndex(s[1..]);
      assert forall k :: 1 <= k < |s| ==> s[1..][k - 1] == s[k];
      if s[0] >= rest then s[0] else rest
  }
}
