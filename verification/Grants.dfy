/** The answers an allocator gives along a run. */
module Grants {

  /** How many operations were refused memory. */
  function Refused(granted: seq<bool>): nat
    decreases |granted|
  {
    if granted == [] then 0 else (if granted[0] then 0 else 1) + Refused(granted[1..])
  }

  lemma OneAnswer(first: bool, rest: seq<bool>)
    ensures Refused([first] + rest) == (if first then 0 else 1) + Refused(rest)
  {
    assert ([first] + rest)[1..] == rest;
  }

  lemma {:induction false} NoneRefused(granted: seq<bool>)
    ensures Refused(granted) == 0 <==> forall k :: 0 <= k < |granted| ==> granted[k]
    decreases |granted|
  {
    if granted != [] {
      NoneRefused(granted[1..]);
      assert granted[0] && (forall k :: 0 <= k < |granted| - 1 ==> granted[1..][k]) ==>
        forall k :: 0 <= k < |granted| ==> granted[k] by {
        forall k | 0 < k < |granted| ensures granted[k] == granted[1..][k - 1] {
        }
      }
      assert forall k :: 0 <= k < |granted| - 1 ==> granted[1..][k] == granted[k + 1];
    }
  }
}
