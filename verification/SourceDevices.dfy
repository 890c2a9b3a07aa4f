/** The devices a product is taken over. */
module SourceDevices {
  import opened Options

  function Range(k: nat): (r: seq<nat>)
    ensures |r| == k && forall i | 0 <= i < k :: r[i] == i
  {
    seq(k, i requires 0 <= i < k => i)
  }

  // The devices that the entries of a row are for: src_ids, or the data devices when it is null.
  function Sources(k: nat, srcIds: Option<seq<nat>>): seq<nat> {
    if srcIds.None? then Range(k) else srcIds.value
  }

  function SourceOf(k: nat, srcIds: Option<seq<nat>>, i: nat): (d: nat)
    requires i < k == |Sources(k, srcIds)|
    ensures d == Sources(k, srcIds)[i]
  {
    if srcIds.None? then i else srcIds.value[i]
  }
}
