/** DC prediction: within a restart interval the DC coefficient of a block is predicted from the block before
    it of the same component. (Section F.1.1.5.1 of ITU-T T.81.) */
module Prediction {

  /** The place of the last block of component c among the first i, when cs has the component of each block;
      -1 if there is none. */
  function Previous(cs: seq<nat>, i: nat, c: nat): (j: int)
    requires i <= |cs|
    ensures -1 <= j < i && (j >= 0 ==> cs[j] == c)
    ensures forall k :: j < k < i ==> cs[k] != c
  {
    if i == 0 then -1 else if cs[i - 1] == c then i - 1 else Previous(cs, i - 1, c)
  }

  /** What is predicted for a block of component c after the first i blocks, of which dcs has the DC
      coefficients: that of the last one of its component, and 0 for the first one. */
  function Predicted(cs: seq<nat>, dcs: seq<int>, i: nat, c: nat): int
    requires i <= |cs| == |dcs|
  {
    var j := Previous(cs, i, c);
    if j < 0 then 0 else dcs[j]
  }
}
