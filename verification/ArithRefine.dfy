/** AC successive approximation refinement in arithmetic-coded scans: each scan adds one bit to
    every coefficient of a band. Blocks are in zigzag order here. */
module ArithRefine {
  import opened Bits
  import opened Coefficients
  import opened QmCoder
  import opened ArithMagnitude
  import opened ArithAc

  // ----- Encoder side -----

  /** The decisions for a coefficient that is nonzero after this scan. */
  function Refined(z: Block, k: Index, s: Band): seq<Decision>
    requires 1 <= k
  {
    var v := Mag(z[k], s.al);
    if v / 2 != 0 then One(Site(s.tbl, k, 2), v % 2 == 1)
    else One(Site(s.tbl, k, 1), true) + One(FIXED, z[k] < 0)
  }

  /** From coefficient k on; ke and kex are the last nonzero coefficients after and before. */
  function RefineFrom(z: Block, k: nat, ke: Index, kex: Index, s: Band): seq<Decision>
    requires s.Ok() && 1 <= k <= s.se + 1 && ke <= s.se
    requires ke == 0 || Mag(z[ke], s.al) != 0
    decreases 64 - k, 1
  {
    if k <= ke then
      (if k > kex then One(Site(s.tbl, k, 0), false) else []) + RefineRun(z, k, ke, kex, s)
    else if k <= s.se then One(Site(s.tbl, k, 0), true)
    else []
  }

  function RefineRun(z: Block, k: Index, ke: Index, kex: Index, s: Band): seq<Decision>
    requires s.Ok() && 1 <= k <= ke <= s.se && Mag(z[ke], s.al) != 0
    decreases 64 - k, 0
  {
    if Mag(z[k], s.al) == 0 then One(Site(s.tbl, k, 1), false) + RefineRun(z, k + 1, ke, kex, s)
    else Refined(z, k, s) + RefineFrom(z, k + 1, ke, kex, s)
  }

  function AcRefine(z: Block, s: Band): seq<Decision>
    requires s.Ok()
  {
    var ke := LastNonzero(z, s.se, s.al);
    RefineFrom(z, s.ss, ke, LastNonzero(z, ke, s.ah), s)
  }

  // ----- Which bins are used -----

  /** A correction bit has the third bin of its coefficient; a new coefficient has the second, and the fixed bin
      for its sign. */
  lemma RefinedBins(z: Block, k: Index, s: Band)
    requires 1 <= k
    ensures var v, at := Mag(z[k], s.al), 1024 + 256 * s.tbl + 3 * (k - 1);
      Refined(z, k, s) == if v > 1 then [Decision(at + 2, v % 2 == 1)]
                          else [Decision(at + 1, true), Decision(5120, z[k] < 0)]
  {
  }

  /** Whether the block ends is asked only behind the last coefficient that was nonzero before. */
  lemma RefineEobBins(z: Block, k: Index, ke: Index, kex: Index, s: Band)
    requires s.Ok() && 1 <= k <= s.se && ke <= s.se && (ke == 0 || Mag(z[ke], s.al) != 0) && kex <= ke
    ensures var ts, at := RefineFrom(z, k, ke, kex, s), 1024 + 256 * s.tbl + 3 * (k - 1);
      && (k > kex ==> |ts| > 0 && ts[0] == Decision(at, k > ke))
      && (k <= ke && Mag(z[k], s.al) == 0 ==>
            var i := if k > kex then 1 else 0; |ts| > i && ts[i] == Decision(at + 1, false))
  {
    hide Mag;
  }

  lemma {:induction false} RefineFromBinsIn(z: Block, k: nat, ke: Index, kex: Index, s: Band)
    requires s.Ok() && 1 <= k <= s.se + 1 && ke <= s.se
    requires ke == 0 || Mag(z[ke], s.al) != 0
    ensures AcBins(RefineFrom(z, k, ke, kex, s), s.tbl)
    decreases 64 - k, 1
  {
    hide Mag;
    if k <= ke {
      RefineRunBinsIn(z, k, ke, kex, s);
      if k > kex { AcConcat(One(Site(s.tbl, k, 0), false), RefineRun(z, k, ke, kex, s), s.tbl); }
    }
  }

  lemma {:induction false} RefineRunBinsIn(z: Block, k: Index, ke: Index, kex: Index, s: Band)
    requires s.Ok() && 1 <= k <= ke <= s.se && Mag(z[ke], s.al) != 0
    ensures AcBins(RefineRun(z, k, ke, kex, s), s.tbl)
    decreases 64 - k, 0
  {
    hide Mag;
    if Mag(z[k], s.al) == 0 {
      RefineRunBinsIn(z, k + 1, ke, kex, s);
      AcConcat(One(Site(s.tbl, k, 1), false), RefineRun(z, k + 1, ke, kex, s), s.tbl);
    } else {
      RefineFromBinsIn(z, k + 1, ke, kex, s);
      AcConcat(Refined(z, k, s), RefineFrom(z, k + 1, ke, kex, s), s.tbl);
    }
  }

  lemma AcRefineBinsIn(z: Block, s: Band)
    requires s.Ok()
    ensures AcBins(AcRefine(z, s), s.tbl)
  {
    var ke := LastNonzero(z, s.se, s.al);
    RefineFromBinsIn(z, s.ss, ke, LastNonzero(z, ke, s.ah), s);
  }

  // ----- Decoder side -----

  function LastSet(z: Block, k: Index): (r: Index)
    ensures r <= k && (r == 0 || z[r] != 0)
    ensures forall j: Index :: r < j <= k ==> z[j] == 0
    decreases k
  {
    if k == 0 || z[k] != 0 then k else LastSet(z, k - 1)
  }

  /** A coefficient with the bit being coded added to its magnitude. */
  function AddBit(x: int, al: nat): int {
    ToShort(if x < 0 then x - Pow2(al) else x + Pow2(al))
  }

  /** A coefficient that has just become nonzero. */
  function NewBit(neg: bool, al: nat): int {
    var p: int := Pow2(al);
    ToShort(if neg then -p else p)
  }

  function ReadRefineFrom(d: DecCoder, z: Block, k: nat, kex: Index, s: Band): BlockResult
    requires s.Ok() && 1 <= k <= s.se + 1
    decreases 64 - k, 1
  {
    if k > s.se then BlockResult(d, z, true)
    else if k > kex then
      var (d1, eob) := Decode(d, Site(s.tbl, k, 0));
      if eob then BlockResult(d1, z, true) else ReadRefineRun(d1, z, k, kex, s)
    else ReadRefineRun(d, z, k, kex, s)
  }

  function ReadRefineRun(d: DecCoder, z: Block, k: Index, kex: Index, s: Band): BlockResult
    requires s.Ok() && 1 <= k <= s.se
    decreases 64 - k, 0
  {
    if z[k] != 0 then
      var (d1, bit) := Decode(d, Site(s.tbl, k, 2));
      ReadRefineFrom(d1, if bit then z[k := AddBit(z[k], s.al)] else z, k + 1, kex, s)
    else
      var (d1, nonzero) := Decode(d, Site(s.tbl, k, 1));
      if nonzero then
        var (d2, neg) := Decode(d1, FIXED);
        ReadRefineFrom(d2, z[k := NewBit(neg, s.al)], k + 1, kex, s)
      else if k + 1 > s.se then BlockResult(d1, z, false)
      else ReadRefineRun(d1, z, k + 1, kex, s)
  }

  function ReadAcRefine(d: DecCoder, z: Block, s: Band): BlockResult
    requires s.Ok()
  {
    ReadRefineFrom(d, z, s.ss, LastSet(z, s.se), s)
  }

  // ----- Meaning -----

  /** The block before the scan holds the coefficients of z at the precision of the last scan. */
  ghost predicate Before(z0: Block, z: Block, k: nat, s: Band) {
    forall j: Index :: k <= j <= s.se ==> z0[j] == Point(z[j], s.al + 1)
  }

  /** z0 with the coefficients of the band from k on at the precision of this scan. */
  function Sharpened(z0: Block, z: Block, k: nat, s: Band): Block {
    seq(64, j requires 0 <= j < 64 => if k <= j <= s.se then Point(z[j], s.al) else z0[j])
  }

  lemma MagSplit(x: int, al: nat)
    ensures Abs(Point(x, al)) == Abs(Point(x, al + 1)) + (Mag(x, al) % 2) * Pow2(al)
  {
    MagStep(x, al);
    var p, v := Pow2(al), Mag(x, al);
    assert v == 2 * (v / 2) + v % 2;
    MulAssoc(v / 2, 2, p);
    assert (2 * (v / 2) + v % 2) * p == 2 * (v / 2) * p + (v % 2) * p;
  }

  lemma PointSign(x: int, al: nat)
    ensures if x < 0 then Point(x, al) + Abs(Point(x, al)) == 0 else Point(x, al) == Abs(Point(x, al))
    ensures Mag(x, al) == 0 ==> Point(x, al) == 0
    ensures Mag(x, al) == 1 ==> Abs(Point(x, al)) == Pow2(al)
  {
  }

  /** What one refinement does to a single coefficient. */
  lemma PointStep(x: int, al: nat)
    requires IsShort(x)
    ensures var was, v := Point(x, al + 1), Mag(x, al);
      && (was != 0 <==> v / 2 != 0)
      && (was != 0 ==> Point(x, al) == if v % 2 == 1 then AddBit(was, al) else was)
      && (v == 1 ==> Point(x, al) == NewBit(x < 0, al))
      && (v == 0 ==> Point(x, al) == 0)
  {
    MagStep(x, al);
    MagSplit(x, al);
    PointZero(x, al + 1);
    PointShort(x, al);
    PointShort(x, al + 1);
    PointSign(x, al);
    PointSign(x, al + 1);
    hide Mag, Point, Pow2;
  }

  lemma RefinedFollows(d: DecCoder, z: Block, k: Index, s: Band)
    requires 1 <= k && Mag(z[k], s.al) != 0 && Follows(d, Refined(z, k, s))
    ensures var v := Mag(z[k], s.al);
      if v / 2 != 0 then Decode(d, Site(s.tbl, k, 2)) == (DecodeAll(d, Refined(z, k, s)), v % 2 == 1)
      else
        var (d1, b) := Decode(d, Site(s.tbl, k, 1));
        b && Decode(d1, FIXED) == (DecodeAll(d, Refined(z, k, s)), z[k] < 0)
  {
    hide Decode, Mag;
    var v := Mag(z[k], s.al);
    if v / 2 != 0 {
      FollowsOne(d, Site(s.tbl, k, 2), v % 2 == 1);
    } else {
      var t := One(Site(s.tbl, k, 1), true);
      FollowsConcat(d, t, One(FIXED, z[k] < 0));
      FollowsOne(d, Site(s.tbl, k, 1), true);
      FollowsOne(DecodeAll(d, t), FIXED, z[k] < 0);
    }
  }

  /** The two end-of-block indices are on the same side of every coefficient from k on. */
  predicate SameFrom(kex: Index, kex0: Index, k: nat) {
    if kex < k then kex0 < k else kex0 == kex
  }

  lemma {:induction false} RefineFromFollows(d: DecCoder, z0: Block, z: Block, k: nat, ke: Index, kex: Index,
      kex0: Index, s: Band)
    requires Shorts(z) && s.Ok() && 1 <= k <= s.se + 1 && ke == LastNonzero(z, s.se, s.al) && kex <= ke
    requires Before(z0, z, k, s) && SameFrom(kex, kex0, k)
    requires Follows(d, RefineFrom(z, k, ke, kex, s))
    ensures ReadRefineFrom(d, z0, k, kex0, s)
         == BlockResult(DecodeAll(d, RefineFrom(z, k, ke, kex, s)), Sharpened(z0, z, k, s), true)
    decreases 64 - k, 1
  {
    hide Decode, LastNonzero, Mag, Point, RefineRun, ReadRefineRun, Site;
    if k <= ke {
      var t := if k > kex then One(Site(s.tbl, k, 0), false) else [];
      FollowsConcat(d, t, RefineRun(z, k, ke, kex, s));
      if k > kex { FollowsOne(d, Site(s.tbl, k, 0), false); }
      RefineRunFollows(DecodeAll(d, t), z0, z, k, ke, kex, kex0, s);
    } else {
      if k <= s.se && k > kex {
        FollowsOne(d, Site(s.tbl, k, 0), true);
      }
      AllDropped(z0, z, k, ke, s);
    }
  }

  lemma AllDropped(z0: Block, z: Block, k: nat, ke: Index, s: Band)
    requires Shorts(z) && s.Ok() && ke == LastNonzero(z, s.se, s.al) && ke < k && Before(z0, z, k, s)
    ensures Sharpened(z0, z, k, s) == z0
  {
    forall j: Index | k <= j <= s.se ensures Point(z[j], s.al) == z0[j] {
      PointStep(z[j], s.al);
    }
  }

  lemma {:induction false} RefineRunFollows(d: DecCoder, z0: Block, z: Block, k: Index, ke: Index, kex: Index,
      kex0: Index, s: Band)
    requires Shorts(z) && s.Ok() && 1 <= k <= ke && ke == LastNonzero(z, s.se, s.al) && kex <= ke
    requires Before(z0, z, k, s) && SameFrom(kex, kex0, k)
    requires Follows(d, RefineRun(z, k, ke, kex, s))
    ensures ReadRefineRun(d, z0, k, kex0, s)
         == BlockResult(DecodeAll(d, RefineRun(z, k, ke, kex, s)), Sharpened(z0, z, k, s), true)
    decreases 64 - k, 0
  {
    hide Decode, LastNonzero, Mag, Point, RefineFrom, ReadRefineFrom, AddBit, Refined;
    PointStep(z[k], s.al);
    if Mag(z[k], s.al) == 0 {
      FollowsConcat(d, One(Site(s.tbl, k, 1), false), RefineRun(z, k + 1, ke, kex, s));
      FollowsOne(d, Site(s.tbl, k, 1), false);
      RefineRunFollows(DecodeAll(d, One(Site(s.tbl, k, 1), false)), z0, z, k + 1, ke, kex, kex0, s);
      assert Sharpened(z0, z, k, s) == Sharpened(z0, z, k + 1, s);
    } else {
      var t := Refined(z, k, s);
      FollowsConcat(d, t, RefineFrom(z, k + 1, ke, kex, s));
      RefinedFollows(d, z, k, s);
      var z1 := z0[k := Point(z[k], s.al)];
      RefineFromFollows(DecodeAll(d, t), z1, z, k + 1, ke, kex, kex0, s);
      assert Sharpened(z0, z, k, s) == Sharpened(z1, z, k + 1, s);
      assert z0[k] == Point(z[k], s.al) ==> z1 == z0;
    }
  }

  /** Both sides skip the end-of-block decision at the same coefficients. */
  lemma SameStart(z0: Block, z: Block, s: Band)
    requires Shorts(z) && s.Ok() && s.ah == s.al + 1 && Before(z0, z, s.ss, s)
    ensures SameFrom(LastNonzero(z, LastNonzero(z, s.se, s.al), s.ah), LastSet(z0, s.se), s.ss)
  {
    hide Mag, Point;
    var ke := LastNonzero(z, s.se, s.al);
    var kex, kex0 := LastNonzero(z, ke, s.ah), LastSet(z0, s.se);
    if s.ss <= kex0 {
      PointStep(z[kex0], s.al);
      MagStep(z[kex0], s.al);
    }
    if s.ss <= kex {
      PointStep(z[kex], s.al);
      MagStep(z[kex], s.al);
    }
  }

  /** A refinement scan over a band that holds the coefficients at one bit less precision leaves
      them at the new precision, and nothing else changed. */
  lemma AcRefineMeaning(d: DecCoder, z0: Block, z: Block, s: Band)
    requires Shorts(z) && s.Ok() && s.ah == s.al + 1 && Follows(d, AcRefine(z, s))
    requires forall k: Index :: s.ss <= k <= s.se ==> z0[k] == Point(z[k], s.ah)
    ensures var r := ReadAcRefine(d, z0, s);
      && r.ok && r.d == DecodeAll(d, AcRefine(z, s))
      && forall k: Index :: r.z[k] == if s.ss <= k <= s.se then Point(z[k], s.al) else z0[k]
  {
    hide Decode, Mag, Point;
    var ke := LastNonzero(z, s.se, s.al);
    var kex, kex0 := LastNonzero(z, ke, s.ah), LastSet(z0, s.se);
    SameStart(z0, z, s);
    RefineFromFollows(d, z0, z, s.ss, ke, kex, kex0, s);
  }
}
