/** AC coefficients in arithmetic-coded scans: the first scan of a band (also used, with no bits
    dropped, by sequential scans). Blocks are in zigzag order here. */
module ArithAc {
  import opened Bits
  import opened Coefficients
  import opened QmCoder
  import opened ArithMagnitude

  /** A band of coefficients ss..se of one component, its bit positions, and its conditioning. */
  datatype Band = Band(ss: Index, se: Index, ah: nat, al: nat, tbl: Table, kx: nat) {
    predicate Ok() { 1 <= ss <= se }
  }

  /** The bins for coefficient k: end of block, zero or not, and magnitude. */
  function Site(tbl: Table, k: Index, j: nat): MagSite
    requires 1 <= k && j <= 2
  {
    1024 + 256 * tbl + 3 * (k - 1) + j
  }

  /** The bins for the higher magnitude categories. */
  function MagnitudeSite(s: Band, k: Index): MagSite {
    1024 + 256 * s.tbl + (if k <= s.kx then 189 else 217)
  }

  /** The last of the coefficients 1..k whose magnitude is nonzero with al bits dropped, or 0. */
  function LastNonzero(z: Block, k: Index, al: nat): (r: Index)
    ensures r <= k && (r == 0 || Mag(z[r], al) != 0)
    ensures forall j: Index :: r < j <= k ==> Mag(z[j], al) == 0
    decreases k
  {
    if k == 0 || Mag(z[k], al) != 0 then k else LastNonzero(z, k - 1, al)
  }

  // ----- Encoder side -----

  /** The sign and magnitude of the nonzero coefficient k. */
  function Nonzero(z: Block, k: Index, s: Band): seq<Decision>
    requires Shorts(z) && 1 <= k && Mag(z[k], s.al) != 0
  {
    MagBound(z[k], s.al);
    One(Site(s.tbl, k, 1), true) + One(FIXED, z[k] < 0)
      + AcMagnitude(Mag(z[k], s.al) - 1, Site(s.tbl, k, 2), MagnitudeSite(s, k))
  }

  lemma MagBound(x: int, al: nat)
    requires IsShort(x)
    ensures Mag(x, al) <= 0x8000
  {
    PointShort(x, al);
    MulMonotone(1, Pow2(al), Mag(x, al));
  }

  /** From coefficient k on, where an end-of-block decision is due; ke is the last nonzero one. */
  function FirstFrom(z: Block, k: nat, ke: Index, s: Band): seq<Decision>
    requires Shorts(z) && s.Ok() && 1 <= k <= s.se + 1 && ke <= s.se
    requires ke == 0 || Mag(z[ke], s.al) != 0
    decreases 64 - k, 1
  {
    if k <= ke then One(Site(s.tbl, k, 0), false) + FirstRun(z, k, ke, s)
    else if k <= s.se then One(Site(s.tbl, k, 0), true)
    else []
  }

  /** From coefficient k on, inside a run of zeros that some nonzero coefficient ends. */
  function FirstRun(z: Block, k: Index, ke: Index, s: Band): seq<Decision>
    requires Shorts(z) && s.Ok() && 1 <= k <= ke <= s.se && Mag(z[ke], s.al) != 0
    decreases 64 - k, 0
  {
    if Mag(z[k], s.al) == 0 then One(Site(s.tbl, k, 1), false) + FirstRun(z, k + 1, ke, s)
    else Nonzero(z, k, s) + FirstFrom(z, k + 1, ke, s)
  }

  function AcFirst(z: Block, s: Band): seq<Decision>
    requires Shorts(z) && s.Ok()
  {
    FirstFrom(z, s.ss, LastNonzero(z, s.se, s.al), s)
  }

  // ----- Which bins are used -----

  /** The bins of coefficient k are three in a row: end of block or not; zero or not; and whether the magnitude
      is over one and over two. The sign has the fixed bin, and higher categories have bins that depend on the
      bound kx. (Table F.5 of ITU-T T.81.) */
  lemma NonzeroBins(z: Block, k: Index, s: Band)
    requires Shorts(z) && 1 <= k && Mag(z[k], s.al) != 0
    ensures var ts, at, m := Nonzero(z, k, s), 1024 + 256 * s.tbl + 3 * (k - 1), Mag(z[k], s.al);
      && |ts| > 2 && ts[0] == Decision(at + 1, true) && ts[1] == Decision(5120, z[k] < 0)
      && ts[2] == Decision(at + 2, m > 1) && (m == 1 ==> |ts| == 3)
      && (m > 1 ==> |ts| > 3 && ts[3] == Decision(at + 2, m > 2)) && (m == 2 ==> |ts| == 4)
      && (m > 2 ==> 1 < NBits(m - 1) <= 16)
      && (m > 2 ==>
        RestIs(ts[4..], NBits(m - 1) - 2, m - 1, 1024 + 256 * s.tbl + if k <= s.kx then 189 else 217))
  {
    hide Mag, NBits, AcMagnitude, RestIs;
    MagBound(z[k], s.al);
    var u := Mag(z[k], s.al) - 1;
    var pre := One(Site(s.tbl, k, 1), true) + One(FIXED, z[k] < 0);
    var m := AcMagnitude(u, Site(s.tbl, k, 2), MagnitudeSite(s, k));
    AcMagnitudeBins(u, Site(s.tbl, k, 2), MagnitudeSite(s, k));
    assert Nonzero(z, k, s) == pre + m && (pre + m)[2] == m[0];
    if u > 0 { assert (pre + m)[3] == m[1]; }
    if u > 1 { assert (pre + m)[4..] == m[2..]; }
  }

  lemma EobBins(z: Block, k: Index, ke: Index, s: Band)
    requires Shorts(z) && s.Ok() && 1 <= k <= s.se && ke <= s.se && (ke == 0 || Mag(z[ke], s.al) != 0)
    ensures var ts, at := FirstFrom(z, k, ke, s), 1024 + 256 * s.tbl + 3 * (k - 1);
      && |ts| > 0 && ts[0] == Decision(at, k > ke)
      && (k <= ke ==> |ts| > 1 && ts[1] == Decision(at + 1, Mag(z[k], s.al) != 0))
  {
    hide Mag, AcMagnitude;
    if k <= ke && Mag(z[k], s.al) != 0 { MagBound(z[k], s.al); }
  }

  /** The bins of an AC table: 256 for one table after the other, behind those for DC. */
  predicate AcBins(ts: seq<Decision>, tbl: Table) { BinsIn(ts, 1024 + 256 * tbl, 1024 + 256 * tbl + 256) }

  lemma AcConcat(a: seq<Decision>, b: seq<Decision>, tbl: Table)
    requires AcBins(a, tbl) && AcBins(b, tbl)
    ensures AcBins(a + b, tbl)
  {
  }

  lemma NonzeroBinsIn(z: Block, k: Index, s: Band)
    requires Shorts(z) && 1 <= k && Mag(z[k], s.al) != 0
    ensures AcBins(Nonzero(z, k, s), s.tbl)
  {
    hide Mag, AcMagnitude;
    MagBound(z[k], s.al);
    var u := Mag(z[k], s.al) - 1;
    var lo := 1024 + 256 * s.tbl;
    AcMagnitudeBinsIn(u, Site(s.tbl, k, 2), MagnitudeSite(s, k), lo, lo + 256);
    AcConcat(One(Site(s.tbl, k, 1), true) + One(FIXED, z[k] < 0), AcMagnitude(u, Site(s.tbl, k, 2),
      MagnitudeSite(s, k)), s.tbl);
  }

  lemma {:induction false} FirstFromBinsIn(z: Block, k: nat, ke: Index, s: Band)
    requires Shorts(z) && s.Ok() && 1 <= k <= s.se + 1 && ke <= s.se
    requires ke == 0 || Mag(z[ke], s.al) != 0
    ensures AcBins(FirstFrom(z, k, ke, s), s.tbl)
    decreases 64 - k, 1
  {
    hide Mag;
    if k <= ke {
      FirstRunBinsIn(z, k, ke, s);
      AcConcat(One(Site(s.tbl, k, 0), false), FirstRun(z, k, ke, s), s.tbl);
    }
  }

  lemma {:induction false} FirstRunBinsIn(z: Block, k: Index, ke: Index, s: Band)
    requires Shorts(z) && s.Ok() && 1 <= k <= ke <= s.se && Mag(z[ke], s.al) != 0
    ensures AcBins(FirstRun(z, k, ke, s), s.tbl)
    decreases 64 - k, 0
  {
    hide Mag, Nonzero, AcBins;
    if Mag(z[k], s.al) == 0 {
      FirstRunBinsIn(z, k + 1, ke, s);
      assert AcBins(One(Site(s.tbl, k, 1), false), s.tbl) by { SiteBinsIn(s.tbl, k, 1, false); }
      AcConcat(One(Site(s.tbl, k, 1), false), FirstRun(z, k + 1, ke, s), s.tbl);
    } else {
      NonzeroBinsIn(z, k, s);
      FirstFromBinsIn(z, k + 1, ke, s);
      AcConcat(Nonzero(z, k, s), FirstFrom(z, k + 1, ke, s), s.tbl);
    }
  }

  lemma AcFirstBinsIn(z: Block, s: Band)
    requires Shorts(z) && s.Ok()
    ensures AcBins(AcFirst(z, s), s.tbl)
  {
    FirstFromBinsIn(z, s.ss, LastNonzero(z, s.se, s.al), s);
  }

  lemma SiteBinsIn(tbl: Table, k: Index, j: nat, val: bool)
    requires 1 <= k && j <= 2
    ensures AcBins(One(Site(tbl, k, j), val), tbl)
  {
  }

  // ----- Decoder side -----

  /** The block so far, and whether the data made sense. */
  datatype BlockResult = BlockResult(d: DecCoder, z: Block, ok: bool)

  /** The coefficient with this sign and magnitude u + 1, scaled back up. */
  function Scaled(neg: bool, u: nat, al: nat): int {
    ToShort((if neg then -(u + 1) else u + 1) * Pow2(al))
  }

  function ReadFrom(d: DecCoder, z: Block, k: nat, s: Band): BlockResult
    requires s.Ok() && 1 <= k <= s.se + 1
    decreases 64 - k, 1
  {
    if k > s.se then BlockResult(d, z, true)
    else
      var (d1, eob) := Decode(d, Site(s.tbl, k, 0));
      if eob then BlockResult(d1, z, true) else ReadRun(d1, z, k, s)
  }

  function ReadRun(d: DecCoder, z: Block, k: Index, s: Band): BlockResult
    requires s.Ok() && 1 <= k <= s.se
    decreases 64 - k, 0
  {
    var (d1, nonzero) := Decode(d, Site(s.tbl, k, 1));
    if !nonzero then
      if k + 1 > s.se then BlockResult(d1, z, false) else ReadRun(d1, z, k + 1, s)
    else
      var (d2, neg) := Decode(d1, FIXED);
      var (d3, m) := ReadAcMagnitude(d2, Site(s.tbl, k, 2), MagnitudeSite(s, k));
      if m.TooLarge? then BlockResult(d3, z, false)
      else ReadFrom(d3, z[k := Scaled(neg, m.u, s.al)], k + 1, s)
  }

  /** Decodes one block of the first scan of a band. */
  function ReadAcFirst(d: DecCoder, z: Block, s: Band): BlockResult
    requires s.Ok()
  {
    ReadFrom(d, z, s.ss, s)
  }

  // ----- Meaning -----

  /** z0 with the nonzero coefficients of the band from k on replaced by the point transform of z. */
  function Filled(z0: Block, z: Block, k: nat, s: Band): Block {
    seq(64, j requires 0 <= j < 64 =>
      if k <= j <= s.se && Mag(z[j], s.al) != 0 then Point(z[j], s.al) else z0[j])
  }

  lemma ScaledPoint(x: int, al: nat)
    requires IsShort(x) && Mag(x, al) != 0
    ensures Scaled(x < 0, Mag(x, al) - 1, al) == Point(x, al)
  {
    PointShort(x, al);
    NegTimes(Mag(x, al), Pow2(al));
    var m: int := Mag(x, al);
    assert Point(x, al) == (if x < 0 then -m else m) * Pow2(al);
    hide Point, Mag, Pow2;
  }

  lemma NonzeroFollows(d: DecCoder, z: Block, k: Index, s: Band)
    requires Shorts(z) && 1 <= k && Mag(z[k], s.al) != 0 && Follows(d, Nonzero(z, k, s))
    ensures var (d1, b) := Decode(d, Site(s.tbl, k, 1)); var (d2, neg) := Decode(d1, FIXED);
      b && neg == (z[k] < 0) &&
      ReadAcMagnitude(d2, Site(s.tbl, k, 2), MagnitudeSite(s, k))
      == (DecodeAll(d, Nonzero(z, k, s)), Magnitude(Mag(z[k], s.al) - 1))
  {
    hide Decode, AcMagnitude, ReadAcMagnitude;
    MagBound(z[k], s.al);
    var t0, t1 := One(Site(s.tbl, k, 1), true), One(FIXED, z[k] < 0);
    var t2 := AcMagnitude(Mag(z[k], s.al) - 1, Site(s.tbl, k, 2), MagnitudeSite(s, k));
    FollowsConcat(d, t0 + t1, t2);
    FollowsConcat(d, t0, t1);
    FollowsOne(d, Site(s.tbl, k, 1), true);
    FollowsOne(DecodeAll(d, t0), FIXED, z[k] < 0);
    AcMagnitudeFollows(DecodeAll(d, t0 + t1), Mag(z[k], s.al) - 1, Site(s.tbl, k, 2), MagnitudeSite(s, k));
  }

  lemma {:induction false} FirstFromFollows(d: DecCoder, z0: Block, z: Block, k: nat, ke: Index, s: Band)
    requires Shorts(z) && s.Ok() && 1 <= k <= s.se + 1 && ke == LastNonzero(z, s.se, s.al)
    requires Follows(d, FirstFrom(z, k, ke, s))
    ensures ReadFrom(d, z0, k, s) == BlockResult(DecodeAll(d, FirstFrom(z, k, ke, s)), Filled(z0, z, k, s), true)
    decreases 64 - k, 1
  {
    hide Decode, LastNonzero, Mag, Point;
    if k <= ke {
      FollowsConcat(d, One(Site(s.tbl, k, 0), false), FirstRun(z, k, ke, s));
      FollowsOne(d, Site(s.tbl, k, 0), false);
      FirstRunFollows(DecodeAll(d, One(Site(s.tbl, k, 0), false)), z0, z, k, ke, s);
    } else {
      assert Filled(z0, z, k, s) == z0;
      if k <= s.se { FollowsOne(d, Site(s.tbl, k, 0), true); }
    }
  }

  lemma {:induction false} FirstRunFollows(d: DecCoder, z0: Block, z: Block, k: Index, ke: Index, s: Band)
    requires Shorts(z) && s.Ok() && 1 <= k <= ke && ke == LastNonzero(z, s.se, s.al)
    requires Follows(d, FirstRun(z, k, ke, s))
    ensures ReadRun(d, z0, k, s) == BlockResult(DecodeAll(d, FirstRun(z, k, ke, s)), Filled(z0, z, k, s), true)
    decreases 64 - k, 0
  {
    hide Decode, LastNonzero, Mag, Point, Scaled, ReadAcMagnitude, Nonzero;
    if Mag(z[k], s.al) == 0 {
      FollowsConcat(d, One(Site(s.tbl, k, 1), false), FirstRun(z, k + 1, ke, s));
      FollowsOne(d, Site(s.tbl, k, 1), false);
      FirstRunFollows(DecodeAll(d, One(Site(s.tbl, k, 1), false)), z0, z, k + 1, ke, s);
      assert Filled(z0, z, k, s) == Filled(z0, z, k + 1, s);
    } else {
      var t := Nonzero(z, k, s);
      FollowsConcat(d, t, FirstFrom(z, k + 1, ke, s));
      NonzeroFollows(d, z, k, s);
      ScaledPoint(z[k], s.al);
      var z1 := z0[k := Point(z[k], s.al)];
      FirstFromFollows(DecodeAll(d, t), z1, z, k + 1, ke, s);
      assert Filled(z0, z, k, s) == Filled(z1, z, k + 1, s);
    }
  }

  /** A first scan over a band that holds zeros leaves the point transform of every coefficient
      in the band, and nothing else changed. */
  lemma AcFirstMeaning(d: DecCoder, z0: Block, z: Block, s: Band)
    requires Shorts(z) && s.Ok() && Follows(d, AcFirst(z, s))
    requires forall k: Index :: s.ss <= k <= s.se ==> z0[k] == 0
    ensures var r := ReadAcFirst(d, z0, s);
      && r.ok && r.d == DecodeAll(d, AcFirst(z, s))
      && forall k: Index :: r.z[k] == if s.ss <= k <= s.se then Point(z[k], s.al) else z0[k]
  {
    hide Decode;
    FirstFromFollows(d, z0, z, s.ss, LastNonzero(z, s.se, s.al), s);
    forall k: Index { PointZero(z[k], s.al); }
  }
}
