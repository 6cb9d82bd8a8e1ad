/** Progressive arithmetic-coded images: one block, one restart interval, one scan, all scans. */
module ArithProgressive {
  import opened Bits
  import opened Coefficients
  import opened QmCoder
  import opened ArithMagnitude
  import opened ArithAc
  import opened ArithRefine
  import opened ArithDc
  import opened Prediction
  import opened ScanScript

  /** The tables and conditioning of one component. */
  datatype Component = Component(dc: DcTable, ac: Table, kx: nat)

  // ----- One block -----

  function BandOf(s: Scan, q: Component): (b: Band)
    requires BandOk(s) && s.ss != 0
    ensures b.Ok()
  {
    Band(s.ss, s.se, s.ah, s.al, q.ac, q.kx)
  }

  predicate ShortPred(p: Pred) { p.Ok() && IsShort(p.last) }

  lemma DcRange(x: int, al: nat)
    requires IsShort(x)
    ensures IsShort(x / Pow2(al))
  {
    FloorWindow(x, Pow2(al));
    var q, p := x / Pow2(al), Pow2(al);
    if q > 0x7FFF { IntMulMonotone(0x8000, q, p); }
    if q < -0x8000 { IntMulMonotone(q, -0x8001, p); }
  }

  /** Can a decoder take the DC difference of the block, if the scan has one? */
  predicate Fits(z: Block, s: Scan, p: Pred)
    requires BandOk(s)
  {
    s.ss == 0 && s.ah == 0 ==> Abs(Diff(p, z[0], s.al)) <= 0x8000
  }

  /** The decisions for one block. */
  function BlockTrace(z: Block, q: Component, s: Scan, p: Pred): seq<Decision>
    requires BandOk(s) && Shorts(z) && ShortPred(p)
  {
    if s.ss == 0 then
      if s.ah == 0 then
        DcRange(z[0], s.al);
        DcDiff(Diff(p, z[0], s.al), p.ctx, q.dc)
      else DcRefine(z[0], s.al)
    else if s.ah == 0 then AcFirst(z, BandOf(s, q))
    else AcRefine(z, BandOf(s, q))
  }

  /** The encoder's prediction after one block. */
  function NextPred(z: Block, q: Component, s: Scan, p: Pred): (r: Pred)
    requires BandOk(s) && Shorts(z) && ShortPred(p)
    ensures ShortPred(r)
  {
    if s.ss == 0 && s.ah == 0 then
      DcRange(z[0], s.al);
      AfterDiff(p, Diff(p, z[0], s.al), q.dc)
    else p
  }

  datatype ReadResult = ReadResult(d: DecCoder, z: Block, p: Pred, ok: bool)

  /** Decodes one block into z0. */
  function ReadBlock(d: DecCoder, z0: Block, q: Component, s: Scan, p: Pred): (r: ReadResult)
    requires BandOk(s) && p.Ok()
    ensures r.p.Ok()
  {
    if s.ss == 0 then
      if s.ah == 0 then
        var r := ReadDcDiff(d, p, q.dc);
        ReadResult(r.d, if r.ok then z0[0 := DcValue(r.p, s.al)] else z0, r.p, r.ok)
      else
        var (d1, x) := ReadDcRefine(d, z0[0], s.al);
        ReadResult(d1, z0[0 := x], p, true)
    else
      var r := if s.ah == 0 then ReadAcFirst(d, z0, BandOf(s, q)) else ReadAcRefine(d, z0, BandOf(s, q));
      ReadResult(r.d, r.z, p, r.ok)
  }

  /** What coefficient k of a block should be once it has been sent down to bit position last. */
  function Target(x: int, k: nat, last: int): int {
    if last < 0 then 0 else if k == 0 then PointDc(x, last) else Point(x, last)
  }

  ghost predicate Holds(z0: Block, z: Block, row: seq<int>)
    requires |row| == 64
  {
    forall k: Index :: z0[k] == Target(z[k], k, row[k])
  }

  /** Decoding one block follows the encoder, and brings the block from the precision of earlier
      scans to the precision of this one. */
  lemma BlockMeaning(d: DecCoder, z0: Block, z: Block, q: Component, s: Scan, e: Pred, p: Pred, row: seq<int>)
    requires |row| == 64 && BandOk(s) && ComponentOk(row, s)
    requires Shorts(z) && ShortPred(e) && SamePred(e, p)
    requires Follows(d, BlockTrace(z, q, s, e))
    requires s.ss != 0 ==> Holds(z0, z, row)
    ensures ReadBlock(d, z0, q, s, p).ok <==> Fits(z, s, e)
    ensures Fits(z, s, e) ==> var r := ReadBlock(d, z0, q, s, p);
      && r.d == DecodeAll(d, BlockTrace(z, q, s, e)) && SamePred(NextPred(z, q, s, e), r.p)
      && (Holds(z0, z, row) ==> Holds(r.z, z, SentRow(row, s)))
  {
    hide Decode, DcDiff, DcRefine, AcFirst, AcRefine, ReadDcDiff, ReadDcRefine, ReadAcFirst, ReadAcRefine;
    hide Point, PointDc, DcValue, Follows, DecodeAll;
    assert StepOk(row[s.ss], s);
    if s.ss == 0 {
      if s.ah == 0 {
        DcRange(z[0], s.al);
        if Fits(z, s, e) {
          DcFirstMeaning(d, e, p, z[0], s.al, q.dc);
        } else {
          DcDiffTooLarge(d, e, p, Diff(e, z[0], s.al), q.dc);
        }
      } else if Holds(z0, z, row) {
        DcRefineMeaning(d, z0[0], z[0], s.al);
      } else {
        DcRefineReads(d, z0[0], z[0], s.al);
      }
    } else {
      assert forall k: Index :: s.ss <= k <= s.se ==> StepOk(row[k], s);
      if s.ah == 0 {
        AcFirstMeaning(d, z0, z, BandOf(s, q));
      } else {
        AcRefineMeaning(d, z0, z, BandOf(s, q));
      }
    }
  }

  lemma DcRefineReads(d: DecCoder, x0: int, x: int, al: nat)
    requires Follows(d, DcRefine(x, al))
    ensures ReadDcRefine(d, x0, al).0 == DecodeAll(d, DcRefine(x, al))
  {
    hide Decode;
    FollowsOne(d, FIXED, DcBit(x, al));
  }

  // ----- One restart interval -----

  /** The blocks of every component. */
  type Image = seq<seq<Block>>

  datatype Ref = Ref(c: nat, b: nat)

  predicate Within(img: Image, r: Ref) { r.c < |img| && r.b < |img[r.c]| }

  predicate SameShape(img: Image, dec: Image) {
    |img| == |dec| && forall c :: 0 <= c < |img| ==> |img[c]| == |dec[c]|
  }

  function Get(img: Image, r: Ref): Block
    requires Within(img, r)
  {
    img[r.c][r.b]
  }

  function Put(img: Image, r: Ref, z: Block): (i: Image)
    requires Within(img, r)
    ensures SameShape(img, i)
    ensures forall x :: Within(img, x) ==> Get(i, x) == if x == r then z else Get(img, x)
  {
    var row: seq<Block> := img[r.c][r.b := z];
    img[r.c := row]
  }

  predicate RefsOk(refs: seq<Ref>, img: Image, s: Scan) {
    forall i :: 0 <= i < |refs| ==> Within(img, refs[i]) && refs[i].c in s.comps
  }

  predicate NoRepeats(refs: seq<Ref>) {
    forall i, j :: 0 <= i < j < |refs| ==> refs[i] != refs[j]
  }

  predicate ShortsAll(img: Image) {
    forall c, b :: 0 <= c < |img| && 0 <= b < |img[c]| ==> Shorts(img[c][b])
  }

  predicate PredsOk(ps: seq<Pred>, n: nat) { |ps| == n && forall c :: 0 <= c < n ==> ps[c].Ok() }

  predicate ShortPreds(ps: seq<Pred>, n: nat) { |ps| == n && forall c :: 0 <= c < n ==> ShortPred(ps[c]) }

  predicate SamePreds(es: seq<Pred>, ps: seq<Pred>) {
    |es| == |ps| && forall c :: 0 <= c < |es| ==> SamePred(es[c], ps[c])
  }

  function ResetPreds(n: nat): (ps: seq<Pred>)
    ensures ShortPreds(ps, n) && PredsOk(ps, n)
  {
    seq(n, c => Pred(0, 0))
  }

  /** The decisions for the blocks refs of image img, coded in that order. */
  function IntervalTrace(img: Image, qs: seq<Component>, s: Scan, refs: seq<Ref>, ps: seq<Pred>): seq<Decision>
    requires BandOk(s) && ShortsAll(img) && |qs| == |img| && ShortPreds(ps, |img|) && RefsOk(refs, img, s)
    decreases |refs|
  {
    if |refs| == 0 then []
    else
      var r := refs[0];
      BlockTrace(Get(img, r), qs[r.c], s, ps[r.c])
        + IntervalTrace(img, qs, s, refs[1..], ps[r.c := NextPred(Get(img, r), qs[r.c], s, ps[r.c])])
  }

  /** Can a decoder take all DC differences of the interval? */
  predicate AllFit(img: Image, qs: seq<Component>, s: Scan, refs: seq<Ref>, ps: seq<Pred>)
    requires BandOk(s) && ShortsAll(img) && |qs| == |img| && ShortPreds(ps, |img|) && RefsOk(refs, img, s)
    decreases |refs|
  {
    if |refs| == 0 then true
    else
      var r := refs[0];
      Fits(Get(img, r), s, ps[r.c])
        && AllFit(img, qs, s, refs[1..], ps[r.c := NextPred(Get(img, r), qs[r.c], s, ps[r.c])])
  }

  datatype ImageResult = ImageResult(d: DecCoder, dec: Image, ok: bool)

  function ReadInterval(d: DecCoder, dec: Image, qs: seq<Component>, s: Scan, refs: seq<Ref>,
      ps: seq<Pred>): (r: ImageResult)
    requires BandOk(s) && |qs| == |dec| && PredsOk(ps, |dec|) && RefsOk(refs, dec, s)
    ensures SameShape(dec, r.dec)
    decreases |refs|
  {
    if |refs| == 0 then ImageResult(d, dec, true)
    else
      var r := refs[0];
      var x := ReadBlock(d, Get(dec, r), qs[r.c], s, ps[r.c]);
      var dec1 := Put(dec, r, x.z);
      if !x.ok then ImageResult(x.d, dec1, false)
      else ReadInterval(x.d, dec1, qs, s, refs[1..], ps[r.c := x.p])
  }

  /** Block r of dec is at the precision recorded in p. */
  ghost predicate AtPrecision(dec: Image, img: Image, p: Progress, r: Ref)
    requires SameShape(img, dec) && Shaped(p, |img|) && Within(img, r)
  {
    Holds(Get(dec, r), Get(img, r), p[r.c])
  }

  lemma ScanRows(p: Progress, s: Scan, n: nat, c: nat)
    requires Shaped(p, n) && ScanOk(p, s, n) && c < n && c in s.comps
    ensures ComponentOk(p[c], s) && Sent(p, s, n)[c] == SentRow(p[c], s)
  {
    var i :| 0 <= i < |s.comps| && s.comps[i] == c;
    assert ComponentOk(p[s.comps[i]], s);
  }

  lemma NoRepeatsTail(refs: seq<Ref>)
    requires NoRepeats(refs) && |refs| > 0
    ensures NoRepeats(refs[1..]) && refs[0] !in refs[1..]
  {
  }

  lemma {:induction false} IntervalMeaning(d: DecCoder, dec: Image, img: Image, qs: seq<Component>, s: Scan,
      refs: seq<Ref>, es: seq<Pred>, ps: seq<Pred>, p: Progress)
    requires SameShape(img, dec) && |qs| == |img| && ShortsAll(img) && Shaped(p, |img|) && ScanOk(p, s, |img|)
    requires RefsOk(refs, img, s) && RefsOk(refs, dec, s) && NoRepeats(refs)
    requires ShortPreds(es, |img|) && PredsOk(ps, |img|) && SamePreds(es, ps)
    requires Follows(d, IntervalTrace(img, qs, s, refs, es))
    requires s.ss != 0 ==> forall i :: 0 <= i < |refs| ==> AtPrecision(dec, img, p, refs[i])
    ensures ReadInterval(d, dec, qs, s, refs, ps).ok <==> AllFit(img, qs, s, refs, es)
    ensures AllFit(img, qs, s, refs, es) ==> var r := ReadInterval(d, dec, qs, s, refs, ps);
      && r.d == DecodeAll(d, IntervalTrace(img, qs, s, refs, es))
      && (forall x :: Within(img, x) && x !in refs ==> Get(r.dec, x) == Get(dec, x))
      && (forall x :: Within(img, x) && x in refs && AtPrecision(dec, img, p, x) ==>
        AtPrecision(r.dec, img, Sent(p, s, |img|), x))
    decreases |refs|
  {
    hide Decode, BlockTrace, ReadBlock, Holds, ComponentOk, NextPred, NoRepeats, Put, Sent, Fits;
    if |refs| > 0 {
      var r, rest := refs[0], refs[1..];
      NoRepeatsTail(refs);
      var z, q := Get(img, r), qs[r.c];
      var e1 := es[r.c := NextPred(z, q, s, es[r.c])];
      var t := BlockTrace(z, q, s, es[r.c]);
      FollowsConcat(d, t, IntervalTrace(img, qs, s, rest, e1));
      ScanRows(p, s, |img|, r.c);
      assert s.ss != 0 ==> AtPrecision(dec, img, p, refs[0]);
      BlockMeaning(d, Get(dec, r), z, q, s, es[r.c], ps[r.c], p[r.c]);
      var x := ReadBlock(d, Get(dec, r), q, s, ps[r.c]);
      var dec1 := Put(dec, r, x.z);
      if !x.ok { return; }
      forall i | 0 <= i < |rest|
        ensures Get(dec1, rest[i]) == Get(dec, rest[i]) && (s.ss != 0 ==> AtPrecision(dec1, img, p, rest[i]))
      {
        assert rest[i] == refs[i + 1];
      }
      IntervalMeaning(x.d, dec1, img, qs, s, rest, e1, ps[r.c := x.p], p);
    }
  }

  // ----- The DC decisions of an interval, without the state that the coders keep -----

  function Components(refs: seq<Ref>): (cs: seq<nat>)
    ensures |cs| == |refs|
  {
    seq(|refs|, i requires 0 <= i < |refs| => refs[i].c)
  }

  /** The DC coefficients as the scan sends them. */
  function SentDcs(img: Image, s: Scan, refs: seq<Ref>): (dcs: seq<int>)
    requires s.al >= 0 && forall i :: 0 <= i < |refs| ==> Within(img, refs[i])
    ensures |dcs| == |refs|
  {
    seq(|refs|, i requires 0 <= i < |refs| => Get(img, refs[i])[0] / Pow2(s.al))
  }

  /** The context for a block of component c after the first i: the class of the last difference of the
      component, and 0 for its first block. */
  function Conditioned(cs: seq<nat>, dcs: seq<int>, qs: seq<Component>, i: nat, c: nat): nat
    requires i <= |cs| == |dcs| && c < |qs|
  {
    var j := Previous(cs, i, c);
    if j < 0 then 0 else Context(ClassOf(dcs[j] - Predicted(cs, dcs, j, c), qs[c].dc))
  }

  ghost predicate DcsOk(cs: seq<nat>, dcs: seq<int>, qs: seq<Component>) {
    |cs| == |dcs| && forall i :: 0 <= i < |cs| ==> cs[i] < |qs| && IsShort(dcs[i])
  }

  lemma PredictedShort(cs: seq<nat>, dcs: seq<int>, qs: seq<Component>, i: nat, c: nat)
    requires DcsOk(cs, dcs, qs) && i <= |cs|
    ensures IsShort(Predicted(cs, dcs, i, c))
  {
  }

  /** The decisions for the DC coefficients from the i-th on. */
  ghost function DcDecisions(cs: seq<nat>, dcs: seq<int>, qs: seq<Component>, i: nat): seq<Decision>
    requires DcsOk(cs, dcs, qs) && i <= |cs|
    decreases |cs| - i
  {
    if i == |cs| then []
    else
      var c := cs[i];
      PredictedShort(cs, dcs, qs, i, c);
      DcDiff(dcs[i] - Predicted(cs, dcs, i, c), Conditioned(cs, dcs, qs, i, c), qs[c].dc)
        + DcDecisions(cs, dcs, qs, i + 1)
  }

  /** The state of the coder after i blocks. */
  ghost predicate InState(cs: seq<nat>, dcs: seq<int>, qs: seq<Component>, i: nat, ps: seq<Pred>)
    requires i <= |cs| == |dcs|
  {
    |ps| == |qs| && forall c :: 0 <= c < |ps| ==>
      ps[c] == Pred(Predicted(cs, dcs, i, c), Conditioned(cs, dcs, qs, i, c))
  }

  lemma NextState(cs: seq<nat>, dcs: seq<int>, qs: seq<Component>, i: nat, ps: seq<Pred>)
    requires DcsOk(cs, dcs, qs) && i < |cs| && InState(cs, dcs, qs, i, ps)
    ensures var c := cs[i];
      c < |ps| && InState(cs, dcs, qs, i + 1, ps[c := AfterDiff(ps[c], dcs[i] - ps[c].last, qs[c].dc)])
  {
    hide AfterDiff, ClassOf, Context;
    var c := cs[i];
    ContextMeaning(ps[c], dcs[i] - ps[c].last, qs[c].dc);
  }

  lemma DcsFit(img: Image, qs: seq<Component>, s: Scan, refs: seq<Ref>)
    requires BandOk(s) && ShortsAll(img) && |qs| == |img| && RefsOk(refs, img, s)
    ensures DcsOk(Components(refs), SentDcs(img, s, refs), qs)
  {
    forall i | 0 <= i < |refs| ensures IsShort(SentDcs(img, s, refs)[i]) {
      assert Shorts(Get(img, refs[i]));
      DcRange(Get(img, refs[i])[0], s.al);
    }
  }

  /** In the first DC scan every block is coded as its difference from the last one of its component. */
  lemma {:induction false} DcAsSpecified(img: Image, qs: seq<Component>, s: Scan, refs: seq<Ref>, i: nat, ps: seq<Pred>)
    requires BandOk(s) && ShortsAll(img) && |qs| == |img| && ShortPreds(ps, |img|) && RefsOk(refs, img, s)
    requires s.ss == 0 && s.ah == 0 && i <= |refs|
    requires InState(Components(refs), SentDcs(img, s, refs), qs, i, ps)
    ensures DcsOk(Components(refs), SentDcs(img, s, refs), qs)
    ensures IntervalTrace(img, qs, s, refs[i..], ps)
      == DcDecisions(Components(refs), SentDcs(img, s, refs), qs, i)
    decreases |refs| - i
  {
    hide DcDiff, AfterDiff, Predicted, Conditioned;
    DcsFit(img, qs, s, refs);
    if i < |refs| {
      var cs, dcs, r := Components(refs), SentDcs(img, s, refs), refs[i];
      NextState(cs, dcs, qs, i, ps);
      assert refs[i..][0] == r && refs[i..][1..] == refs[i + 1..];
      DcAsSpecified(img, qs, s, refs, i + 1, ps[r.c := NextPred(Get(img, r), qs[r.c], s, ps[r.c])]);
    }
  }

  /** Main result: every restart interval starts afresh, predicting 0, and within it the context and the
      prediction of a block come from earlier blocks of its component alone. */
  lemma IntervalDcs(img: Image, qs: seq<Component>, s: Scan, refs: seq<Ref>)
    requires BandOk(s) && ShortsAll(img) && |qs| == |img| && RefsOk(refs, img, s) && s.ss == 0 && s.ah == 0
    ensures DcsOk(Components(refs), SentDcs(img, s, refs), qs)
    ensures IntervalTrace(img, qs, s, refs, ResetPreds(|img|))
      == DcDecisions(Components(refs), SentDcs(img, s, refs), qs, 0)
  {
    hide IntervalTrace, DcDecisions;
    assert refs[0..] == refs;
    DcAsSpecified(img, qs, s, refs, 0, ResetPreds(|img|));
  }

  // ----- The bins of an interval -----

  /** Is the bin at a in the area that scan s uses for a component with tables q? */
  predicate InArea(s: Scan, q: Component, a: nat) {
    if s.ss == 0 then s.ah == 0 && 64 * q.dc.tbl <= a < 64 * q.dc.tbl + 64
    else 1024 + 256 * q.ac <= a < 1024 + 256 * q.ac + 256
  }

  /** Every decision has a bin of the tables of a component in the scan, or the fixed bin. */
  ghost predicate InAreas(ts: seq<Decision>, s: Scan, qs: seq<Component>)
    requires forall i :: 0 <= i < |s.comps| ==> 0 <= s.comps[i] < |qs|
  {
    forall i :: 0 <= i < |ts| ==> ts[i].st == FIXED || Uses(s, qs, ts[i].st)
  }

  /** Does scan s use the bin at a (other than the fixed bin)? */
  predicate Uses(s: Scan, qs: seq<Component>, a: nat)
    requires forall i :: 0 <= i < |s.comps| ==> 0 <= s.comps[i] < |qs|
  {
    exists i :: 0 <= i < |s.comps| && InArea(s, qs[s.comps[i]], a)
  }

  lemma BlockInArea(z: Block, q: Component, s: Scan, p: Pred)
    requires BandOk(s) && Shorts(z) && ShortPred(p)
    ensures var ts := BlockTrace(z, q, s, p);
      forall i :: 0 <= i < |ts| ==> ts[i].st == FIXED || InArea(s, q, ts[i].st)
  {
    hide DcDiff, AcFirst, AcRefine, FirstFrom, RefineFrom;
    if s.ss == 0 {
      if s.ah == 0 {
        DcRange(z[0], s.al);
        DcBinsIn(Diff(p, z[0], s.al), p.ctx, q.dc);
      }
    } else if s.ah == 0 {
      AcFirstBinsIn(z, BandOf(s, q));
    } else {
      AcRefineBinsIn(z, BandOf(s, q));
    }
  }

  lemma InAreasConcat(a: seq<Decision>, b: seq<Decision>, s: Scan, qs: seq<Component>)
    requires forall i :: 0 <= i < |s.comps| ==> 0 <= s.comps[i] < |qs|
    requires InAreas(a, s, qs) && InAreas(b, s, qs)
    ensures InAreas(a + b, s, qs)
  {
    hide Uses;
  }

  /** The decisions of a restart interval stay within the areas of the scan. */
  lemma {:induction false} IntervalInAreas(img: Image, qs: seq<Component>, s: Scan, refs: seq<Ref>, ps: seq<Pred>)
    requires BandOk(s) && ShortsAll(img) && |qs| == |img| && ShortPreds(ps, |img|) && RefsOk(refs, img, s)
    requires forall i :: 0 <= i < |s.comps| ==> 0 <= s.comps[i] < |qs|
    ensures InAreas(IntervalTrace(img, qs, s, refs, ps), s, qs)
    decreases |refs|
  {
    hide BlockTrace, NextPred, InArea;
    if |refs| > 0 {
      var r := refs[0];
      var ts, ps1 := BlockTrace(Get(img, r), qs[r.c], s, ps[r.c]),
        ps[r.c := NextPred(Get(img, r), qs[r.c], s, ps[r.c])];
      BlockInArea(Get(img, r), qs[r.c], s, ps[r.c]);
      var k :| 0 <= k < |s.comps| && s.comps[k] == r.c;
      forall i | 0 <= i < |ts| ensures ts[i].st == FIXED || Uses(s, qs, ts[i].st) {
        assert ts[i].st == FIXED || InArea(s, qs[s.comps[k]], ts[i].st);
      }
      IntervalInAreas(img, qs, s, refs[1..], ps1);
      InAreasConcat(ts, IntervalTrace(img, qs, s, refs[1..], ps1), s, qs);
    }
  }
}
