/** Sequential arithmetic-coded scans: every block has its DC difference and then all its AC
    coefficients. */
module ArithSequential {
  import opened Bits
  import opened Coefficients
  import opened QmCoder
  import opened ArithAc
  import opened ArithDc
  import P = ArithProgressive
  import E = ArithEncoder
  import D = ArithDecoder
  import R = QmRoundTrip
  import opened Prediction
  import opened Restart
  import opened ArithRestart
  import QmDecoder
  import QmEncoder

  /** All AC coefficients, with no bits dropped. */
  function Full(q: P.Component): Band { Band(1, 63, 0, 0, q.ac, q.kx) }

  /** Blocks in zigzag order, the component of each, the tables, and the predictions. */
  ghost predicate Ok(zs: seq<Block>, cs: seq<nat>, qs: seq<P.Component>, ps: seq<Pred>) {
    |zs| == |cs| && (forall i :: 0 <= i < |zs| ==> Shorts(zs[i])) && Known(cs, qs, ps) && P.ShortPreds(ps, |qs|)
  }

  ghost predicate Known(cs: seq<nat>, qs: seq<P.Component>, ps: seq<Pred>) {
    |ps| == |qs| && (forall i :: 0 <= i < |cs| ==> cs[i] < |qs|) && forall c :: 0 <= c < |ps| ==> ps[c].Ok()
  }

  // ----- Encoder side -----

  ghost function BlockTrace(z: Block, q: P.Component, p: Pred): seq<Decision>
    requires Shorts(z) && P.ShortPred(p)
  {
    P.DcRange(z[0], 0);
    DcDiff(Diff(p, z[0], 0), p.ctx, q.dc) + AcFirst(z, Full(q))
  }

  ghost function NextPred(z: Block, q: P.Component, p: Pred): (r: Pred)
    requires Shorts(z) && P.ShortPred(p)
    ensures P.ShortPred(r)
  {
    P.DcRange(z[0], 0);
    AfterDiff(p, Diff(p, z[0], 0), q.dc)
  }

  ghost function Trace(zs: seq<Block>, cs: seq<nat>, qs: seq<P.Component>, ps: seq<Pred>): seq<Decision>
    requires Ok(zs, cs, qs, ps)
    decreases |zs|
  {
    if |zs| == 0 then []
    else
      BlockTrace(zs[0], qs[cs[0]], ps[cs[0]]) +
        Trace(zs[1..], cs[1..], qs, ps[cs[0] := NextPred(zs[0], qs[cs[0]], ps[cs[0]])])
  }

  /** The predictions after the blocks. */
  ghost function After(zs: seq<Block>, cs: seq<nat>, qs: seq<P.Component>, ps: seq<Pred>): (r: seq<Pred>)
    requires Ok(zs, cs, qs, ps)
    ensures P.ShortPreds(r, |qs|)
    decreases |zs|
  {
    if |zs| == 0 then ps else After(zs[1..], cs[1..], qs, ps[cs[0] := NextPred(zs[0], qs[cs[0]], ps[cs[0]])])
  }

  // ----- Decoder side -----

  datatype Read = Read(d: DecCoder, z: Block, p: Pred, ok: bool)

  function ReadBlock(d: DecCoder, z0: Block, q: P.Component, p: Pred): (r: Read)
    requires p.Ok()
    ensures r.p.Ok()
  {
    var r := ReadDcDiff(d, p, q.dc);
    if !r.ok then Read(r.d, z0, r.p, false)
    else
      var a := ReadAcFirst(r.d, z0[0 := DcValue(r.p, 0)], Full(q));
      Read(a.d, a.z, r.p, a.ok)
  }

  function Blank(): Block { seq(64, k => 0) }

  datatype Reads = Reads(d: DecCoder, zs: seq<Block>, ok: bool, ps: seq<Pred>)

  /** Blocks are decoded into zeros. */
  ghost function ReadBlocks(d: DecCoder, cs: seq<nat>, qs: seq<P.Component>, ps: seq<Pred>): (r: Reads)
    requires Known(cs, qs, ps)
    ensures |r.ps| == |qs| && forall c :: 0 <= c < |qs| ==> r.ps[c].Ok()
    decreases |cs|
  {
    if |cs| == 0 then Reads(d, [], true, ps)
    else
      var r := ReadBlock(d, Blank(), qs[cs[0]], ps[cs[0]]);
      if !r.ok then Reads(r.d, [], false, ps[cs[0] := r.p])
      else
        var rest := ReadBlocks(r.d, cs[1..], qs, ps[cs[0] := r.p]);
        Reads(rest.d, [r.z] + rest.zs, rest.ok, rest.ps)
  }

  // ----- Meaning -----

  predicate Fits(z: Block, p: Pred) { Abs(Diff(p, z[0], 0)) <= 0x8000 }

  /** Can a decoder take all DC differences? */
  ghost predicate AllFit(zs: seq<Block>, cs: seq<nat>, qs: seq<P.Component>, ps: seq<Pred>)
    requires Ok(zs, cs, qs, ps)
    decreases |zs|
  {
    |zs| == 0 || (Fits(zs[0], ps[cs[0]]) &&
      AllFit(zs[1..], cs[1..], qs, ps[cs[0] := NextPred(zs[0], qs[cs[0]], ps[cs[0]])]))
  }

  lemma PointNone(x: int)
    ensures Point(x, 0) == x && PointDc(x, 0) == x
  {
  }

  lemma BlockMeaning(d: DecCoder, z: Block, q: P.Component, e: Pred, p: Pred)
    requires Shorts(z) && P.ShortPred(e) && SamePred(e, p) && Follows(d, BlockTrace(z, q, e))
    ensures ReadBlock(d, Blank(), q, p).ok <==> Fits(z, e)
    ensures Fits(z, e) ==> var r := ReadBlock(d, Blank(), q, p);
      r.d == DecodeAll(d, BlockTrace(z, q, e)) && r.z == z && SamePred(NextPred(z, q, e), r.p)
  {
    hide Decode, DcDiff, AcFirst, ReadDcDiff, ReadAcFirst, DcValue, Point, PointDc, Follows, DecodeAll;
    P.DcRange(z[0], 0);
    var v := Diff(e, z[0], 0);
    FollowsConcat(d, DcDiff(v, e.ctx, q.dc), AcFirst(z, Full(q)));
    if Fits(z, e) {
      DcFirstMeaning(d, e, p, z[0], 0, q.dc);
      var r := ReadDcDiff(d, p, q.dc);
      AcFirstMeaning(r.d, Blank()[0 := DcValue(r.p, 0)], z, Full(q));
      forall k: Index { PointNone(z[k]); }
    } else {
      DcDiffTooLarge(d, e, p, v, q.dc);
    }
  }

  lemma NoDecisions(d: DecCoder)
    ensures DecodeAll(d, []) == d
  {
  }

  lemma {:induction false} SequentialMeaning(d: DecCoder, zs: seq<Block>, cs: seq<nat>, qs: seq<P.Component>,
      es: seq<Pred>, ps: seq<Pred>)
    requires Ok(zs, cs, qs, es) && Known(cs, qs, ps) && P.SamePreds(es, ps) && Follows(d, Trace(zs, cs, qs, es))
    ensures ReadBlocks(d, cs, qs, ps).ok <==> AllFit(zs, cs, qs, es)
    ensures AllFit(zs, cs, qs, es) ==> var r := ReadBlocks(d, cs, qs, ps);
      r.d == DecodeAll(d, Trace(zs, cs, qs, es)) && r.zs == zs && P.SamePreds(After(zs, cs, qs, es), r.ps)
    decreases |zs|
  {
    hide Decode, DecodeAll, Follows, BlockTrace, ReadBlock, NextPred, Fits, Shorts;
    if |zs| == 0 {
      assert Trace(zs, cs, qs, es) == [];
      NoDecisions(d);
    } else {
      var c := cs[0];
      var e1 := es[c := NextPred(zs[0], qs[c], es[c])];
      FollowsConcat(d, BlockTrace(zs[0], qs[c], es[c]), Trace(zs[1..], cs[1..], qs, e1));
      BlockMeaning(d, zs[0], qs[c], es[c], ps[c]);
      var r := ReadBlock(d, Blank(), qs[c], ps[c]);
      if r.ok {
        SequentialMeaning(r.d, zs[1..], cs[1..], qs, e1, ps[c := r.p]);
        assert [zs[0]] + zs[1..] == zs;
      }
    }
  }

  /** Main result: the blocks of a restart interval, coded into a segment that some marker follows, are
      decoded to themselves, with the same statistics, exactly if no DC difference exceeds 0x8000. */
  lemma SequentialRoundTrip(stats: seq<byte>, zs: seq<Block>, cs: seq<nat>, qs: seq<P.Component>, tail: seq<byte>)
    requires StatsOk(stats) && R.IsMarker(tail) && Ok(zs, cs, qs, P.ResetPreds(|qs|))
    ensures var ps := P.ResetPreds(|qs|); var ts := Trace(zs, cs, qs, ps);
      var r := ReadBlocks(DecCoder(QmDecoder.Start(R.Segment(stats, ts) + tail), stats), cs, qs, ps);
      && (r.ok <==> AllFit(zs, cs, qs, ps))
      && (r.ok ==> r.zs == zs && r.d.stats == EncodeAll(EncCoder(QmEncoder.START, stats), ts).stats)
      && (r.ok ==> r.d == DecodeAll(DecCoder(QmDecoder.Start(R.Segment(stats, ts) + tail), stats), ts))
  {
    hide R.Segment, Trace, ReadBlocks, AllFit, R.IsMarker;
    var ps := P.ResetPreds(|qs|);
    var ts := Trace(zs, cs, qs, ps);
    R.RoundTrip(stats, ts, tail);
    SequentialMeaning(DecCoder(QmDecoder.Start(R.Segment(stats, ts) + tail), stats), zs, cs, qs, ps, ps);
  }

  // ----- A scan with restart intervals -----

  /** Does the scan use the bin at a (other than the fixed bin)? */
  predicate Uses(qs: seq<P.Component>, a: nat) {
    exists c :: 0 <= c < |qs| &&
      (64 * qs[c].dc.tbl <= a < 64 * qs[c].dc.tbl + 64 || 1024 + 256 * qs[c].ac <= a < 1024 + 256 * qs[c].ac + 256)
  }

  /** The statistics areas at the start of a scan or restart interval. */
  function Cleared(stats: seq<byte>, qs: seq<P.Component>): (r: seq<byte>)
    requires StatsOk(stats)
    ensures StatsOk(r)
  {
    seq(ALL_BINS, a requires 0 <= a < ALL_BINS => if Uses(qs, a) then 0 else stats[a])
  }

  /** The blocks and components of each interval. */
  ghost predicate ScanOk(zss: seq<seq<Block>>, css: seq<seq<nat>>, qs: seq<P.Component>) {
    |zss| == |css| && forall i :: 0 <= i < |zss| ==> Ok(zss[i], css[i], qs, P.ResetPreds(|qs|))
  }

  ghost function ScanSegments(stats: seq<byte>, zss: seq<seq<Block>>, css: seq<seq<nat>>,
      qs: seq<P.Component>): (r: (seq<seq<byte>>, seq<byte>))
    requires StatsOk(stats) && ScanOk(zss, css, qs)
    ensures |r.0| == |zss| && StatsOk(r.1)
    decreases |zss|
  {
    if |zss| == 0 then ([], stats)
    else
      var st := Cleared(stats, qs);
      var ts := Trace(zss[0], css[0], qs, P.ResetPreds(|qs|));
      QmEncoder.StartInv();
      var (rest, last) := ScanSegments(EncodeAll(EncCoder(QmEncoder.START, st), ts).stats, zss[1..], css[1..], qs);
      ([R.Segment(st, ts)] + rest, last)
  }

  datatype Scans = Scans(zss: seq<seq<Block>>, stats: seq<byte>, ok: bool)

  /** Decodes interval after interval; num is the number of the restart marker to come. */
  ghost function ReadScan(stats: seq<byte>, data: seq<byte>, css: seq<seq<nat>>, qs: seq<P.Component>, num: nat): Scans
    requires StatsOk(stats) && num < 8 && forall i :: 0 <= i < |css| ==> Known(css[i], qs, P.ResetPreds(|qs|))
    decreases |css|
  {
    if |css| == 0 then Scans([], stats, true)
    else
      var r := ReadBlocks(DecCoder(QmDecoder.Start(data), Cleared(stats, qs)), css[0], qs, P.ResetPreds(|qs|));
      if !(r.ok && StatsOk(r.d.stats)) then Scans([r.zs], r.d.stats, false)
      else if |css| == 1 then Scans([r.zs], r.d.stats, true)
      else
        var m := MarkerAhead(r.d.reg.src);
        if m.marker != RST0 + num then Scans([r.zs], r.d.stats, false)
        else
          var rest := ReadScan(r.d.stats, m.input, css[1..], qs, (num + 1) % 8);
          Scans([r.zs] + rest.zss, rest.stats, rest.ok)
  }

  /** The blocks of a scan, in any number of restart intervals with restart markers between them, are
      decoded to themselves, with the same statistics at the end, exactly if no DC difference of any
      interval exceeds 0x8000. */
  lemma {:induction false} ScanRoundTrip(stats: seq<byte>, zss: seq<seq<Block>>, css: seq<seq<nat>>,
      qs: seq<P.Component>,
      data: seq<byte>, num: nat)
    requires StatsOk(stats) && ScanOk(zss, css, qs) && num < 8
    requires Delivered(ScanSegments(stats, zss, css, qs).0, num, data)
    ensures forall i :: 0 <= i < |css| ==> Known(css[i], qs, P.ResetPreds(|qs|))
    ensures var r := ReadScan(stats, data, css, qs, num);
      && (r.ok <==> forall i :: 0 <= i < |zss| ==> AllFit(zss[i], css[i], qs, P.ResetPreds(|qs|)))
      && (r.ok ==> r.zss == zss && r.stats == ScanSegments(stats, zss, css, qs).1)
    decreases |zss|
  {
    hide Ok, Known, Cleared, Trace, ReadBlocks, AllFit, StatsOk, R.Segment, R.IsMarker, EncodeAll, ScanSegments,
      ReadScan, Delivered;
    ScanKnown(zss, css, qs);
    if |zss| == 0 {
      NoSegments(stats, css, qs, data, num, zss);
    } else {
      var ps, st := P.ResetPreds(|qs|), Cleared(stats, qs);
      var ts := Trace(zss[0], css[0], qs, ps);
      var st1 := FirstSegment(stats, zss, css, qs);
      var rest, next := AfterFirst(ScanSegments(stats, zss, css, qs).0, num, data);
      SequentialRoundTrip(st, zss[0], css[0], qs, rest);
      if |css| > 1 { SegmentAhead(st, ts, RST0 + num, next); }
      FirstRead(stats, data, css, qs, num, next);
      if AllFit(zss[0], css[0], qs, ps) {
        ScanRoundTrip(st1, zss[1..], css[1..], qs, next, (num + 1) % 8);
        assert [zss[0]] + zss[1..] == zss;
        if forall i :: 0 <= i < |zss[1..]| ==> AllFit(zss[1..][i], css[1..][i], qs, ps) {
          forall i | 0 <= i < |zss| ensures AllFit(zss[i], css[i], qs, ps) {
            if i > 0 { assert zss[i] == zss[1..][i - 1] && css[i] == css[1..][i - 1]; }
          }
        }
      }
    }
  }

  lemma ScanKnown(zss: seq<seq<Block>>, css: seq<seq<nat>>, qs: seq<P.Component>)
    requires ScanOk(zss, css, qs)
    ensures |css| == |zss| && forall i :: 0 <= i < |css| ==> Known(css[i], qs, P.ResetPreds(|qs|))
  {
    hide Known;
    forall i | 0 <= i < |css|
      ensures Known(css[i], qs, P.ResetPreds(|qs|))
    {
      assert Ok(zss[i], css[i], qs, P.ResetPreds(|qs|));
    }
  }

  lemma NoSegments(stats: seq<byte>, css: seq<seq<nat>>, qs: seq<P.Component>, data: seq<byte>, num: nat,
      zss: seq<seq<Block>>)
    requires StatsOk(stats) && |css| == |zss| == 0 && ScanOk(zss, css, qs) && num < 8
    ensures ReadScan(stats, data, css, qs, num) == Scans([], stats, true)
    ensures ScanSegments(stats, zss, css, qs) == ([], stats)
  {
  }

  lemma FirstSegment(stats: seq<byte>, zss: seq<seq<Block>>, css: seq<seq<nat>>, qs: seq<P.Component>)
    returns (st1: seq<byte>)
    requires StatsOk(stats) && ScanOk(zss, css, qs) && |zss| > 0
    ensures StatsOk(st1) && ScanOk(zss[1..], css[1..], qs) && Known(css[0], qs, P.ResetPreds(|qs|))
    ensures var st, ts := Cleared(stats, qs), Trace(zss[0], css[0], qs, P.ResetPreds(|qs|));
      && st1 == EncodeAll(EncCoder(QmEncoder.START, st), ts).stats
      && ScanSegments(stats, zss, css, qs) ==
        ([R.Segment(st, ts)] + ScanSegments(st1, zss[1..], css[1..], qs).0, ScanSegments(st1, zss[1..], css[1..], qs).1)
  {
    hide Cleared, Trace, StatsOk, R.Segment, EncodeAll;
    QmEncoder.StartInv();
    st1 := EncodeAll(EncCoder(QmEncoder.START, Cleared(stats, qs)),
      Trace(zss[0], css[0], qs, P.ResetPreds(|qs|))).stats;
  }

  /** After the first interval, the rest of the scan is decoded from behind the expected marker. */
  lemma FirstRead(stats: seq<byte>, data: seq<byte>, css: seq<seq<nat>>, qs: seq<P.Component>, num: nat,
      next: seq<byte>)
    requires StatsOk(stats) && |css| > 0 && num < 8 && forall i :: 0 <= i < |css| ==>
      Known(css[i], qs, P.ResetPreds(|qs|))
    requires var r := ReadBlocks(DecCoder(QmDecoder.Start(data), Cleared(stats, qs)), css[0], qs, P.ResetPreds(|qs|));
      r.ok && |css| > 1 ==> MarkerAhead(r.d.reg.src) == QmDecoder.Source(next, RST0 + num)
    ensures var r := ReadBlocks(DecCoder(QmDecoder.Start(data), Cleared(stats, qs)), css[0], qs, P.ResetPreds(|qs|));
      ReadScan(stats, data, css, qs, num) ==
        if r.ok && StatsOk(r.d.stats) then
          var rest := ReadScan(r.d.stats, next, css[1..], qs, (num + 1) % 8);
          Scans([r.zs] + rest.zss, rest.stats, rest.ok)
        else Scans([r.zs], r.d.stats, false)
  {
    hide Cleared, ReadBlocks, StatsOk, Known, MarkerAhead;
  }

  /** Two DC coefficients at the ends of the 16-bit range: the decoder refuses the second difference. */
  lemma JumpRefused(stats: seq<byte>, q: P.Component, tail: seq<byte>)
    requires StatsOk(stats) && R.IsMarker(tail)
    ensures var zs := [Blank()[0 := 0x7FFF], Blank()[0 := -0x8000]]; var ps := P.ResetPreds(1);
      && Ok(zs, [0, 0], [q], ps)
      && !ReadBlocks(DecCoder(QmDecoder.Start(R.Segment(stats, Trace(zs, [0, 0], [q], ps)) + tail), stats), [0, 0], [q],
        ps).ok
  {
    hide R.Segment, Trace, ReadBlocks, R.IsMarker;
    var zs := [Blank()[0 := 0x7FFF], Blank()[0 := -0x8000]];
    var ps := P.ResetPreds(1);
    assert ps == [Pred(0, 0)] && Pow2(0) == 1;
    var p := NextPred(zs[0], q, ps[0]);
    assert p.last == 0x7FFF && !Fits(zs[1], p);
    assert zs[1..][0] == zs[1] && [0, 0][1..][0] == 0 && ps[0 := p][0] == p;
    SequentialRoundTrip(stats, zs, [0, 0], [q], tail);
  }

  // ----- The decisions of an interval, without the state that the coders keep -----

  ghost function SentDcs(zs: seq<Block>): (dcs: seq<int>)
    ensures |dcs| == |zs|
  {
    seq(|zs|, i requires 0 <= i < |zs| => zs[i][0])
  }

  lemma DcsFit(zs: seq<Block>, cs: seq<nat>, qs: seq<P.Component>, ps: seq<Pred>)
    requires Ok(zs, cs, qs, ps)
    ensures P.DcsOk(cs, SentDcs(zs), qs)
  {
  }

  /** The decisions for the blocks from the i-th on. */
  ghost function Decisions(zs: seq<Block>, cs: seq<nat>, qs: seq<P.Component>, i: nat): seq<Decision>
    requires P.DcsOk(cs, SentDcs(zs), qs) && i <= |cs| && forall j :: 0 <= j < |zs| ==> Shorts(zs[j])
    decreases |cs| - i
  {
    if i == |cs| then []
    else
      var c, dcs := cs[i], SentDcs(zs);
      P.PredictedShort(cs, dcs, qs, i, c);
      DcDiff(dcs[i] - Predicted(cs, dcs, i, c), P.Conditioned(cs, dcs, qs, i, c), qs[c].dc)
        + AcFirst(zs[i], Full(qs[c])) + Decisions(zs, cs, qs, i + 1)
  }

  lemma {:induction false} DecisionsFrom(zs: seq<Block>, cs: seq<nat>, qs: seq<P.Component>, i: nat, ps: seq<Pred>)
    requires i <= |zs| == |cs| && Ok(zs[i..], cs[i..], qs, ps) && P.DcsOk(cs, SentDcs(zs), qs)
    requires (forall j :: 0 <= j < |zs| ==> Shorts(zs[j])) && P.InState(cs, SentDcs(zs), qs, i, ps)
    ensures Trace(zs[i..], cs[i..], qs, ps) == Decisions(zs, cs, qs, i)
    decreases |zs| - i
  {
    hide DcDiff, AcFirst, AfterDiff, P.Conditioned, Predicted, Shorts, P.DcsOk, BlockTrace, NextPred, Ok;
    if i < |zs| {
      var c, dcs := cs[i], SentDcs(zs);
      P.NextState(cs, dcs, qs, i, ps);
      assert zs[i..][0] == zs[i] && zs[i..][1..] == zs[i + 1..] && cs[i..][0] == c && cs[i..][1..] == cs[i + 1..];
      FirstOk(zs[i..], cs[i..], qs, ps);
      BlockNow(zs[i], qs[c], ps[c]);
      DecisionsFrom(zs, cs, qs, i + 1, ps[c := NextPred(zs[i], qs[c], ps[c])]);
    }
  }

  lemma BlockNow(z: Block, q: P.Component, p: Pred)
    requires Shorts(z) && P.ShortPred(p)
    ensures IsShort(z[0]) && BlockTrace(z, q, p) == DcDiff(z[0] - p.last, p.ctx, q.dc) + AcFirst(z, Full(q))
    ensures NextPred(z, q, p) == AfterDiff(p, z[0] - p.last, q.dc)
  {
    hide DcDiff, AcFirst, AfterDiff;
    assert Pow2(0) == 1;
  }

  lemma FirstOk(zs: seq<Block>, cs: seq<nat>, qs: seq<P.Component>, ps: seq<Pred>)
    requires Ok(zs, cs, qs, ps) && |zs| > 0
    ensures Shorts(zs[0]) && cs[0] < |qs| == |ps| && P.ShortPred(ps[cs[0]])
    ensures Ok(zs[1..], cs[1..], qs, ps[cs[0] := NextPred(zs[0], qs[cs[0]], ps[cs[0]])])
  {
    hide NextPred, Shorts;
  }

  /** Main result: every restart interval starts afresh, predicting 0, and within it the context and the
      prediction of a block come from earlier blocks of its component alone. */
  lemma IntervalDecisions(zs: seq<Block>, cs: seq<nat>, qs: seq<P.Component>)
    requires Ok(zs, cs, qs, P.ResetPreds(|qs|))
    ensures P.DcsOk(cs, SentDcs(zs), qs)
    ensures Trace(zs, cs, qs, P.ResetPreds(|qs|)) == Decisions(zs, cs, qs, 0)
  {
    hide Trace, Decisions;
    DcsFit(zs, cs, qs, P.ResetPreds(|qs|));
    assert zs[0..] == zs && cs[0..] == cs;
    DecisionsFrom(zs, cs, qs, 0, P.ResetPreds(|qs|));
  }

  /** Every decision has a bin of the tables of some component, or the fixed bin. */
  ghost predicate InAreas(ts: seq<Decision>, qs: seq<P.Component>) {
    forall i :: 0 <= i < |ts| ==> ts[i].st == FIXED || Uses(qs, ts[i].st)
  }

  lemma InAreasConcat(a: seq<Decision>, b: seq<Decision>, qs: seq<P.Component>)
    requires InAreas(a, qs) && InAreas(b, qs)
    ensures InAreas(a + b, qs)
  {
    hide Uses;
  }

  lemma BlockInAreas(z: Block, qs: seq<P.Component>, c: nat, p: Pred)
    requires Shorts(z) && P.ShortPred(p) && c < |qs|
    ensures InAreas(BlockTrace(z, qs[c], p), qs)
  {
    hide DcDiff, AcFirst;
    P.DcRange(z[0], 0);
    var q, v := qs[c], Diff(p, z[0], 0);
    DcBinsIn(v, p.ctx, q.dc);
    AcFirstBinsIn(z, Full(q));
    InAreasConcat(DcDiff(v, p.ctx, q.dc), AcFirst(z, Full(q)), qs);
  }

  lemma {:induction false} TraceInAreas(zs: seq<Block>, cs: seq<nat>, qs: seq<P.Component>, ps: seq<Pred>)
    requires Ok(zs, cs, qs, ps)
    ensures InAreas(Trace(zs, cs, qs, ps), qs)
    decreases |zs|
  {
    hide BlockTrace, NextPred, InAreas, Shorts;
    if |zs| > 0 {
      var c := cs[0];
      var ps1 := ps[c := NextPred(zs[0], qs[c], ps[c])];
      BlockInAreas(zs[0], qs, c, ps[c]);
      TraceInAreas(zs[1..], cs[1..], qs, ps1);
      InAreasConcat(BlockTrace(zs[0], qs[c], ps[c]), Trace(zs[1..], cs[1..], qs, ps1), qs);
    } else {
      assert InAreas(Trace(zs, cs, qs, ps), qs) by { NoneInAreas(qs); }
    }
  }

  lemma NoneInAreas(qs: seq<P.Component>)
    ensures InAreas([], qs)
  {
  }

  /** Every bin that an interval uses is new at its start, except the fixed one; tables of no component keep
      their statistics. */
  lemma FreshBins(stats: seq<byte>, zs: seq<Block>, cs: seq<nat>, qs: seq<P.Component>)
    requires StatsOk(stats) && Ok(zs, cs, qs, P.ResetPreds(|qs|))
    ensures var ts, st := Trace(zs, cs, qs, P.ResetPreds(|qs|)), Cleared(stats, qs);
      forall i :: 0 <= i < |ts| ==> st[ts[i].st] == if ts[i].st == 5120 then stats[5120] else 0
    ensures forall a :: 0 <= a < ALL_BINS && Cleared(stats, qs)[a] != stats[a] ==>
      exists c :: 0 <= c < |qs| && var q := qs[c];
        64 * q.dc.tbl <= a < 64 * q.dc.tbl + 64 || 1024 + 256 * q.ac <= a < 1024 + 256 * q.ac + 256
  {
    hide Trace;
    TraceInAreas(zs, cs, qs, P.ResetPreds(|qs|));
  }

  // ----- MCU after MCU -----

  /** The decisions for the MCUs of an interval, each with the predictions that the last one left. */
  lemma {:induction false} TraceConcat(zs: seq<Block>, cs: seq<nat>, ys: seq<Block>, bs: seq<nat>, qs: seq<P.Component>,
      ps: seq<Pred>)
    requires Ok(zs, cs, qs, ps) && Ok(ys, bs, qs, After(zs, cs, qs, ps)) && Ok(zs + ys, cs + bs, qs, ps)
    ensures Trace(zs + ys, cs + bs, qs, ps) == Trace(zs, cs, qs, ps) + Trace(ys, bs, qs, After(zs, cs, qs, ps))
    ensures After(zs + ys, cs + bs, qs, ps) == After(ys, bs, qs, After(zs, cs, qs, ps))
    decreases |zs|
  {
    hide BlockTrace, NextPred, Shorts;
    if |zs| == 0 {
      assert zs + ys == ys && cs + bs == bs;
    } else {
      assert (zs + ys)[0] == zs[0] && (cs + bs)[0] == cs[0] && (zs + ys)[1..] == zs[1..] + ys &&
        (cs + bs)[1..] == cs[1..] + bs;
      TraceConcat(zs[1..], cs[1..], ys, bs, qs, ps[cs[0] := NextPred(zs[0], qs[cs[0]], ps[cs[0]])]);
    }
  }

  /** Reading the MCUs of an interval one after the other, until one fails. */
  lemma {:induction false} ReadConcat(d: DecCoder, cs: seq<nat>, bs: seq<nat>, qs: seq<P.Component>, ps: seq<Pred>)
    requires Known(cs, qs, ps) && Known(cs + bs, qs, ps)
    ensures Known(bs, qs, ReadBlocks(d, cs, qs, ps).ps)
    ensures var r := ReadBlocks(d, cs, qs, ps); var q := ReadBlocks(r.d, bs, qs, r.ps);
      ReadBlocks(d, cs + bs, qs, ps) == if r.ok then Reads(q.d, r.zs + q.zs, q.ok, q.ps) else r
    decreases |cs|
  {
    hide ReadBlock, ReadBlocks;
    forall i | 0 <= i < |bs| ensures bs[i] < |qs| { assert (cs + bs)[|cs| + i] == bs[i]; }
    if |cs| == 0 {
      assert cs + bs == bs;
      NoneToRead(d, cs, qs, ps);
      NoBlocks(ReadBlocks(d, bs, qs, ps).zs);
    } else {
      hide Known;
      assert (cs + bs)[0] == cs[0] && (cs + bs)[1..] == cs[1..] + bs;
      FirstBlock(d, cs, qs, ps);
      FirstBlock(d, cs + bs, qs, ps);
      var r := ReadBlock(d, Blank(), qs[cs[0]], ps[cs[0]]);
      if r.ok {
        ReadConcat(r.d, cs[1..], bs, qs, ps[cs[0] := r.p]);
        var p := ReadBlocks(r.d, cs[1..], qs, ps[cs[0] := r.p]);
        BlocksAssoc(r.z, p.zs, ReadBlocks(p.d, bs, qs, p.ps).zs);
      }
    }
  }

  lemma NoBlocks(zs: seq<Block>)
    ensures [] + zs == zs
  {
  }

  lemma BlocksAssoc(z: Block, a: seq<Block>, b: seq<Block>)
    ensures [z] + (a + b) == [z] + a + b
  {
  }

  lemma FirstBlock(d: DecCoder, cs: seq<nat>, qs: seq<P.Component>, ps: seq<Pred>)
    requires |cs| > 0 && Known(cs, qs, ps)
    ensures cs[0] < |qs| == |ps| && ps[cs[0]].Ok()
    ensures var r := ReadBlock(d, Blank(), qs[cs[0]], ps[cs[0]]);
      && Known(cs[1..], qs, ps[cs[0] := r.p])
      && ReadBlocks(d, cs, qs, ps) ==
           if !r.ok then Reads(r.d, [], false, ps[cs[0] := r.p])
           else
             var rest := ReadBlocks(r.d, cs[1..], qs, ps[cs[0] := r.p]);
             Reads(rest.d, [r.z] + rest.zs, rest.ok, rest.ps)
  {
    hide ReadBlock;
  }

  // ----- One MCU -----

  ghost function Zigs(blocks: seq<Block>): (zs: seq<Block>)
    ensures |zs| == |blocks| && forall i :: 0 <= i < |zs| ==> zs[i] == Zig(blocks[i])
  {
    seq(|blocks|, i requires 0 <= i < |blocks| => Zig(blocks[i]))
  }

  /** encode_mcu: blocks of an MCU, and the component of each. */
  method EncodeMcu(e: E.Encoder, blocks: seq<Block>, cs: seq<nat>, qs: seq<P.Component>, ps0: seq<Pred>)
    returns (ps: seq<Pred>)
    requires e.Valid() && Ok(Zigs(blocks), cs, qs, ps0)
    modifies e, e.stats
    ensures e.stats == old(e.stats) && e.Valid() && ps == After(Zigs(blocks), cs, qs, ps0)
    ensures e.Coder() == EncodeAll(old(e.Coder()), Trace(Zigs(blocks), cs, qs, ps0))
  {
    hide BlockTrace, NextPred, Shorts, Zig, QmCoder.Encode, EncCoder.Ok;
    ghost var zs, start := Zigs(blocks), e.Coder();
    ghost var goal := EncodeAll(start, Trace(zs, cs, qs, ps0));
    ps := ps0;
    for blkn := 0 to |blocks|
      invariant e.stats == old(e.stats) && e.Valid() && Ok(zs[blkn..], cs[blkn..], qs, ps)
      invariant After(zs[blkn..], cs[blkn..], qs, ps) == After(zs, cs, qs, ps0)
      invariant EncodeAll(e.Coder(), Trace(zs[blkn..], cs[blkn..], qs, ps)) == goal
    {
      var c := cs[blkn];
      assert zs[blkn..][0] == zs[blkn] && cs[blkn..][0] == c && zs[blkn..][1..] == zs[blkn + 1..] &&
        cs[blkn..][1..] == cs[blkn + 1..];
      ghost var rest := Trace(zs[blkn + 1..], cs[blkn + 1..], qs, ps[c := NextPred(zs[blkn], qs[c], ps[c])]);
      EncodeAllConcat(e.Coder(), BlockTrace(zs[blkn], qs[c], ps[c]), rest);
      var q := EncodeBlock(e, blocks[blkn], qs[c], ps[c]);
      ps := ps[c := q];
    }
  }

  method EncodeBlock(e: E.Encoder, b: Block, c: P.Component, p: Pred) returns (q: Pred)
    requires e.Valid() && Shorts(Zig(b)) && P.ShortPred(p)
    modifies e, e.stats
    ensures e.stats == old(e.stats) && e.Valid() && q == NextPred(Zig(b), c, p)
    ensures e.Coder() == EncodeAll(old(e.Coder()), BlockTrace(Zig(b), c, p))
  {
    hide QmCoder.Encode, EncCoder.Ok, DcDiff, AcFirst;
    ghost var z := Zig(b);
    P.DcRange(z[0], 0);
    q := e.EncodeDcFirst(b[0], 0, p, c.dc);
    EncodeAllConcat(old(e.Coder()), DcDiff(Diff(p, z[0], 0), p.ctx, c.dc), AcFirst(z, Full(c)));
    e.EncodeAcFirst(b, Full(c));
  }

  lemma ZigBlank()
    ensures Zig(Blank()) == Blank()
  {
  }

  lemma ZigDc(b: Block, x: int)
    ensures Zig(b[0 := x]) == Zig(b)[0 := x]
  {
    ZigUpdate(b, 0, x);
  }

  method DecodeBlock(d: D.Decoder, block: array<int>, c: P.Component, p: Pred) returns (q: Pred, ok: bool)
    requires d.Valid() && p.Ok() && block.Length == 64 && block[..] == Blank()
    modifies d, d.stats, block
    ensures d.stats == old(d.stats) && d.Valid()
    ensures Read(d.Coder(), Zig(block[..]), q, ok) == ReadBlock(old(d.Coder()), Blank(), c, p)
  {
    hide QmCoder.Decode, ReadDcDiff, ReadAcFirst, DcValue, Zig, Natural;
    ZigBlank();
    q, ok := d.DecodeDcFirst(p, c.dc);
    if !ok { return; }
    ZigDc(block[..], DcValue(q, 0));
    block[0] := DcValue(q, 0);
    ok := d.DecodeAcFirst(block, Full(c));
  }

  lemma ReadStep(d: DecCoder, cs: seq<nat>, qs: seq<P.Component>, ps: seq<Pred>, i: nat)
    requires i < |cs| && Known(cs[i..], qs, ps)
    ensures cs[i] < |qs| == |ps| && ps[cs[i]].Ok()
    ensures var r := ReadBlock(d, Blank(), qs[cs[i]], ps[cs[i]]);
      && Known(cs[i + 1..], qs, ps[cs[i] := r.p])
      && ReadBlocks(d, cs[i..], qs, ps) ==
           if !r.ok then Reads(r.d, [], false, ps[cs[i] := r.p])
           else
             var rest := ReadBlocks(r.d, cs[i + 1..], qs, ps[cs[i] := r.p]);
             Reads(rest.d, [r.z] + rest.zs, rest.ok, rest.ps)
  {
    hide ReadBlock;
    assert cs[i..][0] == cs[i] && cs[i..][1..] == cs[i + 1..];
  }

  lemma ZigsMore(blocks: seq<Block>, b: Block, rest: seq<Block>)
    ensures Zigs(blocks + [b]) + rest == Zigs(blocks) + ([Zig(b)] + rest) && Zigs(blocks) + [] == Zigs(blocks)
  {
    hide Zig;
    assert Zigs(blocks + [b]) == Zigs(blocks) + [Zig(b)];
  }

  /** decode_mcu: into blocks of zeros; after an error no further block is decoded. */
  method DecodeMcu(d: D.Decoder, cs: seq<nat>, qs: seq<P.Component>, ps0: seq<Pred>)
    returns (blocks: seq<Block>, ok: bool, ps: seq<Pred>)
    requires d.Valid() && Known(cs, qs, ps0)
    modifies d, d.stats
    ensures d.stats == old(d.stats) && d.Valid()
    ensures Reads(d.Coder(), Zigs(blocks), ok, ps) == ReadBlocks(old(d.Coder()), cs, qs, ps0)
  {
    hide ReadBlock, Zig, ReadBlocks, Zigs;
    ghost var goal := ReadBlocks(d.Coder(), cs, qs, ps0);
    blocks, ok := [], true;
    ps := ps0;
    assert cs[0..] == cs;
    NoZigs(goal.zs);
    for blkn := 0 to |cs|
      invariant d.stats == old(d.stats) && d.Valid() && Known(cs[blkn..], qs, ps)
      invariant var rest := ReadBlocks(d.Coder(), cs[blkn..], qs, ps);
        goal == Reads(rest.d, Zigs(blocks) + rest.zs, rest.ok, rest.ps)
    {
      var c := cs[blkn];
      ReadStep(d.Coder(), cs, qs, ps, blkn);
      var block := new int[64](_ => 0);
      assert block[..] == Blank();
      var q;
      q, ok := DecodeBlock(d, block, qs[c], ps[c]);
      ps := ps[c := q];
      ZigsMore(blocks, block[..], ReadBlocks(d.Coder(), cs[blkn + 1..], qs, ps).zs);
      if !ok { return; }
      blocks := blocks + [block[..]];
    }
    NoneToRead(d.Coder(), cs[|cs|..], qs, ps);
    ZigsMore(blocks, Blank(), []);
    ok := true;
  }

  lemma NoZigs(zs: seq<Block>)
    ensures Zigs([]) + zs == zs
  {
  }

  lemma NoneToRead(d: DecCoder, cs: seq<nat>, qs: seq<P.Component>, ps: seq<Pred>)
    requires Known(cs, qs, ps) && |cs| == 0
    ensures ReadBlocks(d, cs, qs, ps) == Reads(d, [], true, ps)
  {
  }
}
