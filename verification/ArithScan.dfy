/** The segments of progressive arithmetic-coded scans as the coders produce and read them: the blocks of
    a restart interval one after the other, each by the routine for its kind of scan. */
module ArithScan {
  import opened Bits
  import opened Coefficients
  import opened QmCoder
  import opened ArithAc
  import opened ArithRefine
  import opened ArithDc
  import opened ArithProgressive
  import opened ArithImage
  import opened Restart
  import opened ScanScript
  import E = ArithEncoder
  import D = ArithDecoder
  import R = QmRoundTrip
  import QmDecoder
  import QmEncoder

  /** The image z has the blocks of img in zigzag order. */
  ghost predicate InZigzag(img: Image, z: Image) {
    SameShape(img, z) && forall r :: Within(img, r) ==> Get(z, r) == Zig(Get(img, r))
  }

  lemma SameSize(img: Image, z: Image)
    requires InZigzag(img, z)
    ensures |img| == |z|
  {
  }

  lemma ZigFirst(b: Block)
    ensures Zig(b)[0] == b[0]
  {
  }

  // ----- Encoder -----

  /** One block, by the routine for the scan; returns the new prediction. */
  method EncodeBlock(e: E.Encoder, b: Block, q: Component, s: Scan, p: Pred) returns (r: Pred)
    requires e.Valid() && BandOk(s) && Shorts(Zig(b)) && ShortPred(p)
    modifies e, e.stats
    ensures e.stats == old(e.stats) && e.Valid() && r == NextPred(Zig(b), q, s, p)
    ensures e.Coder() == EncodeAll(old(e.Coder()), BlockTrace(Zig(b), q, s, p))
  {
    hide QmCoder.Encode, EncCoder.Ok, DcDiff, DcRefine, AcFirst, AcRefine, Zig, AfterDiff;
    ZigFirst(b);
    r := p;
    if s.ss == 0 {
      if s.ah == 0 {
        DcRange(b[0], s.al);
        r := e.EncodeDcFirst(b[0], s.al, p, q.dc);
      } else {
        e.EncodeDcRefine(b[0], s.al);
      }
    } else if s.ah == 0 {
      e.EncodeAcFirst(b, BandOf(s, q));
    } else {
      e.EncodeAcRefine(b, BandOf(s, q));
    }
  }

  /** The blocks of a restart interval. */
  method EncodeInterval(e: E.Encoder, img: Image, ghost z: Image, qs: seq<Component>, s: Scan, refs: seq<Ref>)
    requires e.Valid() && BandOk(s) && InZigzag(img, z) && ShortsAll(z) && |qs| == |img|
    requires RefsOk(refs, img, s) && RefsOk(refs, z, s)
    modifies e, e.stats
    ensures e.stats == old(e.stats) && e.Valid()
    ensures e.Coder() == EncodeAll(old(e.Coder()), IntervalTrace(z, qs, s, refs, ResetPreds(|z|)))
  {
    hide BlockTrace, NextPred, Shorts, Zig, QmCoder.Encode, EncCoder.Ok, BandOk;
    var ps := ResetPreds(|img|);
    ghost var goal := EncodeAll(e.Coder(), IntervalTrace(z, qs, s, refs, ps));
    assert refs[0..] == refs;
    for i := 0 to |refs|
      invariant e.stats == old(e.stats) && e.Valid() && ShortPreds(ps, |z|) && RefsOk(refs[i..], z, s)
      invariant EncodeAll(e.Coder(), IntervalTrace(z, qs, s, refs[i..], ps)) == goal
    {
      var r := refs[i];
      assert Within(img, r) && Get(z, r) == Zig(Get(img, r));
      assert refs[i..][0] == r && refs[i..][1..] == refs[i + 1..];
      ghost var rest := IntervalTrace(z, qs, s, refs[i + 1..], ps[r.c := NextPred(Get(z, r), qs[r.c], s, ps[r.c])]);
      EncodeAllConcat(e.Coder(), BlockTrace(Get(z, r), qs[r.c], s, ps[r.c]), rest);
      var q := EncodeBlock(e, Get(img, r), qs[r.c], s, ps[r.c]);
      ps := ps[r.c := q];
    }
  }

  /** A restart interval from start to finish, over the given statistics areas. */
  method EncodeSegment(areas: array<byte>, img: Image, ghost z: Image, qs: seq<Component>, s: Scan, refs: seq<Ref>)
    returns (segment: seq<byte>)
    requires StatsOk(areas[..]) && BandOk(s) && InZigzag(img, z) && ShortsAll(z) && |qs| == |img|
    requires RefsOk(refs, img, s) && RefsOk(refs, z, s)
    modifies areas
    ensures var ts := IntervalTrace(z, qs, s, refs, ResetPreds(|z|));
      && segment == R.Segment(old(areas[..]), ts)
      && areas[..] == EncodeAll(EncCoder(QmEncoder.START, old(areas[..])), ts).stats
  {
    hide IntervalTrace, EncodeAll, BandOk;
    var e := new E.Encoder(areas);
    EncodeInterval(e, img, z, qs, s, refs);
    ghost var c := e.Coder();
    e.FinishPass();
    segment := e.out;
  }

  // ----- Statistics areas -----

  /** Sets n bins to zero. */
  method ClearBins(areas: array<byte>, first: nat, n: nat)
    requires areas.Length == ALL_BINS && first + n <= ALL_BINS
    modifies areas
    ensures forall a :: 0 <= a < ALL_BINS ==> areas[a] == if first <= a < first + n then 0 else old(areas[a])
  {
    for k := 0 to n
      invariant forall a :: 0 <= a < ALL_BINS ==> areas[a] == if first <= a < first + k then 0 else old(areas[a])
    {
      areas[first + k] := 0;
    }
  }

  /** Initializes the statistics areas of the components in the scan. */
  method ClearAreas(areas: array<byte>, s: Scan, qs: seq<Component>)
    requires StatsOk(areas[..]) && BandOk(s) && forall i :: 0 <= i < |s.comps| ==> 0 <= s.comps[i] < |qs|
    modifies areas
    ensures areas[..] == Reset(old(areas[..]), s, qs)
  {
    ghost var was := areas[..];
    for i := 0 to |s.comps|
      invariant forall a :: 0 <= a < ALL_BINS ==>
        areas[a] == if exists k :: 0 <= k < i && InArea(s, qs[s.comps[k]], a) then 0 else was[a]
    {
      var q := qs[s.comps[i]];
      if s.ss == 0 && s.ah == 0 {
        ClearBins(areas, 64 * q.dc.tbl, 64);
      }
      if s.se != 0 {
        ClearBins(areas, 1024 + 256 * q.ac, 256);
      }
    }
    assert areas[..] == Reset(was, s, qs);
  }

  // ----- A scan -----

  /** A restart interval, over fresh statistics areas. */
  method EncodeFresh(areas: array<byte>, img: Image, ghost z: Image, qs: seq<Component>, s: Scan, refs: seq<Ref>)
    returns (segment: seq<byte>)
    requires StatsOk(areas[..]) && ScanShape(s, qs, |img|) && InZigzag(img, z) && ShortsAll(z)
    requires RefsOk(refs, img, s) && RefsOk(refs, z, s)
    modifies areas
    ensures |z| == |img| && ShortPreds(ResetPreds(|z|), |z|)
    ensures var st := Reset(old(areas[..]), s, qs);
      var ts := IntervalTrace(z, qs, s, refs, ResetPreds(|z|));
      segment == R.Segment(st, ts) && areas[..] == EncodeAll(EncCoder(QmEncoder.START, st), ts).stats
  {
    hide IntervalTrace, EncodeAll, BandOk, InZigzag, R.Segment, Reset, StatsOk, RefsOk, ShortsAll;
    SameSize(img, z);
    ClearAreas(areas, s, qs);
    segment := EncodeSegment(areas, img, z, qs, s, refs);
  }

  /** All restart intervals of a scan, with restart markers between them. */
  method EncodeScan(areas: array<byte>, img: Image, ghost z: Image, qs: seq<Component>, s: Scan, o: Order)
    returns (out: seq<byte>)
    requires StatsOk(areas[..]) && ScanShape(s, qs, |img|) && InZigzag(img, z) && ShortsAll(z)
    requires OrderOk(o, img, s) && OrderOk(o, z, s)
    modifies areas
    ensures out == Joined(CodeScan(old(areas[..]), z, qs, s, o).0, 0)
    ensures areas[..] == CodeScan(old(areas[..]), z, qs, s, o).1
  {
    hide BandOk, Joined, Marker, StatsOk, InZigzag, RefsOk, R.Segment, Reset, EncodeAll, IntervalTrace, ShortsAll,
      CodeScan, OrderOk, Extended, ResetPreds, ShortPreds, ScanShape;
    SameSize(img, z);
    ghost var segs: seq<seq<byte>> := [];
    ghost var stats := areas[..];
    ghost var goal := CodeScan(stats, z, qs, s, o);
    out := [];
    var nextRestartNum: nat := 0;
    assert o[0..] == o;
    NoneBefore(goal);
    JoinedStep(segs, 0);
    for i := 0 to |o|
      invariant areas[..] == stats && StatsOk(stats) && nextRestartNum == if i == 0 then 0 else (i - 1) % 8
      invariant |segs| == i && out == Joined(segs, 0) && OrderOk(o[i..], z, s)
      invariant goal == Extended(segs, CodeScan(stats, z, qs, s, o[i..]))
    {
      CodeNext(stats, z, qs, s, o, i, segs);
      RefsAt(o, i, img, s);
      if i > 0 {
        out := out + Marker(nextRestartNum);
        NextNumber(i);
        nextRestartNum := (nextRestartNum + 1) % 8;
      }
      var segment := EncodeFresh(areas, img, z, qs, s, o[i]);
      NextSegment(segs, segment);
      out := out + segment;
      stats, segs := areas[..], segs + [segment];
    }
    assert o[|o|..] == [];
    NothingMore(stats, z, qs, s, segs);
  }

  lemma RefsAt(o: Order, i: nat, img: Image, s: Scan)
    requires i < |o| && OrderOk(o, img, s)
    ensures RefsOk(o[i], img, s)
  {
  }

  ghost function Extended(segs: seq<seq<byte>>, r: (seq<seq<byte>>, seq<byte>)): (seq<seq<byte>>, seq<byte>) {
    (segs + r.0, r.1)
  }

  lemma NoneBefore(r: (seq<seq<byte>>, seq<byte>))
    ensures Extended([], r) == r
  {
    assert [] + r.0 == r.0;
  }

  lemma SegmentsAssoc(segs: seq<seq<byte>>, s: seq<byte>, rest: seq<seq<byte>>)
    ensures segs + ([s] + rest) == segs + [s] + rest
  {
  }

  lemma NothingMore(stats: seq<byte>, z: Image, qs: seq<Component>, s: Scan, segs: seq<seq<byte>>)
    requires StatsOk(stats) && ScanShape(s, qs, |z|) && ShortsAll(z)
    ensures OrderOk([], z, s) && Extended(segs, CodeScan(stats, z, qs, s, [])) == (segs, stats)
  {
    assert CodeScan(stats, z, qs, s, []) == ([], stats) && segs + [] == segs;
  }

  /** The next segment of a scan, and those that are still to come. */
  lemma CodeNext(stats: seq<byte>, z: Image, qs: seq<Component>, s: Scan, o: Order, i: nat, segs: seq<seq<byte>>)
    requires StatsOk(stats) && ScanShape(s, qs, |z|) && ShortsAll(z) && i < |o| && OrderOk(o[i..], z, s)
    ensures RefsOk(o[i], z, s) && OrderOk(o[i + 1..], z, s) && ShortPreds(ResetPreds(|z|), |z|)
    ensures var st := Reset(stats, s, qs);
      var ts := IntervalTrace(z, qs, s, o[i], ResetPreds(|z|));
      var st1 := EncodeAll(EncCoder(QmEncoder.START, st), ts).stats;
      && StatsOk(st1)
      && Extended(segs, CodeScan(stats, z, qs, s, o[i..]))
           == Extended(segs + [R.Segment(st, ts)], CodeScan(st1, z, qs, s, o[i + 1..]))
  {
    hide BandOk, StatsOk, RefsOk, R.Segment, Reset, EncodeAll, IntervalTrace, ShortsAll;
    assert o[i..][0] == o[i] && o[i..][1..] == o[i + 1..];
    var st, ts := Reset(stats, s, qs), IntervalTrace(z, qs, s, o[i], ResetPreds(|z|));
    SegmentStats(st, ts);
    var rest := CodeScan(EncodeAll(EncCoder(QmEncoder.START, st), ts).stats, z, qs, s, o[i + 1..]);
    assert CodeScan(stats, z, qs, s, o[i..]) == ([R.Segment(st, ts)] + rest.0, rest.1);
    SegmentsAssoc(segs, R.Segment(st, ts), rest.0);
  }

  // ----- Decoder -----

  lemma ZigDcSet(b: Block, x: int)
    ensures Zig(b[0 := x]) == Zig(b)[0 := x]
  {
    ZigUpdate(b, 0, x);
  }

  /** One block, by the routine for the scan. */
  method DecodeBlock(d: D.Decoder, b0: Block, q: Component, s: Scan, p: Pred) returns (b: Block, r: Pred, ok: bool)
    requires d.Valid() && BandOk(s) && p.Ok()
    modifies d, d.stats
    ensures d.stats == old(d.stats) && d.Valid()
    ensures ReadResult(d.Coder(), Zig(b), r, ok) == ReadBlock(old(d.Coder()), Zig(b0), q, s, p)
  {
    hide QmCoder.Decode, ReadDcDiff, ReadDcRefine, ReadAcFirst, ReadAcRefine, Zig, DcValue;
    ZigFirst(b0);
    b, r, ok := b0, p, true;
    if s.ss == 0 {
      if s.ah == 0 {
        r, ok := d.DecodeDcFirst(p, q.dc);
        if ok {
          ZigDcSet(b0, DcValue(r, s.al));
          b := b0[0 := DcValue(r, s.al)];
        }
      } else {
        var x := d.DecodeDcRefine(b0[0], s.al);
        ZigDcSet(b0, x);
        b := b0[0 := x];
      }
    } else {
      var block := new int[64](k requires 0 <= k < 64 => b0[k]);
      assert block[..] == b0;
      if s.ah == 0 {
        ok := d.DecodeAcFirst(block, BandOf(s, q));
      } else {
        ok := d.DecodeAcRefine(block, BandOf(s, q));
      }
      b := block[..];
    }
  }

  lemma PutZigzag(img: Image, z: Image, r: Ref, b: Block)
    requires InZigzag(img, z) && Within(img, r)
    ensures InZigzag(Put(img, r, b), Put(z, r, Zig(b)))
  {
    hide Zig, Put;
  }

  lemma RestRefs(refs: seq<Ref>, i: nat, z: Image, w: Image, s: Scan)
    requires i < |refs| && RefsOk(refs[i..], z, s) && SameShape(z, w)
    ensures refs[i..][0] == refs[i] && refs[i..][1..] == refs[i + 1..] && RefsOk(refs[i + 1..], w, s)
  {
    var rest := refs[i + 1..];
    forall k | 0 <= k < |rest| ensures Within(w, rest[k]) && rest[k].c in s.comps {
      assert rest[k] == refs[i..][k + 1];
    }
  }

  /** A restart interval, into the image decoded so far; after an error no further block is decoded. */
  method DecodeInterval(d: D.Decoder, img: Image, ghost z: Image, qs: seq<Component>, s: Scan, refs: seq<Ref>)
    returns (out: Image, ghost w: Image, ok: bool)
    requires d.Valid() && BandOk(s) && InZigzag(img, z) && |qs| == |img| && RefsOk(refs, img, s) && RefsOk(refs, z, s)
    modifies d, d.stats
    ensures d.stats == old(d.stats) && d.Valid() && InZigzag(out, w) && SameShape(img, out)
    ensures var r := ReadInterval(old(d.Coder()), z, qs, s, refs, ResetPreds(|z|));
      w == r.dec && ok == r.ok && d.Coder() == r.d
  {
    hide ReadBlock, Zig, Put, BandOk;
    ghost var goal := ReadInterval(d.Coder(), z, qs, s, refs, ResetPreds(|z|));
    out, w, ok := img, z, true;
    var ps := ResetPreds(|img|);
    assert refs[0..] == refs;
    for i := 0 to |refs|
      invariant d.stats == old(d.stats) && d.Valid() && InZigzag(out, w) && SameShape(img, out) && PredsOk(ps, |w|)
      invariant |w| == |z|
      invariant ok && RefsOk(refs[i..], w, s) && RefsOk(refs, out, s)
      invariant ReadInterval(d.Coder(), w, qs, s, refs[i..], ps) == goal
    {
      var r := refs[i];
      assert Within(out, r) && Get(w, r) == Zig(Get(out, r));
      RestRefs(refs, i, w, w, s);
      var b, q;
      b, q, ok := DecodeBlock(d, Get(out, r), qs[r.c], s, ps[r.c]);
      PutZigzag(out, w, r, b);
      RestRefs(refs, i, w, Put(w, r, Zig(b)), s);
      out, w := Put(out, r, b), Put(w, r, Zig(b));
      if !ok { return; }
      ps := ps[r.c := q];
    }
  }

  /** A scan from start to finish, over the given statistics areas: restart interval by restart interval,
      up to the first error or the first restart marker that is not where it should be. */
  method DecodeScan(data: seq<byte>, areas: array<byte>, img: Image, ghost z: Image, qs: seq<Component>, s: Scan,
      o: Order)
    returns (out: Image, ghost w: Image, ok: bool)
    requires StatsOk(areas[..]) && ScanShape(s, qs, |img|) && InZigzag(img, z) && OrderOk(o, img, s) && OrderOk(o, z, s)
    modifies areas
    ensures |z| == |img| && InZigzag(out, w)
    ensures ReadScan(old(areas[..]), data, z, qs, s, o, 0) == ScanResult(w, areas[..], ok)
  {
    hide BandOk, StatsOk, InZigzag, RefsOk, Reset, ReadInterval, MarkerAhead, SameShape;
    SameSize(img, z);
    ghost var goal := ReadScan(areas[..], data, z, qs, s, o, 0);
    ghost var at, stats := data, areas[..];
    out, w, ok := img, z, true;
    assert o[0..] == o;
    if |o| == 0 {
      return;
    }
    var nextRestartNum: nat := 0;
    ClearAreas(areas, s, qs);
    var d := new D.Decoder(data, areas);
    var i := 0;
    while i < |o|
      invariant i < |o| && d.stats == areas && fresh(d) && d.Valid() && InZigzag(out, w) && nextRestartNum < 8
      invariant |out| == |w| == |img| && OrderOk(o[i..], out, s) && OrderOk(o[i..], w, s) && StatsOk(stats)
      invariant d.Coder() == DecCoder(QmDecoder.Start(at), Reset(stats, s, qs))
      invariant ReadScan(stats, at, w, qs, s, o[i..], nextRestartNum) == goal
      decreases |o| - i
    {
      ghost var before := out;
      ReadStep(stats, at, w, qs, s, o, i, nextRestartNum);
      FirstRefs(o, i, out, s);
      out, w, ok := DecodeInterval(d, out, w, qs, s, o[i]);
      StillOrder(o, i + 1, before, out, s);
      SameSize(out, w);
      stats := areas[..];
      if !ok || i + 1 == |o| {
        return;
      }
      at := MarkerAhead(d.Reg().src).input;
      ok := d.ProcessRestart(nextRestartNum);
      if !ok {
        return;
      }
      ClearAreas(areas, s, qs);
      nextRestartNum := (nextRestartNum + 1) % 8;
      i := i + 1;
    }
  }

  lemma FirstRefs(o: Order, i: nat, img: Image, s: Scan)
    requires i < |o| && OrderOk(o[i..], img, s)
    ensures RefsOk(o[i], img, s)
  {
    assert o[i..][0] == o[i];
  }

  lemma StillOrder(o: Order, i: nat, img: Image, out: Image, s: Scan)
    requires 0 < i <= |o| && OrderOk(o[i - 1..], img, s) && SameShape(img, out)
    ensures OrderOk(o[i..], out, s)
  {
    assert o[i..] == o[i - 1..][1..];
    SameShapeOrder(o[i..], img, out, s);
  }

  /** Reading a scan from interval i on. */
  lemma ReadStep(stats: seq<byte>, at: seq<byte>, w: Image, qs: seq<Component>, s: Scan, o: Order, i: nat, num: nat)
    requires StatsOk(stats) && ScanShape(s, qs, |w|) && i < |o| && OrderOk(o[i..], w, s) && num < 8
    ensures RefsOk(o[i], w, s)
    ensures var r := ReadInterval(DecCoder(QmDecoder.Start(at), Reset(stats, s, qs)), w, qs, s, o[i], ResetPreds(|w|));
      && |r.dec| == |w| && OrderOk(o[i + 1..], r.dec, s)
      && ReadScan(stats, at, w, qs, s, o[i..], num) ==
           if !(r.ok && StatsOk(r.d.stats)) then ScanResult(r.dec, r.d.stats, false)
           else if i + 1 == |o| then ScanResult(r.dec, r.d.stats, true)
           else
             var m := MarkerAhead(r.d.reg.src);
             if m.marker != RST0 + num then ScanResult(r.dec, r.d.stats, false)
             else ReadScan(r.d.stats, m.input, r.dec, qs, s, o[i + 1..], (num + 1) % 8)
  {
    hide BandOk, StatsOk, Reset, ReadInterval, MarkerAhead;
    assert o[i..][0] == o[i] && o[i..][1..] == o[i + 1..];
    FirstRefs(o, i, w, s);
    var r := ReadInterval(DecCoder(QmDecoder.Start(at), Reset(stats, s, qs)), w, qs, s, o[i], ResetPreds(|w|));
    StillOrder(o, i + 1, w, r.dec, s);
  }
}
