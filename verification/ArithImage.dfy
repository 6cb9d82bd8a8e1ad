/** Whole progressive images, down to the bytes: every scan of an accepted script is written as
    arithmetic-coded segments, one per restart interval, and read back. */
module ArithImage {
  import opened Bits
  import opened Coefficients
  import opened QmCoder
  import opened ArithDc
  import opened QmRoundTrip
  import opened Restart
  import opened ArithRestart
  import opened ArithProgressive
  import opened ScanScript
  import QmDecoder
  import QmEncoder

  /** The statistics areas at the start of a scan or restart interval. */
  function Reset(stats: seq<byte>, s: Scan, qs: seq<Component>): (r: seq<byte>)
    requires StatsOk(stats) && forall i :: 0 <= i < |s.comps| ==> 0 <= s.comps[i] < |qs|
    ensures StatsOk(r)
  {
    seq(ALL_BINS, a requires 0 <= a < ALL_BINS => if Uses(s, qs, a) then 0 else stats[a])
  }

  /** Every bin that an interval uses is new at its start, except the fixed one; tables of no component in the
      scan keep their statistics. */
  lemma FreshBins(stats: seq<byte>, img: Image, qs: seq<Component>, s: Scan, refs: seq<Ref>)
    requires StatsOk(stats) && ScanShape(s, qs, |img|) && ShortsAll(img) && RefsOk(refs, img, s)
    ensures var ts, st := IntervalTrace(img, qs, s, refs, ResetPreds(|img|)), Reset(stats, s, qs);
      forall i :: 0 <= i < |ts| ==> st[ts[i].st] == if ts[i].st == 5120 then stats[5120] else 0
    ensures forall a :: 0 <= a < ALL_BINS && Reset(stats, s, qs)[a] != stats[a] ==>
      exists i :: 0 <= i < |s.comps| && var q := qs[s.comps[i]];
        if s.ss == 0 then 64 * q.dc.tbl <= a < 64 * q.dc.tbl + 64
        else 1024 + 256 * q.ac <= a < 1024 + 256 * q.ac + 256
  {
    hide IntervalTrace;
    IntervalInAreas(img, qs, s, refs, ResetPreds(|img|));
  }

  predicate ScanShape(s: Scan, qs: seq<Component>, n: nat) {
    BandOk(s) && |qs| == n && forall i :: 0 <= i < |s.comps| ==> 0 <= s.comps[i] < n
  }

  /** The blocks of a scan, restart interval by restart interval. */
  type Order = seq<seq<Ref>>

  function Flat(o: Order): seq<Ref> {
    if |o| == 0 then [] else o[0] + Flat(o[1..])
  }

  predicate OrderOk(o: Order, img: Image, s: Scan) {
    forall i :: 0 <= i < |o| ==> RefsOk(o[i], img, s)
  }

  // ----- Encoder: the segments of a scan, and of all scans -----

  function CodeScan(stats: seq<byte>, img: Image, qs: seq<Component>, s: Scan,
      o: Order): (r: (seq<seq<byte>>, seq<byte>))
    requires StatsOk(stats) && ScanShape(s, qs, |img|) && ShortsAll(img) && OrderOk(o, img, s)
    ensures StatsOk(r.1) && |r.0| == |o|
    decreases |o|
  {
    if |o| == 0 then ([], stats)
    else
      var st := Reset(stats, s, qs);
      var ts := IntervalTrace(img, qs, s, o[0], ResetPreds(|img|));
      SegmentStats(st, ts);
      var (rest, last) := CodeScan(EncodeAll(EncCoder(QmEncoder.START, st), ts).stats, img, qs, s, o[1..]);
      ([Segment(st, ts)] + rest, last)
  }

  lemma SegmentStats(stats: seq<byte>, ts: seq<Decision>)
    requires StatsOk(stats)
    ensures StatsOk(EncodeAll(EncCoder(QmEncoder.START, stats), ts).stats)
  {
    QmEncoder.StartInv();
  }

  // ----- Decoder: restart markers stand between the segments -----

  datatype ScanResult = ScanResult(dec: Image, stats: seq<byte>, ok: bool)

  /** Decodes interval after interval; num is the number of the restart marker to come. */
  function ReadScan(stats: seq<byte>, data: seq<byte>, dec: Image, qs: seq<Component>, s: Scan, o: Order,
      num: nat): (r: ScanResult)
    requires StatsOk(stats) && ScanShape(s, qs, |dec|) && OrderOk(o, dec, s) && num < 8
    ensures SameShape(dec, r.dec) && (r.ok ==> StatsOk(r.stats))
    decreases |o|
  {
    if |o| == 0 then ScanResult(dec, stats, true)
    else
      var d := DecCoder(QmDecoder.Start(data), Reset(stats, s, qs));
      var r := ReadInterval(d, dec, qs, s, o[0], ResetPreds(|dec|));
      if !(r.ok && StatsOk(r.d.stats)) then ScanResult(r.dec, r.d.stats, false)
      else if |o| == 1 then ScanResult(r.dec, r.d.stats, true)
      else
        var m := MarkerAhead(r.d.reg.src);
        if m.marker != RST0 + num then ScanResult(r.dec, r.d.stats, false)
        else ReadScan(r.d.stats, m.input, r.dec, qs, s, o[1..], (num + 1) % 8)
  }

  /** After an interval that could be decoded, with the expected marker behind it, comes the next one. */
  lemma ReadNextInterval(stats: seq<byte>, data: seq<byte>, dec: Image, qs: seq<Component>, s: Scan, o: Order, num: nat,
      next: seq<byte>)
    requires StatsOk(stats) && ScanShape(s, qs, |dec|) && OrderOk(o, dec, s) && num < 8 && |o| > 0
    requires var r := ReadInterval(DecCoder(QmDecoder.Start(data), Reset(stats, s, qs)), dec, qs, s, o[0],
      ResetPreds(|dec|));
      r.ok && StatsOk(r.d.stats) && (|o| > 1 ==> MarkerAhead(r.d.reg.src) == QmDecoder.Source(next, RST0 + num))
    ensures var r := ReadInterval(DecCoder(QmDecoder.Start(data), Reset(stats, s, qs)), dec, qs, s, o[0],
      ResetPreds(|dec|));
      && OrderOk(o[1..], r.dec, s)
      && ReadScan(stats, data, dec, qs, s, o, num) == ReadScan(r.d.stats, next, r.dec, qs, s, o[1..], (num + 1) % 8)
  {
    hide ReadInterval, Reset, StatsOk, MarkerAhead;
    var r := ReadInterval(DecCoder(QmDecoder.Start(data), Reset(stats, s, qs)), dec, qs, s, o[0], ResetPreds(|dec|));
    SameShapeOrder(o[1..], dec, r.dec, s);
    if |o| == 1 {
      assert ReadScan(stats, data, dec, qs, s, o, num) == ScanResult(r.dec, r.d.stats, true);
    }
  }

  lemma NothingToRead(stats: seq<byte>, data: seq<byte>, dec: Image, qs: seq<Component>, s: Scan, o: Order, num: nat)
    requires StatsOk(stats) && ScanShape(s, qs, |dec|) && OrderOk(o, dec, s) && num < 8 && |o| == 0
    ensures ReadScan(stats, data, dec, qs, s, o, num) == ScanResult(dec, stats, true)
  {
  }

  lemma FirstFails(stats: seq<byte>, data: seq<byte>, dec: Image, qs: seq<Component>, s: Scan, o: Order, num: nat)
    requires StatsOk(stats) && ScanShape(s, qs, |dec|) && OrderOk(o, dec, s) && num < 8 && |o| > 0
    requires !ReadInterval(DecCoder(QmDecoder.Start(data), Reset(stats, s, qs)), dec, qs, s, o[0], ResetPreds(|dec|)).ok
    ensures !ReadScan(stats, data, dec, qs, s, o, num).ok
  {
    hide ReadInterval, Reset;
  }

  lemma IntervalRoundTrip(stats: seq<byte>, data: seq<byte>, dec: Image, img: Image, qs: seq<Component>, s: Scan,
      refs: seq<Ref>, p: Progress)
    requires StatsOk(stats) && SameShape(img, dec) && |qs| == |img| && ShortsAll(img)
    requires Shaped(p, |img|) && ScanOk(p, s, |img|)
    requires RefsOk(refs, img, s) && RefsOk(refs, dec, s) && NoRepeats(refs)
    requires s.ss != 0 ==> forall i :: 0 <= i < |refs| ==> AtPrecision(dec, img, p, refs[i])
    requires var seg := Segment(stats, IntervalTrace(img, qs, s, refs, ResetPreds(|img|)));
      |seg| <= |data| && data[..|seg|] == seg && IsMarker(data[|seg|..])
    ensures ReadInterval(DecCoder(QmDecoder.Start(data), stats), dec, qs, s, refs, ResetPreds(|dec|)).ok
      <==> AllFit(img, qs, s, refs, ResetPreds(|img|))
    ensures AllFit(img, qs, s, refs, ResetPreds(|img|)) ==>
      var ts := IntervalTrace(img, qs, s, refs, ResetPreds(|img|));
      var r := ReadInterval(DecCoder(QmDecoder.Start(data), stats), dec, qs, s, refs, ResetPreds(|dec|));
      && r.d == DecodeAll(DecCoder(QmDecoder.Start(data), stats), ts)
      && r.d.stats == EncodeAll(EncCoder(QmEncoder.START, stats), ts).stats
      && (forall x :: Within(img, x) && x !in refs ==> Get(r.dec, x) == Get(dec, x))
      && (forall x :: Within(img, x) && x in refs && AtPrecision(dec, img, p, x) ==>
        AtPrecision(r.dec, img, Sent(p, s, |img|), x))
  {
    hide Segment, QmCoder.Decode, QmCoder.Encode, IntervalTrace, ReadInterval, AtPrecision, Sent, IsMarker, AllFit;
    var ps := ResetPreds(|img|);
    var ts := IntervalTrace(img, qs, s, refs, ps);
    var seg := Segment(stats, ts);
    assert data == seg + data[|seg|..];
    RoundTrip(stats, ts, data[|seg|..]);
    IntervalMeaning(DecCoder(QmDecoder.Start(data), stats), dec, img, qs, s, refs, ps, ps, p);
  }

  lemma FlatMember(o: Order, i: nat, x: Ref)
    requires i < |o| && x in o[i]
    ensures x in Flat(o)
  {
    if i > 0 { FlatMember(o[1..], i - 1, x); }
  }

  lemma NoRepeatsSplit(a: seq<Ref>, b: seq<Ref>)
    requires NoRepeats(a + b)
    ensures NoRepeats(a) && NoRepeats(b) && forall x :: x in a ==> x !in b
  {
    forall i, j | 0 <= i < j < |a| ensures a[i] != a[j] {
      assert (a + b)[i] == a[i] && (a + b)[j] == a[j];
    }
    forall i, j | 0 <= i < j < |b| ensures b[i] != b[j] {
      assert (a + b)[|a| + i] == b[i] && (a + b)[|a| + j] == b[j];
    }
    forall i, j | 0 <= i < |a| && 0 <= j < |b| ensures a[i] != b[j] {
      assert (a + b)[i] == a[i] && (a + b)[|a| + j] == b[j];
    }
  }

  lemma SameShapeOrder(o: Order, img: Image, dec: Image, s: Scan)
    requires SameShape(img, dec) && OrderOk(o, img, s)
    ensures OrderOk(o, dec, s)
  {
    forall i | 0 <= i < |o| ensures RefsOk(o[i], dec, s) {
      assert RefsOk(o[i], img, s);
    }
  }

  /** What a scan needs from the image decoded so far, and from the order of its blocks. */
  ghost predicate Ready(dec: Image, img: Image, s: Scan, o: Order, p: Progress) {
    && SameShape(img, dec) && Shaped(p, |img|) && OrderOk(o, img, s) && NoRepeats(Flat(o))
    && (s.ss != 0 ==> forall i, j :: 0 <= i < |o| && 0 <= j < |o[i]| ==>
          Within(img, o[i][j]) && AtPrecision(dec, img, p, o[i][j]))
  }

  /** Can a decoder take all DC differences of the scan? */
  predicate ScanFits(img: Image, qs: seq<Component>, s: Scan, o: Order)
    requires ScanShape(s, qs, |img|) && ShortsAll(img) && OrderOk(o, img, s)
  {
    forall i :: 0 <= i < |o| ==> AllFit(img, qs, s, o[i], ResetPreds(|img|))
  }

  /** A scan brings each of its blocks to the precision of the scan and leaves the others alone,
      and both sides end with the same statistics. */
  lemma {:induction false} ScanMeaning(stats: seq<byte>, data: seq<byte>, dec: Image, img: Image, qs: seq<Component>,
      s: Scan, o: Order,
      p: Progress, num: nat)
    requires StatsOk(stats) && |qs| == |img| && ShortsAll(img) && num < 8
    requires Ready(dec, img, s, o, p) && ScanOk(p, s, |img|)
    requires ScanShape(s, qs, |img|) && OrderOk(o, dec, s)
    requires Delivered(CodeScan(stats, img, qs, s, o).0, num, data)
    ensures ReadScan(stats, data, dec, qs, s, o, num).ok <==> ScanFits(img, qs, s, o)
    ensures ScanFits(img, qs, s, o) ==> var r := ReadScan(stats, data, dec, qs, s, o, num);
      && r.stats == CodeScan(stats, img, qs, s, o).1
      && (forall x :: Within(img, x) && x !in Flat(o) ==> Get(r.dec, x) == Get(dec, x))
      && (forall x :: Within(img, x) && x in Flat(o) && AtPrecision(dec, img, p, x)
            ==> AtPrecision(r.dec, img, Sent(p, s, |img|), x))
    decreases |o|
  {
    hide Segment, QmCoder.Decode, QmCoder.Encode, IntervalTrace, ReadInterval, AtPrecision, Sent, IsMarker, Reset,
      StatsOk, AllFit, ScanFits,
      Delivered, ReadScan;
    if |o| == 0 {
      NothingMisfits(img, qs, s, o);
      NothingToRead(stats, data, dec, qs, s, o, num);
    } else {
      var st := Reset(stats, s, qs);
      var ts := IntervalTrace(img, qs, s, o[0], ResetPreds(|img|));
      var segs := CodeScan(stats, img, qs, s, o).0;
      assert segs[0] == Segment(st, ts);
      NoRepeatsSplit(o[0], Flat(o[1..]));
      assert RefsOk(o[0], img, s) && RefsOk(o[0], dec, s);
      var rest, next := AfterFirst(segs, num, data);
      assert data[..|segs[0]|] == segs[0] && data[|segs[0]|..] == rest;
      IntervalRoundTrip(st, data, dec, img, qs, s, o[0], p);
      FitsFirst(img, qs, s, o);
      var r := ReadInterval(DecCoder(QmDecoder.Start(data), st), dec, qs, s, o[0], ResetPreds(|dec|));
      if !AllFit(img, qs, s, o[0], ResetPreds(|img|)) {
        FirstFails(stats, data, dec, qs, s, o, num);
        return;
      }
      SegmentStats(st, ts);
      if |o| > 1 { SegmentAhead(st, ts, RST0 + num, next); }
      ReadNextInterval(stats, data, dec, qs, s, o, num, next);
      RestReady(dec, r.dec, img, s, o, p);
      SameShapeOrder(o[1..], img, r.dec, s);
      ScanMeaning(r.d.stats, next, r.dec, img, qs, s, o[1..], p, (num + 1) % 8);
      if !ScanFits(img, qs, s, o[1..]) { return; }
      var q := Sent(p, s, |img|);
      var last := ReadScan(r.d.stats, next, r.dec, qs, s, o[1..], (num + 1) % 8).dec;
      forall x | Within(img, x) && x in Flat(o) && AtPrecision(dec, img, p, x)
        ensures AtPrecision(last, img, q, x)
      {
        if x in o[0] { AtSame(r.dec, last, img, q, x); } else { AtSame(dec, r.dec, img, p, x); }
      }
    }
  }

  lemma NothingMisfits(img: Image, qs: seq<Component>, s: Scan, o: Order)
    requires ScanShape(s, qs, |img|) && ShortsAll(img) && |o| == 0
    ensures ScanFits(img, qs, s, o)
  {
  }

  lemma FitsFirst(img: Image, qs: seq<Component>, s: Scan, o: Order)
    requires ScanShape(s, qs, |img|) && ShortsAll(img) && OrderOk(o, img, s) && |o| > 0 && OrderOk(o[1..], img, s)
    ensures ScanFits(img, qs, s, o) <==> AllFit(img, qs, s, o[0], ResetPreds(|img|)) && ScanFits(img, qs, s, o[1..])
  {
    if AllFit(img, qs, s, o[0], ResetPreds(|img|)) && ScanFits(img, qs, s, o[1..]) {
      forall i | 0 <= i < |o| ensures AllFit(img, qs, s, o[i], ResetPreds(|img|)) {
        if i > 0 { assert o[i] == o[1..][i - 1]; }
      }
    }
  }

  lemma RestReady(dec: Image, dec1: Image, img: Image, s: Scan, o: Order, p: Progress)
    requires Ready(dec, img, s, o, p) && |o| > 0 && SameShape(img, dec1)
    requires forall x :: Within(img, x) && x !in o[0] ==> Get(dec1, x) == Get(dec, x)
    ensures Ready(dec1, img, s, o[1..], p)
  {
    hide AtPrecision;
    NoRepeatsSplit(o[0], Flat(o[1..]));
    assert OrderOk(o[1..], img, s);
    if s.ss != 0 {
      forall i, j | 0 <= i < |o[1..]| && 0 <= j < |o[1..][i]|
        ensures Within(img, o[1..][i][j]) && AtPrecision(dec1, img, p, o[1..][i][j])
      {
        var x := o[i + 1][j];
        assert Within(img, x) && AtPrecision(dec, img, p, x);
        FlatMember(o[1..], i, x);
        AtSame(dec, dec1, img, p, x);
      }
    }
  }

  lemma AtSame(dec: Image, dec1: Image, img: Image, p: Progress, x: Ref)
    requires SameShape(img, dec) && SameShape(img, dec1) && Shaped(p, |img|) && Within(img, x)
    requires Get(dec1, x) == Get(dec, x) && AtPrecision(dec, img, p, x)
    ensures AtPrecision(dec1, img, p, x)
  {
  }

  // ----- All scans -----

  predicate ScriptShape(script: seq<Scan>, orders: seq<Order>, img: Image, qs: seq<Component>) {
    |orders| == |script| && forall j :: 0 <= j < |script| ==>
      ScanShape(script[j], qs, |img|) && OrderOk(orders[j], img, script[j])
  }

  /** The segments of every scan. */
  function CodeImage(stats: seq<byte>, img: Image, qs: seq<Component>, script: seq<Scan>,
      orders: seq<Order>): (r: seq<seq<seq<byte>>>)
    requires StatsOk(stats) && ShortsAll(img) && ScriptShape(script, orders, img, qs)
    ensures |r| == |script|
    decreases |script|
  {
    if |script| == 0 then []
    else
      var (segs, st) := CodeScan(stats, img, qs, script[0], orders[0]);
      [segs] + CodeImage(st, img, qs, script[1..], orders[1..])
  }

  function ReadImage(stats: seq<byte>, data: seq<seq<byte>>, dec: Image, qs: seq<Component>, script: seq<Scan>,
      orders: seq<Order>): (r: ScanResult)
    requires StatsOk(stats) && ScriptShape(script, orders, dec, qs)
    requires |data| == |script|
    ensures SameShape(dec, r.dec)
    decreases |script|
  {
    if |script| == 0 then ScanResult(dec, stats, true)
    else
      var r := ReadScan(stats, data[0], dec, qs, script[0], orders[0], 0);
      if r.ok then
        RestShape(script, orders, dec, r.dec, qs);
        ReadImage(r.stats, data[1..], r.dec, qs, script[1..], orders[1..])
      else r
  }

  lemma RestShape(script: seq<Scan>, orders: seq<Order>, img: Image, dec: Image, qs: seq<Component>)
    requires |script| > 0 && ScriptShape(script, orders, img, qs) && SameShape(img, dec)
    ensures ScriptShape(script[1..], orders[1..], dec, qs)
  {
    forall j | 0 <= j < |script[1..]|
      ensures ScanShape(script[1..][j], qs, |dec|) && OrderOk(orders[1..][j], dec, script[1..][j])
    {
      assert ScanShape(script[j + 1], qs, |img|) && OrderOk(orders[j + 1], img, script[j + 1]);
      SameShapeOrder(orders[j + 1], img, dec, script[j + 1]);
    }
  }

  ghost predicate DeliveredAll(scans: seq<seq<seq<byte>>>, data: seq<seq<byte>>) {
    |data| == |scans| && forall j :: 0 <= j < |data| ==> Delivered(scans[j], 0, data[j])
  }

  /** No scan repeats a block; the kept (real) blocks appear in every scan of their component, and only
      they appear in AC scans (the others are the padding of interleaved DC scans). */
  ghost predicate Covers(script: seq<Scan>, orders: seq<Order>, img: Image, kept: set<Ref>) {
    && |orders| == |script|
    && (forall x :: x in kept ==> Within(img, x))
    && (forall j :: 0 <= j < |script| ==> NoRepeats(Flat(orders[j])))
    && (forall j, x :: 0 <= j < |script| && x in kept && x.c in script[j].comps ==> x in Flat(orders[j]))
    && (forall j, x :: 0 <= j < |script| && script[j].ss != 0 && x in Flat(orders[j]) ==> x in kept)
  }

  ghost predicate AllAt(dec: Image, img: Image, p: Progress, kept: set<Ref>)
    requires SameShape(img, dec) && Shaped(p, |img|) && forall x :: x in kept ==> Within(img, x)
  {
    forall x :: x in kept ==> AtPrecision(dec, img, p, x)
  }

  lemma FirstReady(dec: Image, img: Image, qs: seq<Component>, script: seq<Scan>, orders: seq<Order>, kept: set<Ref>,
      p: Progress)
    requires SameShape(img, dec) && Shaped(p, |img|) && |script| > 0
    requires ScriptShape(script, orders, img, qs) && Covers(script, orders, img, kept) && AllAt(dec, img, p, kept)
    ensures Ready(dec, img, script[0], orders[0], p)
  {
    hide AtPrecision;
    var s, o := script[0], orders[0];
    if s.ss != 0 {
      forall i, j | 0 <= i < |o| && 0 <= j < |o[i]|
        ensures Within(img, o[i][j]) && AtPrecision(dec, img, p, o[i][j])
      {
        FlatMember(o, i, o[i][j]);
      }
    }
  }

  lemma RestCovers(script: seq<Scan>, orders: seq<Order>, img: Image, kept: set<Ref>)
    requires |script| > 0 && Covers(script, orders, img, kept)
    ensures Covers(script[1..], orders[1..], img, kept)
  {
  }

  lemma FlatShape(o: Order, img: Image, s: Scan, x: Ref)
    requires OrderOk(o, img, s) && x in Flat(o)
    ensures Within(img, x) && x.c in s.comps
  {
    if x in o[0] {
      assert RefsOk(o[0], img, s);
    } else {
      forall i | 0 <= i < |o[1..]| ensures RefsOk(o[1..][i], img, s) {
        assert RefsOk(o[i + 1], img, s);
      }
      FlatShape(o[1..], img, s, x);
    }
  }

  /** After one scan all kept blocks are at the precision recorded for it. */
  lemma ScanKeepsAll(dec: Image, dec1: Image, img: Image, s: Scan, o: Order, kept: set<Ref>, p: Progress)
    requires SameShape(img, dec) && SameShape(img, dec1) && Shaped(p, |img|) && OrderOk(o, img, s)
    requires forall x :: x in kept ==> Within(img, x)
    requires forall x :: x in kept && x.c in s.comps ==> x in Flat(o)
    requires AllAt(dec, img, p, kept)
    requires forall x :: Within(img, x) && x !in Flat(o) ==> Get(dec1, x) == Get(dec, x)
    requires forall x :: (Within(img, x) && x in Flat(o) && AtPrecision(dec, img, p, x)
                          ==> AtPrecision(dec1, img, Sent(p, s, |img|), x))
    ensures AllAt(dec1, img, Sent(p, s, |img|), kept)
  {
    forall x | x in kept ensures AtPrecision(dec1, img, Sent(p, s, |img|), x) {
      if x !in Flat(o) {
        AtSame(dec, dec1, img, p, x);
        assert Sent(p, s, |img|)[x.c] == p[x.c];
      }
    }
  }

  /** Can a decoder take all DC differences of the image? They may not exceed 0x8000 in magnitude. */
  predicate DiffsFit(img: Image, qs: seq<Component>, script: seq<Scan>, orders: seq<Order>)
    requires ShortsAll(img) && ScriptShape(script, orders, img, qs)
  {
    forall j :: 0 <= j < |script| ==> ScanFits(img, qs, script[j], orders[j])
  }

  lemma DiffsFirst(img: Image, qs: seq<Component>, script: seq<Scan>, orders: seq<Order>)
    requires ShortsAll(img) && ScriptShape(script, orders, img, qs) && |script| > 0
    requires ScriptShape(script[1..], orders[1..], img, qs)
    ensures DiffsFit(img, qs, script, orders) <==>
      ScanFits(img, qs, script[0], orders[0]) && DiffsFit(img, qs, script[1..], orders[1..])
  {
    hide ScanFits;
    if ScanFits(img, qs, script[0], orders[0]) && DiffsFit(img, qs, script[1..], orders[1..]) {
      forall j | 0 <= j < |script| ensures ScanFits(img, qs, script[j], orders[j]) {
        if j > 0 { assert script[j] == script[1..][j - 1] && orders[j] == orders[1..][j - 1]; }
      }
    }
  }

  lemma {:induction false} ImageMeaning(stats: seq<byte>, data: seq<seq<byte>>, dec: Image, img: Image,
      qs: seq<Component>,
      script: seq<Scan>, orders: seq<Order>, kept: set<Ref>, p: Progress)
    requires StatsOk(stats) && SameShape(img, dec) && ShortsAll(img) && Shaped(p, |img|)
    requires ScriptShape(script, orders, img, qs) && ScriptShape(script, orders, dec, qs)
    requires Covers(script, orders, img, kept) && ScansOk(p, script, |img|) && AllAt(dec, img, p, kept)
    requires DeliveredAll(CodeImage(stats, img, qs, script, orders), data)
    ensures ReadImage(stats, data, dec, qs, script, orders).ok <==> DiffsFit(img, qs, script, orders)
    ensures DiffsFit(img, qs, script, orders) ==> var r := ReadImage(stats, data, dec, qs, script, orders);
      AllAt(r.dec, img, AllSent(p, script, |img|), kept)
    decreases |script|
  {
    hide AtPrecision, AllAt, CodeScan, ReadScan, Delivered, Ready, Sent, ScanOk, StatsOk, Covers, BandOk, ScanFits;
    if |script| > 0 {
      var s, o := script[0], orders[0];
      assert ScanShape(s, qs, |img|) && OrderOk(o, img, s) && OrderOk(o, dec, s);
      var scans := CodeImage(stats, img, qs, script, orders);
      var (segs, st) := CodeScan(stats, img, qs, s, o);
      assert scans == [segs] + CodeImage(st, img, qs, script[1..], orders[1..]);
      FirstReady(dec, img, qs, script, orders, kept, p);
      assert Delivered(segs, 0, data[0]);
      ScanMeaning(stats, data[0], dec, img, qs, s, o, p, 0);
      var r := ReadScan(stats, data[0], dec, qs, s, o, 0);
      RestShape(script, orders, img, img, qs);
      DiffsFirst(img, qs, script, orders);
      if !r.ok { return; }
      CoversFirst(script, orders, img, kept);
      ScanKeepsAll(dec, r.dec, img, s, o, kept, p);
      RestCovers(script, orders, img, kept);
      RestShape(script, orders, dec, r.dec, qs);
      RestDeliveredAll(scans, data);
      ImageMeaning(st, data[1..], r.dec, img, qs, script[1..], orders[1..], kept, Sent(p, s, |img|));
    }
  }

  lemma CoversFirst(script: seq<Scan>, orders: seq<Order>, img: Image, kept: set<Ref>)
    requires |script| > 0 && Covers(script, orders, img, kept)
    ensures forall x :: x in kept ==> Within(img, x)
    ensures forall x :: x in kept && x.c in script[0].comps ==> x in Flat(orders[0])
  {
  }

  lemma RestDeliveredAll(scans: seq<seq<seq<byte>>>, data: seq<seq<byte>>)
    requires DeliveredAll(scans, data) && |scans| > 0
    ensures DeliveredAll(scans[1..], data[1..])
  {
  }

  /** The image before any scan: all zeros. */
  function Blank(img: Image): (dec: Image)
    ensures SameShape(img, dec)
    ensures forall x :: Within(img, x) ==> forall k :: 0 <= k < 64 ==> Get(dec, x)[k] == 0
  {
    seq(|img|, c requires 0 <= c < |img| =>
      var row: seq<Block> := seq(|img[c]|, b => seq(64, k => 0)); row)
  }

  /** Main result: whatever the script, the image and the order of its blocks, every coefficient
      of the decoded image is the original at the last bit position that the script sent, or zero
      if it was never sent. */
  lemma ProgressiveRoundTrip(stats: seq<byte>, data: seq<seq<byte>>, img: Image, qs: seq<Component>,
      script: seq<Scan>, orders: seq<Order>, kept: set<Ref>)
    requires StatsOk(stats) && ShortsAll(img) && Accepted(script, |img|)
    requires ScriptShape(script, orders, img, qs) && Covers(script, orders, img, kept)
    requires DeliveredAll(CodeImage(stats, img, qs, script, orders), data)
    ensures ScriptShape(script, orders, Blank(img), qs)
    ensures ReadImage(stats, data, Blank(img), qs, script, orders).ok <==> DiffsFit(img, qs, script, orders)
    ensures DiffsFit(img, qs, script, orders) ==> var r := ReadImage(stats, data, Blank(img), qs, script, orders);
      forall x, k: Index :: x in kept ==>
           Get(r.dec, x)[k] == Target(Get(img, x)[k], k, AllSent(Unsent(|img|), script, |img|)[x.c][k])
  {
    hide ReadImage, CodeImage, ScansOk, AllSent, DeliveredAll, DiffsFit;
    var dec := Blank(img);
    forall j | 0 <= j < |script| ensures ScanShape(script[j], qs, |dec|) && OrderOk(orders[j], dec, script[j]) {
      SameShapeOrder(orders[j], img, dec, script[j]);
    }
    assert AllAt(dec, img, Unsent(|img|), kept);
    ImageMeaning(stats, data, dec, img, qs, script, orders, kept, Unsent(|img|));
  }

  /** A script that sends every coefficient down to bit position 0 loses nothing. */
  lemma ProgressiveLossless(stats: seq<byte>, data: seq<seq<byte>>, img: Image, qs: seq<Component>,
      script: seq<Scan>, orders: seq<Order>, kept: set<Ref>)
    requires StatsOk(stats) && ShortsAll(img) && Accepted(script, |img|)
    requires ScriptShape(script, orders, img, qs) && Covers(script, orders, img, kept)
    requires DeliveredAll(CodeImage(stats, img, qs, script, orders), data)
    requires forall c, k :: 0 <= c < |img| && 0 <= k < 64 ==> AllSent(Unsent(|img|), script, |img|)[c][k] == 0
    ensures ScriptShape(script, orders, Blank(img), qs)
    ensures ReadImage(stats, data, Blank(img), qs, script, orders).ok <==> DiffsFit(img, qs, script, orders)
    ensures DiffsFit(img, qs, script, orders) ==> var r := ReadImage(stats, data, Blank(img), qs, script, orders);
      forall x :: x in kept ==> Get(r.dec, x) == Get(img, x)
  {
    hide ReadImage, CodeImage, ScansOk, AllSent, Get, DiffsFit;
    ProgressiveRoundTrip(stats, data, img, qs, script, orders, kept);
    if !DiffsFit(img, qs, script, orders) { return; }
    var dec := ReadImage(stats, data, Blank(img), qs, script, orders).dec;
    forall x | x in kept ensures Get(dec, x) == Get(img, x) {
      forall k: Index ensures Get(dec, x)[k] == Get(img, x)[k] {
        FullPrecision(Get(img, x)[k], k);
      }
    }
  }

  lemma FullPrecision(x: int, k: nat)
    ensures Target(x, k, 0) == x
  {
  }

  // ----- An image that is refused -----

  const ZEROS: Block := seq(64, k => 0)

  /** Two blocks whose DC coefficients are at the ends of the 16-bit range, sent in one scan. */
  const JUMP: Image := [[ZEROS[0 := 0x7FFF], ZEROS[0 := -0x8000]]]
  const JUMP_SCRIPT: seq<Scan> := [Scan([0], 0, 0, 0, 0)]
  const JUMP_REFS: seq<Ref> := [Ref(0, 0), Ref(0, 1)]
  const JUMP_ORDERS: seq<Order> := [[JUMP_REFS]]

  lemma JumpAccepted()
    ensures Accepted(JUMP_SCRIPT, 1)
  {
    var p := Unsent(1);
    assert JUMP_SCRIPT[1..] == [];
    assert ComponentOk(p[0], JUMP_SCRIPT[0]);
    assert AllSent(p, JUMP_SCRIPT, 1) == Sent(p, JUMP_SCRIPT[0], 1);
    assert SentRow(p[0], JUMP_SCRIPT[0])[0] == 0;
  }

  lemma JumpShape(q: Component)
    ensures ShortsAll(JUMP) && ScriptShape(JUMP_SCRIPT, JUMP_ORDERS, JUMP, [q])
  {
    assert RefsOk(JUMP_REFS, JUMP, JUMP_SCRIPT[0]);
  }

  lemma JumpMisfit(q: Component)
    ensures ShortsAll(JUMP) && ScriptShape(JUMP_SCRIPT, JUMP_ORDERS, JUMP, [q])
    ensures !DiffsFit(JUMP, [q], JUMP_SCRIPT, JUMP_ORDERS)
  {
    JumpShape(q);
    var s, ps := JUMP_SCRIPT[0], ResetPreds(1);
    assert JUMP_ORDERS[0][0] == JUMP_REFS && JUMP_REFS[1..] == [Ref(0, 1)];
    JumpSecond(q, s, ps[0]);
    assert !AllFit(JUMP, [q], s, JUMP_REFS, ps);
    assert !ScanFits(JUMP, [q], s, JUMP_ORDERS[0]);
  }

  lemma JumpSecond(q: Component, s: Scan, p: Pred)
    requires s == JUMP_SCRIPT[0] && p == Pred(0, 0)
    ensures !Fits(JUMP[0][1], s, NextPred(JUMP[0][0], q, s, p))
  {
    assert Pow2(0) == 1;
    hide Pow2;
  }

  /** No decoder takes it, although the script is accepted and every coefficient has 16 bits. */
  lemma JumpRefused(stats: seq<byte>, data: seq<seq<byte>>, q: Component)
    requires StatsOk(stats)
    ensures Accepted(JUMP_SCRIPT, 1) && ShortsAll(JUMP) && ScriptShape(JUMP_SCRIPT, JUMP_ORDERS, JUMP, [q])
    ensures ScriptShape(JUMP_SCRIPT, JUMP_ORDERS, Blank(JUMP), [q])
    ensures DeliveredAll(CodeImage(stats, JUMP, [q], JUMP_SCRIPT, JUMP_ORDERS), data) ==>
      !ReadImage(stats, data, Blank(JUMP), [q], JUMP_SCRIPT, JUMP_ORDERS).ok
  {
    hide ReadImage, CodeImage, Accepted, DeliveredAll, DiffsFit, Delivered;
    JumpAccepted();
    JumpMisfit(q);
    JumpCovers();
    JumpBlank(q);
    if DeliveredAll(CodeImage(stats, JUMP, [q], JUMP_SCRIPT, JUMP_ORDERS), data) {
      ProgressiveRoundTrip(stats, data, JUMP, [q], JUMP_SCRIPT, JUMP_ORDERS, {Ref(0, 0), Ref(0, 1)});
    }
  }

  lemma JumpBlank(q: Component)
    requires ScriptShape(JUMP_SCRIPT, JUMP_ORDERS, JUMP, [q])
    ensures ScriptShape(JUMP_SCRIPT, JUMP_ORDERS, Blank(JUMP), [q])
  {
    SameShapeOrder(JUMP_ORDERS[0], JUMP, Blank(JUMP), JUMP_SCRIPT[0]);
  }

  lemma JumpCovers()
    ensures Covers(JUMP_SCRIPT, JUMP_ORDERS, JUMP, {Ref(0, 0), Ref(0, 1)})
  {
    var o := JUMP_ORDERS[0];
    assert o[1..] == [] && Flat(o) == JUMP_REFS + [] == JUMP_REFS;
    assert JUMP_REFS[0] == Ref(0, 0) && JUMP_REFS[1] == Ref(0, 1);
  }
}
