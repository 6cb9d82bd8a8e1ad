/** A sequential scan with restart intervals: each interval starts with fresh predictions and a fresh
    byte, and a restart marker stands between two intervals. */
module HuffRestart {
  import opened Bits
  import opened Coefficients
  import opened Stuffing
  import opened QmRoundTrip
  import D = QmDecoder
  import opened Restart
  import opened HuffTable
  import opened HuffBits
  import opened HuffReader
  import opened HuffWriter
  import opened HuffScan

  /** The fill bits at the end of the interval push no ones out of the accumulator. */
  ghost predicate Keeps(blocks: seq<ScanBlock>, t: Tables, n: nat)
    requires TablesOk(t, n) && AllCodable(blocks, t, n, Zero(n))
  {
    RoomFor(ScanBits(blocks, t, n, Zero(n)), ScanPending(0, blocks, t, n, Zero(n)))
  }

  ghost predicate AllOk(intervals: seq<seq<ScanBlock>>, t: Tables, n: nat) {
    TablesOk(t, n) && forall i :: 0 <= i < |intervals| ==> AllCodable(intervals[i], t, n, Zero(n))
  }

  /** The bytes of an interval: its bits and fill bits, exactly if none are lost. */
  ghost predicate SegmentOf(s: seq<byte>, blocks: seq<ScanBlock>, t: Tables, n: nat)
    requires TablesOk(t, n) && AllCodable(blocks, t, n, Zero(n))
  {
    WellStuffed(s) && (Keeps(blocks, t, n) <==>
      AllBits(Unstuff(s)) == ScanBits(blocks, t, n, Zero(n)) + Fill(FillBits(ScanPending(0, blocks, t, n, Zero(n)))))
  }

  /** One interval, from an empty accumulator to a whole number of bytes. */
  method EncodeInterval(blocks: seq<ScanBlock>, t: Tables, n: nat) returns (out: seq<byte>)
    requires TablesOk(t, n) && AllCodable(blocks, t, n, Zero(n))
    ensures SegmentOf(out, blocks, t, n)
  {
    hide TablesOk, AllCodable, ScanBits, ScanPending, RoomFor, Unstuff, WellStuffed, AllBits, RoomToFill, Fill,
      FillBits;
    var w := new BitWriter();
    EncodeSegment(w, blocks, t, n);
    out := w.out;
  }

  /** All intervals, with restart markers between them; also returns the bytes of each. */
  method EncodeScan(intervals: seq<seq<ScanBlock>>, t: Tables, n: nat) returns (out: seq<byte>, segs: seq<seq<byte>>)
    requires AllOk(intervals, t, n)
    ensures |segs| == |intervals| && out == Joined(segs, 0)
    ensures forall i :: 0 <= i < |intervals| ==> SegmentOf(segs[i], intervals[i], t, n)
  {
    hide TablesOk, AllCodable, ScanBits, ScanPending, RoomFor, Unstuff, WellStuffed, AllBits, Joined, RoomToFill,
      Marker, SegmentOf, Fill, FillBits;
    out, segs := [], [];
    var nextRestartNum: nat := 0;
    JoinedStep(segs, 0);
    for i := 0 to |intervals|
      invariant |segs| == i && out == Joined(segs, 0) && nextRestartNum == if i == 0 then 0 else (i - 1) % 8
      invariant forall j :: 0 <= j < i ==> SegmentOf(segs[j], intervals[j], t, n)
    {
      if i > 0 {
        out := out + Marker(nextRestartNum);
        NextNumber(i);
        nextRestartNum := (nextRestartNum + 1) % 8;
      }
      var s := EncodeInterval(intervals[i], t, n);
      NextSegment(segs, s);
      out := out + s;
      segs := segs + [s];
    }
  }

  // ----- Reading it back -----

  /** What was read, and whether every restart marker stood where it was expected. */
  datatype Intervals = Intervals(ok: bool, zss: seq<seq<Block>>)

  function ReadIntervals(td: seq<Table>, ta: seq<Table>, src: D.Source, css: seq<seq<nat>>, num: nat): (r: Intervals)
    requires |td| == |ta| && AllUsable(td, ta) && num < 8 && forall i :: 0 <= i < |css| ==> Below(css[i], |td|)
    decreases |css|
  {
    if |css| == 0 then Intervals(true, [])
    else
      var zs := ReadScan(td, ta, AllBits(DataOf(src)), css[0], Zero(|td|)).value;
      var m := MarkerAhead(src);
      if |css| == 1 then Intervals(true, [zs])
      else if m.marker != RST0 + num then Intervals(false, [zs])
      else
        var r := ReadIntervals(td, ta, D.Source(m.input, 0), css[1..], (num + 1) % 8);
        Intervals(r.ok, [zs] + r.zss)
  }

  function AllComponents(intervals: seq<seq<ScanBlock>>): (css: seq<seq<nat>>)
    ensures |css| == |intervals| && forall i :: 0 <= i < |css| ==> css[i] == Components(intervals[i])
  {
    seq(|intervals|, i requires 0 <= i < |intervals| => Components(intervals[i]))
  }

  function AllZigs(intervals: seq<seq<ScanBlock>>): (zss: seq<seq<Block>>)
    ensures |zss| == |intervals| && forall i :: 0 <= i < |zss| ==> zss[i] == Zigs(intervals[i])
  {
    seq(|intervals|, i requires 0 <= i < |intervals| => Zigs(intervals[i]))
  }

  lemma ComponentsBelow(intervals: seq<seq<ScanBlock>>, t: Tables, n: nat)
    requires AllOk(intervals, t, n)
    ensures |t.td| == |t.ta| == n && AllUsable(t.td, t.ta)
    ensures forall i :: 0 <= i < |intervals| ==> Below(AllComponents(intervals)[i], |t.td|)
  {
    hide AllCodable;
    TablesUsable(t, n);
    forall i | 0 <= i < |intervals| ensures Below(AllComponents(intervals)[i], |t.td|) {
      ComponentsInRange(intervals[i], t, n, Zero(n));
    }
  }

  ghost predicate AllInRange(intervals: seq<seq<ScanBlock>>) {
    forall i :: 0 <= i < |intervals| ==> ScanInRange(intervals[i])
  }

  /** Main result: the bytes of a scan with any number of restart intervals, followed by any marker,
      are decoded to exactly the blocks of the scan if and only if no AC coefficient is -32768. */
  lemma {:induction false} ScanRoundTrip(intervals: seq<seq<ScanBlock>>, t: Tables, n: nat, segs: seq<seq<byte>>,
      tail: seq<byte>, num: nat)
    requires AllOk(intervals, t, n) && |segs| == |intervals| > 0 && IsMarker(tail) && num < 8
    requires forall i :: 0 <= i < |intervals| ==> SegmentOf(segs[i], intervals[i], t, n) && Keeps(intervals[i], t, n)
    ensures |t.td| == |t.ta| == n && AllUsable(t.td, t.ta)
    ensures forall i :: 0 <= i < |intervals| ==> Below(AllComponents(intervals)[i], |t.td|)
    ensures var r := ReadIntervals(t.td, t.ta, D.Source(Joined(segs, num) + tail, 0), AllComponents(intervals), num);
      r == Intervals(true, AllZigs(intervals)) <==> AllInRange(intervals)
    decreases |intervals|
  {
    hide ScanInRange, AllCodable, ReadScan, TablesOk, ScanBits, ScanPending, RoomFor, Unstuff, WellStuffed, AllBits,
      IsMarker, AllUsable, Below, DataOf, MarkerAhead, Joined, Marker, ReadIntervals, AllInRange, AllZigs, Keeps;
    ComponentsBelow(intervals, t, n);
    var blocks, s, fill := intervals[0], segs[0], FillBits(ScanPending(0, intervals[0], t, n, Zero(n)));
    var css, src := AllComponents(intervals), D.Source(Joined(segs, num) + tail, 0);
    FirstZigs(intervals);
    JoinedStep(segs, num);
    assert css[0..] == css && css[1..] == AllComponents(intervals[1..]);
    ReadIntervalsStep(t.td, t.ta, src, css, 0, num);
    if |segs| == 1 {
      SegmentKept(blocks, t, n, s, fill);
      SegmentRoundTrip(blocks, t, n, s, fill, tail);
    } else {
      var next := Joined(segs[1..], (num + 1) % 8) + tail;
      ConcatAssoc(s, Marker(num) + Joined(segs[1..], (num + 1) % 8), tail);
      ConcatAssoc(Marker(num), Joined(segs[1..], (num + 1) % 8), tail);
      MarkerBytes(num);
      MarkerIs(RST0 + num, next);
      SegmentKept(blocks, t, n, s, fill);
      SegmentRoundTrip(blocks, t, n, s, fill, Marker(num) + next);
      MarkerAfter(s, RST0 + num, next);
      ScanRoundTrip(intervals[1..], t, n, segs[1..], tail, (num + 1) % 8);
      var zs := ReadScan(t.td, t.ta, AllBits(DataOf(src)), css[0], Zero(n)).value;
      var r := ReadIntervals(t.td, t.ta, D.Source(next, 0), css[1..], (num + 1) % 8);
      ConsEqual(zs, r.zss, Zigs(blocks), AllZigs(intervals[1..]));
    }
  }

  lemma SegmentKept(blocks: seq<ScanBlock>, t: Tables, n: nat, s: seq<byte>, fill: nat)
    requires TablesOk(t, n) && AllCodable(blocks, t, n, Zero(n)) && SegmentOf(s, blocks, t, n) && Keeps(blocks, t, n)
    requires fill == FillBits(ScanPending(0, blocks, t, n, Zero(n)))
    ensures WellStuffed(s) && AllBits(Unstuff(s)) == ScanBits(blocks, t, n, Zero(n)) + Fill(fill)
  {
  }

  lemma FirstZigs(intervals: seq<seq<ScanBlock>>)
    requires |intervals| > 0
    ensures AllZigs(intervals) == [Zigs(intervals[0])] + AllZigs(intervals[1..])
    ensures AllZigs([]) == [] && AllInRange([])
    ensures AllInRange(intervals) <==> ScanInRange(intervals[0]) && AllInRange(intervals[1..])
    ensures |intervals| == 1 ==> intervals[1..] == []
  {
    hide ScanInRange;
    if ScanInRange(intervals[0]) && AllInRange(intervals[1..]) {
      forall i | 0 <= i < |intervals| ensures ScanInRange(intervals[i]) {
        if i > 0 { assert intervals[i] == intervals[1..][i - 1]; }
      }
    }
  }

  lemma ConsEqual<T>(x: T, a: seq<T>, y: T, b: seq<T>)
    ensures [x] + a == [y] + b <==> x == y && a == b
  {
    var u, v := [x] + a, [y] + b;
    assert u[0] == x && u[1..] == a && v[0] == y && v[1..] == b;
  }

  /** Decodes the blocks of a scan, interval by interval. */
  method DecodeScan(rd: BitReader, css: seq<seq<nat>>, ghost td: seq<Table>, ghost ta: seq<Table>, d: DecoderTables,
      ghost src: D.Source)
    returns (ok: bool, zss: seq<seq<Block>>)
    requires rd.Valid() && DecodersOk(d, td, ta) && forall i :: 0 <= i < |css| ==> Below(css[i], |td|)
    requires rd.Stream() == AllBits(DataOf(src)) && rd.Ahead() == MarkerAhead(src)
    modifies rd
    ensures |td| == |ta| && AllUsable(td, ta)
    ensures var r := ReadIntervals(td, ta, src, css, 0);
      ok == r.ok && |zss| == |r.zss| && forall i :: 0 <= i < |zss| ==> SameBlocks(zss[i], r.zss[i])
  {
    hide AllUsable, Below, DataOf, MarkerAhead, AllBits, ReadScan, ReadIntervals, SameBlocks, DecodersOk,
      BitReader.Stream, BitReader.Ahead;
    DecodersUsable(d, td, ta);
    DecodersLength(d, td, ta);
    ghost var goal := ReadIntervals(td, ta, src, css, 0);
    ghost var at := src;
    ok, zss := true, [];
    var nextRestartNum: nat := 0;
    assert css[0..] == css && goal.zss[0..] == goal.zss;
    var i := 0;
    while i < |css|
      invariant i <= |css| && |zss| == i <= |goal.zss| && nextRestartNum < 8
      invariant forall j :: 0 <= j < i ==> SameBlocks(zss[j], goal.zss[j])
      invariant ReadIntervals(td, ta, at, css[i..], nextRestartNum) == Intervals(goal.ok, goal.zss[i..])
      invariant i < |css| ==> rd.Valid() && rd.Stream() == AllBits(DataOf(at)) && rd.Ahead() == MarkerAhead(at)
    {
      ReadIntervalsStep(td, ta, at, css, i, nextRestartNum);
      var zs := DecodeSegment(rd, css[i], td, ta, d);
      Matches(zs, ReadScan(td, ta, AllBits(DataOf(at)), css[i], Zero(|td|)).value);
      assert goal.zss[i..][1..] == goal.zss[i + 1..] && goal.zss[i..][0] == goal.zss[i];
      zss := zss + [zs];
      i := i + 1;
      if i < |css| {
        at := D.Source(MarkerAhead(at).input, 0);
        ok := rd.ProcessRestart(nextRestartNum);
        if !ok {
          return;
        }
        nextRestartNum := (nextRestartNum + 1) % 8;
      } else {
        NoIntervals(td, ta, at, css[i..], nextRestartNum);
      }
    }
    NoIntervals(td, ta, at, css[i..], nextRestartNum);
  }

  /** Blocks as decoded, in natural order, and as read, in zigzag order. */
  ghost predicate SameBlocks(zs: seq<Block>, r: seq<Block>) {
    |zs| == |r| && forall i :: 0 <= i < |zs| ==> Zig(zs[i]) == r[i]
  }

  lemma Matches(zs: seq<Block>, r: seq<Block>)
    requires |zs| == |r| && forall i :: 0 <= i < |zs| ==> Zig(zs[i]) == r[i]
    ensures SameBlocks(zs, r)
  {
  }

  lemma DecodersLength(d: DecoderTables, td: seq<Table>, ta: seq<Table>)
    requires DecodersOk(d, td, ta)
    ensures |td| == |ta|
  {
  }

  lemma NoIntervals(td: seq<Table>, ta: seq<Table>, src: D.Source, css: seq<seq<nat>>, num: nat)
    requires |td| == |ta| && AllUsable(td, ta) && num < 8 && |css| == 0
    ensures ReadIntervals(td, ta, src, css, num) == Intervals(true, [])
  {
  }

  lemma ReadIntervalsStep(td: seq<Table>, ta: seq<Table>, src: D.Source, css: seq<seq<nat>>, i: nat, num: nat)
    requires |td| == |ta| && AllUsable(td, ta) && num < 8 && i < |css| && forall j :: 0 <= j < |css| ==>
      Below(css[j], |td|)
    ensures ReadIntervals(td, ta, src, css[i..], num) ==
      var zs := ReadScan(td, ta, AllBits(DataOf(src)), css[i], Zero(|td|)).value;
      var m := MarkerAhead(src);
      if i + 1 == |css| then Intervals(true, [zs])
      else if m.marker != RST0 + num then Intervals(false, [zs])
      else
        var r := ReadIntervals(td, ta, D.Source(m.input, 0), css[i + 1..], (num + 1) % 8);
        Intervals(r.ok, [zs] + r.zss)
  {
    hide AllUsable, Below, DataOf, MarkerAhead, AllBits, ReadScan;
    assert css[i..][0] == css[i] && css[i..][1..] == css[i + 1..];
  }
}
