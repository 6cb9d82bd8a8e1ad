/** The arithmetic decoder follows the encoder: every decision comes back, and every statistics
    bin takes the same values on both sides. */
module QmRoundTrip {
  import opened Bits
  import opened Stuffing
  import opened ArithTable
  import opened QmEncoder
  import opened QmInterval
  import opened QmFinish
  import opened QmDecoder
  import opened QmCoder

  // ----- Reading a stuffed segment -----

  /** A marker, possibly preceded by fill bytes. */
  predicate IsMarker(t: seq<byte>) {
    |t| >= 2 && t[0] == 0xFF && (if t[1] == 0xFF then IsMarker(t[1..]) else t[1] != 0)
  }

  /** m data bytes of x have been read from a segment that a marker ends. */
  ghost predicate ReaderAt(src: Source, x: seq<byte>, m: nat, tail: seq<byte>) {
    if src.marker != 0 then m >= |x|
    else
      && m <= |x| && |tail| <= |src.input|
      && src.input[|src.input| - |tail|..] == tail
      && var s := src.input[..|src.input| - |tail|];
         WellStuffed(s) && Unstuff(s) == x[m..]
  }

  lemma {:induction false} SkipToMarker(t: seq<byte>)
    requires IsMarker(t)
    ensures SkipFill(t[1..]).0 != 0
  {
    if t[1] == 0xFF {
      SkipToMarker(t[1..]);
      assert t[1..][1..] == GetByte(t[1..]).1;
    }
  }

  /** Reading from inside a stuffed segment takes one data byte off its front. */
  lemma NextOfStuffed(s: seq<byte>, t: seq<byte>)
    requires |s| > 0 && WellStuffed(s)
    ensures |s| >= Width(s) && NextData(Source(s + t, 0)) == (s[0], Source(s[Width(s)..] + t, 0))
  {
    FirstData(s);
    hide WellStuffed, Unstuff, NextData, SkipFill;
    if s[0] == 0xFF {
      assert s == [0xFF, 0] + s[2..];
      ConcatAssoc([0xFF, 0], s[2..], t);
      NextOfPair(s[2..] + t);
    } else {
      assert s == [s[0]] + s[1..];
      ConcatAssoc([s[0]], s[1..], t);
      NextOfPlain(s[0], s[1..] + t);
    }
  }

  lemma NextOfPlain(b: byte, u: seq<byte>)
    requires b != 0xFF
    ensures NextData(Source([b] + u, 0)) == (b, Source(u, 0))
  {
    assert GetByte([b] + u).1 == u;
  }

  lemma NextOfPair(u: seq<byte>)
    ensures NextData(Source([0xFF, 0] + u, 0)) == (0xFF, Source(u, 0))
  {
    var z := [0] + u;
    assert GetByte([0xFF, 0] + u).1 == z;
    assert GetByte(z).1 == u;
    assert SkipFill(z) == (0, u);
  }

  /** The next data byte is the next byte of x, or zero once x has been used up. */
  lemma ReadNext(src: Source, x: seq<byte>, m: nat, tail: seq<byte>)
    requires IsMarker(tail) && ReaderAt(src, x, m, tail)
    ensures NextData(src).0 == At(x, m) && ReaderAt(NextData(src).1, x, m + 1, tail)
  {
    hide Unstuff, WellStuffed, IsMarker;
    if src.marker == 0 {
      var n := |src.input| - |tail|;
      var s := src.input[..n];
      assert src.input == s + tail;
      if n == 0 {
        assert src.input == tail;
        EmptyUnstuff(s);
        MarkerHead(tail);
        SkipToMarker(tail);
      } else {
        FirstData(s);
        NextOfStuffed(s, tail);
        hide NextData;
        var r := s[Width(s)..];
        assert (r + tail)[..|r|] == r && (r + tail)[|r|..] == tail;
      }
    }
  }

  lemma EmptyUnstuff(s: seq<byte>)
    requires |s| == 0
    ensures WellStuffed(s) && Unstuff(s) == []
  {
  }

  lemma MarkerHead(t: seq<byte>)
    requires IsMarker(t)
    ensures |t| >= 2 && t[0] == 0xFF
  {
  }

  // ----- Decoder registers against the exact interval -----

  /** The decoder holds the distance of the code value from the base of the interval i. */
  ghost predicate Sync(i: Interval, d: Dec, x: seq<byte>, tail: seq<byte>) {
    && d.a == i.a && d.ct == Spare(i)
    && Val(x, Bytes(i)) == d.c + i.lo * Pow2(Spare(i))
    && ReaderAt(d.src, x, Bytes(i), tail)
  }

  lemma FetchSync(i: Interval, d: Dec, x: seq<byte>, tail: seq<byte>)
    requires IsMarker(tail) && Valid(d) && 0 < i.a < 0x8000 && Sync(i, d, x, tail)
    ensures Sync(Double(i), Fetch(d), x, tail)
  {
    hide NextData, ReaderAt;
    if d.ct == 0 {
      ReadNext(d.src, x, Bytes(i), tail);
      assert Pow2(0) == 1 && Pow2(7) == 128 by { Pow2Small(); }
      assert Bytes(Double(i)) == Bytes(i) + 1 && Spare(Double(i)) == 7;
    } else {
      assert Bytes(Double(i)) == Bytes(i) && Spare(Double(i)) == Spare(i) - 1;
      MulAssoc(i.lo, 2, Pow2(Spare(i) - 1));
    }
  }

  lemma {:induction false} RenormSync(e: Enc, d: Dec, x: seq<byte>, tail: seq<byte>)
    requires IsMarker(tail) && Valid(d) && Inv(e) && e.a < 0x8000 && Sync(Exact(e), d, x, tail)
    ensures Sync(Exact(Renorm(e)), Fill(d), x, tail)
    decreases 0x8000 - e.a
  {
    ShiftExact(e);
    FetchSync(Exact(e), d, x, tail);
    if Shift(e).a < 0x8000 { RenormSync(Shift(e), Fetch(d), x, tail); }
  }

  lemma {:induction false} RenormContains(e: Enc, x: seq<byte>)
    requires Inv(e) && e.a < 0x8000 && Contains(Exact(Renorm(e)), x)
    ensures Contains(Exact(e), x)
    decreases 0x8000 - e.a
  {
    ShiftExact(e);
    if Shift(e).a < 0x8000 { RenormContains(Shift(e), x); }
    DoubleContains(Exact(e), x);
  }

  /** The decoder, once renormalized, is in step with the encoder. */
  ghost predicate InStep(e: Enc, d: Dec, x: seq<byte>, tail: seq<byte>) {
    Ready(e) && Valid(d) && Sync(Exact(e), Fill(d), x, tail)
  }

  lemma StartInStep(input: seq<byte>, x: seq<byte>, tail: seq<byte>)
    requires IsMarker(tail) && ReaderAt(Source(input, 0), x, 0, tail)
    ensures Ready(QmEncoder.START) && InStep(QmEncoder.START, Start(input), x, tail)
  {
    hide Fill, ReaderAt, Inv, Val;
    StartInv();
    StartFill(input, x, tail);
    var v := Val(x, 2);
    assert Bytes(Interval(0, 0x10000, 0)) == 2 && Spare(Interval(0, 0x10000, 0)) == 0;
  }

  lemma StartFill(input: seq<byte>, x: seq<byte>, tail: seq<byte>)
    requires IsMarker(tail) && ReaderAt(Source(input, 0), x, 0, tail)
    ensures var f := Fill(Start(input));
      f.c == Val(x, 2) && f.a == 0x10000 && f.ct == 0 && ReaderAt(f.src, x, 2, tail)
  {
    hide ReaderAt, NextData;
    var d0 := Start(input);
    ReadNext(d0.src, x, 0, tail);
    var d1 := Fetch(d0);
    ReadNext(d1.src, x, 1, tail);
    var d2 := Fetch(d1);
    assert Fill(d0) == Fill(d1) == d2;
    assert Val(x, 2) == 256 * Val(x, 1) + At(x, 1) && Val(x, 1) == At(x, 0);
  }

  /** The comparison in the decoder tells on which side of the split the code value lies. */
  lemma SplitSync(i: Interval, d: Dec, x: seq<byte>, tail: seq<byte>, qe: nat, upper: bool)
    requires Sync(i, d, x, tail) && 0 < qe <= 0x5b12 && i.a >= 0x8000
    requires Contains(if upper then Interval(i.lo + (i.a - qe), qe, i.n) else Interval(i.lo, i.a - qe, i.n), x)
    ensures var temp := (i.a - qe) * Pow2(d.ct);
      && (d.c >= temp <==> upper)
      && (upper ==> Sync(Interval(i.lo + (i.a - qe), qe, i.n), d.(c := d.c - temp, a := qe), x, tail))
      && (!upper ==> Sync(Interval(i.lo, i.a - qe, i.n), d.(a := i.a - qe), x, tail))
  {
    hide Pow2, Val, ReaderAt;
    var p := Pow2(d.ct);
    assert (i.lo + (i.a - qe)) * p == i.lo * p + (i.a - qe) * p;
  }

  lemma FillIdle(d: Dec)
    requires Valid(d) && d.a >= 0x8000
    ensures Fill(d) == d
  {
  }

  lemma SyncSize(i: Interval, d: Dec, x: seq<byte>, tail: seq<byte>)
    requires Sync(i, d, x, tail)
    ensures d.a == i.a
  {
  }

  /** One decision: the decoder recovers it, updates the bin alike, and stays in step. */
  lemma DecisionInStep(e: Enc, d: Dec, x: seq<byte>, tail: seq<byte>, sv: byte, val: bool)
    requires IsMarker(tail) && ValidBin(sv) && InStep(e, d, x, tail)
    requires Contains(Exact(QmEncoder.Encode(e, sv, val).0), x)
    ensures Contains(Exact(e), x)
    ensures var (e1, sv1) := QmEncoder.Encode(e, sv, val); var (d1, sw1, b) := QmDecoder.Decode(d, sv);
      b == val && sw1 == sv1 && InStep(e1, d1, x, tail)
  {
    hide Contains, Sync, Renorm, Fill, Pow2, Low, Shifts, Qe, AfterLps, AfterMps, Pending;
    var qe, f := Qe(sv), Fill(d);
    var a := e.a - qe;
    var upper := if val != Mps(sv) then a >= qe else a < qe;
    var n := Narrow(e, qe, upper);
    if n.a < 0x8000 {
      RenormContains(n, x);
    }
    NarrowContains(Exact(e), Exact(n), x);
    SyncSize(Exact(e), f, x, tail);
    SplitSync(Exact(e), f, x, tail, qe, upper);
    var g := if upper then f.(c := f.c - a * Pow2(f.ct), a := qe) else f.(a := a);
    if n.a < 0x8000 {
      RenormSync(n, g, x, tail);
    } else {
      FillIdle(g);
    }
  }

  lemma {:induction false} RunInStep(c: EncCoder, d: DecCoder, ts: seq<Decision>, x: seq<byte>, tail: seq<byte>)
    requires IsMarker(tail) && c.Ok() && d.Ok() && c.stats == d.stats
    requires InStep(c.reg, d.reg, x, tail)
    requires Contains(Exact(EncodeAll(c, ts).reg), x)
    ensures Contains(Exact(c.reg), x)
    ensures Follows(d, ts) && DecodeAll(d, ts).stats == EncodeAll(c, ts).stats
    ensures InStep(EncodeAll(c, ts).reg, DecodeAll(d, ts).reg, x, tail)
    decreases |ts|
  {
    hide InStep, Contains, QmEncoder.Encode, QmDecoder.Decode, Ready, Valid;
    if |ts| > 0 {
      var t := ts[0];
      RunContains(QmCoder.Encode(c, t), ts[1..], x);
      DecisionInStep(c.reg, d.reg, x, tail, c.stats[t.st], t.val);
      RunInStep(QmCoder.Encode(c, t), QmCoder.Decode(d, t.st).0, ts[1..], x, tail);
    }
  }

  lemma DecisionContains(e: Enc, sv: byte, val: bool, x: seq<byte>)
    requires Ready(e) && ValidBin(sv) && Contains(Exact(QmEncoder.Encode(e, sv, val).0), x)
    ensures Contains(Exact(e), x)
  {
    var qe := Qe(sv);
    var upper := if val != Mps(sv) then e.a - qe >= qe else e.a - qe < qe;
    var n := Narrow(e, qe, upper);
    if n.a < 0x8000 { RenormContains(n, x); }
    NarrowContains(Exact(e), Exact(n), x);
  }

  /** Coding intervals are nested, so the final string lies in all of them. */
  lemma {:induction false} RunContains(c: EncCoder, ts: seq<Decision>, x: seq<byte>)
    requires c.Ok() && Contains(Exact(EncodeAll(c, ts).reg), x)
    ensures Contains(Exact(c.reg), x)
    decreases |ts|
  {
    hide Contains, QmEncoder.Encode, Ready;
    if |ts| > 0 {
      RunContains(QmCoder.Encode(c, ts[0]), ts[1..], x);
      DecisionContains(c.reg, c.stats[ts[0].st], ts[0].val, x);
    }
  }

  /** The bytes of a whole segment: the decisions ts coded from the start state with the
      statistics stats, then finished. */
  function Segment(stats: seq<byte>, ts: seq<Decision>): (s: seq<byte>)
    requires StatsOk(stats)
  {
    StartInv();
    Finish(EncodeAll(EncCoder(QmEncoder.START, stats), ts).reg).out
  }

  lemma {:induction false} StuffedFollowsAll(s: seq<byte>)
    requires WellStuffed(s)
    ensures forall i :: 0 <= i < |s| && s[i] == 0xFF ==> i + 1 < |s| && s[i + 1] == 0
  {
    forall i | 0 <= i < |s| && s[i] == 0xFF
      ensures i + 1 < |s| && s[i + 1] == 0
    {
      StuffedFollows(s, i);
    }
  }

  /** A segment contains no marker, and no zero byte at its end that is not stuffing. */
  lemma SegmentBytes(stats: seq<byte>, ts: seq<Decision>)
    requires StatsOk(stats)
    ensures var s := Segment(stats, ts);
      && (forall i :: 0 <= i < |s| && s[i] == 0xFF ==> i + 1 < |s| && s[i + 1] == 0)
      && WellStuffed(s) && NoTrailingZero(Unstuff(s))
  {
    StartInv();
    FinishContains(EncodeAll(EncCoder(QmEncoder.START, stats), ts).reg);
    StuffedFollowsAll(Segment(stats, ts));
  }

  /** No byte string in the last interval is shorter than the data of the segment. */
  lemma SegmentShortest(stats: seq<byte>, ts: seq<Decision>, y: seq<byte>)
    requires StatsOk(stats)
    ensures Ready(EncodeAll(EncCoder(QmEncoder.START, stats), ts).reg) && WellStuffed(Segment(stats, ts))
    ensures Contains(Exact(EncodeAll(EncCoder(QmEncoder.START, stats), ts).reg), y) ==>
      |Unstuff(Segment(stats, ts))| <= |y|
  {
    hide Contains, Unstuff, WellStuffed, Finish;
    StartInv();
    SegmentBytes(stats, ts);
    var e := EncodeAll(EncCoder(QmEncoder.START, stats), ts).reg;
    if Contains(Exact(e), y) { FinishShortest(e, y); }
  }

  /** A segment without decisions has no bytes. */
  lemma EmptySegment(stats: seq<byte>)
    requires StatsOk(stats)
    ensures Segment(stats, []) == []
  {
    StartInv();
    assert Contains(Exact(QmEncoder.START), []) by { assert Pow2(0) == 1; }
    SegmentShortest(stats, [], []);
    hide Finish;
    NoData(Segment(stats, []));
  }

  lemma NoData(s: seq<byte>)
    requires WellStuffed(s) && |Unstuff(s)| == 0
    ensures s == []
  {
  }

  /** Main result: whatever was coded, and whatever marker follows, decoding from the start state
      gives back every decision and leaves every statistics bin as the encoder left it. */
  lemma RoundTrip(stats: seq<byte>, ts: seq<Decision>, tail: seq<byte>)
    requires StatsOk(stats) && IsMarker(tail)
    ensures var d := DecCoder(Start(Segment(stats, ts) + tail), stats);
      && Follows(d, ts)
      && DecodeAll(d, ts).stats == EncodeAll(EncCoder(QmEncoder.START, stats), ts).stats
  {
    hide Contains, Finish, Unstuff, WellStuffed;
    StartInv();
    var c := EncCoder(QmEncoder.START, stats);
    var e := EncodeAll(c, ts).reg;
    FinishContains(e);
    var s := Segment(stats, ts);
    var x := Unstuff(s);
    assert (s + tail)[|s|..] == tail && (s + tail)[..|s|] == s;
    StartInStep(s + tail, x, tail);
    RunInStep(c, DecCoder(Start(s + tail), stats), ts, x, tail);
  }

  /** The same when both sides choose each bin from the decisions before it. */
  lemma AdaptiveRoundTrip(stats: seq<byte>, choose: seq<bool> -> Addr, vals: seq<bool>, tail: seq<byte>)
    requires StatsOk(stats) && IsMarker(tail)
    ensures var ts := Chosen(choose, vals);
      var (d, decoded) := DecodeChosen(DecCoder(Start(Segment(stats, ts) + tail), stats), choose, [], |vals|);
      decoded == vals && d.stats == EncodeAll(EncCoder(QmEncoder.START, stats), ts).stats
  {
    hide Segment, QmCoder.Decode;
    var ts := Chosen(choose, vals);
    RoundTrip(stats, ts, tail);
    assert ts[0..] == ts && vals[..0] == [];
    FollowsChosen(DecCoder(Start(Segment(stats, ts) + tail), stats), choose, vals, 0);
  }
}
