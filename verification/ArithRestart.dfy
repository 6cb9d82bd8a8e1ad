/** Between two segments the arithmetic decoder finds the restart marker, however much of the segment it
    has read. */
module ArithRestart {
  import opened Bits
  import opened QmCoder
  import opened QmDecoder
  import opened QmRoundTrip
  import opened Restart

  lemma FetchAhead(d: Dec)
    requires Valid(d) && d.a < 0x8000
    ensures MarkerAhead(Fetch(d).src) == MarkerAhead(d.src)
  {
    hide NextData, MarkerAhead;
    AheadStays(d.src);
  }

  lemma {:induction false} FillAhead(d: Dec)
    requires Valid(d)
    ensures MarkerAhead(Fill(d).src) == MarkerAhead(d.src)
    decreases if d.a == 0 then 0x10000 - d.ct else 0x10000 - d.a
  {
    hide NextData, MarkerAhead;
    if d.a < 0x8000 {
      FetchAhead(d);
      FillAhead(Fetch(d));
    }
  }

  lemma DecodeAhead(c: DecCoder, st: Addr)
    ensures MarkerAhead(QmCoder.Decode(c, st).0.reg.src) == MarkerAhead(c.reg.src)
  {
    hide NextData, MarkerAhead, Fill;
    if c.Ok() { FillAhead(c.reg); }
  }

  /** However many decisions are decoded, the next marker is the same. */
  lemma {:induction false} RunAhead(c: DecCoder, ts: seq<Decision>)
    ensures MarkerAhead(DecodeAll(c, ts).reg.src) == MarkerAhead(c.reg.src)
    decreases |ts|
  {
    hide MarkerAhead, QmCoder.Decode;
    if |ts| > 0 {
      DecodeAhead(c, ts[0].st);
      RunAhead(QmCoder.Decode(c, ts[0].st).0, ts[1..]);
    }
  }

  /** After the decisions of a segment, the next marker is the one behind the segment. */
  lemma SegmentAhead(stats: seq<byte>, ts: seq<Decision>, m: byte, rest: seq<byte>)
    requires StatsOk(stats) && m != 0 && m != 0xFF
    ensures MarkerAhead(DecodeAll(DecCoder(Start(Segment(stats, ts) + ([0xFF, m] + rest)), stats), ts).reg.src) ==
      Source(rest, m)
  {
    hide MarkerAhead, DecodeAll, Segment;
    SegmentBytes(stats, ts);
    MarkerAfter(Segment(stats, ts), m, rest);
    RunAhead(DecCoder(Start(Segment(stats, ts) + ([0xFF, m] + rest)), stats), ts);
  }
}
