/** Restart markers: how they stand between the segments of a scan, and how a decoder goes on to the
    next one, whatever data it has left unread. */
module Restart {
  import opened Bits
  import opened Stuffing
  import opened QmRoundTrip
  import D = QmDecoder

  const RST0: byte := 0xD0

  // ----- Segments with markers between them -----

  function Marker(num: nat): (m: seq<byte>)
    requires num < 8
  {
    [0xFF, RST0 + num]
  }

  /** Segments with restart markers between them; the markers count up from num, modulo 8. */
  function Joined(segs: seq<seq<byte>>, num: nat): seq<byte>
    requires num < 8
  {
    if |segs| == 0 then []
    else if |segs| == 1 then segs[0]
    else segs[0] + (Marker(num) + Joined(segs[1..], (num + 1) % 8))
  }

  lemma JoinedStep(segs: seq<seq<byte>>, num: nat)
    requires num < 8
    ensures |segs| == 0 ==> Joined(segs, num) == []
    ensures |segs| == 1 ==> Joined(segs, num) == segs[0]
    ensures |segs| > 1 ==> Joined(segs, num) == segs[0] + (Marker(num) + Joined(segs[1..], (num + 1) % 8))
  {
  }

  lemma {:induction false} JoinedAppend(segs: seq<seq<byte>>, num: nat, s: seq<byte>)
    requires |segs| > 0 && num < 8
    ensures Joined(segs + [s], num) == Joined(segs, num) + (Marker((num + |segs| - 1) % 8) + s)
    decreases |segs|
  {
    hide Joined, Marker;
    var all := segs + [s];
    assert all[0] == segs[0] && all[1..] == segs[1..] + [s];
    JoinedStep(all, num);
    JoinedStep(segs, num);
    if |segs| > 1 {
      JoinedAppend(segs[1..], (num + 1) % 8, s);
      var m, j := Marker(num), Joined(segs[1..], (num + 1) % 8);
      var e := Marker((num + |segs| - 1) % 8) + s;
      ConcatAssoc(m, j, e);
      ConcatAssoc(segs[0], m + j, e);
    } else {
      JoinedStep(all[1..], (num + 1) % 8);
    }
  }

  lemma NextSegment(segs: seq<seq<byte>>, s: seq<byte>)
    ensures |segs| > 0 ==> Joined(segs + [s], 0) == Joined(segs, 0) + Marker((|segs| - 1) % 8) + s
    ensures |segs| == 0 ==> Joined(segs + [s], 0) == [] + s
  {
    hide Joined, Marker;
    if |segs| > 0 {
      JoinedAppend(segs, 0, s);
      ConcatAssoc(Joined(segs, 0), Marker((|segs| - 1) % 8), s);
    } else {
      JoinedStep(segs + [s], 0);
    }
  }

  lemma Regroup(s: seq<byte>, m: seq<byte>, j: seq<byte>, e: seq<byte>)
    ensures s + (m + (j + e)) == (s + (m + j)) + e
  {
    ConcatAssoc(m, j, e);
    ConcatAssoc(s, m + j, e);
  }

  /** Behind segment i stands the marker 0xD0 + i % 8. */
  lemma {:induction false} MarkerBehind(segs: seq<seq<byte>>, num: nat, i: nat)
    requires num < 8 && i + 1 < |segs|
    ensures Joined(segs, num) == Joined(segs[..i + 1], num) +
      ([0xFF, 0xD0 + (num + i) % 8] + Joined(segs[i + 1..], (num + i + 1) % 8))
    decreases i
  {
    hide Joined, Marker;
    JoinedStep(segs, num);
    JoinedStep(segs[..i + 1], num);
    MarkerBytes(num);
    if i > 0 {
      MarkerBehind(segs[1..], (num + 1) % 8, i - 1);
      Parts(segs, i);
      Modulo(num + 1, i - 1);
      Modulo(num + 1, i);
      Regroup(segs[0], Marker(num), Joined(segs[1..i + 1], (num + 1) % 8),
        [0xFF, 0xD0 + (num + i) % 8] + Joined(segs[i + 1..], (num + i + 1) % 8));
    }
  }

  lemma Parts(segs: seq<seq<byte>>, i: nat)
    requires 0 < i < |segs|
    ensures segs[1..][..i] == segs[1..i + 1] == segs[..i + 1][1..] && segs[1..][i..] == segs[i + 1..]
  {
  }

  lemma Modulo(a: nat, b: nat)
    ensures (a % 8 + b) % 8 == (a + b) % 8
  {
    var q, r := a / 8, (a % 8 + b) % 8;
    assert a + b == 8 * q + (a % 8 + b);
  }

  /** Markers are numbered modulo 8. */
  lemma NextNumber(i: nat)
    requires i > 0
    ensures ((i - 1) % 8 + 1) % 8 == i % 8
  {
  }

  lemma MarkerIs(m: byte, more: seq<byte>)
    requires m != 0 && m != 0xFF
    ensures IsMarker([0xFF, m] + more)
  {
  }

  lemma MarkerBytes(num: nat)
    requires num < 8
    ensures Marker(num) == [0xFF, RST0 + num]
  {
  }

  /** The segments of a scan, joined, and behind them a marker and anything else. */
  ghost predicate Delivered(segs: seq<seq<byte>>, num: nat, data: seq<byte>)
    requires num < 8
  {
    var n := |Joined(segs, num)|;
    n <= |data| && data[..n] == Joined(segs, num) && IsMarker(data[n..])
  }

  /** What follows the first segment: the restart marker and the other segments, or the end of the scan. */
  lemma AfterFirst(segs: seq<seq<byte>>, num: nat, data: seq<byte>) returns (rest: seq<byte>, next: seq<byte>)
    requires num < 8 && |segs| > 0 && Delivered(segs, num, data)
    ensures data == segs[0] + rest && IsMarker(rest)
    ensures |segs| > 1 ==> rest == [0xFF, RST0 + num] + next
    ensures Delivered(segs[1..], (num + 1) % 8, next)
  {
    hide Joined, Marker, IsMarker;
    var s, n := segs[0], |Joined(segs, num)|;
    var tail := data[n..];
    assert data == Joined(segs, num) + tail;
    JoinedStep(segs, num);
    JoinedStep(segs[1..], (num + 1) % 8);
    var j := Joined(segs[1..], (num + 1) % 8);
    next := j + tail;
    assert next[..|j|] == j && next[|j|..] == tail;
    if |segs| == 1 {
      rest := tail;
      assert j == [];
    } else {
      rest := [0xFF, RST0 + num] + next;
      MarkerBytes(num);
      ConcatAssoc(s, Marker(num) + j, tail);
      ConcatAssoc(Marker(num), j, tail);
      MarkerIs(RST0 + num, next);
    }
  }

  // ----- The next marker -----

  lemma {:induction false} SkipShrinks(s: seq<byte>)
    ensures D.SkipFill(s).0 == 0 ==> |D.SkipFill(s).1| < |s|
    decreases if |s| > 0 && s[0] != 0xFF then 0 else |s| + 1
  {
    var (b, t) := D.GetByte(s);
    if b == 0xFF {
      SkipShrinks(t);
      EndMarker();
    }
  }

  lemma EndMarker()
    ensures D.SkipFill([0xD9]).0 == 0xD9
  {
  }

  lemma NextShrinks(s: D.Source)
    requires s.marker == 0 && D.NextData(s).1.marker == 0
    ensures |D.NextData(s).1.input| < |s.input|
  {
    var (b, t) := D.GetByte(s.input);
    if b == 0xFF {
      SkipShrinks(t);
      EndMarker();
    }
  }

  /** The source once the next marker has been met. */
  function MarkerAhead(s: D.Source): (m: D.Source)
    ensures m.marker != 0
    decreases |s.input|
  {
    if s.marker != 0 then s
    else
      var t := D.NextData(s).1;
      if t.marker != 0 then t else NextShrinks(s); MarkerAhead(t)
  }

  lemma AheadNow(s: D.Source)
    ensures s.marker != 0 ==> MarkerAhead(s) == s
  {
  }

  /** The marker met after an 0xFF has been read. */
  function MarkerHere(t: seq<byte>): D.Source {
    var (m, u) := D.SkipFill(t);
    if m == 0 then SkipShrinks(t); MarkerAhead(D.Source(u, 0)) else D.Source(u, m)
  }

  /** Whatever data comes before a marker, reading goes on to the marker. */
  lemma {:induction false} MarkerAfter(s: seq<byte>, m: byte, rest: seq<byte>)
    requires WellStuffed(s) && m != 0 && m != 0xFF
    ensures MarkerAhead(D.Source(s + ([0xFF, m] + rest), 0)) == D.Source(rest, m)
    decreases |s|
  {
    var tail := [0xFF, m] + rest;
    if |s| == 0 {
      assert s + tail == tail;
      var u := [m] + rest;
      assert D.GetByte(tail).1 == u && D.GetByte(u).1 == rest;
      assert D.SkipFill(u) == (m, rest);
    } else {
      hide WellStuffed;
      FirstData(s);
      NextOfStuffed(s, tail);
      MarkerAfter(s[Width(s)..], m, rest);
    }
  }

  /** Reading data leads to no other marker. */
  lemma AheadStays(s: D.Source)
    ensures MarkerAhead(D.NextData(s).1) == MarkerAhead(s)
  {
    AheadNow(D.NextData(s).1);
    if s.marker == 0 {
      assert MarkerAhead(s) == MarkerAhead(D.NextData(s).1) by { hide D.NextData; }
    }
  }

  // ----- Reading up to a marker -----

  /** Reads up to an 0xFF, then to the first other byte. */
  method PastFill(input0: seq<byte>) returns (c: byte, input: seq<byte>)
    ensures if c == 0 then MarkerAhead(D.Source(input, 0)) == MarkerAhead(D.Source(input0, 0))
      else D.Source(input, c) == MarkerAhead(D.Source(input0, 0))
    ensures c == 0 ==> |input| < |input0|
  {
    c, input := D.GetByte(input0).0, D.GetByte(input0).1;
    while c != 0xFF
      invariant |input| < |input0| || (c == 0xFF && input == [0xD9])
      invariant (if c == 0xFF then MarkerHere(input) else MarkerAhead(D.Source(input, 0))) ==
        MarkerAhead(D.Source(input0, 0))
      decreases if c == 0xFF then 0 else |input| + 1
    {
      c, input := D.GetByte(input).0, D.GetByte(input).1;
    }
    ghost var s := input;
    c, input := D.GetByte(input).0, D.GetByte(input).1;
    while c == 0xFF
      invariant D.SkipFill(s) == if c == 0xFF then D.SkipFill(input) else (c, input)
      decreases if c != 0xFF then 0 else if |input| > 0 && input[0] != 0xFF then 1 else |input| + 2
    {
      c, input := D.GetByte(input).0, D.GetByte(input).1;
    }
    SkipShrinks(s);
    EndMarker();
  }

  /** next_marker: reads up to and including the next marker. */
  method NextMarker(input0: seq<byte>) returns (marker: byte, input: seq<byte>)
    ensures marker != 0 && D.Source(input, marker) == MarkerAhead(D.Source(input0, 0))
  {
    hide MarkerAhead;
    marker, input := 0, input0;
    while marker == 0
      invariant if marker == 0 then MarkerAhead(D.Source(input, 0)) == MarkerAhead(D.Source(input0, 0))
        else D.Source(input, marker) == MarkerAhead(D.Source(input0, 0))
      decreases if marker == 0 then |input| + 1 else 0
    {
      marker, input := PastFill(input);
    }
  }

  /** read_restart_marker: goes past an expected restart marker, to which the decoder may have come before;
      gives up if another marker stands there. */
  method ReadRestartMarker(input0: seq<byte>, unreadMarker0: byte, expected: byte)
    returns (ok: bool, input: seq<byte>, unreadMarker: byte)
    requires expected != 0
    ensures var ahead := MarkerAhead(D.Source(input0, unreadMarker0));
      && (ok <==> ahead.marker == expected)
      && D.Source(input, unreadMarker) == if ok then D.Source(ahead.input, 0) else ahead
  {
    hide MarkerAhead;
    AheadNow(D.Source(input0, unreadMarker0));
    input, unreadMarker := input0, unreadMarker0;
    if unreadMarker == 0 {
      unreadMarker, input := NextMarker(input);
    }
    ok := unreadMarker == expected;
    if ok {
      unreadMarker := 0;
    }
  }
}
