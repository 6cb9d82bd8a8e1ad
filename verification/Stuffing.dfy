/** Byte stuffing in entropy-coded segments: a data byte 0xFF is followed by a zero byte, so that
    0xFF followed by anything else is a marker. */
module Stuffing {
  import opened Bits

  function Stuffed(b: byte): (s: seq<byte>) {
    if b == 0xFF then [0xFF, 0] else [b]
  }

  /** Every 0xFF is followed by its stuffed zero. */
  predicate WellStuffed(s: seq<byte>) {
    if |s| == 0 then true
    else if s[0] == 0xFF then |s| >= 2 && s[1] == 0 && WellStuffed(s[2..])
    else WellStuffed(s[1..])
  }

  /** The data bytes of a segment, stuffed zeros removed. */
  function Unstuff(s: seq<byte>): (u: seq<byte>)
    requires WellStuffed(s)
  {
    if |s| == 0 then []
    else if s[0] == 0xFF then [0xFF] + Unstuff(s[2..])
    else [s[0]] + Unstuff(s[1..])
  }

  /** How many written bytes the first data byte takes. */
  function Width(s: seq<byte>): nat
    requires |s| > 0
  {
    if s[0] == 0xFF then 2 else 1
  }

  lemma FirstData(s: seq<byte>)
    requires |s| > 0
    ensures WellStuffed(s) <==> |s| >= Width(s) && (s[0] == 0xFF ==> s[1] == 0) && WellStuffed(s[Width(s)..])
    ensures WellStuffed(s) ==> Unstuff(s) == [s[0]] + Unstuff(s[Width(s)..])
  {
  }

  lemma ConcatAssoc(s: seq<byte>, u: seq<byte>, v: seq<byte>)
    ensures s + (u + v) == (s + u) + v
  {
  }

  lemma {:induction false} UnstuffConcat(s: seq<byte>, t: seq<byte>)
    requires WellStuffed(s) && WellStuffed(t)
    ensures WellStuffed(s + t) && Unstuff(s + t) == Unstuff(s) + Unstuff(t)
  {
    if |s| == 0 {
      assert s + t == t;
    } else {
      hide Unstuff, WellStuffed;
      FirstData(s);
      var k, r := Width(s), s + t;
      UnstuffConcat(s[k..], t);
      assert r[k..] == s[k..] + t;
      assert r[0] == s[0] && (k == 2 ==> r[1] == s[1]);
      FirstData(r);
      ConcatAssoc([s[0]], Unstuff(s[k..]), Unstuff(t));
    }
  }

  /** Appending one stuffed byte appends one data byte. */
  lemma UnstuffAppend(s: seq<byte>, b: byte)
    requires WellStuffed(s)
    ensures WellStuffed(s + Stuffed(b)) && Unstuff(s + Stuffed(b)) == Unstuff(s) + [b]
  {
    var t := Stuffed(b);
    FirstData(t);
    assert t[Width(t)..] == [];
    UnstuffConcat(s, t);
  }

  lemma {:induction false} UnstuffAppendZeros(s: seq<byte>, n: nat)
    requires WellStuffed(s)
    ensures WellStuffed(s + Zeros(n)) && Unstuff(s + Zeros(n)) == Unstuff(s) + Zeros(n)
  {
    if n == 0 {
      assert s + Zeros(0) == s && Unstuff(s) + Zeros(0) == Unstuff(s);
    } else {
      UnstuffAppendZeros(s, n - 1);
      UnstuffAppend(s + Zeros(n - 1), 0);
      assert s + Zeros(n) == s + Zeros(n - 1) + [0];
      assert Unstuff(s) + Zeros(n) == Unstuff(s) + Zeros(n - 1) + [0];
    }
  }

  /** n data bytes of 0xFF, each with its stuffed zero. */
  function StuffedOnes(n: nat): (s: seq<byte>) {
    if n == 0 then [] else StuffedOnes(n - 1) + [0xFF, 0]
  }

  lemma {:induction false} UnstuffAppendOnes(s: seq<byte>, n: nat)
    requires WellStuffed(s)
    ensures WellStuffed(s + StuffedOnes(n)) && Unstuff(s + StuffedOnes(n)) == Unstuff(s) + Ones(n)
  {
    hide Unstuff, WellStuffed;
    if n == 0 {
      assert s + StuffedOnes(0) == s && Unstuff(s) + Ones(0) == Unstuff(s);
    } else {
      UnstuffAppendOnes(s, n - 1);
      var r := s + StuffedOnes(n - 1);
      UnstuffAppend(r, 0xFF);
      assert s + StuffedOnes(n) == r + Stuffed(0xFF);
      assert Unstuff(s) + Ones(n) == Unstuff(s) + Ones(n - 1) + [0xFF];
    }
  }

  /** What WellStuffed means position by position. */
  lemma {:induction false} StuffedFollows(s: seq<byte>, i: nat)
    requires WellStuffed(s) && i < |s| && s[i] == 0xFF
    ensures i + 1 < |s| && s[i + 1] == 0
    decreases |s|
  {
    if i > 0 {
      var k := if s[0] == 0xFF then 2 else 1;
      StuffedFollows(s[k..], i - k);
    }
  }
}
