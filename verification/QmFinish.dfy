/** Ending a segment: the last bytes of the arithmetic encoder, and why they name the interval. */
module QmFinish {
  import opened Bits
  import opened Stuffing
  import opened QmEncoder
  import opened QmInterval

  // ----- The end of a segment -----

  /** The base in the interval with the most trailing zero bits. */
  function FinalBase(e: Enc): (c: nat)
    requires Ready(e)
    ensures e.c <= c < e.c + e.a && c % 0x8000 == 0
  {
    var x := e.a - 1 + e.c;
    var temp := x - x % 0x10000;
    if temp < e.c then temp + 0x8000 else temp
  }

  /** The registers once the final base has been shifted to the byte boundary. */
  function FinalShift(e: Enc): Enc
    requires Ready(e)
  {
    e.(c := FinalBase(e) * Pow2(e.ct))
  }

  /** Writes what is left in the register, dropping zero bytes at the end. */
  function FinalBytes(e: Enc): Enc {
    if e.c % 0x8000000 / 0x800 == 0 then e
    else
      var out := e.out + Zeros(e.zc) + Stuffed(e.c / 0x80000 % 256);
      e.(zc := 0, out := if e.c % 0x80000 / 0x800 == 0 then out else out + Stuffed(e.c / 0x800 % 256))
  }

  function Finish(e: Enc): Enc
    requires Ready(e)
  {
    var f := FinalShift(e);
    FinalBytes(if f.c >= 0x8000000 then Carry(f) else Settle(f))
  }

  // ----- A finished segment lies in the coding interval -----

  /** The byte fields of a register whose low eleven bits are clear. */
  lemma FinalFields(c: nat, b0: byte, b1: byte)
    requires c % 0x800 == 0 && b0 == c / 0x80000 % 256 && b1 == c / 0x800 % 256
    ensures c == 0x8000000 * (c / 0x8000000) + 0x80000 * b0 + 0x800 * b1
    ensures c % 0x8000000 / 0x800 == 256 * b0 + b1 && c % 0x80000 / 0x800 == b1
  {
    var hi := c / 0x8000000;
    assert c / 0x800 == 256 * (c / 0x80000) + b1;
    assert c / 0x80000 == 256 * hi + b0;
    assert c == 0x800 * (c / 0x800);
    assert c % 0x8000000 == 0x800 * (256 * b0 + b1);
    assert c % 0x80000 == 0x800 * b1;
  }

  /** Zero bytes at the end do not change what a string spells. */
  predicate Spells(u: seq<byte>, s: seq<byte>) { u <= s && forall k :: |u| <= k < |s| ==> s[k] == 0 }

  lemma SpellsAt(u: seq<byte>, s: seq<byte>, i: nat)
    requires Spells(u, s)
    ensures At(u, i) == At(s, i)
  {
  }

  /** What the last bytes written amount to: everything so far followed by two more bytes, with
      zero bytes at the end left out. */
  lemma FinalBytesString(g: Enc, b0: byte, b1: byte)
    requires WellStuffed(g.out) && NoTrailingZero(Unstuff(g.out))
    requires g.c % 0x800 == 0
    requires b0 == g.c / 0x80000 % 256 && b1 == g.c / 0x800 % 256
    ensures var h := FinalBytes(g);
      && WellStuffed(h.out) && NoTrailingZero(Unstuff(h.out))
      && Spells(Unstuff(h.out), Unstuff(g.out) + Zeros(g.zc) + [b0] + [b1])
  {
    hide Unstuff, WellStuffed, Stuffed;
    FinalFields(g.c, b0, b1);
    var u, s := Unstuff(g.out), Unstuff(g.out) + Zeros(g.zc);
    if 256 * b0 + b1 == 0 {
      assert FinalBytes(g) == g;
    } else {
      UnstuffAppendZeros(g.out, g.zc);
      var w := g.out + Zeros(g.zc);
      UnstuffAppend(w, b0);
      if b1 == 0 {
        assert FinalBytes(g).out == w + Stuffed(b0);
      } else {
        assert FinalBytes(g).out == w + Stuffed(b0) + Stuffed(b1);
        UnstuffAppend(w + Stuffed(b0), b1);
      }
    }
  }

  /** Ending the held bytes, with or without a carry into them. */
  lemma EndHeld(e: Enc, carry: bool)
    requires Shape(e) && NoTrailingZero(Unstuff(e.out)) && (carry ==> e.buffer >= 0)
    ensures var g := if carry then Carry(e) else Settle(e);
      var s := if WellStuffed(g.out) then Unstuff(g.out) + Zeros(g.zc) else [];
      && WellStuffed(g.out) && g.c == e.c && NoTrailingZero(Unstuff(g.out))
      && |s| == |Pending(e)|
      && Val(s, |s|) == Val(Pending(e), |Pending(e)|) + (if carry then 1 else 0)
  {
    var g := if carry then Carry(e) else Settle(e);
    assert g.c == e.c;
    if carry { CarryKeepsTail(e); CarryPending(e, 0); } else { SettleKeepsTail(e); SettlePending(e, 0); }
    assert (if carry then Carry(e).(buffer := 0) else Settle(e).(buffer := 0)) == g.(buffer := 0);
    hide Carry, Settle, Unstuff, WellStuffed, Val;
    var s := Unstuff(g.out) + Zeros(g.zc);
    assert Pending(g.(buffer := 0)) == s + [0];
    ValAppend(s, 0);
    if !carry { ValAppend(Pending(e), 0); }
  }

  lemma FinalShiftAligned(c: nat, ct: nat)
    requires c % 0x8000 == 0
    ensures c * Pow2(ct) % 0x800 == 0
  {
    var q, p := c / 0x8000, Pow2(ct);
    MulAssoc(0x8000, q, p);
    assert c * p == 0x800 * (16 * (q * p));
  }

  lemma FinalShiftBounds(e: Enc)
    requires Ready(e)
    ensures FinalShift(e).c < 0x10000000 && FinalShift(e).c % 0x800 == 0
    ensures e.buffer == -1 ==> FinalShift(e).c < 0x8000000
  {
    var p, c := Pow2(e.ct), FinalBase(e);
    FinalShiftAligned(c, e.ct);
    MulStrict(c, 9 * Pow2(24 - e.ct), p);
    Pow2Add(24 - e.ct, e.ct);
    MulAssoc(9, Pow2(24 - e.ct), p);
    assert Pow2(24) == 0x1000000 && Pow2(27) == 0x8000000 by { Pow2Words(); }
    if e.buffer == -1 {
      AllOnesBound(e);
      Pow2Add(27 - e.ct, e.ct);
      MulStrict(c, Pow2(27 - e.ct), p);
    }
  }

  lemma FinishCarry(e: Enc)
    requires Ready(e)
    ensures var f := FinalShift(e); var carry := f.c >= 0x8000000;
      Shape(f) && NoTrailingZero(Unstuff(f.out)) && Pending(f) == Pending(e) && (carry ==> f.buffer >= 0) &&
      f.c % 0x800 == 0 && f.c / 0x8000000 == (if carry then 1 else 0)
  {
    FinalShiftBounds(e);
    assert Pending(FinalShift(e)) == Pending(e);
  }

  /** The number that a finished segment spells, at eleven bits below the final register. */
  lemma FinishValue(e: Enc)
    requires Ready(e)
    ensures var h := Finish(e);
      && WellStuffed(h.out) && NoTrailingZero(Unstuff(h.out))
      && |Unstuff(h.out)| <= |Pending(e)| + 2
      && 0x800 * Val(Unstuff(h.out), |Pending(e)| + 2)
         == Val(Pending(e), |Pending(e)|) * 0x8000000 + FinalBase(e) * Pow2(e.ct)
  {
    hide Carry, Settle, FinalBytes, Unstuff, Pow2, Val, WellStuffed, Inv, FinalBase;
    var f := FinalShift(e);
    FinishCarry(e);
    var carry := f.c >= 0x8000000;
    var g := if carry then Carry(f) else Settle(f);
    EndHeld(f, carry);
    LastBytesValue(f, g);
    assert Finish(e) == FinalBytes(g);
    var n := |Pending(e)|;
    assert |Unstuff(g.out) + Zeros(g.zc)| == n;
    assert f.c == FinalBase(e) * Pow2(e.ct);
  }

  lemma LastBytesValue(f: Enc, g: Enc)
    requires WellStuffed(g.out) && NoTrailingZero(Unstuff(g.out))
    requires g.c == f.c && f.c % 0x800 == 0
    ensures var h := FinalBytes(g); var s := Unstuff(g.out) + Zeros(g.zc);
      && WellStuffed(h.out) && NoTrailingZero(Unstuff(h.out))
      && |Unstuff(h.out)| <= |s| + 2
      && 0x800 * Val(Unstuff(h.out), |s| + 2) + 0x8000000 * (f.c / 0x8000000)
         == Val(s, |s|) * 0x8000000 + f.c
  {
    var b0, b1 := f.c / 0x80000 % 256, f.c / 0x800 % 256;
    FinalBytesString(g, b0, b1);
    FinalFields(f.c, b0, b1);
    TwoMoreBytes(Unstuff(g.out) + Zeros(g.zc), b0, b1, Unstuff(FinalBytes(g).out));
  }

  lemma TwoMoreBytes(s: seq<byte>, b0: byte, b1: byte, u: seq<byte>)
    requires Spells(u, s + [b0] + [b1])
    ensures Val(u, |s| + 2) == 256 * (256 * Val(s, |s|) + b0) + b1
  {
    ValAppend(s, b0);
    ValAppend(s + [b0], b1);
    forall i: nat { SpellsAt(u, s + [b0] + [b1], i); }
    ValAgree(u, s + [b0] + [b1], |s| + 2);
  }

  lemma ScaleProducts(w: nat, p: nat, q: nat, r: nat, u: nat)
    requires w * p == 0x800 * u && r * 0x800 == p * q
    ensures w * r == u * q
  {
    MulAssoc(w, r, 0x800);
    MulAssoc(w, p, q);
    MulAssoc(0x800, u, q);
    assert (w * r) * 0x800 == (w * p) * q;
    MulCancel(w * r, u * q, 0x800);
  }

  /** (v * t + base) * p, once t * p is known. */
  lemma ShiftSum(v: nat, t: nat, base: nat, p: nat, c: nat)
    requires t * p == c
    ensures (v * t + base) * p == v * c + base * p
  {
    MulAssoc(v, t, p);
  }

  lemma FinalScales(ct: nat, k: nat, s: nat)
    requires ct <= 27 && s + 11 == ct + 8 * k
    ensures Pow2(27 - ct) * Pow2(ct) == 0x8000000
    ensures Pow2(s) * 0x800 == Pow2(ct) * Pow2(8 * k)
  {
    Pow2Words();
    Pow2Add(27 - ct, ct);
    Pow2Add(s, 11);
    Pow2Add(ct, 8 * k);
  }

  /** The bytes of a finished segment, read as a number, lie in the final coding interval. */
  lemma FinishContains(e: Enc)
    requires Ready(e)
    ensures WellStuffed(Finish(e).out) && NoTrailingZero(Unstuff(Finish(e).out))
    ensures Contains(Exact(e), Unstuff(Finish(e).out))
  {
    hide Unstuff, WellStuffed, Finish, Pow2, Val, FinalBase;
    FinishValue(e);
    FinishNumber(e);
    var i, f := Exact(e), Low(e) - e.c + FinalBase(e);
    MulMonotone(i.lo, f, Pow2(Spare(i)));
    MulStrict(f, i.lo + i.a, Pow2(Spare(i)));
  }

  // ----- No value has more trailing zero bits, and no string is shorter -----

  lemma DividesOn(x: nat, m: nat, n: nat)
    requires m <= n && x % Pow2(n) == 0
    ensures x % Pow2(m) == 0
  {
    Pow2Add(n - m, m);
    var q, p := x / Pow2(n), Pow2(m);
    hide Pow2;
    QuotientRemainder(x, Pow2(n));
    MulAssoc(q, Pow2(n - m), p);
    QuotientUnique(x, p, q * Pow2(n - m), 0);
  }

  lemma DividesSum(x: nat, y: nat, q: nat, n: nat)
    requires x == q * Pow2(n) + y
    ensures x % Pow2(n) == 0 <==> y % Pow2(n) == 0
  {
    var p := Pow2(n);
    hide Pow2;
    QuotientRemainder(y, p);
    assert (q + y / p) * p == q * p + y / p * p;
    QuotientUnique(x, p, q + y / p, y % p);
  }

  lemma OnlyMultiple(e: Enc, v: nat)
    requires Ready(e) && e.c <= v < e.c + e.a && v % Pow2(16) == 0
    ensures FinalBase(e) == v
  {
    Pow2Words();
  }

  /** The final base has at least as many trailing zero bits as any value in the interval. */
  lemma FinalBaseBest(e: Enc, v: nat, k: nat)
    requires Ready(e) && e.c <= v < e.c + e.a && v % Pow2(k) == 0
    ensures FinalBase(e) % Pow2(k) == 0
  {
    FifteenZeros(e);
    hide Pow2, Val, FinalBase, Inv;
    if k <= 15 {
      DividesOn(FinalBase(e), k, 15);
    } else {
      DividesOn(v, 16, k);
      OnlyMultiple(e, v);
    }
  }

  lemma FifteenZeros(e: Enc)
    requires Ready(e)
    ensures FinalBase(e) % Pow2(15) == 0
  {
    Pow2Words();
    hide Pow2, Val, Inv;
  }

  /** The same for the whole number that the segment spells. */
  lemma BestNumber(e: Enc, w: nat, j: nat)
    requires Ready(e) && Low(e) <= w < Low(e) + e.a && w % Pow2(j) == 0
    ensures Low(e) - e.c >= 0 && (Low(e) - e.c + FinalBase(e)) % Pow2(j) == 0
  {
    hide Pow2, Val, FinalBase, Unstuff, WellStuffed, Pending;
    var v := Val(Pending(e), |Pending(e)|);
    var d := Low(e) - e.c;
    assert d == v * Pow2(27 - e.ct);
    var n := 27 - e.ct;
    Pow2Add(n - 16, 16);
    MulAssoc(v, Pow2(n - 16), Pow2(16));
    var q := v * Pow2(n - 16);
    if j <= 16 {
      Pow2Add(16 - j, j);
      MulAssoc(q, Pow2(16 - j), Pow2(j));
      DividesSum(w, w - d, q * Pow2(16 - j), j);
      FinalBaseBest(e, w - d, j);
      DividesSum(d + FinalBase(e), FinalBase(e), q * Pow2(16 - j), j);
    } else {
      DividesOn(w, 16, j);
      DividesSum(w, w - d, q, 16);
      OnlyMultiple(e, w - d);
    }
  }

  /** A number that ends in zero bytes. */
  lemma {:induction false} EndsInZeros(x: seq<byte>, m: nat, k: nat, i: nat)
    requires Val(x, m + k) % Pow2(8 * k) == 0 && m <= i < m + k
    ensures At(x, i) == 0
    decreases k
  {
    Pow2Plus8(8 * (k - 1));
    var p, v, b := Pow2(8 * (k - 1)), Val(x, m + k - 1), At(x, m + k - 1);
    assert Val(x, m + k) == 256 * v + b;
    assert 8 * k == 8 * (k - 1) + 8;
    hide Pow2, Val, At;
    QuotientRemainder(256 * v + b, 256 * p);
    var q := (256 * v + b) / (256 * p);
    assert q * (256 * p) == 256 * (q * p);
    assert b == 0 && v == q * p;
    QuotientUnique(v, p, q, 0);
    if i < m + k - 1 { EndsInZeros(x, m, k - 1, i); }
  }

  lemma ReadyShape(e: Enc)
    requires Ready(e)
    ensures Shape(e) && 1 <= e.ct <= 11
  {
    hide Pow2, Val, Pending, Unstuff, WellStuffed;
  }

  lemma SpareBits(e: Enc)
    requires Ready(e)
    ensures Spare(Exact(e)) <= 7 && Bytes(Exact(e)) >= |Pending(e)| + 2
    ensures Spare(Exact(e)) + 11 == e.ct + 8 * (Bytes(Exact(e)) - (|Pending(e)| + 2))
  {
  }

  /** The value of the finished segment at the resolution of the interval. */
  lemma FinishNumber(e: Enc)
    requires Ready(e)
    ensures Low(e) - e.c >= 0 && WellStuffed(Finish(e).out)
    ensures Val(Unstuff(Finish(e).out), Bytes(Exact(e))) == (Low(e) - e.c + FinalBase(e)) * Pow2(Spare(Exact(e)))
  {
    hide Unstuff, WellStuffed, Finish, Pow2, Val, FinalBase, Inv, Pending, Shape, Exact, Low, NoTrailingZero, Spare,
      Bytes;
    ReadyShape(e);
    FinishValue(e);
    SpareBits(e);
    var i, x, m := Exact(e), Unstuff(Finish(e).out), |Pending(e)| + 2;
    var k := Bytes(i) - m;
    LowParts(e);
    FinalScales(e.ct, k, Spare(i));
    SameNumber(Val(Pending(e), |Pending(e)|), FinalBase(e), Pow2(27 - e.ct), Pow2(e.ct), Pow2(Spare(i)), Pow2(8 * k),
      Val(x, m), Low(e) - e.c + FinalBase(e));
    ValPastEnd(x, m, k);
  }

  lemma LowParts(e: Enc)
    requires Ready(e)
    ensures e.ct <= 27 && Low(e) == Val(Pending(e), |Pending(e)|) * Pow2(27 - e.ct) + e.c
  {
    hide Val, Pow2, Pending, Unstuff;
  }

  lemma SameNumber(v: nat, base: nat, q: nat, p: nat, r: nat, z: nat, u: nat, low: nat)
    requires q * p == 0x8000000 && r * 0x800 == p * z && 0x800 * u == v * 0x8000000 + base * p && low == v * q + base
    ensures low * r == u * z
  {
    ShiftSum(v, q, base, p, 0x8000000);
    ScaleProducts(low, p, z, r, u);
  }

  /** A string of m bytes in the interval, as a number with many trailing zero bits. */
  lemma ShortString(i: Interval, y: seq<byte>) returns (w: nat)
    requires Contains(i, y) && |y| < Bytes(i) && Spare(i) <= 7
    ensures i.lo <= w < i.lo + i.a && w % Pow2(8 * (Bytes(i) - |y|) - Spare(i)) == 0
  {
    hide Pow2, Val;
    var t, s := 8 * (Bytes(i) - |y|), Spare(i);
    ValPastEnd(y, |y|, Bytes(i) - |y|);
    Pow2Add(t - s, s);
    var v := Val(y, |y|);
    w := v * Pow2(t - s);
    MulAssoc(v, Pow2(t - s), Pow2(s));
    assert w * Pow2(s) == v * Pow2(t) == Pow2(t) * v;
    if w < i.lo { MulStrict(w, i.lo, Pow2(s)); }
    if w >= i.lo + i.a { MulMonotone(i.lo + i.a, w, Pow2(s)); }
    QuotientUnique(w, Pow2(t - s), v, 0);
  }

  /** Main result about the end of a segment: no byte string that lies in the last interval is shorter
      than the data of the finished segment. */
  lemma FinishShortest(e: Enc, y: seq<byte>)
    requires Ready(e) && Contains(Exact(e), y)
    ensures WellStuffed(Finish(e).out) && |Unstuff(Finish(e).out)| <= |y|
  {
    hide Unstuff, WellStuffed, Finish, Pow2, Val, FinalBase, Contains, At, Inv, Low, Pending, Shape, Exact, Spare,
      Bytes;
    ReadyShape(e);
    FinishValue(e);
    FinishNumber(e);
    SpareBits(e);
    ExactParts(e);
    var i, x, m := Exact(e), Unstuff(Finish(e).out), |y|;
    if |x| > m {
      var k := Bytes(i) - m;
      var w := ShortString(i, y);
      var j := 8 * k - Spare(i);
      BestNumber(e, w, j);
      Scaled(Low(e) - e.c + FinalBase(e), j, Spare(i));
      EndsInZeros(x, m, k, |x| - 1);
      LastByte(x);
    }
  }

  lemma ExactParts(e: Enc)
    requires Ready(e)
    ensures Exact(e).lo == Low(e) && Exact(e).a == e.a
  {
    hide Pow2, Val, Pending, Unstuff;
  }

  lemma Scaled(f: nat, j: nat, s: nat)
    requires f % Pow2(j) == 0
    ensures f * Pow2(s) % Pow2(j + s) == 0
  {
    Pow2Add(j, s);
    hide Pow2;
    QuotientRemainder(f, Pow2(j));
    MulAssoc(f / Pow2(j), Pow2(j), Pow2(s));
    QuotientUnique(f * Pow2(s), Pow2(j + s), f / Pow2(j), 0);
  }

  lemma LastByte(x: seq<byte>)
    requires |x| > 0
    ensures At(x, |x| - 1) == x[|x| - 1]
  {
  }
}
