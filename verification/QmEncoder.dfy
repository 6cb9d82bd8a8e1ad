/** The registers of the arithmetic (QM) encoder: what one binary decision and the end of a
    segment do to them. */
module QmEncoder {
  import opened Bits
  import opened Stuffing
  import opened ArithTable

  /** c: base of the coding interval, with spacer, output and carry bits above it;
      a: size of the interval; ct: shifts left before the next byte is due;
      buffer: latest byte held back because a carry may still change it (-1: none);
      sc: 0xFF bytes stacked behind it; zc: zero bytes before it not yet written;
      out: the bytes written to the file. */
  datatype Enc = Enc(c: nat, a: nat, sc: nat, zc: nat, ct: nat, buffer: int, out: seq<byte>)

  const START: Enc := Enc(0, 0x10000, 0, 0, 11, -1, [])

  predicate Shape(e: Enc) {
    && -1 <= e.buffer < 0xFF
    && (e.buffer == -1 ==> e.zc == 0 && e.out == [])
    && WellStuffed(e.out)
  }

  /** A carry out of the register: buffer is written one larger, stacked 0xFF bytes become zeros. */
  function Carry(e: Enc): Enc
    requires Shape(e)
  {
    var f := if e.buffer >= 0
             then e.(out := e.out + Zeros(e.zc) + Stuffed(e.buffer + 1), zc := 0)
             else e;
    f.(zc := f.zc + f.sc, sc := 0)
  }

  /** buffer and the stacked 0xFF bytes can no longer change. */
  function Settle(e: Enc): Enc
    requires Shape(e)
  {
    var f := if e.buffer == 0 then e.(zc := e.zc + 1)
             else if e.buffer > 0 then e.(out := e.out + Zeros(e.zc) + [e.buffer], zc := 0)
             else e;
    if f.sc > 0 then f.(out := f.out + Zeros(f.zc) + StuffedOnes(f.sc), zc := 0, sc := 0) else f
  }

  /** Takes the next output byte out of the register. */
  function ByteOut(e: Enc): Enc
    requires Shape(e)
  {
    var temp := e.c / 0x80000;
    var f := if temp > 0xFF then Carry(e).(buffer := temp % 256)
             else if temp == 0xFF then e.(sc := e.sc + 1)
             else Settle(e).(buffer := temp);
    f.(c := e.c % 0x80000, ct := e.ct + 8)
  }

  /** The register doubled, before a byte is taken out of it. */
  function Doubled(e: Enc): Enc
    requires Shape(e) && e.ct > 0
  {
    e.(a := 2 * e.a, c := 2 * e.c, ct := e.ct - 1)
  }

  /** One turn of the renormalization loop. */
  function Shift(e: Enc): Enc
    requires Shape(e) && e.ct > 0
  {
    var f := Doubled(e);
    if f.ct == 0 then ByteOut(f) else f
  }

  // ----- The number that the registers stand for -----

  /** The code string so far: written bytes, then pending zeros, the held byte, stacked 0xFFs. */
  function Pending(e: Enc): seq<byte>
    requires Shape(e)
  {
    Unstuff(e.out) + Zeros(e.zc) + (if e.buffer >= 0 then [e.buffer] else []) + Ones(e.sc)
  }

  lemma {:induction false} CarryIntoOnes(s: seq<byte>, b: byte, n: nat)
    requires b < 0xFF
    ensures Val(s + [b] + Ones(n), |s| + 1 + n) + 1 == Val(s + [b + 1] + Zeros(n), |s| + 1 + n)
  {
    if n == 0 {
      assert s + [b] + Ones(0) == s + [b] && s + [b + 1] + Zeros(0) == s + [b + 1];
      ValAppend(s, b);
      ValAppend(s, b + 1);
    } else {
      CarryIntoOnes(s, b, n - 1);
      assert s + [b] + Ones(n) == s + [b] + Ones(n - 1) + [0xFF];
      assert s + [b + 1] + Zeros(n) == s + [b + 1] + Zeros(n - 1) + [0];
      ValAppend(s + [b] + Ones(n - 1), 0xFF);
      ValAppend(s + [b + 1] + Zeros(n - 1), 0);
    }
  }

  lemma {:induction false} OnesValue(n: nat)
    ensures Val(Ones(n), n) + 1 == Pow2(8 * n)
  {
    if n > 0 {
      OnesValue(n - 1);
      ValAgree(Ones(n), Ones(n - 1), n - 1);
      Pow2Plus8(8 * (n - 1));
      assert 8 * n == 8 * (n - 1) + 8;
    }
  }

  lemma CarryPending(e: Enc, b: byte)
    requires Shape(e) && e.buffer >= 0 && b < 0xFF
    ensures var f := Carry(e).(buffer := b);
      Shape(f) && |Pending(f)| == |Pending(e)| + 1 &&
      Val(Pending(f), |Pending(f)|) == 256 * (Val(Pending(e), |Pending(e)|) + 1) + b
  {
    hide Unstuff, WellStuffed, Val, Stuffed;
    var f := Carry(e).(buffer := b);
    var s := Unstuff(e.out) + Zeros(e.zc);
    UnstuffAppendZeros(e.out, e.zc);
    UnstuffAppend(e.out + Zeros(e.zc), e.buffer + 1);
    CarryIntoOnes(s, e.buffer, e.sc);
    assert Pending(e) == s + [e.buffer] + Ones(e.sc);
    assert Pending(f) == s + [e.buffer + 1] + Zeros(e.sc) + [b];
    ValAppend(s + [e.buffer + 1] + Zeros(e.sc), b);
  }

  lemma SettlePending(e: Enc, b: byte)
    requires Shape(e) && b < 0xFF
    ensures var f := Settle(e).(buffer := b);
      Shape(f) && Pending(f) == Pending(e) + [b]
  {
    hide Unstuff, WellStuffed, Val;
    UnstuffAppendZeros(e.out, e.zc);
    var g := if e.buffer == 0 then e.(zc := e.zc + 1)
             else if e.buffer > 0 then e.(out := e.out + Zeros(e.zc) + [e.buffer], zc := 0)
             else e;
    if e.buffer > 0 {
      UnstuffAppend(e.out + Zeros(e.zc), e.buffer);
      assert g.out == e.out + Zeros(e.zc) + Stuffed(e.buffer);
    } else if e.buffer == 0 {
      assert Zeros(e.zc + 1) == Zeros(e.zc) + [0];
    }
    assert Pending(e) == Unstuff(g.out) + Zeros(g.zc) + Ones(e.sc);
    UnstuffAppendZeros(g.out, g.zc);
    UnstuffAppendOnes(g.out + Zeros(g.zc), g.sc);
  }

  // ----- The coding interval and the invariant -----

  /** An exact interval [lo, lo + a) at a resolution of n bits below the first sixteen. */
  datatype Interval = Interval(lo: nat, a: nat, n: nat)

  function Low(e: Enc): nat
    requires Shape(e) && e.ct <= 27
  {
    Val(Pending(e), |Pending(e)|) * Pow2(27 - e.ct) + e.c
  }

  function Shifts(e: Enc): nat
    requires Shape(e) && e.ct <= 11
  {
    8 * |Pending(e)| + 11 - e.ct
  }

  function Exact(e: Enc): Interval
    requires Shape(e) && e.ct <= 11
  {
    Interval(Low(e), e.a, Shifts(e))
  }

  /** Zero bytes are only ever written in front of something else. */
  predicate NoTrailingZero(s: seq<byte>) {
    |s| == 0 || s[|s| - 1] != 0
  }

  /** What every encoding step keeps: the spacer bits bound the register, the interval stays
      inside the unit interval, and no zero byte is written too early. */
  predicate Inv(e: Enc) {
    && Shape(e)
    && 0 < e.a <= 0x10000
    && 1 <= e.ct <= 11 && (e.ct <= 8 || |Pending(e)| == 0)
    && e.c + e.a <= 9 * Pow2(24 - e.ct)
    && Low(e) + e.a <= Pow2(16 + Shifts(e))
    && NoTrailingZero(Unstuff(e.out))
  }

  lemma StartInv()
    ensures Inv(START) && Exact(START) == Interval(0, 0x10000, 0)
  {
    Pow2Words();
    assert Unstuff([]) == [];
    assert Pending(START) == [];
  }

  lemma OneBelow(v: nat, q: nat, p: nat, s: nat)
    requires v + 1 == q && v * p + s <= q * p
    ensures s <= p
  {
    assert q * p == v * p + p;
  }

  /** Without a held byte the string is all ones, so a carry would leave the unit interval. */
  lemma AllOnesBound(e: Enc)
    requires Inv(e) && e.buffer == -1
    ensures e.c + e.a <= Pow2(27 - e.ct)
  {
    assert Pending(e) == Ones(e.sc);
    OnesValue(e.sc);
    hide Pow2, Val, Unstuff, WellStuffed, Pending, Ones;
    var n := |Pending(e)|;
    Pow2Add(8 * n, 27 - e.ct);
    assert 16 + Shifts(e) == 8 * n + (27 - e.ct);
    OneBelow(Val(Pending(e), n), Pow2(8 * n), Pow2(27 - e.ct), e.c + e.a);
  }

  lemma CarryKeepsTail(e: Enc)
    requires Shape(e) && NoTrailingZero(Unstuff(e.out))
    ensures WellStuffed(Carry(e).out) && NoTrailingZero(Unstuff(Carry(e).out))
  {
    UnstuffAppendZeros(e.out, e.zc);
    if e.buffer >= 0 { UnstuffAppend(e.out + Zeros(e.zc), e.buffer + 1); }
  }

  lemma SettleKeepsTail(e: Enc)
    requires Shape(e) && NoTrailingZero(Unstuff(e.out))
    ensures WellStuffed(Settle(e).out) && NoTrailingZero(Unstuff(Settle(e).out))
  {
    UnstuffAppendZeros(e.out, e.zc);
    if e.buffer > 0 { UnstuffAppend(e.out + Zeros(e.zc), e.buffer); }
    var f := if e.buffer == 0 then e.(zc := e.zc + 1)
             else if e.buffer > 0 then e.(out := e.out + Zeros(e.zc) + [e.buffer], zc := 0)
             else e;
    UnstuffAppendZeros(f.out, f.zc);
    UnstuffAppendOnes(f.out + Zeros(f.zc), f.sc);
  }

  /** Taking a byte out moves it from the register to the end of the code string, carry included. */
  lemma ByteOutExact(e: Enc, f: Enc)
    requires Shape(e) && e.ct == 0 && e.c / 0x80000 < 0x100 + 0xFF
    requires e.buffer == -1 ==> e.c / 0x80000 <= 0xFF
    requires f == ByteOut(e)
    ensures Shape(f) && |Pending(f)| == |Pending(e)| + 1
    ensures Val(Pending(f), |Pending(f)|) == 256 * Val(Pending(e), |Pending(e)|) + e.c / 0x80000
    ensures NoTrailingZero(Unstuff(e.out)) ==> NoTrailingZero(Unstuff(f.out))
  {
    hide Unstuff, WellStuffed, Carry, Settle, Val;
    var temp := e.c / 0x80000;
    if temp > 0xFF {
      CarryPending(e, temp % 256);
      assert Pending(f) == Pending(Carry(e).(buffer := temp % 256));
      if NoTrailingZero(Unstuff(e.out)) { CarryKeepsTail(e); }
    } else if temp == 0xFF {
      assert Ones(e.sc + 1) == Ones(e.sc) + [0xFF];
      assert Pending(f) == Pending(e) + [0xFF];
      ValAppend(Pending(e), 0xFF);
    } else {
      SettlePending(e, temp);
      assert Pending(f) == Pending(Settle(e).(buffer := temp));
      ValAppend(Pending(e), temp);
      if NoTrailingZero(Unstuff(e.out)) { SettleKeepsTail(e); }
    }
  }

  lemma DoubleLow(v: nat, p: nat, c: nat)
    ensures v * (2 * p) + 2 * c == 2 * (v * p + c)
  {
  }

  /** A full register: taking the byte out changes neither the number nor the invariant. */
  lemma ByteOutInv(f: Enc, g: Enc)
    requires Shape(f) && f.ct == 0 && g == ByteOut(f)
    requires 0 < f.a <= 0x10000 && f.c + f.a <= 9 * 0x1000000
    requires f.buffer == -1 ==> f.c < 0x8000000
    requires Low(f) + f.a <= Pow2(16 + Shifts(f))
    requires NoTrailingZero(Unstuff(f.out))
    ensures Inv(g) && g.a == f.a && Low(g) == Low(f) && Shifts(g) == Shifts(f)
  {
    hide Unstuff, WellStuffed, Val, Pow2;
    Pow2Words();
    ByteOutExact(f, g);
    var v := Val(Pending(f), |Pending(f)|);
    assert Low(g) == (256 * v + f.c / 0x80000) * 0x80000 + f.c % 0x80000;
    assert (256 * v + f.c / 0x80000) * 0x80000 == v * 0x8000000 + f.c / 0x80000 * 0x80000;
  }

  /** Doubling the register doubles the number it stands for. */
  lemma DoubleRegister(e: Enc)
    requires Inv(e) && e.a < 0x8000
    ensures var f := Doubled(e);
      && Pending(f) == Pending(e)
      && Low(f) == 2 * Low(e) && Shifts(f) == Shifts(e) + 1
      && f.c + f.a <= 9 * Pow2(24 - f.ct)
      && Low(f) + f.a <= Pow2(16 + Shifts(f))
      && (f.buffer == -1 ==> f.c < Pow2(27 - f.ct))
  {
    hide Unstuff, WellStuffed, Val;
    var f := Doubled(e);
    assert Pending(f) == Pending(e);
    assert 27 - f.ct == (27 - e.ct) + 1 && 24 - f.ct == (24 - e.ct) + 1;
    DoubleLow(Val(Pending(e), |Pending(e)|), Pow2(27 - e.ct), e.c);
    if e.buffer == -1 { AllOnesBound(e); }
  }

  /** One shift doubles the exact interval and keeps the invariant. */
  lemma ShiftExact(e: Enc)
    requires Inv(e) && e.a < 0x8000
    ensures Inv(Shift(e)) && Shift(e).a == 2 * e.a
    ensures Exact(Shift(e)) == Interval(2 * Low(e), 2 * e.a, Shifts(e) + 1)
  {
    hide Unstuff, WellStuffed, ByteOut, Val, Pow2, Pending;
    DoubleRegister(e);
    if e.ct == 1 {
      Pow2Words();
      ByteOutInv(Doubled(e), Shift(e));
    }
  }

  /** The renormalization loop: at least one shift, until the interval is large again. */
  function Renorm(e: Enc): (f: Enc)
    requires Inv(e) && e.a < 0x8000
    ensures Inv(f) && f.a >= 0x8000
    decreases 0x8000 - e.a
  {
    ShiftExact(e);
    var f := Shift(e);
    if f.a < 0x8000 then Renorm(f) else f
  }

  /** The encoder between two decisions. */
  predicate Ready(e: Enc) { Inv(e) && e.a >= 0x8000 }

  /** Keeps the upper part, of size qe, or the lower part of the interval. */
  function Narrow(e: Enc, qe: nat, upper: bool): (f: Enc)
    requires Ready(e) && 0 < qe <= 0x5b12
    ensures Inv(f)
    ensures Exact(f) == (if upper then Interval(Low(e) + (e.a - qe), qe, Shifts(e))
                       else Interval(Low(e), e.a - qe, Shifts(e)))
  {
    var f := if upper then e.(c := e.c + (e.a - qe), a := qe) else e.(a := e.a - qe);
    assert Pending(f) == Pending(e);
    f
  }

  /** Codes one decision: the new registers and the new value of its statistics bin. */
  function Encode(e: Enc, sv: byte, val: bool): (r: (Enc, byte))
    requires Ready(e) && ValidBin(sv)
    ensures Ready(r.0) && ValidBin(r.1)
  {
    var qe := Qe(sv);
    var a := e.a - qe;
    if val != Mps(sv) then
      (Renorm(Narrow(e, qe, a >= qe)), AfterLps(sv))
    else if a >= 0x8000 then
      (Narrow(e, qe, false), sv)
    else
      (Renorm(Narrow(e, qe, a < qe)), AfterMps(sv))
  }

  /** Coding a decision leaves the bin that the table asks for. */
  lemma EncodeAdapts(e: Enc, sv: byte, val: bool)
    requires Ready(e) && ValidBin(sv)
    ensures Adapted(sv, val, e.a - RowAt(sv % 128).qe >= 0x8000, Encode(e, sv, val).1)
  {
    EstimateOfRow(sv);
    LpsAdapts(sv);
    MpsAdapts(sv);
    hide Renorm, Narrow, AfterLps, AfterMps, RowAt, Adapted;
    if val == Mps(sv) && e.a - Qe(sv) >= 0x8000 { StaysAdapted(sv, val); }
  }

  lemma StaysAdapted(sv: byte, val: bool)
    requires ValidBin(sv) && val == Mps(sv)
    ensures Adapted(sv, val, true, sv)
  {
    hide RowAt;
  }

  /** Of the two parts of the interval, of which the upper one has the size of the estimate, the more
      probable symbol has the larger one. */
  lemma EncodeSplits(e: Enc, sv: byte, val: bool) returns (upper: bool)
    requires Ready(e) && ValidBin(sv)
    ensures var qe := RowAt(sv % 128).qe; 0 < qe <= 0x5b12
    ensures var qe := RowAt(sv % 128).qe; var n := Narrow(e, qe, upper);
      && n.a == (if (val == Mps(sv)) == (e.a - qe >= qe) then e.a - qe else qe)
      && Encode(e, sv, val).0 == if n.a >= 0x8000 then n else Renorm(n)
  {
    EstimateOfRow(sv);
    hide RowAt, Renorm, Inv, AfterLps, AfterMps;
    var a := e.a - Qe(sv);
    upper := if val != Mps(sv) then a >= Qe(sv) else a < 0x8000 && a < Qe(sv);
  }
}
