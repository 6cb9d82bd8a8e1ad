/** DC coefficients in arithmetic-coded scans: differences from the previous block, coded under a
    context that remembers the size of the previous difference; and their refinement bits. */
module ArithDc {
  import opened Bits
  import opened Coefficients
  import opened QmCoder
  import opened ArithMagnitude

  /** Prediction and context of one component. */
  datatype Pred = Pred(last: int, ctx: nat) {
    predicate Ok() { ctx <= 16 }
  }

  /** A component's table and its conditioning bounds. */
  datatype DcTable = DcTable(tbl: Table, lower: nat, upper: nat)

  function DcSite(t: DcTable, j: nat): MagSite
    requires j < 64
  {
    64 * t.tbl + j
  }

  /** The power of two that names the category of a magnitude u + 1. */
  function Leading(u: nat): nat {
    if u == 0 then 0 else Pow2(NBits(u) - 1)
  }

  /** The context after a difference with this sign and leading power of two. */
  function NextContext(neg: bool, m: nat, t: DcTable): (ctx: nat)
    ensures ctx <= 16
  {
    if m < Pow2(t.lower) / 2 then 0
    else if m > Pow2(t.upper) / 2 then (if neg then 16 else 12)
    else (if neg then 8 else 4)
  }

  // ----- Encoder side -----

  function DcDiff(v: int, ctx: nat, t: DcTable): seq<Decision>
    requires ctx <= 16 && Abs(v) <= 0x10000
  {
    if v == 0 then One(DcSite(t, ctx), false)
    else
      One(DcSite(t, ctx), true) + One(DcSite(t, ctx + 1), v < 0)
        + DcMagnitude(Abs(v) - 1, DcSite(t, ctx + (if v < 0 then 3 else 2)), DcSite(t, 20))
  }

  function AfterDiff(p: Pred, v: int, t: DcTable): (q: Pred)
    ensures q.Ok()
  {
    if v == 0 then Pred(p.last, 0)
    else Pred(p.last + v, NextContext(v < 0, Leading(Abs(v) - 1), t))
  }

  /** The difference to be coded for DC coefficient x at bit position al. */
  function Diff(p: Pred, x: int, al: nat): int { x / Pow2(al) - p.last }

  // ----- The context, and the bins of a difference -----

  /** The class of a difference that conditions the next one: its size against the bounds of the table, and
      its sign. (Section F.1.4.4.1.2 of ITU-T T.81.) */
  datatype Class = Zero | Small(negative: bool) | Large(negative: bool)

  function ClassOf(v: int, t: DcTable): Class {
    if v == 0 || (t.lower > 0 && Abs(v) <= Pow2(t.lower - 1)) then Zero
    else if Abs(v) <= Pow2(t.upper) then Small(v < 0)
    else Large(v < 0)
  }

  /** Where the bins of a class start. */
  function Context(c: Class): nat {
    match c
    case Zero => 0
    case Small(neg) => if neg then 8 else 4
    case Large(neg) => if neg then 16 else 12
  }

  /** After a difference the prediction is the coefficient that was coded, and the context its class. */
  lemma ContextMeaning(p: Pred, v: int, t: DcTable)
    ensures AfterDiff(p, v, t) == Pred(p.last + v, Context(ClassOf(v, t)))
  {
    if v != 0 {
      var u := Abs(v) - 1;
      HalfPow(t.lower);
      HalfPow(t.upper);
      LeadingBelow(u, if t.lower > 0 then t.lower - 1 else 0);
      LeadingBelow(u, t.upper);
      LeadingBelow(u, if t.upper > 0 then t.upper - 1 else 0);
      LeadingPower(u, if t.upper > 0 then t.upper - 1 else 0);
      hide Pow2, Leading;
    }
  }

  lemma HalfPow(n: nat)
    ensures Pow2(n) / 2 == if n > 0 then Pow2(n - 1) else 0
  {
  }

  /** The leading power of two of u is below 2 ** n exactly if u is. */
  lemma LeadingBelow(u: nat, n: nat)
    ensures Leading(u) < Pow2(n) <==> u < Pow2(n)
  {
    if u > 0 {
      NBitsBounds(u);
      hide Pow2;
      if u < Pow2(n) {
      } else if Leading(u) < Pow2(n) {
        if n <= NBits(u) - 1 { Pow2Monotone(n, NBits(u) - 1); } else { Pow2Monotone(NBits(u), n); }
      }
    }
  }

  /** No power of two lies between 2 ** n and the next. */
  lemma LeadingPower(u: nat, n: nat)
    ensures Leading(u) > Pow2(n) <==> u >= Pow2(n + 1)
  {
    LeadingBelow(u, n + 1);
    if u > 0 {
      hide Pow2, NBits;
      if Leading(u) > Pow2(n) {
        if NBits(u) - 1 <= n { Pow2Monotone(NBits(u) - 1, n); } else { Pow2Monotone(n + 1, NBits(u) - 1); }
      } else {
        TwicePow(n + 1);
      }
    }
  }

  lemma BehindTwo(pre: seq<Decision>, m: seq<Decision>)
    requires |pre| == 2 && |m| > 0
    ensures (pre + m)[0] == pre[0] && (pre + m)[1] == pre[1] && (pre + m)[2] == m[0] && (pre + m)[3..] == m[1..]
  {
  }

  /** A difference is coded with the bins of its context: zero or not, the sign, and for each sign whether
      the magnitude is over one; larger magnitudes have bins of their own from 20 on.
      (Table F.4 of ITU-T T.81.) */
  lemma DcBins(v: int, ctx: nat, t: DcTable)
    requires ctx <= 16 && Abs(v) <= 0x10000
    ensures var ts, s0 := DcDiff(v, ctx, t), 64 * t.tbl + ctx;
      && |ts| >= 1 && ts[0] == Decision(s0, v != 0) && (v == 0 ==> |ts| == 1)
      && (v != 0 ==> |ts| >= 3 && ts[1] == Decision(s0 + 1, v < 0))
      && (v != 0 ==> ts[2] == Decision(s0 + (if v < 0 then 3 else 2), Abs(v) > 1))
      && (Abs(v) == 1 ==> |ts| == 3) && (Abs(v) > 1 ==> 0 < NBits(Abs(v) - 1) <= 16)
      && (Abs(v) > 1 ==> RestIs(ts[3..], NBits(Abs(v) - 1) - 1, Abs(v) - 1, 64 * t.tbl + 20))
  {
    if v != 0 {
      hide DcMagnitude, RestIs, NBits, Pow2;
      var u := Abs(v) - 1;
      var pre := One(DcSite(t, ctx), true) + One(DcSite(t, ctx + 1), v < 0);
      var m := DcMagnitude(u, DcSite(t, ctx + (if v < 0 then 3 else 2)), DcSite(t, 20));
      DcMagnitudeBins(u, DcSite(t, ctx + (if v < 0 then 3 else 2)), DcSite(t, 20));
      assert DcDiff(v, ctx, t) == pre + m;
      BehindTwo(pre, m);
    }
  }

  /** A table has 64 bins for differences. */
  lemma DcBinsIn(v: int, ctx: nat, t: DcTable)
    requires ctx <= 16 && Abs(v) <= 0x10000
    ensures BinsIn(DcDiff(v, ctx, t), 64 * t.tbl, 64 * t.tbl + 64)
  {
    if v != 0 {
      hide DcMagnitude;
      var st := DcSite(t, ctx + (if v < 0 then 3 else 2));
      var pre := One(DcSite(t, ctx), true) + One(DcSite(t, ctx + 1), v < 0);
      DcMagnitudeBinsIn(Abs(v) - 1, st, DcSite(t, 20), 64 * t.tbl, 64 * t.tbl + 64);
      BinsInConcat(pre, DcMagnitude(Abs(v) - 1, st, DcSite(t, 20)), 64 * t.tbl, 64 * t.tbl + 64);
    }
  }

  // ----- Decoder side -----

  datatype DcResult = DcResult(d: DecCoder, p: Pred, ok: bool)

  function ReadDcDiff(d: DecCoder, p: Pred, t: DcTable): (r: DcResult)
    requires p.Ok()
    ensures r.p.Ok()
  {
    var (d1, b) := Decode(d, DcSite(t, p.ctx));
    if !b then DcResult(d1, p.(ctx := 0), true)
    else
      var (d2, neg) := Decode(d1, DcSite(t, p.ctx + 1));
      var (d3, m) := ReadDcMagnitude(d2, DcSite(t, p.ctx + (if neg then 3 else 2)), DcSite(t, 20));
      if m.TooLarge? then DcResult(d3, p, false)
      else
        var v := if neg then -(m.u + 1) else m.u + 1;
        DcResult(d3, Pred((p.last + v) % 0x10000, NextContext(neg, Leading(m.u), t)), true)
  }

  /** The coefficient that the decoder stores. */
  function DcValue(p: Pred, al: nat): int { ToShort(p.last * Pow2(al)) }

  // ----- Meaning -----

  /** The decoder's prediction agrees with the encoder's in its low sixteen bits. */
  predicate SamePred(e: Pred, p: Pred) {
    e.Ok() && p.ctx == e.ctx && (p.last - e.last) % 0x10000 == 0
  }

  lemma DcDiffFollows(d: DecCoder, e: Pred, p: Pred, v: int, t: DcTable)
    requires SamePred(e, p) && Abs(v) <= 0x8000 && Follows(d, DcDiff(v, e.ctx, t))
    ensures var r := ReadDcDiff(d, p, t);
      r.ok && r.d == DecodeAll(d, DcDiff(v, e.ctx, t)) && SamePred(AfterDiff(e, v, t), r.p)
  {
    hide Decode, DcMagnitude, ReadDcMagnitude, NextContext, Leading;
    if v == 0 {
      FollowsOne(d, DcSite(t, e.ctx), false);
    } else {
      var t0, t1 := One(DcSite(t, e.ctx), true), One(DcSite(t, e.ctx + 1), v < 0);
      var st := DcSite(t, e.ctx + (if v < 0 then 3 else 2));
      FollowsConcat(d, t0 + t1, DcMagnitude(Abs(v) - 1, st, DcSite(t, 20)));
      FollowsConcat(d, t0, t1);
      FollowsOne(d, DcSite(t, e.ctx), true);
      FollowsOne(DecodeAll(d, t0), DcSite(t, e.ctx + 1), v < 0);
      DcMagnitudeFollows(DecodeAll(d, t0 + t1), Abs(v) - 1, st, DcSite(t, 20));
      SumModulo(e.last, p.last, v);
    }
  }

  /** A difference that needs a sixteenth category is an error to the decoder. */
  lemma DcDiffTooLarge(d: DecCoder, e: Pred, p: Pred, v: int, t: DcTable)
    requires SamePred(e, p) && 0x8000 < Abs(v) <= 0x10000 && Follows(d, DcDiff(v, e.ctx, t))
    ensures !ReadDcDiff(d, p, t).ok
  {
    hide Decode, DcMagnitude, ReadDcMagnitude, NextContext, Leading;
    var t0, t1 := One(DcSite(t, e.ctx), true), One(DcSite(t, e.ctx + 1), v < 0);
    var st := DcSite(t, e.ctx + (if v < 0 then 3 else 2));
    FollowsConcat(d, t0 + t1, DcMagnitude(Abs(v) - 1, st, DcSite(t, 20)));
    FollowsConcat(d, t0, t1);
    FollowsOne(d, DcSite(t, e.ctx), true);
    FollowsOne(DecodeAll(d, t0), DcSite(t, e.ctx + 1), v < 0);
    DcMagnitudeTooLarge(DecodeAll(d, t0 + t1), Abs(v) - 1, st, DcSite(t, 20));
  }

  lemma SumModulo(x: int, y: int, v: int)
    requires (y - x) % 0x10000 == 0
    ensures ((y + v) % 0x10000 - (x + v)) % 0x10000 == 0
  {
    var q := (y + v) / 0x10000;
    assert (y + v) % 0x10000 - (x + v) == (y - x) + (-q) * 0x10000;
  }

  lemma ShortModulo(x: int, y: int)
    requires IsShort(x) && (y - x) % 0x10000 == 0
    ensures ToShort(y) == x
  {
  }

  lemma ScaleModulo(x: int, y: int, al: nat)
    requires (y - x) % 0x10000 == 0
    ensures (y * Pow2(al) - x * Pow2(al)) % 0x10000 == 0
  {
    var q, p := (y - x) / 0x10000, Pow2(al);
    assert y == x + q * 0x10000;
    assert y * p - x * p == (q * 0x10000) * p == (q * p) * 0x10000;
  }

  lemma PointDcShort(x: int, al: nat)
    requires IsShort(x) && al <= 15
    ensures IsShort(PointDc(x, al)) && PointDc(x, al) <= x < PointDc(x, al) + Pow2(al)
  {
    WordSplit(al);
    hide Pow2;
    var p, low: int := Pow2(al), Pow2(15 - al);
    FloorWindow(x, p);
    NegTimes(low, p);
    FloorAtLeast(x, p, -low);
  }

  lemma FloorWindow(x: int, p: nat)
    requires p > 0
    ensures x / p * p <= x < x / p * p + p
  {
    assert x == x / p * p + x % p;
  }

  lemma WordSplit(al: nat)
    requires al <= 15
    ensures Pow2(15 - al) * Pow2(al) == 0x8000
  {
    Pow2Add(15 - al, al);
    Pow2Words();
  }

  lemma FloorAtLeast(x: int, p: nat, low: int)
    requires p > 0 && low * p <= x
    ensures low * p <= x / p * p
  {
    assert x == x / p * p + x % p;
    if x / p < low { IntMulMonotone(x / p + 1, low, p); }
  }

  /** The first scan of a DC coefficient leaves it with its low bits cleared. */
  lemma DcFirstMeaning(d: DecCoder, e: Pred, p: Pred, x: int, al: nat, t: DcTable)
    requires SamePred(e, p) && IsShort(x) && al <= 13 && Abs(Diff(e, x, al)) <= 0x8000
    requires Follows(d, DcDiff(Diff(e, x, al), e.ctx, t))
    ensures var v := Diff(e, x, al); var r := ReadDcDiff(d, p, t);
      && r.ok && r.d == DecodeAll(d, DcDiff(v, e.ctx, t)) && SamePred(AfterDiff(e, v, t), r.p)
      && DcValue(r.p, al) == PointDc(x, al)
  {
    hide Decode, ReadDcDiff, DcDiff;
    var v := Diff(e, x, al);
    DcDiffFollows(d, e, p, v, t);
    var r := ReadDcDiff(d, p, t);
    assert AfterDiff(e, v, t).last == x / Pow2(al);
    ScaleModulo(x / Pow2(al), r.p.last, al);
    PointDcShort(x, al);
    ShortModulo(PointDc(x, al), r.p.last * Pow2(al));
  }

  // ----- Refinement: one plain bit per block -----

  /** The bit of x at position al, in two's complement. */
  function DcBit(x: int, al: nat): bool { x / Pow2(al) % 2 == 1 }

  function DcRefine(x: int, al: nat): seq<Decision> { One(FIXED, DcBit(x, al)) }

  /** x with bit al set, in two's complement. */
  function SetDcBit(x: int, al: nat): int {
    if DcBit(x, al) then x else ToShort(x + Pow2(al))
  }

  function ReadDcRefine(d: DecCoder, x: int, al: nat): (DecCoder, int) {
    var (d1, b) := Decode(d, FIXED);
    (d1, if b then SetDcBit(x, al) else x)
  }

  lemma IntQuotientUnique(x: int, d: nat, q: int, r: nat)
    requires d > 0 && x == q * d + r && r < d
    ensures x / d == q
  {
    var q1, r1 := x / d, x % d;
    assert x == q1 * d + r1;
    if q1 < q { IntMulMonotone(q1 + 1, q, d); }
    if q < q1 { IntMulMonotone(q + 1, q1, d); }
  }

  lemma HalfFloor(x: int, p: nat)
    requires p > 0
    ensures x / (2 * p) == x / p / 2
  {
    var q, r := x / p, x % p;
    var h, l := q / 2, q % 2;
    assert x == q * p + r && q == 2 * h + l;
    assert (2 * h + l) * p == h * (2 * p) + l * p;
    IntQuotientUnique(x, 2 * p, h, l * p + r);
  }

  /** A refinement scan adds the next bit of a DC coefficient. */
  lemma DcRefineMeaning(d: DecCoder, x0: int, x: int, al: nat)
    requires IsShort(x) && al <= 13 && x0 == PointDc(x, al + 1) && Follows(d, DcRefine(x, al))
    ensures ReadDcRefine(d, x0, al) == (DecodeAll(d, DcRefine(x, al)), PointDc(x, al))
  {
    hide Decode, Pow2, Follows, DecodeAll;
    FollowsOne(d, FIXED, DcBit(x, al));
    PointDcShort(x, al);
    PointDcStep(x, al);
  }

  lemma PointDcStep(x: int, al: nat)
    ensures var x0 := PointDc(x, al + 1);
      !DcBit(x0, al) && PointDc(x, al) == if DcBit(x, al) then x0 + Pow2(al) else x0
  {
    var p := Pow2(al);
    HalfFloor(x, p);
    var h, q := x / (2 * p), x / p;
    assert q == 2 * h + q % 2;
    TwiceTimes(h, p);
    IntQuotientUnique(2 * h * p, p, 2 * h, 0);
  }

  lemma TwiceTimes(h: int, p: nat)
    ensures h * (2 * p) == 2 * h * p && (2 * h + 1) * p == 2 * h * p + p
  {
  }
}
