/** The arithmetic entropy encoder object: registers, output and statistics updated in place. */
module ArithEncoder {
  import opened Bits
  import opened Stuffing
  import opened ArithTable
  import opened QmEncoder
  import QmFinish
  import opened QmCoder
  import opened Coefficients
  import opened ArithMagnitude
  import opened ArithAc
  import opened ArithRefine
  import opened ArithDc

  lemma EncodeOne(c: EncCoder, st: Addr, val: bool, rest: seq<Decision>)
    ensures EncodeAll(c, One(st, val) + rest) == EncodeAll(QmCoder.Encode(c, Decision(st, val)), rest)
  {
    assert (One(st, val) + rest)[1..] == rest;
  }

  lemma EncodeNone(c: EncCoder)
    ensures EncodeAll(c, []) == c
  {
  }

  lemma EncodeSingle(c: EncCoder, st: Addr, val: bool)
    ensures EncodeAll(c, One(st, val)) == QmCoder.Encode(c, Decision(st, val))
  {
    EncodeOne(c, st, val, []);
    assert One(st, val) + [] == One(st, val);
  }

  lemma EncodeLast(c: EncCoder, ts: seq<Decision>, st: Addr, val: bool)
    ensures EncodeAll(c, ts + One(st, val)) == QmCoder.Encode(EncodeAll(c, ts), Decision(st, val))
  {
    EncodeAllConcat(c, ts, One(st, val));
    EncodeSingle(EncodeAll(c, ts), st, val);
  }

  class Encoder {
    var c: nat
    var a: nat
    var sc: nat
    var zc: nat
    var ct: nat
    var buffer: int
    var out: seq<byte>
    var stats: array<byte>

    ghost function Reg(): Enc
      reads this
    {
      Enc(c, a, sc, zc, ct, buffer, out)
    }

    ghost function Coder(): EncCoder
      reads this, stats
    {
      EncCoder(Reg(), stats[..])
    }

    ghost predicate Valid()
      reads this, stats
    {
      Coder().Ok()
    }

    /** Registers as at the start of a segment, over the given statistics areas. */
    constructor (areas: array<byte>)
      requires StatsOk(areas[..])
      ensures Valid() && stats == areas && Coder() == EncCoder(START, areas[..])
    {
      c, a, sc, zc, ct, buffer, out := 0, 0x10000, 0, 0, 11, -1, [];
      stats := areas;
      new;
      StartInv();
    }

    method EmitByte(val: byte)
      modifies this`out
      ensures out == old(out) + [val]
    {
      out := out + [val];
    }

    /** Writes the pending zero bytes. */
    method EmitZeros()
      modifies this`out, this`zc
      ensures out == old(out) + Zeros(old(zc)) && zc == 0
    {
      ghost var n := zc;
      while zc > 0
        invariant zc <= n && out == old(out) + Zeros(n - zc)
      {
        EmitByte(0x00);
        zc := zc - 1;
      }
    }

    /** Writes a byte that a carry has just gone into, and turns the stacked bytes into zeros. */
    method EmitCarry()
      requires Shape(Reg())
      modifies this`out, this`zc, this`sc
      ensures Reg() == Carry(old(Reg()))
    {
      if buffer >= 0 {
        EmitZeros();
        EmitByte(buffer + 1);
        if buffer + 1 == 0xFF {
          EmitByte(0x00);
        }
      }
      zc := zc + sc;
      sc := 0;
    }

    /** Writes the held byte and the stacked bytes, which no carry can reach any more. */
    method EmitSettled()
      requires Shape(Reg())
      modifies this`out, this`zc, this`sc
      ensures Reg() == Settle(old(Reg()))
    {
      if buffer == 0 {
        zc := zc + 1;
      } else if buffer >= 0 {
        EmitZeros();
        EmitByte(buffer);
      }
      if sc > 0 {
        EmitZeros();
        ghost var n, before := sc, out;
        while sc > 0
          invariant sc <= n && out == before + StuffedOnes(n - sc)
          invariant zc == 0
        {
          EmitByte(0xFF);
          EmitByte(0x00);
          sc := sc - 1;
        }
      }
    }

    /** Codes one decision with the statistics bin at st, which it adapts. */
    method ArithEncode(st: Addr, val: bool)
      requires Valid()
      modifies this, stats
      ensures stats == old(stats) && Valid()
      ensures Coder() == QmCoder.Encode(old(Coder()), Decision(st, val))
    {
      hide Inv, Qe, AfterLps, AfterMps, Renorm, Exact, Low, Shifts;
      var sv := stats[st];
      var qe := Qe(sv);
      ghost var e := Reg();
      a := a - qe;
      if val != Mps(sv) {
        if a >= qe {
          c := c + a;
          a := qe;
        }
        stats[st] := AfterLps(sv);
      } else {
        if a >= 0x8000 {
          assert Reg() == Narrow(e, qe, false);
          assert stats[..] == old(stats[..])[st := sv];
          return;
        }
        if a < qe {
          c := c + a;
          a := qe;
        }
        stats[st] := AfterMps(sv);
      }
      ghost var n := Reg();
      assert n == Narrow(e, qe, if val != Mps(sv) then e.a - qe >= qe else e.a - qe < qe);
      Renormalize();
      assert Reg() == QmEncoder.Encode(e, sv, val).0;
    }

    /** Moves a full byte out of the register, with any carry. */
    method MoveByteOut()
      requires Shape(Reg())
      modifies this`c, this`ct, this`sc, this`zc, this`buffer, this`out
      ensures Reg() == ByteOut(old(Reg()))
    {
      hide Unstuff, WellStuffed;
      var temp := c / 0x80000;
      if temp > 0xFF {
        EmitCarry();
        buffer := temp % 256;
      } else if temp == 0xFF {
        sc := sc + 1;
      } else {
        EmitSettled();
        buffer := temp % 256;
      }
      c := c % 0x80000;
      ct := ct + 8;
    }

    /** Shifts until the interval is large again, moving bytes out as they fill up. */
    method Renormalize()
      requires Inv(Reg()) && a < 0x8000
      modifies this`c, this`a, this`ct, this`sc, this`zc, this`buffer, this`out
      ensures Reg() == Renorm(old(Reg()))
    {
      hide Unstuff, WellStuffed, Val, Pow2, Low, Pending, ByteOut;
      ghost var e := Reg();
      var more := true;
      while more
        invariant Inv(Reg())
        invariant more ==> a < 0x8000 && Renorm(Reg()) == Renorm(e)
        invariant !more ==> a >= 0x8000 && Reg() == Renorm(e)
        decreases more, 0x8000 - a
      {
        ghost var before := Reg();
        ShiftExact(before);
        a := a * 2;
        c := c * 2;
        ct := ct - 1;
        if ct == 0 {
          MoveByteOut();
        }
        assert Reg() == Shift(before);
        more := a < 0x8000;
      }
    }

    /** Ends the segment: picks the final base and writes what is left of it. */
    method FinishPass()
      requires Valid()
      modifies this
      ensures stats == old(stats) && Reg() == QmFinish.Finish(old(Reg()))
    {
      assert Shape(Reg());
      hide Pow2, Unstuff, WellStuffed, Inv;
      var x := a - 1 + c;
      var temp := x - x % 0x10000;
      if temp < c {
        c := temp + 0x8000;
      } else {
        c := temp;
      }
      c := c * Pow2(ct);
      assert Reg() == QmFinish.FinalShift(old(Reg()));
      if c >= 0x8000000 {
        EmitCarry();
      } else {
        EmitSettled();
      }
      EmitFinalBytes();
    }

    /** Writes the last one or two bytes of the register, unless they are zero. */
    method EmitFinalBytes()
      modifies this`zc, this`out
      ensures Reg() == QmFinish.FinalBytes(old(Reg()))
    {
      if c % 0x8000000 / 0x800 != 0 {
        EmitZeros();
        var hi, lo := c / 0x80000 % 256, c / 0x800 % 256;
        EmitByte(hi);
        if hi == 0xFF {
          EmitByte(0x00);
        }
        if c % 0x80000 / 0x800 != 0 {
          EmitByte(lo);
          if lo == 0xFF {
            EmitByte(0x00);
          }
        }
      }
    }

    // ----- Blocks of coefficients -----

    /** Codes the bits of v below m, where m is the leading power of two of v. */
    method EncodePattern(m0: nat, v: nat, st: Addr, ghost c0: nat)
      requires Valid() && m0 == Pow2(c0)
      modifies this, stats
      ensures stats == old(stats) && Valid()
      ensures Coder() == EncodeAll(old(Coder()), Pattern(c0, v, st))
    {
      hide QmCoder.Encode, EncCoder.Ok;
      var m := m0 / 2;
      ghost var c := c0;
      while m > 0
        invariant stats == old(stats) && Valid()
        invariant m == Pow2(c) / 2
        invariant EncodeAll(Coder(), Pattern(c, v, st)) == EncodeAll(old(Coder()), Pattern(c0, v, st))
        decreases m
      {
        assert c > 0 && m == Pow2(c - 1);
        EncodeOne(Coder(), st, v / m % 2 == 1, Pattern(c - 1, v, st));
        ArithEncode(st, v / m % 2 == 1);
        m := m / 2;
        c := c - 1;
      }
    }

    /** Codes the categories above m0, whose bins start at st0; returns the leading power of two
        of v and the bin that the last decision used. */
    method EncodeCategory(v: nat, v20: nat, m0: nat, st0: MagSite, ghost c0: nat) returns (m: nat, st: Addr)
      requires Valid() && 0 < v < 0x10000 && v20 > 0 && NBits(v) == c0 + NBits(v20) && m0 == Pow2(c0)
      modifies this, stats
      ensures stats == old(stats) && Valid() && m == Pow2(NBits(v) - 1) && st == st0 + (NBits(v) - 1 - c0)
      ensures NBits(v) <= 16
      ensures Coder() == EncodeAll(old(Coder()), Climb(NBits(v) - 1 - c0, st0) + One(st, false))
    {
      hide QmCoder.Encode, EncCoder.Ok, EncodeAll;
      ghost var start := Coder();
      CategoryBound(v);
      var v2: nat := v20 / 2;
      ghost var n: nat := 0;
      st, m := st0, m0;
      EncodeNone(start);
      while v2 > 0
        invariant stats == old(stats) && Valid()
        invariant NBits(v) == c0 + n + 1 + NBits(v2) && m == Pow2(c0 + n) && st == st0 + n
        invariant Coder() == EncodeAll(start, Climb(n, st0))
        decreases v2
      {
        EncodeLast(start, Climb(n, st0), st, true);
        ArithEncode(st, true);
        m := m * 2;
        st := st + 1;
        n := n + 1;
        v2 := v2 / 2;
      }
      EncodeLast(start, Climb(n, st0), st, false);
      ArithEncode(st, false);
    }

    /** The categories above m0 and then the bits below the leading one. */
    method EncodeRest(v: nat, v20: nat, m0: nat, st0: MagSite, ghost c0: nat) returns (m: nat)
      requires Valid() && 0 < v < 0x10000 && v20 > 0 && NBits(v) == c0 + NBits(v20) && m0 == Pow2(c0)
      modifies this, stats
      ensures stats == old(stats) && Valid() && m == Leading(v)
      ensures Coder() == EncodeAll(old(Coder()), Rest(c0, v, st0))
    {
      hide QmCoder.Encode, EncCoder.Ok, Pattern, Climb, EncodeAll;
      ghost var start, n := Coder(), NBits(v) - 1 - c0;
      var st;
      m, st := EncodeCategory(v, v20, m0, st0, c0);
      EncodePattern(m, v, st + 14, NBits(v) - 1);
      EncodeAllConcat(start, Climb(n, st0) + One(st, false), Pattern(NBits(v) - 1, v, st + 14));
    }

    /** Codes an AC magnitude v + 1. */
    method EncodeAcMagnitude(v: nat, st: MagSite, x: MagSite)
      requires Valid() && v < 0x8000
      modifies this, stats
      ensures stats == old(stats) && Valid()
      ensures Coder() == EncodeAll(old(Coder()), AcMagnitude(v, st, x))
    {
      hide QmCoder.Encode, EncCoder.Ok, Rest;
      ghost var start := Coder();
      if v != 0 {
        ArithEncode(st, true);
        EncodeSingle(start, st, true);
        var v2 := v / 2;
        if v2 != 0 {
          EncodeLast(start, One(st, true), st, true);
          ArithEncode(st, true);
          EncodeAllConcat(start, One(st, true) + One(st, true), Rest(1, v, x));
          var m := EncodeRest(v, v2, 2, x, 1);
        } else {
          EncodeLast(start, One(st, true), st, false);
          ArithEncode(st, false);
        }
      } else {
        EncodeSingle(start, st, false);
        ArithEncode(st, false);
      }
    }

    /** Codes a nonzero AC coefficient of magnitude v after the end-of-block decision. */
    method EncodeNonzero(b: Block, k: Index, v: nat, s: Band)
      requires Valid() && Shorts(Zig(b)) && 1 <= k && v == Mag(b[Natural(k)], s.al) && v != 0
      modifies this, stats
      ensures stats == old(stats) && Valid()
      ensures Coder() == EncodeAll(old(Coder()), Nonzero(Zig(b), k, s))
    {
      hide QmCoder.Encode, EncCoder.Ok, AcMagnitude, Mag, Natural;
      ghost var start, z := Coder(), Zig(b);
      MagBound(z[k], s.al);
      var st, x, neg := Site(s.tbl, k, 1), MagnitudeSite(s, k), b[Natural(k)] < 0;
      EncodeSingle(start, st, true);
      ArithEncode(st, true);
      EncodeLast(start, One(st, true), FIXED, neg);
      ArithEncode(FIXED, neg);
      EncodeAllConcat(start, One(st, true) + One(FIXED, neg), AcMagnitude(v - 1, st + 1, x));
      EncodeAcMagnitude(v - 1, st + 1, x);
    }

    /** The last coefficient of the band whose magnitude is nonzero with al bits dropped. */
    method FindEnd(b: Block, k0: Index, al: nat) returns (ke: Index)
      ensures ke == LastNonzero(Zig(b), k0, al)
    {
      hide Mag, Natural;
      ke := k0;
      while ke > 0
        invariant LastNonzero(Zig(b), ke, al) == LastNonzero(Zig(b), k0, al)
      {
        if Mag(b[Natural(ke)], al) != 0 {
          break;
        }
        ke := ke - 1;
      }
    }

    /** Codes one block in the first scan of an AC band, or in a sequential scan. */
    method EncodeAcFirst(b: Block, s: Band)
      requires Valid() && Shorts(Zig(b)) && s.Ok()
      modifies this, stats
      ensures stats == old(stats) && Valid()
      ensures Coder() == EncodeAll(old(Coder()), AcFirst(Zig(b), s))
    {
      hide QmCoder.Encode, EncCoder.Ok, Nonzero, Mag, Natural, LastNonzero, Site;
      ghost var z, goal := Zig(b), EncodeAll(Coder(), AcFirst(Zig(b), s));
      var ke := FindEnd(b, s.se, s.al);
      var k: nat := s.ss;
      while k <= ke
        invariant stats == old(stats) && Valid() && 1 <= k <= s.se + 1
        invariant EncodeAll(Coder(), FirstFrom(z, k, ke, s)) == goal
        decreases ke + 1 - k
      {
        EncodeOne(Coder(), Site(s.tbl, k, 0), false, FirstRun(z, k, ke, s));
        ArithEncode(Site(s.tbl, k, 0), false);
        var v := Mag(b[Natural(k)], s.al);
        while v == 0
          invariant stats == old(stats) && Valid() && 1 <= k <= ke && v == Mag(b[Natural(k)], s.al)
          invariant EncodeAll(Coder(), FirstRun(z, k, ke, s)) == goal
          decreases ke - k
        {
          EncodeOne(Coder(), Site(s.tbl, k, 1), false, FirstRun(z, k + 1, ke, s));
          ArithEncode(Site(s.tbl, k, 1), false);
          k := k + 1;
          v := Mag(b[Natural(k)], s.al);
        }
        EncodeAllConcat(Coder(), Nonzero(z, k, s), FirstFrom(z, k + 1, ke, s));
        EncodeNonzero(b, k, v, s);
        k := k + 1;
      }
      if k <= s.se {
        EncodeSingle(Coder(), Site(s.tbl, k, 0), true);
        ArithEncode(Site(s.tbl, k, 0), true);
      }
    }

    /** Codes one block in a refinement scan of an AC band. */
    method EncodeAcRefine(b: Block, s: Band)
      requires Valid() && s.Ok()
      modifies this, stats
      ensures stats == old(stats) && Valid()
      ensures Coder() == EncodeAll(old(Coder()), AcRefine(Zig(b), s))
    {
      hide QmCoder.Encode, EncCoder.Ok, Mag, Natural, LastNonzero, Site, Refined, StatsOk;
      ghost var z, goal := Zig(b), EncodeAll(Coder(), AcRefine(Zig(b), s));
      var ke := FindEnd(b, s.se, s.al);
      var kex := FindEnd(b, ke, s.ah);
      var k: nat := s.ss;
      while k <= ke
        invariant stats == old(stats) && Valid() && 1 <= k <= s.se + 1
        invariant EncodeAll(Coder(), RefineFrom(z, k, ke, kex, s)) == goal
        decreases ke + 1 - k
      {
        if k > kex {
          EncodeOne(Coder(), Site(s.tbl, k, 0), false, RefineRun(z, k, ke, kex, s));
          ArithEncode(Site(s.tbl, k, 0), false);
        } else {
          assert [] + RefineRun(z, k, ke, kex, s) == RefineRun(z, k, ke, kex, s);
        }
        var v := Mag(b[Natural(k)], s.al);
        while v == 0
          invariant stats == old(stats) && Valid() && 1 <= k <= ke && v == Mag(b[Natural(k)], s.al)
          invariant EncodeAll(Coder(), RefineRun(z, k, ke, kex, s)) == goal
          decreases ke - k
        {
          EncodeOne(Coder(), Site(s.tbl, k, 1), false, RefineRun(z, k + 1, ke, kex, s));
          ArithEncode(Site(s.tbl, k, 1), false);
          k := k + 1;
          v := Mag(b[Natural(k)], s.al);
        }
        EncodeAllConcat(Coder(), Refined(z, k, s), RefineFrom(z, k + 1, ke, kex, s));
        EncodeRefined(b, k, v, s);
        k := k + 1;
      }
      if k <= s.se {
        EncodeSingle(Coder(), Site(s.tbl, k, 0), true);
        ArithEncode(Site(s.tbl, k, 0), true);
      }
    }

    method EncodeRefined(b: Block, k: Index, v: nat, s: Band)
      requires Valid() && 1 <= k && v == Mag(b[Natural(k)], s.al)
      modifies this, stats
      ensures stats == old(stats) && Valid()
      ensures Coder() == EncodeAll(old(Coder()), Refined(Zig(b), k, s))
    {
      hide QmCoder.Encode, EncCoder.Ok, Mag, Natural;
      ghost var start := Coder();
      if v / 2 != 0 {
        EncodeSingle(start, Site(s.tbl, k, 2), v % 2 == 1);
        ArithEncode(Site(s.tbl, k, 2), v % 2 == 1);
      } else {
        EncodeSingle(start, Site(s.tbl, k, 1), true);
        ArithEncode(Site(s.tbl, k, 1), true);
        EncodeLast(start, One(Site(s.tbl, k, 1), true), FIXED, b[Natural(k)] < 0);
        ArithEncode(FIXED, b[Natural(k)] < 0);
      }
    }

    /** Codes a DC difference; returns the new prediction and context. */
    method EncodeDcFirst(x: int, al: nat, p: Pred, t: DcTable) returns (q: Pred)
      requires Valid() && p.Ok() && Coefficients.Abs(Diff(p, x, al)) <= 0x10000
      modifies this, stats
      ensures stats == old(stats) && Valid() && q == AfterDiff(p, Diff(p, x, al), t)
      ensures Coder() == EncodeAll(old(Coder()), DcDiff(Diff(p, x, al), p.ctx, t))
    {
      hide QmCoder.Encode, EncCoder.Ok, Rest, Pow2, Leading;
      ghost var start := Coder();
      var value := x / Pow2(al);
      var v: int := value - p.last;
      var st := DcSite(t, p.ctx);
      if v == 0 {
        EncodeSingle(start, st, false);
        ArithEncode(st, false);
        return p.(ctx := 0);
      }
      var neg := v < 0;
      EncodeSingle(start, st, true);
      ArithEncode(st, true);
      EncodeLast(start, One(st, true), st + 1, neg);
      ArithEncode(st + 1, neg);
      var u := (if neg then -v else v) - 1;
      var m := EncodeDcMagnitude(u, st + (if neg then 3 else 2), DcSite(t, 20));
      EncodeAllConcat(start, One(st, true) + One(st + 1, neg),
        DcMagnitude(u, st + (if neg then 3 else 2), DcSite(t, 20)));
      q := Pred(value, NextContext(neg, m, t));
    }

    method EncodeDcMagnitude(v: nat, st: MagSite, x: MagSite) returns (m: nat)
      requires Valid() && v < 0x10000
      modifies this, stats
      ensures stats == old(stats) && Valid() && m == Leading(v)
      ensures Coder() == EncodeAll(old(Coder()), DcMagnitude(v, st, x))
    {
      hide QmCoder.Encode, EncCoder.Ok, Rest;
      ghost var start := Coder();
      m := 0;
      EncodeSingle(start, st, v != 0);
      ArithEncode(st, v != 0);
      if v != 0 {
        EncodeAllConcat(start, One(st, true), Rest(0, v, x));
        m := EncodeRest(v, v, 1, x, 0);
      }
    }

    /** Codes one bit of a DC coefficient. */
    method EncodeDcRefine(x: int, al: nat)
      requires Valid()
      modifies this, stats
      ensures stats == old(stats) && Valid()
      ensures Coder() == EncodeAll(old(Coder()), DcRefine(x, al))
    {
      hide QmCoder.Encode, EncCoder.Ok;
      EncodeSingle(Coder(), FIXED, DcBit(x, al));
      ArithEncode(FIXED, DcBit(x, al));
    }
  }
}
