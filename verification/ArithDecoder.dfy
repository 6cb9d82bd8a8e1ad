/** The arithmetic entropy decoder object: source, registers and statistics updated in place. */
module ArithDecoder {
  import opened Bits
  import opened ArithTable
  import D = QmDecoder
  import opened Restart
  import opened QmCoder
  import opened Coefficients
  import opened ArithMagnitude
  import opened ArithAc
  import opened ArithRefine
  import opened ArithDc

  lemma TopBit(c: nat)
    requires c < 15
    ensures 2 * Pow2(c) == 0x8000 <==> c == 14
  {
    Pow2Words();
    Pow2Monotone(c + 1, if c < 14 then 14 else 15);
  }

  /** Setting bits below the leading one does not change which one leads. */
  lemma {:induction false} PatternBounds(d: DecCoder, c: nat, v: nat, st: Addr)
    requires v % Pow2(c) == 0
    ensures v <= ReadPattern(d, c, v, st).1 < v + Pow2(c)
    decreases c
  {
    hide QmCoder.Decode;
    if c > 0 {
      var p, q := Pow2(c - 1), v / Pow2(c);
      var (d1, b) := QmCoder.Decode(d, st);
      assert v == q * (2 * p) == 2 * q * p;
      QuotientUnique(v, p, 2 * q, 0);
      var w := if b then OrBit(v, p) else v;
      assert w == 2 * q * p || w == (2 * q + 1) * p;
      assert w % p == 0 by { if b { ModOfMultiple(2 * q + 1, p); } else { ModOfMultiple(2 * q, p); } }
      PatternBounds(d1, c - 1, w, st);
    }
  }

  lemma ModOfMultiple(q: nat, p: nat)
    requires p > 0
    ensures q * p % p == 0
  {
    QuotientUnique(q * p, p, q, 0);
  }

  lemma PatternLeading(d: DecCoder, c: nat, st: Addr)
    ensures Leading(ReadPattern(d, c, Pow2(c), st).1) == Pow2(c)
  {
    hide QmCoder.Decode, ReadPattern;
    assert Pow2(c) % Pow2(c) == 0 by { ModOfMultiple(1, Pow2(c)); }
    PatternBounds(d, c, Pow2(c), st);
    var u := ReadPattern(d, c, Pow2(c), st).1;
    NBitsBounds(u);
    if NBits(u) - 1 < c { Pow2Monotone(NBits(u), c); }
    if NBits(u) - 1 > c { Pow2Monotone(c + 1, NBits(u) - 1); }
  }

  class Decoder {
    var c: nat
    var a: nat
    var ct: int
    var input: seq<byte>
    var unreadMarker: byte
    var stats: array<byte>

    ghost function Reg(): D.Dec
      reads this
    {
      D.Dec(c, a, ct, D.Source(input, unreadMarker))
    }

    ghost function Coder(): DecCoder
      reads this, stats
    {
      DecCoder(Reg(), stats[..])
    }

    ghost predicate Valid()
      reads this, stats
    {
      Coder().Ok()
    }

    constructor (data: seq<byte>, areas: array<byte>)
      requires StatsOk(areas[..])
      ensures Valid() && stats == areas && Coder() == DecCoder(D.Start(data), areas[..])
    {
      c, a, ct, input, unreadMarker := 0, 0, -16, data, 0;
      stats := areas;
    }

    /** Reads one byte; at the end of the data the source supplies an EOI marker. */
    method GetByte() returns (data: byte)
      modifies this`input
      ensures data == D.GetByte(old(input)).0 && input == D.GetByte(old(input)).1
    {
      if |input| == 0 {
        input := [0xFF, 0xD9];
        assert input[1..] == [0xD9];
      }
      data := input[0];
      input := input[1..];
      assert D.GetByte(old(input)).1 == input;
    }

    /** Reads one data byte, dropping stuffed zeros and stopping for good at a marker. */
    method ReadData() returns (data: byte)
      modifies this`input, this`unreadMarker
      ensures data == D.NextData(old(D.Source(input, unreadMarker))).0
      ensures D.Source(input, unreadMarker) == D.NextData(old(D.Source(input, unreadMarker))).1
    {
      if unreadMarker != 0 {
        data := 0;
      } else {
        data := GetByte();
        if data == 0xFF {
          ghost var s := input;
          data := GetByte();
          while data == 0xFF
            invariant unreadMarker == 0
            invariant D.SkipFill(s) == if data == 0xFF then D.SkipFill(input) else (data, input)
            decreases if data != 0xFF then 0 else if |input| > 0 && input[0] != 0xFF then 1 else |input| + 2
          {
            data := GetByte();
          }
          if data == 0 {
            data := 0xFF;
          } else {
            unreadMarker := data;
            data := 0;
          }
        }
      }
    }

    /** Doubles the interval until it is large, reading data bytes as they are needed. */
    method Renormalize()
      requires D.Valid(Reg())
      modifies this`c, this`a, this`ct, this`input, this`unreadMarker
      ensures Reg() == D.Fill(old(Reg()))
    {
      hide D.NextData;
      while a < 0x8000
        invariant D.Valid(Reg()) && D.Fill(Reg()) == D.Fill(old(Reg()))
        decreases if a == 0 then 0x10000 - ct else 0x10000 - a
      {
        ghost var before := Reg();
        ct := ct - 1;
        if ct < 0 {
          var data := ReadData();
          c := c * 256 + data;
          ct := ct + 8;
          if ct < 0 {
            ct := ct + 1;
            if ct == 0 {
              a := 0x8000;
            }
          }
        }
        a := a * 2;
        assert Reg() == D.Fetch(before);
      }
    }

    /** Decodes one decision with the statistics bin at st, which it adapts. */
    method ArithDecode(st: Addr) returns (val: bool)
      requires Valid()
      modifies this, stats
      ensures stats == old(stats) && Valid()
      ensures (Coder(), val) == QmCoder.Decode(old(Coder()), st)
    {
      hide Pow2, Qe, AfterLps, AfterMps, ValidBin, D.NextData, D.Fill;
      Renormalize();
      var sv := stats[st];
      var qe := Qe(sv);
      var temp := a - qe;
      a := temp;
      temp := temp * Pow2(ct);
      val := Mps(sv);
      if c >= temp {
        c := c - temp;
        if a < qe {
          a := qe;
          stats[st] := AfterMps(sv);
        } else {
          a := qe;
          stats[st] := AfterLps(sv);
          val := !val;
        }
      } else if a < 0x8000 {
        if a < qe {
          stats[st] := AfterLps(sv);
          val := !val;
        } else {
          stats[st] := AfterMps(sv);
        }
      } else {
        assert stats[..] == old(stats[..])[st := sv];
      }
    }

    /** process_restart: goes past the expected restart marker and starts the registers afresh. */
    method ProcessRestart(num: nat) returns (ok: bool)
      requires Valid() && num < 8
      modifies this
      ensures ok <==> MarkerAhead(old(Reg().src)).marker == RST0 + num
      ensures stats == old(stats) && (ok ==> Valid() && Reg() == D.Start(MarkerAhead(old(Reg().src)).input))
    {
      ok, input, unreadMarker := ReadRestartMarker(input, unreadMarker, RST0 + num);
      if ok {
        c, a, ct := 0, 0, -16;
      }
    }

    // ----- Blocks of coefficients -----

    /** The bits of a magnitude below its leading power of two m0. */
    method DecodePattern(m0: nat, st: Addr, ghost c0: nat) returns (v: nat)
      requires Valid() && m0 == Pow2(c0)
      modifies this, stats
      ensures stats == old(stats) && Valid()
      ensures (Coder(), v) == ReadPattern(old(Coder()), c0, m0, st)
    {
      hide QmCoder.Decode, DecCoder.Ok, OrBit;
      v := m0;
      var m: nat := m0 / 2;
      ghost var c := c0;
      while m > 0
        invariant stats == old(stats) && Valid()
        invariant m == Pow2(c) / 2
        invariant ReadPattern(Coder(), c, v, st) == ReadPattern(old(Coder()), c0, m0, st)
        decreases m
      {
        assert c > 0 && m == Pow2(c - 1);
        var bit := ArithDecode(st);
        if bit {
          v := OrBit(v, m);
        }
        m := m / 2;
        c := c - 1;
      }
    }

    /** Climbs through the magnitude categories from m0 on, whose bins start at st0. */
    method DecodeCategory(m0: nat, st0: Addr, ghost c0: nat) returns (m: nat, st: Addr, ok: bool, ghost c: nat)
      requires Valid() && c0 < 15 && m0 == Pow2(c0) && st0 + (14 - c0) <= 5106
      modifies this, stats
      ensures stats == old(stats) && Valid()
      ensures Coder() == ReadCategory(old(Coder()), c0, st0).0
      ensures ReadCategory(old(Coder()), c0, st0).1 == if ok then Category(c, st) else Overflow
      ensures ok ==> m == Pow2(c)
    {
      hide QmCoder.Decode, DecCoder.Ok;
      m, st, ok, c := m0, st0, true, c0;
      var more := ArithDecode(st);
      ghost var d := old(Coder());
      while more
        invariant stats == old(stats) && Valid() && ok
        invariant c < 15 && m == Pow2(c) && st + (14 - c) <= 5106
        invariant ReadCategory(d, c, st) == ReadCategory(old(Coder()), c0, st0)
        invariant QmCoder.Decode(d, st) == (Coder(), more)
        decreases 15 - c, more
      {
        m := m * 2;
        TopBit(c);
        if m == 0x8000 {
          ok := false;
          return;
        }
        st := st + 1;
        c := c + 1;
        d := Coder();
        more := ArithDecode(st);
      }
    }

    /** The rest of a magnitude whose leading power of two is at least m0; u is one less than it. */
    method DecodeRest(m0: nat, st0: MagSite, ghost c0: nat) returns (u: nat, m: nat, ok: bool)
      requires Valid() && c0 < 15 && m0 == Pow2(c0)
      modifies this, stats
      ensures stats == old(stats) && Valid()
      ensures Coder() == ReadRest(old(Coder()), c0, st0).0
      ensures ReadRest(old(Coder()), c0, st0).1 == if ok then Magnitude(u) else TooLarge
      ensures ok ==> m == Leading(u)
    {
      hide QmCoder.Decode, DecCoder.Ok, ReadCategory, ReadPattern;
      var st;
      ghost var c;
      u := 0;
      m, st, ok, c := DecodeCategory(m0, st0, c0);
      if ok {
        ghost var d := Coder();
        u := DecodePattern(m, st + 14, c);
        PatternLeading(d, c, st + 14);
      }
    }

    method DecodeAcMagnitude(st: MagSite, x: MagSite) returns (u: nat, ok: bool)
      requires Valid()
      modifies this, stats
      ensures stats == old(stats) && Valid()
      ensures Coder() == ReadAcMagnitude(old(Coder()), st, x).0
      ensures ReadAcMagnitude(old(Coder()), st, x).1 == if ok then Magnitude(u) else TooLarge
    {
      hide QmCoder.Decode, DecCoder.Ok, ReadRest, Leading;
      u, ok := 0, true;
      var more := ArithDecode(st);
      if more {
        u := 1;
        more := ArithDecode(st);
        if more {
          var m;
          u, m, ok := DecodeRest(2, x, 1);
        }
      }
    }

    method DecodeDcMagnitude(st: MagSite, x: MagSite) returns (u: nat, m: nat, ok: bool)
      requires Valid()
      modifies this, stats
      ensures stats == old(stats) && Valid()
      ensures Coder() == ReadDcMagnitude(old(Coder()), st, x).0
      ensures ReadDcMagnitude(old(Coder()), st, x).1 == if ok then Magnitude(u) else TooLarge
      ensures ok ==> m == Leading(u)
    {
      hide QmCoder.Decode, DecCoder.Ok, ReadRest;
      u, m, ok := 0, 0, true;
      var more := ArithDecode(st);
      if more {
        u, m, ok := DecodeRest(1, x, 0);
      }
    }

    /** Decodes a DC difference. */
    method DecodeDcFirst(p: Pred, t: DcTable) returns (q: Pred, ok: bool)
      requires Valid() && p.Ok()
      modifies this, stats
      ensures stats == old(stats) && Valid()
      ensures DcResult(Coder(), q, ok) == ReadDcDiff(old(Coder()), p, t)
    {
      hide QmCoder.Decode, DecCoder.Ok, ReadDcMagnitude, NextContext, Leading;
      var st := DcSite(t, p.ctx);
      var nonzero := ArithDecode(st);
      if !nonzero {
        return p.(ctx := 0), true;
      }
      var neg := ArithDecode(st + 1);
      var u, m;
      u, m, ok := DecodeDcMagnitude(st + (if neg then 3 else 2), DcSite(t, 20));
      if !ok {
        return p, false;
      }
      var v: int := u + 1;
      if neg {
        v := -v;
      }
      q := Pred((p.last + v) % 0x10000, NextContext(neg, m, t));
    }

    /** Decodes one block of the first scan of a band into block; false if the data is corrupt. */
    method DecodeAcFirst(block: array<int>, s: Band) returns (ok: bool)
      requires Valid() && s.Ok() && block.Length == 64
      modifies this, stats, block
      ensures stats == old(stats) && Valid()
      ensures BlockResult(Coder(), Zig(block[..]), ok) == ReadAcFirst(old(Coder()), old(Zig(block[..])), s)
    {
      hide QmCoder.Decode, DecCoder.Ok, StatsOk, Site, Zig, ReadAcMagnitude, Natural, Scaled;
      ghost var goal := ReadAcFirst(Coder(), Zig(block[..]), s);
      var k: nat := s.ss;
      while k <= s.se
        invariant stats == old(stats) && Valid() && 1 <= k <= s.se + 1
        invariant ReadFrom(Coder(), Zig(block[..]), k, s) == goal
        decreases 64 - k
      {
        var eob := ArithDecode(Site(s.tbl, k, 0));
        if eob {
          return true;
        }
        var nonzero := ArithDecode(Site(s.tbl, k, 1));
        ghost var d := Coder();
        while !nonzero
          invariant stats == old(stats) && Valid() && 1 <= k <= s.se
          invariant exists e ::
            ReadRun(e, Zig(block[..]), k, s) == goal && QmCoder.Decode(e, Site(s.tbl, k, 1)) == (Coder(), nonzero)
          decreases 64 - k
        {
          k := k + 1;
          if k > s.se {
            return false;
          }
          nonzero := ArithDecode(Site(s.tbl, k, 1));
        }
        var neg := ArithDecode(FIXED);
        var u;
        u, ok := DecodeAcMagnitude(Site(s.tbl, k, 2), MagnitudeSite(s, k));
        if !ok {
          return;
        }
        ZigUpdate(block[..], k, Scaled(neg, u, s.al));
        block[Natural(k)] := Scaled(neg, u, s.al);
        k := k + 1;
      }
      ok := true;
    }

    /** The last nonzero coefficient up to k0, or 0. */
    method FindSet(block: array<int>, k0: Index) returns (k: Index)
      requires block.Length == 64
      ensures k == LastSet(Zig(block[..]), k0)
    {
      hide Natural;
      k := k0;
      while k > 0
        invariant LastSet(Zig(block[..]), k) == LastSet(Zig(block[..]), k0)
      {
        if block[Natural(k)] != 0 {
          break;
        }
        k := k - 1;
      }
    }

    /** Decodes from coefficient k0 up to and including the next one that does not stay zero. */
    method DecodeRefineRun(block: array<int>, k0: Index, ghost kex: Index, s: Band) returns (k: nat, ok: bool)
      requires Valid() && s.Ok() && block.Length == 64 && 1 <= k0 <= s.se
      modifies this, stats, block
      ensures stats == old(stats) && Valid() && (ok ==> k0 < k <= s.se + 1)
      ensures (if ok then ReadRefineFrom(Coder(), Zig(block[..]), k, kex, s)
               else BlockResult(Coder(), Zig(block[..]), false))
        == ReadRefineRun(old(Coder()), old(Zig(block[..])), k0, kex, s)
    {
      hide QmCoder.Decode, DecCoder.Ok, StatsOk, Site, Natural, AddBit, NewBit, ReadRefineFrom, Zig;
      ghost var goal := ReadRefineRun(Coder(), Zig(block[..]), k0, kex, s);
      k := k0;
      while true
        invariant stats == old(stats) && Valid() && k0 <= k <= s.se
        invariant ReadRefineRun(Coder(), Zig(block[..]), k, kex, s) == goal
        decreases 64 - k
      {
        ZigAt(block[..], k);
        if block[Natural(k)] != 0 {
          var bit := ArithDecode(Site(s.tbl, k, 2));
          if bit {
            ZigUpdate(block[..], k, AddBit(block[Natural(k)], s.al));
            block[Natural(k)] := AddBit(block[Natural(k)], s.al);
          }
          return k + 1, true;
        }
        var nonzero := ArithDecode(Site(s.tbl, k, 1));
        if nonzero {
          var neg := ArithDecode(FIXED);
          ZigUpdate(block[..], k, NewBit(neg, s.al));
          block[Natural(k)] := NewBit(neg, s.al);
          return k + 1, true;
        }
        k := k + 1;
        if k > s.se {
          return k, false;
        }
      }
    }

    /** Decodes one block of a refinement scan into block; false if the data is corrupt. */
    method DecodeAcRefine(block: array<int>, s: Band) returns (ok: bool)
      requires Valid() && s.Ok() && block.Length == 64
      modifies this, stats, block
      ensures stats == old(stats) && Valid()
      ensures BlockResult(Coder(), Zig(block[..]), ok) == ReadAcRefine(old(Coder()), old(Zig(block[..])), s)
    {
      hide QmCoder.Decode, DecCoder.Ok, StatsOk, Site, Natural, Zig, ReadRefineRun;
      ghost var goal := ReadAcRefine(Coder(), Zig(block[..]), s);
      var kex := FindSet(block, s.se);
      var k: nat := s.ss;
      while k <= s.se
        invariant stats == old(stats) && Valid() && 1 <= k <= s.se + 1
        invariant ReadRefineFrom(Coder(), Zig(block[..]), k, kex, s) == goal
        decreases 64 - k
      {
        if k > kex {
          var eob := ArithDecode(Site(s.tbl, k, 0));
          if eob {
            return true;
          }
        }
        k, ok := DecodeRefineRun(block, k, kex, s);
        if !ok {
          return;
        }
      }
      ok := true;
    }

    /** Decodes one bit of a DC coefficient. */
    method DecodeDcRefine(x: int, al: nat) returns (y: int)
      requires Valid()
      modifies this, stats
      ensures stats == old(stats) && Valid()
      ensures (Coder(), y) == ReadDcRefine(old(Coder()), x, al)
    {
      hide QmCoder.Decode, DecCoder.Ok, SetDcBit;
      var bit := ArithDecode(FIXED);
      y := if bit then SetDcBit(x, al) else x;
    }
  }

  lemma ZigAt(b: Block, k: Index)
    ensures Zig(b)[k] == b[Natural(k)]
  {
  }
}
