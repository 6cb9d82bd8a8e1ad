/** The progressive Huffman encoder for AC scans: end-of-block runs, the buffer of correction bits, and
    the bitmasks by which it moves from one nonzero coefficient to the next. In a statistics pass
    symbols are counted instead of written. */
module ProgEncoder {
  import opened Bits
  import opened Coefficients
  import opened ProgItems
  import opened ProgMeaning
  import opened ProgStored

  /** A coefficient shifted down, rounding toward zero. */
  function Shifted(x: int, al: nat): int { if x < 0 then -(Mag(x, al) as int) else Mag(x, al) }

  /** The band [ss, se] of a block whose coefficients come in zigzag order. */
  function BandOf(z: Block, ss: nat, se: nat, al: nat): (v: Band)
    requires 1 <= ss <= se < 64
    ensures |v| == se - ss + 1 <= 63
  {
    seq(se - ss + 1, k requires 0 <= k < se - ss + 1 => Shifted(z[ss + k], al))
  }

  function Unknown(v: Band): (h: Band)
    ensures |h| == |v| && forall k :: 0 <= k < |h| ==> h[k] == 0
  {
    seq(|v|, k => 0)
  }

  // ----- Bitmasks -----

  /** The mask of the nonzero (or, if positive is set, of the positive) coefficients from k on. */
  function Mask(v: Band, positive: bool, k: nat): nat
    requires k <= |v|
    decreases |v| - k
  {
    if k == |v| then 0 else (if v[k] > 0 || (v[k] != 0 && !positive) then 1 else 0) + 2 * Mask(v, positive, k + 1)
  }

  /** Setting bit k. */
  lemma MaskStep(v: Band, positive: bool, k: nat)
    requires k < |v|
    ensures Pow2(k) * Mask(v, positive, k)
      == (if v[k] > 0 || (v[k] != 0 && !positive) then Pow2(k) else 0) + Pow2(k + 1) * Mask(v, positive, k + 1)
  {
    BitAndRest(Pow2(k), if v[k] > 0 || (v[k] != 0 && !positive) then 1 else 0, Mask(v, positive, k + 1));
    MaskIs(v, positive, k);
    hide Mask;
  }

  lemma MaskIs(v: Band, positive: bool, k: nat)
    requires k < |v|
    ensures Mask(v, positive, k) == (if v[k] > 0 || (v[k] != 0 && !positive) then 1 else 0) +
      2 * Mask(v, positive, k + 1)
  {
  }

  lemma BitAndRest(p: nat, b: nat, m: nat)
    requires b <= 1
    ensures p * (b + 2 * m) == (if b == 1 then p else 0) + 2 * p * m
  {
    assert p * (b + 2 * m) == p * b + p * (2 * m);
    assert p * (2 * m) == 2 * p * m;
  }

  /** The mask shifted down by one. */
  lemma MaskHalf(v: Band, positive: bool, k: nat)
    requires k < |v|
    ensures Mask(v, positive, k) / 2 == Mask(v, positive, k + 1)
  {
  }

  lemma {:induction false} MaskShift(v: Band, positive: bool, k: nat, n: nat)
    requires k + n <= |v|
    ensures Mask(v, positive, k) / Pow2(n) == Mask(v, positive, k + n)
    decreases n
  {
    if n > 0 {
      MaskShift(v, positive, k, n - 1);
      DivDiv(Mask(v, positive, k), Pow2(n - 1));
      MaskHalf(v, positive, k + n - 1);
    }
  }

  lemma {:induction false} MaskZero(v: Band, k: nat)
    requires k <= |v|
    ensures Mask(v, false, k) == 0 <==> forall j :: k <= j < |v| ==> v[j] == 0
    decreases |v| - k
  {
    if k < |v| { MaskZero(v, k + 1); }
  }

  /** count_zeroes: shifts the mask to its lowest bit, the next nonzero coefficient. */
  method CountZeroes(x0: nat, ghost v: Band, ghost k: nat) returns (n: nat, x: nat)
    requires k <= |v| && x0 == Mask(v, false, k) > 0
    ensures k + n < |v| && x == Mask(v, false, k + n) && v[k + n] != 0
    ensures forall j :: k <= j < k + n ==> v[j] == 0
  {
    n, x := 0, x0;
    while x % 2 == 0
      invariant k + n < |v| && x == Mask(v, false, k + n) > 0
      invariant forall j :: k <= j < k + n ==> v[j] == 0
      decreases |v| - n
    {
      MaskHalf(v, false, k + n);
      n := n + 1;
      x := x / 2;
    }
  }

  // ----- Preparing a band -----

  function Complement(x: int): int { -1 - x }

  /** encode_mcu_AC_first_prepare: magnitudes and output bits of the nonzero coefficients, stored in 16
      bits, and their mask. */
  method AcFirstPrepare(z: Block, ss: nat, se: nat, al: nat) returns (values: array<int>, zerobits: nat)
    requires 1 <= ss <= se < 64 && Shorts(z)
    ensures fresh(values) && values.Length == 128
    ensures var v := BandOf(z, ss, se, al);
      zerobits == Mask(v, false, 0) && forall k :: 0 <= k < |v| && v[k] != 0 ==>
        values[k] == Stored(v[k]) && values[k + 64] == ToShort(if v[k] < 0 then v[k] - 1 else v[k])
  {
    hide Mask, Pow2, ToShort;
    ghost var v := BandOf(z, ss, se, al);
    values := new int[128](_ => 0);
    zerobits := 0;
    Pow2Small();
    for k := 0 to se - ss + 1
      invariant zerobits + Pow2(k) * Mask(v, false, k) == Mask(v, false, 0)
      invariant forall j :: 0 <= j < k && v[j] != 0 ==>
        values[j] == Stored(v[j]) && values[j + 64] == ToShort(if v[j] < 0 then v[j] - 1 else v[j])
    {
      MaskStep(v, false, k);
      var temp := Mag(z[ss + k], al);
      if temp != 0 {
        values[k] := ToShort(temp);
        values[k + 64] := ToShort(if z[ss + k] < 0 then Complement(temp) else temp);
        zerobits := zerobits + Pow2(k);
      }
    }
    MaskEnd(v, false);
  }

  lemma MaskEnd(v: Band, positive: bool)
    ensures Mask(v, positive, |v|) == 0
  {
  }

  /** encode_mcu_AC_refine_prepare: magnitudes, stored in 16 bits, the masks, and the position of the
      last new coefficient. */
  method AcRefinePrepare(z: Block, ss: nat, se: nat, al: nat)
    returns (absvalues: array<int>, zerobits: nat, signbits: nat, eob: nat)
    requires 1 <= ss <= se < 64 && Shorts(z)
    ensures fresh(absvalues) && absvalues.Length == 64
    ensures var v := BandOf(z, ss, se, al);
      && zerobits == Mask(v, false, 0) && signbits == Mask(v, true, 0) && eob == LastNew(Known(v), v, |v|)
      && forall k :: 0 <= k < |v| ==> absvalues[k] == Stored(v[k])
  {
    hide Mask, Pow2, ToShort;
    ghost var v := BandOf(z, ss, se, al);
    absvalues := new int[64](_ => 0);
    zerobits, signbits, eob := 0, 0, 0;
    Pow2Small();
    for k := 0 to se - ss + 1
      invariant zerobits + Pow2(k) * Mask(v, false, k) == Mask(v, false, 0)
      invariant signbits + Pow2(k) * Mask(v, true, k) == Mask(v, true, 0)
      invariant eob == LastNew(Known(v), v, k)
      invariant forall j :: 0 <= j < k ==> absvalues[j] == Stored(v[j])
    {
      MaskStep(v, false, k);
      MaskStep(v, true, k);
      var temp := Mag(z[ss + k], al);
      if temp != 0 {
        zerobits := zerobits + Pow2(k);
        if z[ss + k] >= 0 { signbits := signbits + Pow2(k); }
      }
      absvalues[k] := ToShort(temp);
      if temp == 1 { eob := k; }
    }
    MaskEnd(v, false);
    MaskEnd(v, true);
  }

  // ----- What remains to be written -----

  /** How often symbol s occurs. */
  function Count(items: seq<Item>, s: nat): nat {
    if |items| == 0 then 0
    else Count(items[..|items| - 1], s) + if items[|items| - 1] == Sym(s) then 1 else 0
  }

  /** The output and the pending blocks after the rest c of a block. */
  function Total(out: seq<Item>, p: Pending, c: Coded): Step {
    var s := AddBlock(p, c);
    Step(out + s.items, s.next)
  }

  lemma TotalStep(out: seq<Item>, p: Pending, its: seq<Item>, c: Coded)
    requires its != []
    ensures Total(out, p, After(its, c)) == Total(out + Flush(p) + its, NONE, c)
  {
    hide AddBlock, Flush;
    AfterNone(its, c);
    AfterNonempty(its, c);
    hide After;
    SeparateItems(p, After(its, c));
    var f, x := Flush(p), AddBlock(NONE, c).items;
    ItemsAssoc(f, its, x);
    ItemsAssoc(out, f + its, x);
    ItemsAssoc(out, f, its);
  }

  lemma AfterNonempty(its: seq<Item>, c: Coded)
    requires its != []
    ensures After(its, c).items != []
  {
  }

  lemma AfterNone(its: seq<Item>, c: Coded)
    requires its != []
    ensures AddBlock(NONE, After(its, c)) == Step(its + AddBlock(NONE, c).items, AddBlock(NONE, c).next)
  {
    hide EndBlock;
    NoneFlushed(its + c.items);
    NoneFlushed(c.items);
    hide Flush;
    var s := EndBlock(NONE, c.bits).items;
    assert its + c.items + s == its + (c.items + s) && its + (c.items + []) == its + c.items &&
      its + ([] + s) == its + s;
  }

  lemma NoneLeft(h: Band, v: Band, eob: nat, k: nat, r: nat, bits: seq<nat>)
    requires |h| == |v| && k <= |v| && Mask(v, false, k) == 0
    ensures CodeTo(h, v, eob, k, r, bits) == Coded([], r + (|v| - k), bits)
  {
    MaskZero(v, k);
    ZerosSkipped(h, v, eob, k, |v| - k, r, bits);
  }

  /** The block that a scan codes, and what is known of it. */
  function Target(h: Band, v: Band): Coded
    requires |h| == |v|
  {
    Code(h, v, 0, 0, [])
  }

  class Encoder {
    const gather: bool
    /** What is written; nothing in a statistics pass. */
    var output: seq<Item>
    const counts: array<nat>
    var eobrun: nat
    var be: nat
    const bitBuffer: array<nat>

    /** What an output pass has written by now. */
    ghost var emitted: seq<Item>

    ghost predicate Allocated()
      reads this, counts
    {
      && counts.Length == 257 && bitBuffer.Length == MAX_CORR_BITS && counts != bitBuffer && InTable(emitted)
      && (!gather ==> output == emitted)
      && (gather ==> forall s :: 0 <= s < 257 ==> counts[s] == Count(emitted, s))
    }

    ghost function P(): Pending
      requires be <= bitBuffer.Length
      reads this, bitBuffer
    {
      Pending(eobrun, bitBuffer[..be])
    }

    ghost predicate Valid()
      reads this, counts, bitBuffer
    {
      Allocated() && be <= bitBuffer.Length && P().Ok() && forall i :: 0 <= i < be ==> bitBuffer[i] < 2
    }

    constructor (gather0: bool)
      ensures Valid() && gather == gather0 && emitted == [] && P() == NONE && fresh(counts) && fresh(bitBuffer)
    {
      gather := gather0;
      output, emitted, eobrun, be := [], [], 0, 0;
      counts := new nat[257](_ => 0);
      bitBuffer := new nat[MAX_CORR_BITS](_ => 0);
    }

    method EmitSymbol(s: nat)
      requires Allocated() && s < 256
      modifies `output, `emitted, counts
      ensures Allocated() && emitted == old(emitted) + [Sym(s)]
    {
      if gather {
        counts[s] := counts[s] + 1;
      } else {
        output := output + [Sym(s)];
      }
      emitted := emitted + [Sym(s)];
    }

    /** emit_bits, for the low n bits of x. */
    method EmitBits(x: int, n: nat)
      requires Allocated() && n > 0
      modifies `output, `emitted
      ensures Allocated() && emitted == old(emitted) + [Raw(n, x % Pow2(n))]
    {
      if !gather {
        output := output + [Raw(n, x % Pow2(n))];
      }
      RawNotCounted(emitted, n, x % Pow2(n));
      emitted := emitted + [Raw(n, x % Pow2(n))];
    }

    method EmitBufferedBits(start: nat, n: nat)
      requires Allocated() && start + n <= bitBuffer.Length && forall i :: start <= i < start + n ==> bitBuffer[i] < 2
      modifies `output, `emitted
      ensures Allocated() && emitted == old(emitted) + Corrections(bitBuffer[start..start + n])
    {
      if gather {
        CorrectionsNotCounted(emitted, bitBuffer[start..start + n]);
        emitted := emitted + Corrections(bitBuffer[start..start + n]);
        return;
      }
      Pow2Small();
      for i := 0 to n
        invariant Allocated() && emitted == old(emitted) + Corrections(bitBuffer[start..start + i])
      {
        EmitBits(bitBuffer[start + i], 1);
        assert bitBuffer[start..start + i + 1] == bitBuffer[start..start + i] + [bitBuffer[start + i]];
        CorrectionsConcat(bitBuffer[start..start + i], [bitBuffer[start + i]]);
      }
    }

    /** The symbol, and the extra bits, for the number of blocks that have ended. */
    method EmitRun()
      requires Allocated() && 0 < eobrun <= MAX_RUN
      modifies `output, `emitted, counts
      ensures Allocated() && emitted == old(emitted) + EobItems(eobrun)
    {
      var nbits := NBits(eobrun) - 1;
      EobFields(eobrun);
      hide NBits, Count;
      EmitSymbol(16 * nbits);
      if nbits > 0 { EmitBits(eobrun, nbits); }
    }

    /** emit_eobrun: writes the end of the pending blocks, and their correction bits. */
    method EmitEobrun()
      requires Allocated() && be <= bitBuffer.Length && eobrun <= MAX_RUN && (eobrun == 0 ==> be == 0)
      requires forall i :: 0 <= i < be ==> bitBuffer[i] < 2
      modifies `output, `emitted, `eobrun, `be, counts
      ensures Allocated() && emitted == old(emitted) + old(Flush(P())) && eobrun == 0 && be == 0
    {
      hide EobItems, Corrections, Count;
      if eobrun > 0 {
        EmitRun();
        ghost var first := emitted;
        eobrun := 0;
        EmitBufferedBits(0, be);
        assert bitBuffer[0..be] == old(bitBuffer[..be]);
        be := 0;
        ItemsAssoc(old(emitted), EobItems(old(eobrun)), Corrections(old(bitBuffer[..be])));
      }
    }
  
    /** The end of a block with n correction bits, which are in the buffer already. */
    method EndOfBlock(n: nat)
      requires Valid() && n <= 63 && forall i :: be <= i < be + n ==> bitBuffer[i] < 2
      modifies `output, `emitted, `eobrun, `be, counts
      ensures Valid()
      ensures var s := EndBlock(old(P()), old(bitBuffer[be..be + n]));
        emitted == old(emitted) + s.items && P() == s.next
    {
      hide EobItems, Count;
      assert bitBuffer[..be + n] == bitBuffer[..be] + bitBuffer[be..be + n];
      eobrun := eobrun + 1;
      be := be + n;
      if eobrun == MAX_RUN || be > MAX_CORR_BITS - 64 + 1 {
        EmitEobrun();
      }
    }

    // ----- First scans -----

    /** encode_mcu_AC_first; an error if a coefficient is out of range. */
    method EncodeMcuAcFirst(z: Block, ss: nat, se: nat, al: nat) returns (ok: bool)
      requires Valid() && 1 <= ss <= se < 64 && Shorts(z)
      modifies this, counts
      ensures ok <==> forall k :: 0 <= k <= se - ss ==> NBits(Abs(BandOf(z, ss, se, al)[k])) <= 10
      ensures ok ==> Valid()
      ensures ok ==> var v := BandOf(z, ss, se, al);
        Step(emitted, P()) == Total(old(emitted), old(P()), Target(Unknown(v), v))
    {
      hide Total, CodeTo, Flush, Mask, Count;
      ghost var v := BandOf(z, ss, se, al);
      ghost var h := Unknown(v);
      ghost var eob := LastNew(h, v, |v|);
      ghost var goal := Total(emitted, P(), Target(h, v));
      var values, zerobits := AcFirstPrepare(z, ss, se, al);
      if zerobits != 0 {
        SomeItems(h, v, eob, 0, 0);
        FlushFirst(emitted, P(), Target(h, v));
        if eobrun > 0 { EmitEobrun(); } else { FlushNone(emitted); }
        assert P() == NONE;
      }
      var k;
      forall j | 0 <= j < |v| ensures IsShort(v[j]) { BandShort(z, ss, se, al, j); }
      ok, k := EncodeNonzero(values, zerobits, h, v, eob, goal);
      if !ok { return; }
      NoneLeft(h, v, eob, k, 0, []);
      EndTotal(emitted, P(), |v| - k, []);
      if k < se - ss + 1 {
        assert bitBuffer[be..be] == [];
        EndOfBlock(0);
      }
    }

    /** The nonzero coefficients; k is the position after the last. */
    method EncodeNonzero(values: array<int>, zerobits0: nat, ghost h: Band, ghost v: Band, ghost eob: nat,
        ghost goal: Step)
      returns (ok: bool, k: nat)
      requires Valid() && |h| == |v| <= 64 && values.Length == 128 && zerobits0 == Mask(v, false, 0)
      requires eob == LastNew(h, v, |v|) && forall j :: 0 <= j < |h| ==> h[j] == 0
      requires forall j :: 0 <= j < |v| ==> IsShort(v[j])
      requires forall j :: 0 <= j < |v| && v[j] != 0 ==>
        values[j] == Stored(v[j]) && values[j + 64] == ToShort(if v[j] < 0 then v[j] - 1 else v[j])
      requires (zerobits0 != 0 ==> P() == NONE) && Total(emitted, P(), CodeTo(h, v, eob, 0, 0, [])) == goal
      modifies `output, `emitted, counts
      ensures ok <==> forall j :: 0 <= j < |v| ==> NBits(Abs(v[j])) <= 10
      ensures ok ==> Valid() && k <= |v| && Mask(v, false, k) == 0
      ensures ok ==> Total(emitted, P(), CodeTo(h, v, eob, k, 0, [])) == goal
    {
      hide Total, CodeTo, Flush, Mask, Count, NBits;
      var zerobits := zerobits0;
      k := 0;
      Pow2Small();
      ZeroBits();
      while zerobits != 0
        invariant k <= |v| && zerobits == Mask(v, false, k)
        invariant Valid() && (zerobits != 0 ==> P() == NONE)
        invariant Total(emitted, P(), CodeTo(h, v, eob, k, 0, [])) == goal
        invariant forall j :: 0 <= j < k ==> NBits(Abs(v[j])) <= 10
        decreases |v| - k
      {
        var r, x := CountZeroes(zerobits, v, k);
        ZerosSkipped(h, v, eob, k, r, 0, []);
        k := k + r;
        var temp, temp2 := values[k], values[k + 64];
        LastNewIs(h, v, k, |v|);
        EmitZeros(h, v, eob, k, r, goal);
        r := r % 16;
        var nbits := if temp < 0 then 32 else NBits(temp);
        StoredBits(v[k]);
        if nbits > 10 { return false, k; }
        EmitValue(h, v, eob, k, r, nbits, temp2, goal);
        MaskHalf(v, false, k);
        k := k + 1;
        zerobits := x / 2;
      }
      MaskZero(v, k);
      ok := true;
    }

    /** The special symbols for runs of sixteen zeros. */
    method EmitZeros(ghost h: Band, ghost v: Band, ghost eob: nat, ghost k: nat, r0: nat, ghost goal: Step)
      requires Valid() && P() == NONE && |h| == |v| && k < |v| && v[k] != 0 && k <= eob
      requires Total(emitted, NONE, CodeTo(h, v, eob, k, r0, [])) == goal
      modifies `output, `emitted, counts
      ensures Valid() && P() == NONE && Total(emitted, NONE, CodeTo(h, v, eob, k, r0 % 16, [])) == goal
    {
      hide Total, Count, Flush;
      var r := r0;
      while r > 15
        invariant Valid() && P() == NONE && Total(emitted, NONE, CodeTo(h, v, eob, k, r, [])) == goal
        invariant r % 16 == r0 % 16
      {
        NoCorrections([]);
        assert [Sym(0xF0)] + Corrections([]) == [Sym(0xF0)];
        TotalStep(emitted, NONE, [Sym(0xF0)], CodeTo(h, v, eob, k, r - 16, []));
        assert emitted + Flush(NONE) == emitted by { FlushNone(emitted); }
        EmitSymbol(0xF0);
        r := r - 16;
      }
    }

    /** The symbol of a new coefficient, and its bits. */
    method EmitValue(ghost h: Band, ghost v: Band, ghost eob: nat, ghost k: nat, r: nat, nbits: nat, temp2: int,
        ghost goal: Step)
      requires Valid() && P() == NONE && |h| == |v| && k < |v| && New(h, v, k) && r <= 15
      requires nbits == NBits(Abs(v[k])) <= 10 && temp2 == if v[k] < 0 then v[k] - 1 else v[k]
      requires Total(emitted, NONE, CodeTo(h, v, eob, k, r, [])) == goal
      modifies `output, `emitted, counts
      ensures Valid() && P() == NONE && Total(emitted, NONE, CodeTo(h, v, eob, k + 1, 0, [])) == goal
    {
      hide Total, Count, Flush;
      NBitsBounds(Abs(v[k]));
      NoCorrections([]);
      assert NewItems(r, v[k]) + Corrections([]) == NewItems(r, v[k]);
      TotalStep(emitted, NONE, NewItems(r, v[k]), CodeTo(h, v, eob, k + 1, 0, []));
      FlushNone(emitted);
      EmitSymbol(16 * r + nbits);
      EmitBits(temp2, nbits);
      assert emitted == old(emitted) + NewItems(r, v[k]);
    }
  
    // ----- Refinement scans -----

    /** The correction bits held back in this block: n of them, from start on in the buffer. */
    ghost predicate Held(start: nat, n: nat, k: nat)
      reads this, counts, bitBuffer
    {
      Valid() && start == be && n <= k <= 63 && forall i :: be <= i < be + n ==> bitBuffer[i] < 2
    }

    /** A run of sixteen zeros, after the end of the pending blocks, and the bits it covers. */
    method EmitZrl(start: nat, n: nat, ghost k: nat)
      requires Held(start, n, k)
      modifies `output, `emitted, `eobrun, `be, counts
      ensures Valid() && P() == NONE
      ensures emitted == old(emitted) + old(Flush(P())) + ([Sym(0xF0)] + Corrections(old(bitBuffer[start..start + n])))
    {
      hide Flush, Count, Corrections;
      EmitEobrun();
      EmitSymbol(0xF0);
      EmitBufferedBits(start, n);
      ItemsAssoc(old(emitted) + old(Flush(P())), [Sym(0xF0)], Corrections(old(bitBuffer[start..start + n])));
    }

    /** A new coefficient after r zeros, after the end of the pending blocks, and the bits it covers. */
    method EmitNew(r: nat, sign: nat, start: nat, n: nat, ghost k: nat, ghost x: int)
      requires Held(start, n, k) && r <= 15 && (x == 1 || x == -1) && sign == if x > 0 then 1 else 0
      modifies `output, `emitted, `eobrun, `be, counts
      ensures Valid() && P() == NONE
      ensures emitted == old(emitted) + old(Flush(P())) +
        (NewItems(r, x) + Corrections(old(bitBuffer[start..start + n])))
    {
      hide Flush, Count, Corrections;
      EmitEobrun();
      EmitSymbol(16 * r + 1);
      EmitBits(sign, 1);
      UnitItems(r, x);
      assert emitted == old(emitted) + old(Flush(P())) + NewItems(r, x);
      EmitBufferedBits(start, n);
      ItemsAssoc(old(emitted) + old(Flush(P())), NewItems(r, x), Corrections(old(bitBuffer[start..start + n])));
    }

    /** encode_mcu_AC_refine; it gives up at a symbol that is in no table. */
    method EncodeMcuAcRefine(z: Block, ss: nat, se: nat, al: nat) returns (ok: bool)
      requires Valid() && 1 <= ss <= se < 64 && Shorts(z)
      modifies this, counts, bitBuffer
      ensures ok <==> InTable(StoredCode(BandOf(z, ss, se, al)).items)
      ensures ok ==> Valid() && Step(emitted, P()) == Total(old(emitted), old(P()), StoredCode(BandOf(z, ss, se, al)))
    {
      hide Total, CodeTo, Flush, Mask, Count, InTable, AsStored, Known, LastNew;
      TableTotal(emitted, P(), StoredCode(BandOf(z, ss, se, al)));
      ghost var u := BandOf(z, ss, se, al);
      ghost var v := AsStored(u);
      ghost var h := Known(v);
      ghost var goal := Total(emitted, P(), StoredCode(u));
      var absvalues, zerobits, signbits, eob := AcRefinePrepare(z, ss, se, al);
      MaskStored(u, false, 0);
      MaskStored(u, true, 0);
      forall j | 0 <= j < |u|
        ensures IsShort(u[j]) && Holds(absvalues[j], v[j])
      {
        BandShort(z, ss, se, al, j); StoredOver(u[j]);
      }
      assert bitBuffer[be..be + 0] == [];
      var k, r, n;
      ok, k, r, n := EncodeRefined(absvalues, zerobits, signbits, eob, h, v, goal);
      if !ok {
        return;
      }
      NoneLeft(h, v, eob, k, r, bitBuffer[be..be + n]);
      EndTotal(emitted, P(), r + (|v| - k), bitBuffer[be..be + n]);
      if r > 0 || se - ss + 1 - k > 0 || n > 0 {
        EndOfBlock(n);
      }
    }

    /** The output as it will be, seen from position k with r zeros and n correction bits held back. */
    ghost predicate OnCourse(h: Band, v: Band, eob: nat, k: nat, r: nat, start: nat, n: nat, goal: Step)
      requires |h| == |v| && k <= |v|
      reads this, counts, bitBuffer
    {
      Held(start, n, k) && Total(emitted, P(), CodeTo(h, v, eob, k, r, bitBuffer[start..start + n])) == goal
    }

    lemma StartOnCourse(h: Band, v: Band, eob: nat, goal: Step)
      requires Valid() && |h| == |v| && Total(emitted, P(), CodeTo(h, v, eob, 0, 0, [])) == goal
      ensures OnCourse(h, v, eob, 0, 0, be, 0, goal)
    {
      assert bitBuffer[be..be + 0] == [];
    }

    lemma HeldAtBe(h: Band, v: Band, eob: nat, k: nat, r: nat, start: nat, n: nat, goal: Step)
      requires |h| == |v| && k <= |v| && OnCourse(h, v, eob, k, r, start, n, goal)
      ensures start == be
    {
    }

    lemma SkipOnCourse(h: Band, v: Band, eob: nat, k: nat, idx: nat, r: nat, start: nat, n: nat, goal: Step)
      requires |h| == |v| <= 63 && k + idx <= |v| && (forall j :: k <= j < k + idx ==> v[j] == 0)
      requires OnCourse(h, v, eob, k, r, start, n, goal)
      ensures OnCourse(h, v, eob, k + idx, r + idx, start, n, goal)
    {
      hide Total, Code;
      ZerosSkipped(h, v, eob, k, idx, r, bitBuffer[start..start + n]);
    }

    /** Runs of sixteen zeros, unless they can be folded into the end of the block. */
    method EmitZrls(eob: nat, k: nat, r0: nat, start0: nat, n0: nat, ghost h: Band, ghost v: Band, ghost goal: Step)
      returns (r: nat, start: nat, n: nat)
      requires |h| == |v| && k < |v| && v[k] != 0 && OnCourse(h, v, eob, k, r0, start0, n0, goal)
      modifies `output, `emitted, `eobrun, `be, counts
      ensures OnCourse(h, v, eob, k, r, start, n, goal) && (r <= 15 || k > eob)
    {
      hide Total, Flush, Count, Corrections, LastNew;
      r, start, n := r0, start0, n0;
      while r > 15 && k <= eob
        invariant OnCourse(h, v, eob, k, r, start, n, goal)
      {
        ghost var bits := bitBuffer[start..start + n];
        TotalStep(emitted, P(), [Sym(0xF0)] + Corrections(bits), CodeTo(h, v, eob, k, r - 16, []));
        EmitZrl(start, n, k);
        r, start, n := r - 16, 0, 0;
        assert bitBuffer[0..0] == [];
      }
    }

    /** A coefficient known before: its correction bit is held back. */
    method HoldBit(temp: int, k: nat, ghost r: nat, start: nat, n: nat, ghost h: Band, ghost v: Band, ghost eob: nat,
        ghost goal: Step)
      requires |h| == |v| && k < |v| && v[k] != 0 && h[k] != 0 && (r <= 15 || k > eob) && temp == Abs(v[k])
      requires |v| <= 63 && OnCourse(h, v, eob, k, r, start, n, goal)
      modifies bitBuffer
      ensures OnCourse(h, v, eob, k + 1, r, start, n + 1, goal) && be == old(be)
    {
      hide Total, Flush, Count, LastNew;
      bitBuffer[start + n] := temp % 2;
      assert bitBuffer[..be] == old(bitBuffer[..be]);
      assert bitBuffer[start..start + (n + 1)] == old(bitBuffer[start..start + n]) + [temp % 2];
    }

    /** A new coefficient; after more than fifteen zeros its symbol is in no table. */
    method AddNew(k: nat, r: nat, sign: nat, start: nat, n: nat, ghost h: Band, ghost v: Band, ghost eob: nat,
        ghost goal: Step)
      returns (ok: bool)
      requires |h| == |v| && k < |v| && New(h, v, k) && Abs(v[k]) == 1 && (r <= 15 || k > eob)
      requires |v| <= 63 && sign == (if v[k] > 0 then 1 else 0) && OnCourse(h, v, eob, k, r, start, n, goal)
      modifies `output, `emitted, `eobrun, `be, counts
      ensures if ok then OnCourse(h, v, eob, k + 1, 0, 0, 0, goal) else !InTable(goal.items)
    {
      hide Total, Flush, Count, Corrections, NewItems, InTable;
      ghost var bits := bitBuffer[start..start + n];
      ghost var its := NewItems(r, v[k]) + Corrections(bits);
      NewNonempty(r, v[k]);
      TotalStep(emitted, P(), its, CodeTo(h, v, eob, k + 1, 0, []));
      ok := r <= 15;
      if !ok {
        BeyondTable(r, v[k], bits);
        TotalFront(emitted + Flush(P()), its, CodeTo(h, v, eob, k + 1, 0, []));
        return;
      }
      EmitNew(r, sign, start, n, k, v[k]);
      assert bitBuffer[0..0] == [];
    }

    /** The coefficient at position k, which is nonzero. */
    method EncodeOne(temp: int, sign: nat, eob: nat, k: nat, r0: nat, start0: nat, n0: nat, ghost h: Band,
        ghost v: Band, ghost goal: Step)
      returns (ok: bool, r: nat, start: nat, n: nat)
      requires k < |v| <= 63 && v[k] != 0 && h == Known(v)
      requires Holds(temp, v[k]) && sign == (if v[k] > 0 then 1 else 0) && OnCourse(h, v, eob, k, r0, start0, n0, goal)
      modifies `output, `emitted, `eobrun, `be, counts, bitBuffer
      ensures if ok then OnCourse(h, v, eob, k + 1, r, start, n, goal) else !InTable(goal.items)
    {
      hide OnCourse, InTable;
      r, start, n := EmitZrls(eob, k, r0, start0, n0, h, v, goal);
      ok := true;
      if temp > 1 {
        HoldBit(temp, k, r, start, n, h, v, eob, goal);
        n := n + 1;
      } else {
        ok := AddNew(k, r, sign, start, n, h, v, eob, goal);
        r, start, n := 0, 0, 0;
      }
    }

    /** The nonzero coefficients; k is the position after the last, r and n the zeros and correction bits
        that no symbol covers. The bits held back always follow those of the pending blocks. */
    method EncodeRefined(absvalues: array<int>, zerobits0: nat, signbits0: nat, eob: nat, ghost h: Band, ghost v: Band,
        ghost goal: Step)
      returns (ok: bool, k: nat, r: nat, n: nat)
      requires Valid() && |v| <= 63 && absvalues.Length == 64 && h == Known(v)
      requires forall j :: 0 <= j < |v| ==> Holds(absvalues[j], v[j])
      requires zerobits0 == Mask(v, false, 0) && signbits0 == Mask(v, true, 0)
      requires Total(emitted, P(), CodeTo(h, v, eob, 0, 0, [])) == goal
      modifies this, counts, bitBuffer
      ensures if ok then k <= |v| && Mask(v, false, k) == 0 &&
        OnCourse(h, v, eob, k, r, be, n, goal) else !InTable(goal.items)
    {
      hide Total, Mask, CodeTo, OnCourse, Held, InTable, Holds, Known;
      ok := true;
      var zerobits, signbits := zerobits0, signbits0;
      k, r, n := 0, 0, 0;
      var start: nat := be;
      StartOnCourse(h, v, eob, goal);
      while zerobits != 0
        invariant k <= |v| && zerobits == Mask(v, false, k) && signbits == Mask(v, true, k)
        invariant ok && OnCourse(h, v, eob, k, r, start, n, goal)
        decreases |v| - k
      {
        var idx, x := CountZeroes(zerobits, v, k);
        SkipOnCourse(h, v, eob, k, idx, r, start, n, goal);
        MaskShift(v, true, k, idx);
        signbits := signbits / Pow2(idx);
        r, k := r + idx, k + idx;
        MaskHalf(v, false, k);
        MaskHalf(v, true, k);
        MaskIs(v, true, k);
        ok, r, start, n := EncodeOne(absvalues[k], signbits % 2, eob, k, r, start, n, h, v, goal);
        if !ok {
          return;
        }
        k := k + 1;
        zerobits, signbits := x / 2, signbits / 2;
      }
      HeldAtBe(h, v, eob, k, r, start, n, goal);
    }
  
    // ----- A restart interval -----

    /** The blocks of a restart interval, and the end of what is pending then. In an output pass all of it
        is written; in a statistics pass the symbols that would be written are counted. A first scan
        fails at a coefficient out of range, a refinement scan at a symbol that is in no table. */
    method EncodeInterval(blocks: seq<Block>, ss: nat, se: nat, al: nat, refine: bool) returns (ok: bool)
      requires Valid() && 1 <= ss <= se < 64 && P() == NONE && forall i :: 0 <= i < |blocks| ==> Shorts(blocks[i])
      modifies this, counts, bitBuffer
      ensures ok <==> forall i :: 0 <= i < |blocks| ==> BandCodable(Bands(blocks, ss, se, al)[i], refine)
      ensures ok ==> Valid() && P() == NONE
      ensures ok ==> emitted == old(emitted) + EncodeCodes(Written(Bands(blocks, ss, se, al), refine), NONE)
    {
      hide Total, CodeTo, Flush, Count, AddBlock, BandOf, NBits, InTable, StoredCode;
      ghost var vs := Bands(blocks, ss, se, al);
      ghost var cs := Written(vs, refine);
      ghost var goal := emitted + EncodeCodes(cs, NONE);
      assert cs[0..] == cs;
      ok := true;
      for i := 0 to |blocks|
        invariant ok && Valid() && emitted + EncodeCodes(cs[i..], P()) == goal
        invariant forall j :: 0 <= j < i ==> BandCodable(vs[j], refine)
      {
        ghost var was, p := emitted, P();
        if refine {
          ok := EncodeMcuAcRefine(blocks[i], ss, se, al);
        } else {
          ok := EncodeMcuAcFirst(blocks[i], ss, se, al);
        }
        assert ok <==> BandCodable(vs[i], refine);
        if !ok { return; }
        IntervalStep(cs, i, was, p);
      }
      assert cs[|vs|..] == [];
      EmitEobrun();
      assert P() == NONE;
    }
  }

  /** Can the band be coded? A first scan checks the range of the coefficients; a refinement scan has
      no such check, but a symbol may be in no table. */
  ghost predicate BandCodable(v: Band, refine: bool) {
    if refine then InTable(StoredCode(v).items) else forall k :: 0 <= k < |v| ==> NBits(Abs(v[k])) <= 10
  }

  /** The bands of the blocks of a scan. */
  function Bands(blocks: seq<Block>, ss: nat, se: nat, al: nat): (vs: seq<Band>)
    requires 1 <= ss <= se < 64
    ensures |vs| == |blocks| && forall i :: 0 <= i < |vs| ==>
      |vs[i]| == se - ss + 1 && vs[i] == BandOf(blocks[i], ss, se, al)
  {
    seq(|blocks|, i requires 0 <= i < |blocks| => BandOf(blocks[i], ss, se, al))
  }

  /** What is known of them before the scan. */
  function Histories(vs: seq<Band>, refine: bool): (hs: seq<Band>)
    ensures |hs| == |vs| && forall i :: 0 <= i < |vs| ==>
      |hs[i]| == |vs[i]| && hs[i] == if refine then Known(vs[i]) else Unknown(vs[i])
  {
    seq(|vs|, i requires 0 <= i < |vs| => if refine then Known(vs[i]) else Unknown(vs[i]))
  }

  /** What is written for the blocks. */
  function Written(vs: seq<Band>, refine: bool): (cs: seq<Coded>)
    ensures |cs| == |vs| && forall i :: 0 <= i < |vs| ==>
      cs[i] == if refine then StoredCode(vs[i]) else Target(Unknown(vs[i]), vs[i])
  {
    seq(|vs|, i requires 0 <= i < |vs| => if refine then StoredCode(vs[i]) else Target(Unknown(vs[i]), vs[i]))
  }

  lemma IntervalStep(cs: seq<Coded>, i: nat, out: seq<Item>, p: Pending)
    requires i < |cs|
    ensures var s := Total(out, p, cs[i]); out + EncodeCodes(cs[i..], p) == s.items + EncodeCodes(cs[i + 1..], s.next)
  {
    hide AddBlock, Flush;
    assert cs[i..][0] == cs[i] && cs[i..][1..] == cs[i + 1..];
    var s := AddBlock(p, cs[i]);
    ItemsAssoc(out, s.items, EncodeCodes(cs[i + 1..], s.next));
  }

  /** The magnitude of -0x8000 fits 16 bits once a bit has been dropped. */
  lemma BandWhole(z: Block, ss: nat, se: nat, al: nat)
    requires 1 <= ss <= se < 64 && Shorts(z)
    ensures Whole(BandOf(z, ss, se, al)) <==> al >= 1 || forall k :: ss <= k <= se ==> z[k] != -0x8000
  {
    var v := BandOf(z, ss, se, al);
    Pow2Small();
    forall k | 0 <= k < |v| ensures v[k] == -0x8000 <==> al == 0 && z[ss + k] == -0x8000 { BandMinimum(z[ss + k], al); }
    if al == 0 && Whole(v) {
      forall k | ss <= k <= se ensures z[k] != -0x8000 { assert v[k - ss] != -0x8000; }
    }
  }

  lemma BandMinimum(x: int, al: nat)
    requires IsShort(x)
    ensures Shifted(x, al) == -0x8000 <==> al == 0 && x == -0x8000
  {
    DivMul(Abs(x), Pow2(al));
    if al > 0 {
      Pow2Monotone(1, al);
      Pow2Small();
      MulMonotone(2, Pow2(al), Mag(x, al));
    }
  }

  /** Main result for the encoder: a refinement scan writes a restart interval as it should exactly if it
      drops a bit, or no coefficient of the band is -0x8000. */
  lemma RefinementCorrect(blocks: seq<Block>, ss: nat, se: nat, al: nat)
    requires 1 <= ss <= se < 64 && forall i :: 0 <= i < |blocks| ==> Shorts(blocks[i])
    ensures var vs := Bands(blocks, ss, se, al);
      EncodeCodes(Written(vs, true), NONE) == Encode(Histories(vs, true), vs, NONE)
      <==> al >= 1 || forall i, k :: 0 <= i < |blocks| && ss <= k <= se ==> blocks[i][k] != -0x8000
  {
    hide BandOf, Whole, EncodeCodes, Encode, StoredCode;
    var vs := Bands(blocks, ss, se, al);
    assert Written(vs, true) == StoredCodes(vs) && Histories(vs, true) == AllKnown(vs);
    IntervalAsSpecified(vs);
    forall i | 0 <= i < |blocks|
      ensures Whole(vs[i]) <==> al >= 1 || forall k :: ss <= k <= se ==> blocks[i][k] != -0x8000
    {
      BandWhole(blocks[i], ss, se, al);
    }
    if al == 0 && forall i :: 0 <= i < |blocks| ==> Whole(vs[i]) {
      forall i, k | 0 <= i < |blocks| && ss <= k <= se ensures blocks[i][k] != -0x8000 { assert Whole(vs[i]); }
    }
  }

  /** What is written is read back as the bands of the blocks, refined if they were known before: in a
      first scan if it succeeds, in a refinement scan if no magnitude is too large to be stored. */
  lemma IntervalMeaning(blocks: seq<Block>, ss: nat, se: nat, al: nat, refine: bool, z: seq<Item>)
    requires 1 <= ss <= se < 64 && forall i :: 0 <= i < |blocks| ==> Shorts(blocks[i])
    requires if refine then al >= 1 || forall i, k :: 0 <= i < |blocks| && ss <= k <= se ==> blocks[i][k] != -0x8000
      else forall i :: 0 <= i < |blocks| ==> BandCodable(Bands(blocks, ss, se, al)[i], false)
    ensures var vs := Bands(blocks, ss, se, al);
      Decode(EncodeCodes(Written(vs, refine), NONE) + z, 0, Histories(vs, refine)) == Blocks(z, 0, vs)
  {
    hide NBits, Decode, Encode, EncodeCodes, BandOf, Code, StoredCode;
    var vs := Bands(blocks, ss, se, al);
    var hs := Histories(vs, refine);
    forall i | 0 <= i < |vs| ensures Refines(hs[i], vs[i]) {
      if !refine { assert BandCodable(vs[i], false); }
      forall k | 0 <= k < |vs[i]| ensures hs[i][k] == 0 ==> NBits(Abs(vs[i][k])) <= 15 {
        SmallNBits();
      }
    }
    IntervalRoundTrip(hs, vs, z);
    if refine {
      RefinementCorrect(blocks, ss, se, al);
    } else {
      EncodeIsCodes(hs, vs, NONE);
      assert Written(vs, false) == Codes(hs, vs);
    }
  }

  /** A magnitude that is stored for a coefficient that the encoder takes for y. */
  predicate Holds(temp: int, y: int) { if Abs(y) > 1 then temp == Abs(y) else temp <= 1 }

  lemma BandShort(z: Block, ss: nat, se: nat, al: nat, k: nat)
    requires 1 <= ss <= se < 64 && Shorts(z) && k <= se - ss
    ensures IsShort(BandOf(z, ss, se, al)[k])
  {
    hide Shifted;
    ShiftedShort(z[ss + k], al);
  }

  lemma ShiftedShort(x: int, al: nat)
    requires IsShort(x)
    ensures IsShort(Shifted(x, al))
  {
    var m, p := Abs(x) / Pow2(al), Pow2(al);
    DivMul(Abs(x), p);
    MulMonotone(1, p, m);
    assert m * p == p * m;
  }

  lemma {:induction false} MaskStored(v: Band, positive: bool, k: nat)
    requires k <= |v|
    ensures Mask(AsStored(v), positive, k) == Mask(v, positive, k)
    decreases |v| - k
  {
    if k < |v| { MaskStored(v, positive, k + 1); }
  }

  lemma BeyondTable(r: nat, x: int, bits: seq<nat>)
    requires r > 15 && Abs(x) == 1
    ensures !InTable(NewItems(r, x) + Corrections(bits))
  {
    var s := NewItems(r, x) + Corrections(bits);
    assert NBits(1) == 1;
    assert s[0] == Sym(16 * r + 1);
  }

  /** What is written first stays in front. */
  lemma TotalFront(out: seq<Item>, its: seq<Item>, c: Coded)
    requires !InTable(its)
    ensures !InTable(Total(out + its, NONE, c).items)
  {
    hide InTable, AddBlock;
    InTableConcat(out, its);
    InTableConcat(out + its, AddBlock(NONE, c).items);
  }

  lemma RawInTable(items: seq<Item>)
    requires forall i :: 0 <= i < |items| ==> items[i].Raw?
    ensures InTable(items)
  {
  }

  lemma FlushInTable(p: Pending)
    requires p.run <= MAX_RUN
    ensures InTable(Flush(p))
  {
    if p.run > 0 {
      EobFields(p.run);
      RawInTable(Corrections(p.bits));
      InTableConcat(EobItems(p.run), Corrections(p.bits));
    }
  }

  /** Ends of blocks are always in the table. */
  lemma TableTotal(out: seq<Item>, p: Pending, c: Coded)
    requires p.Ok() && InTable(out)
    ensures InTable(Total(out, p, c).items) <==> InTable(c.items)
  {
    hide Flush, InTable;
    FlushInTable(p);
    var first := if c.items == [] then [] else Flush(p) + c.items;
    var q := if c.items == [] then p else Pending(0, []);
    FlushInTable(Pending(q.run + 1, q.bits + c.bits));
    RawInTable([]);
    InTableConcat(Flush(p), c.items);
    InTableConcat(first, EndBlock(q, c.bits).items);
    InTableConcat(out, AddBlock(p, c).items);
  }

  lemma ManyBits(v: nat, n: nat)
    requires v >= Pow2(n)
    ensures NBits(v) > n
  {
    NBitsBounds(v);
    if NBits(v) <= n { Pow2Monotone(NBits(v), n); }
  }

  /** The number of bits of a magnitude as stored: a negative one has its top bit set. */
  lemma StoredBits(x: int)
    requires IsShort(x) && x != 0
    ensures var temp := Stored(x); (if temp < 0 then 32 else NBits(temp)) > 10 <==> NBits(Abs(x)) > 10
    ensures NBits(Abs(x)) <= 10 ==>
      Stored(x) == Abs(x) && ToShort(if x < 0 then x - 1 else x) == if x < 0 then x - 1 else x
  {
    hide NBits;
    if x == -0x8000 {
      Pow2Words();
      ManyBits(0x8000, 11);
    }
  }

  lemma SmallNBits()
    ensures NBits(0) == 0 && NBits(1) == 1
  {
  }

  lemma UnitItems(r: nat, x: int)
    requires x == 1 || x == -1
    ensures NewItems(r, x) == [Sym(16 * r + 1), Raw(1, (if x > 0 then 1 else 0) % Pow2(1))]
  {
    Pow2Small();
  }

  lemma ZeroBits()
    ensures NBits(Abs(0)) == 0
  {
  }

  lemma FlushNone(out: seq<Item>)
    ensures out + Flush(NONE) == out
  {
  }

  /** The output is flushed before the first symbol of a block. */
  lemma FlushFirst(out: seq<Item>, p: Pending, c: Coded)
    requires c.items != []
    ensures Total(out, p, c) == Total(out + Flush(p), NONE, c)
  {
    SeparateItems(p, c);
    ItemsAssoc(out, Flush(p), AddBlock(NONE, c).items);
  }

  lemma {:induction false} SomeItems(h: Band, v: Band, eob: nat, k: nat, r: nat)
    requires |h| == |v| && k <= |v| && Mask(v, false, k) != 0 && forall j :: 0 <= j < |h| ==> h[j] == 0
    ensures CodeTo(h, v, eob, k, r, []).items != []
    decreases |v| - k
  {
    if k < |v| && v[k] == 0 { SomeItems(h, v, eob, k + 1, r + 1); }
  }

  lemma LastNewIs(h: Band, v: Band, k: nat, n: nat)
    requires k < n <= |v| == |h| && New(h, v, k)
    ensures k <= LastNew(h, v, n)
  {
  }

  lemma EndTotal(out: seq<Item>, p: Pending, r: nat, bits: seq<nat>)
    ensures var s := EndBlock(p, bits);
      Total(out, p, Coded([], r, bits)) == if r > 0 || bits != [] then Step(out + s.items, s.next) else Step(out, p)
  {
    assert [] + EndBlock(p, bits).items == EndBlock(p, bits).items && out + [] == out;
  }

  lemma RawNotCounted(items: seq<Item>, n: nat, x: nat)
    ensures forall s :: Count(items + [Raw(n, x)], s) == Count(items, s)
  {
    assert (items + [Raw(n, x)])[..|items|] == items;
  }

  lemma {:induction false} CorrectionsNotCounted(items: seq<Item>, bits: seq<nat>)
    ensures forall s :: Count(items + Corrections(bits), s) == Count(items, s)
    decreases |bits|
  {
    if |bits| == 0 {
      assert items + Corrections(bits) == items;
    } else {
      var n := |bits| - 1;
      CorrectionsNotCounted(items, bits[..n]);
      RawNotCounted(items + Corrections(bits[..n]), 1, bits[n]);
      assert items + Corrections(bits) == items + Corrections(bits[..n]) + [Raw(1, bits[n])];
    }
  }
}
