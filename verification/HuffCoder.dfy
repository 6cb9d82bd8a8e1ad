/** Coding, counting and decoding one block: the loops of the sequential Huffman coder. */
module HuffCoder {
  import opened Bits
  import opened Coefficients
  import opened HuffTable
  import opened HuffBits
  import opened HuffDerive
  import opened HuffReader
  import opened HuffWriter
  import opened HuffBlock

  lemma {:induction false} NoneCoded(dc: EncoderTable, ac: EncoderTable)
    ensures AllCoded(dc, ac, []) && ItemsBits(dc, ac, []) == [] && forall k: nat :: PendingAfter(k, dc, ac, []) == k
  {
  }

  /** How many bits are pending after an item: only a code with extra bits in an AC scan is put at once. */
  function PendingItem(k: nat, dc: EncoderTable, ac: EncoderTable, i: Item): nat
    requires Coded(dc, ac, i)
  {
    if i.dc then AfterBits(AfterBits(k, dc.ehufsi[i.sym]), i.n)
    else if i.n == 0 then AfterBits(k, ac.ehufsi[i.sym])
    else AfterCode(k, ac.ehufsi[i.sym], i.n)
  }

  function PendingAfter(k: nat, dc: EncoderTable, ac: EncoderTable, items: seq<Item>): nat
    requires AllCoded(dc, ac, items)
    decreases |items|
  {
    if |items| == 0 then k else PendingAfter(PendingItem(k, dc, ac, items[0]), dc, ac, items[1..])
  }

  lemma FirstCoded(dc: EncoderTable, ac: EncoderTable, i: Item, rest: seq<Item>)
    requires AllCoded(dc, ac, [i] + rest)
    ensures Coded(dc, ac, i) && AllCoded(dc, ac, rest)
    ensures forall k: nat ::
      PendingAfter(k, dc, ac, [i] + rest) == PendingAfter(PendingItem(k, dc, ac, i), dc, ac, rest)
    ensures ItemsBits(dc, ac, [i] + rest) == ItemBits(dc, ac, i) + ItemsBits(dc, ac, rest)
  {
    SplitCoded(dc, ac, [i], rest);
    assert [i][0] == i && ([i] + rest)[1..] == rest;
  }

  lemma ItemsAssoc(a: seq<Item>, b: seq<Item>, c: seq<Item>)
    ensures (a + b) + c == a + (b + c)
  {
  }

  /** A code is short and fits its size. */
  lemma CodeFits(e: EncoderTable, t: Table, v: nat)
    requires Pair(e, t) && v < 256 && e.ehufsi[v] != 0
    ensures e.ehufsi[v] <= 16 && e.ehufco[v] < Pow2(e.ehufsi[v])
  {
    hide UpTo, End, Pow2;
    var p :| 0 <= p < UpTo(t.bits, 16) && t.vals[..UpTo(t.bits, 16)][p] == v;
    var c := IndexOnto(t.bits, p, 16);
    assert SymbolAt(t, c) == v;
    NoAllOnes(t.bits, c);
  }

  lemma CodedIndex(dc: EncoderTable, ac: EncoderTable, i: Item, t: Table)
    requires Coded(dc, ac, i) && Pair(if i.dc then dc else ac, t)
    ensures var e := if i.dc then dc else ac;
      && i.sym < 256 == |e.ehufco| == |e.ehufsi| && 0 < e.ehufsi[i.sym] <= 16 && e.ehufco[i.sym] < Pow2(e.ehufsi[i.sym])
      && ItemBits(dc, ac, i) == BitsOf(e.ehufco[i.sym], e.ehufsi[i.sym]) + BitsOf(i.val, i.n)
  {
    CodeFits(if i.dc then dc else ac, t, i.sym);
  }

  /** The DC item and an AC item of an image with 16-bit coefficients never need more than 16 bits. */
  lemma ShortBits(v: int)
    requires Abs(v) <= 0xFFFF
    ensures NBits(Abs(v)) <= 16 && Extra(v, NBits(Abs(v))) < Pow2(NBits(Abs(v)))
  {
    Pow2Words();
    NBitsAtMost(Abs(v), 16);
  }

  method EncodeOneBlock(w: BitWriter, b: Block, last: int, dc: EncoderTable, ac: EncoderTable, ghost td: Table,
      ghost ta: Table)
    requires w.Valid() && Pair(dc, td) && Pair(ac, ta)
    requires Shorts(Zig(b)) && IsShort(last) && AllCoded(dc, ac, BlockItems(Zig(b), last))
    modifies w
    ensures w.Valid()
    ensures w.Written() == old(w.Written()) + ItemsBits(dc, ac, BlockItems(Zig(b), last))
    ensures w.putBits == PendingAfter(old(w.putBits), dc, ac, BlockItems(Zig(b), last))
    ensures w.putBits <= 47 + if Zig(b)[63] == 0 then ac.ehufsi[0] else NBits(Abs(Zig(b)[63]))
  {
    hide Pow2, UpTo, Encodes, ItemBits, Coded, Fits, BitsOf, Extra, NBits, Natural, AcItems, AllCoded, ItemsBits,
      NonzeroItems, PendingAfter;
    ghost var z := Zig(b);
    ghost var goal := w.Written() + ItemsBits(dc, ac, BlockItems(z, last));
    ghost var end := PendingAfter(w.putBits, dc, ac, BlockItems(z, last));
    FirstCoefficient(b);
    EncodeDc(w, b[0] - last, dc, ac, td, AcItems(z, 1, 0));
    var r := 0;
    var k := 1;
    while k < 64
      invariant 1 <= k <= 64 && 0 <= r < k && w.Valid() && AllCoded(dc, ac, AcItems(z, k, r))
      invariant w.Written() + ItemsBits(dc, ac, AcItems(z, k, r)) == goal
      invariant PendingAfter(w.putBits, dc, ac, AcItems(z, k, r)) == end
      invariant k == 64 && z[63] != 0 ==> r == 0 && w.putBits <= 47 + NBits(Abs(z[63]))
      invariant k == 64 && z[63] == 0 ==> r > 0
    {
      var temp := b[Natural(k)];
      AcStep(z, k, r);
      if temp == 0 {
        r := r + 1;
      } else {
        r := EncodeZeros(w, temp, r, dc, ac, ta, AcItems(z, k + 1, 0), goal, end);
        EncodeNonzero(w, temp, r, dc, ac, ta, AcItems(z, k + 1, 0), goal, end);
        r := 0;
      }
      k := k + 1;
    }
    AcStep(z, 64, r);
    if r > 0 {
      assert [EOB] + [] == [EOB];
      FirstCoded(dc, ac, EOB, []);
      CodedIndex(dc, ac, EOB, ta);
      ghost var before := w.Written();
      w.EmitBits(ac.ehufco[0], ac.ehufsi[0]);
      NoneCoded(dc, ac);
      ItemWritten(before, ac.ehufco[0], ac.ehufsi[0], 0, 0, []);
      NoBits(0);
    } else {
      NoneCoded(dc, ac);
    }
    assert w.Written() + [] == w.Written();
  }

  method EncodeDc(w: BitWriter, temp: int, dc: EncoderTable, ac: EncoderTable, ghost td: Table, ghost more: seq<Item>)
    requires w.Valid() && Pair(dc, td) && Abs(temp) <= 0xFFFF && AllCoded(dc, ac, [DcItem(temp)] + more)
    modifies w
    ensures w.Valid() && AllCoded(dc, ac, more)
    ensures w.Written() + ItemsBits(dc, ac, more) == old(w.Written()) + ItemsBits(dc, ac, [DcItem(temp)] + more)
    ensures PendingAfter(w.putBits, dc, ac, more) == PendingAfter(old(w.putBits), dc, ac, [DcItem(temp)] + more)
  {
    hide Pow2, UpTo, Encodes, ItemBits, Coded, Fits, BitsOf, NBits, AllCoded, ItemsBits, PendingAfter;
    var nbits := NBits(Abs(temp));
    FirstCoded(dc, ac, DcItem(temp), more);
    CodedIndex(dc, ac, DcItem(temp), td);
    ShortBits(temp);
    w.EmitBits(dc.ehufco[nbits], dc.ehufsi[nbits]);
    w.EmitBits((if temp < 0 then temp - 1 else temp) % Pow2(nbits), nbits);
    ItemWritten(old(w.Written()), dc.ehufco[nbits], dc.ehufsi[nbits], Extra(temp, nbits), nbits,
      ItemsBits(dc, ac, more));
  }

  /** The run of zeros before a nonzero coefficient, as far as it takes codes of its own. */
  method EncodeZeros(w: BitWriter, v: int, r0: nat, dc: EncoderTable, ac: EncoderTable, ghost ta: Table,
      ghost more: seq<Item>, ghost goal: seq<bool>, ghost end: nat)
    returns (r: nat)
    requires w.Valid() && Pair(ac, ta) && AllCoded(dc, ac, NonzeroItems(r0, v) + more)
    requires w.Written() + ItemsBits(dc, ac, NonzeroItems(r0, v) + more) == goal
    requires PendingAfter(w.putBits, dc, ac, NonzeroItems(r0, v) + more) == end
    modifies w
    ensures w.Valid() && r <= 15 && r <= r0 && AllCoded(dc, ac, NonzeroItems(r, v) + more)
    ensures w.Written() + ItemsBits(dc, ac, NonzeroItems(r, v) + more) == goal
    ensures PendingAfter(w.putBits, dc, ac, NonzeroItems(r, v) + more) == end
  {
    hide Pow2, UpTo, Encodes, ItemBits, Coded, Fits, BitsOf, Extra, NBits, AllCoded, ItemsBits, PendingAfter;
    r := r0;
    while r > 15
      invariant r <= r0 && w.Valid() && AllCoded(dc, ac, NonzeroItems(r, v) + more)
      invariant w.Written() + ItemsBits(dc, ac, NonzeroItems(r, v) + more) == goal
      invariant PendingAfter(w.putBits, dc, ac, NonzeroItems(r, v) + more) == end
    {
      ghost var rest := NonzeroItems(r - 16, v) + more;
      ItemsAssoc([ZRL], NonzeroItems(r - 16, v), more);
      FirstCoded(dc, ac, ZRL, rest);
      CodedIndex(dc, ac, ZRL, ta);
      ghost var before := w.Written();
      w.EmitBits(ac.ehufco[0xF0], ac.ehufsi[0xF0]);
      NoBits(0);
      ItemWritten(before, ac.ehufco[0xF0], ac.ehufsi[0xF0], 0, 0, ItemsBits(dc, ac, rest));
      r := r - 16;
    }
  }

  method EncodeNonzero(w: BitWriter, temp: int, r: nat, dc: EncoderTable, ac: EncoderTable, ghost ta: Table,
      ghost more: seq<Item>, ghost goal: seq<bool>, ghost end: nat)
    requires w.Valid() && Pair(ac, ta) && r <= 15 && temp != 0 && IsShort(temp)
    requires AllCoded(dc, ac, NonzeroItems(r, temp) + more)
    requires w.Written() + ItemsBits(dc, ac, NonzeroItems(r, temp) + more) == goal
    requires PendingAfter(w.putBits, dc, ac, NonzeroItems(r, temp) + more) == end
    modifies w
    ensures w.Valid() && AllCoded(dc, ac, more) && w.putBits <= 47 + NBits(Abs(temp))
    ensures w.Written() + ItemsBits(dc, ac, more) == goal
    ensures PendingAfter(w.putBits, dc, ac, more) == end
  {
    hide Pow2, UpTo, Encodes, ItemBits, Coded, Fits, BitsOf, NBits, AllCoded, ItemsBits, PendingAfter;
    var nbits := NBits(Abs(temp));
    var sym := 16 * r + nbits;
    ghost var i := Item(false, sym, Extra(temp, nbits), nbits);
    assert NonzeroItems(r, temp) == [i];
    NBitsBounds(Abs(temp));
    FirstCoded(dc, ac, i, more);
    CodedIndex(dc, ac, i, ta);
    ShortBits(temp);
    ghost var before := w.Written();
    w.EmitCode(ac.ehufco[sym], ac.ehufsi[sym], if temp < 0 then temp - 1 else temp, nbits);
    ItemWritten(before, ac.ehufco[sym], ac.ehufsi[sym], Extra(temp, nbits), nbits, ItemsBits(dc, ac, more));
  }

  lemma FirstCoefficient(b: Block)
    ensures Zig(b)[0] == b[0]
  {
  }

  lemma AcStep(z: Block, k: nat, r: nat)
    requires k <= 64
    ensures AcItems(z, k, r) ==
      if k == 64 then (if r > 0 then [EOB] else [])
      else if z[k] == 0 then AcItems(z, k + 1, r + 1)
      else NonzeroItems(r, z[k]) + AcItems(z, k + 1, 0)
  {
  }

  lemma ItemWritten(before: seq<bool>, code: nat, size: nat, val: nat, n: nat, more: seq<bool>)
    ensures before + BitsOf(code, size) + BitsOf(val, n) + more == before +
      ((BitsOf(code, size) + BitsOf(val, n)) + more)
    ensures n == 0 ==> before + BitsOf(code, size) + more == before + ((BitsOf(code, size) + BitsOf(val, n)) + more)
  {
  }

  // ----- Counting symbols for optimized tables -----

  const MAX_COEF_BITS: nat := 10

  /** Categories within the range of 8-bit samples. */
  predicate Countable(z: Block, last: int) {
    NBits(Abs(z[0] - last)) <= MAX_COEF_BITS + 1 && forall k :: 1 <= k < 64 ==> NBits(Abs(z[k])) <= MAX_COEF_BITS
  }

  predicate SmallSymbols(items: seq<Item>) { forall i :: 0 <= i < |items| ==> items[i].sym < 256 }

  /** The counts after the symbols of one of the two tables. */
  function Tally(counts: seq<nat>, items: seq<Item>, dc: bool): (r: seq<nat>)
    requires |counts| == 257 && SmallSymbols(items)
    ensures |r| == |counts|
    decreases |items|
  {
    if |items| == 0 then counts
    else
      var i := items[0];
      Tally(if i.dc == dc then counts[i.sym := counts[i.sym] + 1] else counts, items[1..], dc)
  }

  lemma {:induction false} NonzeroSmall(r: nat, v: int)
    requires NBits(Abs(v)) <= 15
    ensures SmallSymbols(NonzeroItems(r, v))
    decreases r
  {
    if r > 15 { NonzeroSmall(r - 16, v); }
  }

  lemma SmallConcat(a: seq<Item>, b: seq<Item>)
    ensures SmallSymbols(a + b) <==> SmallSymbols(a) && SmallSymbols(b)
  {
    if SmallSymbols(a + b) {
      forall i | 0 <= i < |a| ensures a[i].sym < 256 { assert (a + b)[i] == a[i]; }
      forall i | 0 <= i < |b| ensures b[i].sym < 256 { assert (a + b)[|a| + i] == b[i]; }
    }
  }

  lemma {:induction false} AcSmall(z: Block, k: nat, r: nat)
    requires 1 <= k <= 64 && forall j :: k <= j < 64 ==> NBits(Abs(z[j])) <= 15
    ensures SmallSymbols(AcItems(z, k, r))
    decreases 64 - k
  {
    if k < 64 {
      if z[k] == 0 {
        AcSmall(z, k + 1, r + 1);
      } else {
        NonzeroSmall(r, z[k]);
        AcSmall(z, k + 1, 0);
        SmallConcat(NonzeroItems(r, z[k]), AcItems(z, k + 1, 0));
      }
    }
  }

  method CountBits(v: int) returns (nbits: nat)
    ensures nbits == NBits(Abs(v))
  {
    var temp := if v < 0 then -v else v;
    nbits := 0;
    while temp > 0
      invariant temp >= 0 && nbits + NBits(temp) == NBits(Abs(v))
    {
      nbits := nbits + 1;
      temp := temp / 2;
    }
  }

  /** Counts the symbols for a nonzero coefficient after r0 zeros; gives up if it is out of range. */
  method CountNonzero(acCounts: array<nat>, temp: int, r0: nat, ghost acs: seq<nat>, ghost dcs: seq<nat>,
      ghost done0: seq<Item>, ghost more: seq<Item>)
    returns (ok: bool, ghost done: seq<Item>)
    requires acCounts.Length == 257 == |acs| == |dcs|
    requires SmallSymbols(done0) && acCounts[..] == Tally(acs, done0, false)
    modifies acCounts
    ensures ok <==> NBits(Abs(temp)) <= MAX_COEF_BITS
    ensures ok ==> SmallSymbols(done) && done + more == done0 + (NonzeroItems(r0, temp) + more)
    ensures ok ==> acCounts[..] == Tally(acs, done, false) && Tally(dcs, done, true) == Tally(dcs, done0, true)
  {
    hide NBits, NonzeroItems, Tally, SmallSymbols, Extra;
    var nbits := CountBits(temp);
    var r: nat := r0;
    done := done0;
    while r > 15
      invariant SmallSymbols(done) && acCounts[..] == Tally(acs, done, false)
      invariant done + (NonzeroItems(r, temp) + more) == done0 + (NonzeroItems(r0, temp) + more)
      invariant Tally(dcs, done, true) == Tally(dcs, done0, true)
    {
      NonzeroStep(r, temp);
      CountOne(dcs, acs, done, ZRL, NonzeroItems(r - 16, temp) + more);
      ItemsAssoc([ZRL], NonzeroItems(r - 16, temp), more);
      acCounts[0xF0] := acCounts[0xF0] + 1;
      done := done + [ZRL];
      r := r - 16;
    }
    if nbits > MAX_COEF_BITS {
      return false, done;
    }
    ghost var i := Item(false, 16 * r + nbits, Extra(temp, nbits), nbits);
    NonzeroStep(r, temp);
    CountOne(dcs, acs, done, i, more);
    acCounts[16 * r + nbits] := acCounts[16 * r + nbits] + 1;
    done := done + [i];
    ok := true;
  }

  /** Counts the symbols that coding the block will take; fails if a coefficient is out of range. */
  method HtestOneBlock(dcCounts: array<nat>, acCounts: array<nat>, b: Block, last: int) returns (ok: bool)
    requires dcCounts.Length == 257 && acCounts.Length == 257 && dcCounts != acCounts
    modifies dcCounts, acCounts
    ensures ok <==> Countable(Zig(b), last)
    ensures ok ==> SmallSymbols(BlockItems(Zig(b), last))
    ensures ok ==> dcCounts[..] == Tally(old(dcCounts[..]), BlockItems(Zig(b), last), true)
    ensures ok ==> acCounts[..] == Tally(old(acCounts[..]), BlockItems(Zig(b), last), false)
  {
    hide Natural, NBits, AcItems, NonzeroItems, Tally, SmallSymbols, Extra;
    ghost var z := Zig(b);
    FirstCoefficient(b);
    NoMagnitude();
    var nbits := CountBits(b[0] - last);
    if nbits > MAX_COEF_BITS + 1 {
      return false;
    }
    dcCounts[nbits] := dcCounts[nbits] + 1;
    assert dcCounts[..] == old(dcCounts[..])[nbits := old(dcCounts[nbits]) + 1];
    assert acCounts[..] == old(acCounts[..]);
    var r := 0;
    ghost var done: seq<Item> := [DcItem(b[0] - last)];
    FirstTally(old(dcCounts[..]), DcItem(b[0] - last), true);
    FirstTally(old(acCounts[..]), DcItem(b[0] - last), false);
    for k := 1 to 64
      invariant 0 <= r < k
      invariant forall j :: 1 <= j < k ==> NBits(Abs(z[j])) <= MAX_COEF_BITS
      invariant SmallSymbols(done) && done + AcItems(z, k, r) == BlockItems(z, last)
      invariant dcCounts[..] == Tally(old(dcCounts[..]), done, true)
      invariant acCounts[..] == Tally(old(acCounts[..]), done, false)
    {
      var temp := b[Natural(k)];
      AcStep(z, k, r);
      if temp == 0 {
        r := r + 1;
      } else {
        ghost var next;
        ok, next := CountNonzero(acCounts, temp, r, old(acCounts[..]), old(dcCounts[..]), done, AcItems(z, k + 1, 0));
        if !ok {
          return;
        }
        done := next;
        r := 0;
      }
    }
    AcStep(z, 64, r);
    if r > 0 {
      assert [EOB] + [] == [EOB];
      CountOne(old(dcCounts[..]), old(acCounts[..]), done, EOB, []);
      acCounts[0] := acCounts[0] + 1;
      done := done + [EOB];
    }
    assert done + [] == done;
    ok := true;
  }

  lemma NonzeroStep(r: nat, v: int)
    ensures NonzeroItems(r, v) == if r > 15 then [ZRL] + NonzeroItems(r - 16, v)
      else [Item(false, 16 * r + NBits(Abs(v)), Extra(v, NBits(Abs(v))), NBits(Abs(v)))]
  {
  }

  lemma FirstTally(counts: seq<nat>, i: Item, dc: bool)
    requires |counts| == 257 && i.sym < 256
    ensures SmallSymbols([i])
    ensures Tally(counts, [i], dc) == if i.dc == dc then counts[i.sym := counts[i.sym] + 1] else counts
  {
    assert [i][1..] == [];
  }

  lemma {:induction false} TallyAppend(counts: seq<nat>, items: seq<Item>, i: Item, dc: bool)
    requires |counts| == 257 && SmallSymbols(items) && i.sym < 256
    ensures SmallSymbols(items + [i])
    ensures Tally(counts, items + [i], dc) ==
      var t := Tally(counts, items, dc); if i.dc == dc then t[i.sym := t[i.sym] + 1] else t
    decreases |items|
  {
    if |items| == 0 {
      assert items + [i] == [i];
      FirstTally(counts, i, dc);
    } else {
      var f := items[0];
      TallyAppend(if f.dc == dc then counts[f.sym := counts[f.sym] + 1] else counts, items[1..], i, dc);
      assert (items + [i])[1..] == items[1..] + [i];
    }
  }

  lemma CountOne(dcs: seq<nat>, acs: seq<nat>, done: seq<Item>, i: Item, rest: seq<Item>)
    requires |dcs| == |acs| == 257 && SmallSymbols(done) && i.sym < 256 && !i.dc
    ensures SmallSymbols(done + [i])
    ensures Tally(dcs, done + [i], true) == Tally(dcs, done, true)
    ensures Tally(acs, done + [i], false) == var t := Tally(acs, done, false); t[i.sym := t[i.sym] + 1]
    ensures done + ([i] + rest) == (done + [i]) + rest
  {
    hide Tally, SmallSymbols;
    TallyAppend(dcs, done, i, true);
    TallyAppend(acs, done, i, false);
    ItemsAssoc(done, [i], rest);
  }

  // ----- Decoding one block -----

  lemma DropDropIs(s: seq<bool>, m: nat, n: nat)
    ensures Drop(Drop(s, m), n) == Drop(s, m + n)
  {
  }

  /** One step of reading from s at a point where m bits have been taken. */
  lemma TakenStep(s: seq<bool>, m: nat, r: seq<bool>, n: nat, q: seq<bool>, w0: bool, w1: bool, w2: bool)
    requires Taken(s, m, r, w0, w1) && Taken(r, n, q, w1, w2)
    ensures Taken(s, m + n, q, w0, w2) && Drop(s, m + n) == Drop(Drop(s, m), n)
  {
    hide Same, Drop;
    TakenTwice(s, m, r, n, q, w0, w1, w2);
    DropDropIs(s, m, n);
  }

  lemma TakenSame(s: seq<bool>, m: nat, r: seq<bool>, w0: bool, w1: bool, t: Table, n: nat)
    requires Taken(s, m, r, w0, w1) && Usable(t)
    ensures DecodeSymbol(t, r) == DecodeSymbol(t, Drop(s, m)) && Peek(r, n) == Peek(Drop(s, m), n)
  {
    hide Same, Drop, Peek, DecodeSymbol, UpTo;
    DecodeSame(t, r, Drop(s, m));
    PeekSame(r, Drop(s, m), n);
  }

  lemma DcSymbolSmall(t: Table, s: seq<bool>)
    requires t.Shape() && DecoderOk(t, true)
    ensures DecodeSymbol(t, s).sym <= 15
  {
    hide UpTo, End, Peek, CodeLength;
    DecodeFinds(t.bits, s);
    var l := CodeLength(t.bits, s, 1);
    if l < 17 { IndexInRange(t.bits, Symbol(l, Peek(s, l) - First(t.bits, l)), 16); }
  }

  lemma NothingTaken(s: seq<bool>, w: bool)
    ensures Taken(s, 0, s, w, w) && Drop(s, 0) == s
  {
  }

  method DecodeDiff(rd: BitReader, ghost t: Table, d: DecoderTable) returns (s: int)
    requires rd.Valid() && Decodes(d, t) && DecoderOk(t, true)
    modifies rd
    ensures rd.Valid() && rd.Ahead() == old(rd.Ahead())
    ensures var r := ReadDiff(t, old(rd.Stream()));
      s == r.value && Taken(old(rd.Stream()), r.used, rd.Stream(), old(rd.insufficientData), rd.insufficientData)
  {
    hide Decodes, UpTo, DecodeSymbol, Peek, Taken, Pow2, Drop, Fits, BitReader.Stream, BitReader.Ahead, DecoderOk;
    ghost var bits, w := rd.Stream(), rd.insufficientData;
    TableUsable(d, t);
    DcSymbolSmall(t, bits);
    var sym := rd.HuffDecode(t, d);
    s := 0;
    if sym > 0 {
      ghost var u, r, w1 := DecodeSymbol(t, bits).len, rd.Stream(), rd.insufficientData;
      TakenSame(bits, u, r, w, w1, t, sym);
      var x := rd.TakeBits(sym);
      TakenStep(bits, u, r, sym, rd.Stream(), w, w1, rd.insufficientData);
      s := Extend(x, sym);
    }
  }

  lemma TableUsable(d: DecoderTable, t: Table)
    requires Decodes(d, t)
    ensures Usable(t)
  {
  }

  method DecodeAc(rd: BitReader, ghost t: Table, d: DecoderTable, block: array<int>)
    requires rd.Valid() && Decodes(d, t) && block.Length == 64
    modifies rd, block
    ensures rd.Valid() && rd.Ahead() == old(rd.Ahead())
    ensures var r := ReadAc(t, old(rd.Stream()), old(Zig(block[..])), 1);
      && Zig(block[..]) == r.value
      && Taken(old(rd.Stream()), r.used, rd.Stream(), old(rd.insufficientData), rd.insufficientData)
  {
    hide Decodes, UpTo, DecodeSymbol, Peek, Taken, Pow2, Drop, Fits, BitReader.Stream, BitReader.Ahead, Zig, Natural,
      Extend, ReadAc;
    ghost var s, w := rd.Stream(), rd.insufficientData;
    TableUsable(d, t);
    ghost var goal := ReadAc(t, s, Zig(block[..]), 1);
    ghost var u: nat := 0;
    NothingTaken(s, w);
    var k: nat := 1;
    while k < 64
      invariant 1 <= k && rd.Valid() && rd.Ahead() == old(rd.Ahead())
      invariant Taken(s, u, rd.Stream(), w, rd.insufficientData)
      invariant var r := ReadAc(t, Drop(s, u), Zig(block[..]), k); goal == Read(r.value, u + r.used)
      decreases if k < 64 then 64 - k else 0
    {
      ghost var at, z := Drop(s, u), Zig(block[..]);
      ReadAcStep(t, at, z, k);
      ghost var r0, w0, len := rd.Stream(), rd.insufficientData, DecodeSymbol(t, at).len;
      TakenSame(s, u, r0, w, w0, t, 0);
      var sym := rd.HuffDecode(t, d);
      TakenStep(s, u, r0, len, rd.Stream(), w, w0, rd.insufficientData);
      var run, n := sym / 16, sym % 16;
      u := u + len;
      if n > 0 {
        k := k + run;
        ghost var r1, w1 := rd.Stream(), rd.insufficientData;
        TakenSame(s, u, r1, w, w1, t, n);
        var x := rd.TakeBits(n);
        TakenStep(s, u, r1, n, rd.Stream(), w, w1, rd.insufficientData);
        DropDropIs(at, len, n);
        u := u + n;
        var i: Index := if k < 64 then k else 63;
        ZigUpdate(block[..], i, Extend(x, n));
        block[Natural(i)] := Extend(x, n);
      } else {
        if run != 15 {
          return;
        }
        k := k + 15;
      }
      k := k + 1;
    }
    ReadAcStep(t, Drop(s, u), Zig(block[..]), k);
  }

  lemma ReadAcStep(t: Table, s: seq<bool>, z: Block, k: nat)
    requires Usable(t)
    ensures ReadAc(t, s, z, k) ==
      if k >= 64 then Read(z, 0)
      else
        var d := DecodeSymbol(t, s);
        var run, n := d.sym / 16, d.sym % 16;
        if n > 0 then
          var i := if k + run < 64 then k + run else 63;
          var r := ReadAc(t, Drop(s, d.len + n), z[i := Extend(Peek(Drop(s, d.len), n), n)], k + run + 1);
          Read(r.value, d.len + n + r.used)
        else if run != 15 then Read(z, d.len)
        else
          var r := ReadAc(t, Drop(s, d.len), z, k + 16);
          Read(r.value, d.len + r.used)
  {
    hide UpTo, DecodeSymbol, Peek, Pow2, Drop, Extend;
  }

  /** A sum that wraps around at 32 bits. */
  function ToInt(x: int): int { (x + 0x8000_0000) % 0x1_0000_0000 - 0x8000_0000 }

  lemma ShortOfInt(x: int)
    ensures ToShort(ToInt(x)) == ToShort(x)
  {
    var y := x + 0x8000_0000;
    assert y == y / 0x1_0000_0000 * 0x1_0000_0000 + y % 0x1_0000_0000;
    var q := y / 0x1_0000_0000 * 0x10000;
    assert ToInt(x) == x - q * 0x10000;
  }

  lemma ZigStart(v: int)
    ensures Zig(ZeroBlock()[0 := v]) == ZeroBlock()[0 := v]
  {
    ZigUpdate(ZeroBlock(), 0, v);
    assert Zig(ZeroBlock()) == ZeroBlock();
  }

  /** Decodes one block into an area that holds zeros. */
  method DecodeBlock(rd: BitReader, ghost td: Table, ghost ta: Table, dc: DecoderTable, ac: DecoderTable,
      block: array<int>, last: int)
    returns (newLast: int)
    requires rd.Valid() && Decodes(dc, td) && DecoderOk(td, true) && Decodes(ac, ta)
    requires block.Length == 64 && forall i :: 0 <= i < 64 ==> block[i] == 0
    modifies rd, block
    ensures rd.Valid() && rd.Ahead() == old(rd.Ahead())
    ensures var r := ReadBlock(td, ta, old(rd.Stream()), last);
      && Zig(block[..]) == r.value && newLast == ToInt(last + ReadDiff(td, old(rd.Stream())).value)
      && Taken(old(rd.Stream()), r.used, rd.Stream(), old(rd.insufficientData), rd.insufficientData)
  {
    hide Decodes, UpTo, DecodeSymbol, Peek, Taken, Pow2, Fits, BitReader.Stream, BitReader.Ahead, Zig, Natural, ReadAc,
      ReadDiff, DecoderOk, ToInt, Same;
    ghost var bits, w := rd.Stream(), rd.insufficientData;
    TableUsable(dc, td);
    TableUsable(ac, ta);
    var s := DecodeDiff(rd, td, dc);
    newLast := ToInt(last + s);
    ShortOfInt(last + s);
    ghost var u, r, w1 := ReadDiff(td, bits).used, rd.Stream(), rd.insufficientData;
    block[0] := ToShort(newLast);
    ghost var z := ZeroBlock()[0 := ToShort(newLast)];
    ZigStart(block[0]);
    assert block[..] == z;
    DecodeAc(rd, ta, ac, block);
    ReadAcSame(ta, bits, u, r, w, w1, z, 1);
    TakenStep(bits, u, r, ReadAc(ta, r, z, 1).used, rd.Stream(), w, w1, rd.insufficientData);
  }

  lemma ReadAcSame(t: Table, s: seq<bool>, m: nat, r: seq<bool>, w0: bool, w1: bool, z: Block, k: nat)
    requires Usable(t) && Taken(s, m, r, w0, w1)
    ensures ReadAc(t, r, z, k) == ReadAc(t, Drop(s, m), z, k)
  {
    ReadAcAlike(t, r, Drop(s, m), z, k);
  }

  /** Streams that differ only in zeros past the end are read alike. */
  lemma {:induction false} ReadAcAlike(t: Table, s: seq<bool>, v: seq<bool>, z: Block, k: nat)
    requires Usable(t) && Same(s, v)
    ensures ReadAc(t, s, z, k) == ReadAc(t, v, z, k)
    decreases if k < 64 then 64 - k else 0
  {
    hide UpTo, DecodeSymbol, Peek, Pow2, Drop, Extend, ReadAc, Same;
    ReadAcStep(t, s, z, k);
    ReadAcStep(t, v, z, k);
    if k < 64 {
      DecodeSame(t, s, v);
      var d := DecodeSymbol(t, s);
      var run, n := d.sym / 16, d.sym % 16;
      SameDrop(s, v, d.len);
      SameDrop(s, v, d.len + n);
      PeekSame(Drop(s, d.len), Drop(v, d.len), n);
      if n > 0 {
        var i := if k + run < 64 then k + run else 63;
        ReadAcAlike(t, Drop(s, d.len + n), Drop(v, d.len + n), z[i := Extend(Peek(Drop(s, d.len), n), n)], k + run + 1);
      } else if run == 15 {
        ReadAcAlike(t, Drop(s, d.len), Drop(v, d.len), z, k + 16);
      }
    }
  }
}
