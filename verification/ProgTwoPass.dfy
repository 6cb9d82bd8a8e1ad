/** Two-pass coding of a progressive AC scan: count the symbols of all restart intervals, build the table
    from the counts, write the scan with it, and read it back bit by bit. */
module ProgTwoPass {
  import opened Bits
  import opened Coefficients
  import opened Stuffing
  import opened QmRoundTrip
  import D = QmDecoder
  import opened HuffTable
  import opened HuffBits
  import opened HuffDerive
  import opened HuffMerge
  import opened HuffLimit
  import opened HuffOptimal
  import R = HuffReader
  import B = HuffBlock
  import W = HuffWriter
  import C = HuffCoder
  import S = HuffScan
  import O = HuffOptimized
  import T = HuffTwoPass
  import Restart
  import opened ProgItems
  import M = ProgMeaning
  import opened ProgStored
  import P = ProgEncoder
  import opened ProgWriter
  import opened ProgBits

  // ----- What is written is fit for the writer and for a table -----

  /** No symbol has a size over 10. */
  ghost predicate SmallSizes(items: seq<Item>) {
    forall i :: 0 <= i < |items| && items[i].Sym? ==> items[i].s % 16 <= 10
  }

  ghost predicate Fit(items: seq<Item>) { Sound(items) && SmallSizes(items) }

  ghost predicate BitsOk(bits: seq<nat>) { forall i :: 0 <= i < |bits| ==> bits[i] < 2 }

  lemma FitConcat(a: seq<Item>, b: seq<Item>)
    requires Fit(a) && Fit(b)
    ensures Fit(a + b)
  {
  }

  lemma CorrectionsFit(bits: seq<nat>)
    requires BitsOk(bits)
    ensures Fit(Corrections(bits))
  {
    Pow2Small();
  }

  lemma NewFit(r: nat, x: int)
    requires x != 0 && NBits(Abs(x)) <= 10
    ensures Fit(NewItems(r, x))
  {
    hide NBits, Pow2;
    NBitsBounds(Abs(x));
    QuotientUnique(16 * r + NBits(Abs(x)), 16, r, NBits(Abs(x)));
  }

  lemma ZrlFit(bits: seq<nat>)
    requires BitsOk(bits)
    ensures Fit([Sym(0xF0)] + Corrections(bits))
  {
    CorrectionsFit(bits);
  }

  lemma {:induction false} CodeFit(h: Band, v: Band, eob: nat, k: nat, r: nat, bits: seq<nat>)
    requires k <= |v| == |h| && BitsOk(bits) && forall j :: 0 <= j < |v| && h[j] == 0 ==> NBits(Abs(v[j])) <= 10
    ensures Fit(CodeTo(h, v, eob, k, r, bits).items) && BitsOk(CodeTo(h, v, eob, k, r, bits).bits)
    decreases |v| - k, r
  {
    hide Fit, NBits, NewItems, Corrections;
    if k == |v| {
      assert Fit([]) by { EmptyFit(); }
    } else if v[k] == 0 {
      CodeFit(h, v, eob, k + 1, r + 1, bits);
    } else if r > 15 && k <= eob {
      CodeFit(h, v, eob, k, r - 16, []);
      ZrlFit(bits);
      FitConcat([Sym(0xF0)] + Corrections(bits), CodeTo(h, v, eob, k, r - 16, []).items);
    } else if h[k] != 0 {
      CodeFit(h, v, eob, k + 1, r, bits + [Abs(v[k]) % 2]);
    } else {
      CodeFit(h, v, eob, k + 1, 0, []);
      NewFit(r, v[k]);
      CorrectionsFit(bits);
      FitConcat(NewItems(r, v[k]), Corrections(bits));
      FitConcat(NewItems(r, v[k]) + Corrections(bits), CodeTo(h, v, eob, k + 1, 0, []).items);
    }
  }

  lemma EmptyFit()
    ensures Fit([])
  {
  }

  lemma FlushFit(p: Pending)
    requires p.run <= MAX_RUN && BitsOk(p.bits)
    ensures Fit(Flush(p))
  {
    EmptyFit();
    if p.run > 0 {
      M.EobFields(p.run);
      CorrectionsFit(p.bits);
      EobFit(p.run);
      hide Fit, EobItems, Corrections;
      FitConcat(EobItems(p.run), Corrections(p.bits));
    }
  }

  lemma EobFit(run: nat)
    requires 1 <= run <= MAX_RUN
    ensures Fit(EobItems(run))
  {
    hide NBits, Pow2;
    M.EobFields(run);
  }

  ghost predicate PendingFit(p: Pending) { p.Ok() && BitsOk(p.bits) }

  lemma AddBlockFit(p: Pending, c: Coded)
    requires PendingFit(p) && Fit(c.items) && BitsOk(c.bits)
    ensures Fit(AddBlock(p, c).items) && PendingFit(AddBlock(p, c).next)
  {
    hide Fit, Flush;
    FlushFit(p);
    EmptyFit();
    FitConcat(Flush(p), c.items);
    var out := if c.items == [] then [] else Flush(p) + c.items;
    var q := if c.items == [] then p else Pending(0, []);
    var q1 := Pending(q.run + 1, q.bits + c.bits);
    FlushFit(q1);
    FitConcat(out, Flush(q1));
    FitConcat(out, []);
  }

  ghost predicate AllFit(cs: seq<Coded>) { forall i :: 0 <= i < |cs| ==> Fit(cs[i].items) && BitsOk(cs[i].bits) }

  lemma {:induction false} CodesFit(cs: seq<Coded>, p: Pending)
    requires AllFit(cs) && PendingFit(p)
    ensures Fit(EncodeCodes(cs, p))
    decreases |cs|
  {
    hide Fit, AddBlock, Flush;
    if |cs| == 0 {
      FlushFit(p);
    } else {
      var s := AddBlock(p, cs[0]);
      AddBlockFit(p, cs[0]);
      CodesFit(cs[1..], s.next);
      FitConcat(s.items, EncodeCodes(cs[1..], s.next));
    }
  }

  // ----- There is something to count -----

  ghost predicate HasSymbol(items: seq<Item>) { exists i :: 0 <= i < |items| && items[i].Sym? }

  lemma HasEither(a: seq<Item>, b: seq<Item>)
    requires HasSymbol(a) || HasSymbol(b)
    ensures HasSymbol(a + b)
  {
    if HasSymbol(a) {
      var i :| 0 <= i < |a| && a[i].Sym?;
      assert (a + b)[i].Sym?;
    } else {
      var i :| 0 <= i < |b| && b[i].Sym?;
      assert (a + b)[|a| + i].Sym?;
    }
  }

  lemma {:induction false} CodeHas(h: Band, v: Band, eob: nat, k: nat, r: nat, bits: seq<nat>)
    requires k <= |v| == |h| && (k < |v| || r > 0 || bits != [])
    ensures var c := CodeTo(h, v, eob, k, r, bits);
      (c.items != [] ==> HasSymbol(c.items)) && (c.items == [] ==> c.run > 0 || c.bits != [])
    decreases |v| - k, r
  {
    hide NewItems, Corrections, HasSymbol;
    if k < |v| {
      if v[k] == 0 {
        CodeHas(h, v, eob, k + 1, r + 1, bits);
      } else if r > 15 && k <= eob {
        var first := [Sym(0xF0)] + Corrections(bits);
        assert HasSymbol(first) by { ZrlHas(bits); }
        HasEither(first, CodeTo(h, v, eob, k, r - 16, []).items);
      } else if h[k] != 0 {
        CodeHas(h, v, eob, k + 1, r, bits + [Abs(v[k]) % 2]);
      } else {
        assert HasSymbol(NewItems(r, v[k])) by { NewHas(r, v[k]); }
        HasEither(NewItems(r, v[k]), Corrections(bits));
        HasEither(NewItems(r, v[k]) + Corrections(bits), CodeTo(h, v, eob, k + 1, 0, []).items);
      }
    }
  }

  lemma ZrlHas(bits: seq<nat>)
    ensures HasSymbol([Sym(0xF0)] + Corrections(bits))
  {
    assert ([Sym(0xF0)] + Corrections(bits))[0].Sym?;
  }

  lemma NewHas(r: nat, x: int)
    ensures HasSymbol(NewItems(r, x))
  {
    assert NewItems(r, x)[0].Sym?;
  }

  lemma FlushHas(p: Pending)
    requires p.run > 0
    ensures HasSymbol(Flush(p))
  {
    assert Flush(p)[0].Sym?;
  }

  ghost predicate Something(c: Coded) { if c.items != [] then HasSymbol(c.items) else c.run > 0 || c.bits != [] }

  lemma {:induction false} CodesHave(cs: seq<Coded>, p: Pending)
    requires p.run > 0 || (|cs| > 0 && Something(cs[0]))
    requires forall i :: 0 <= i < |cs| ==> Something(cs[i])
    ensures HasSymbol(EncodeCodes(cs, p))
    decreases |cs|
  {
    hide HasSymbol, Flush;
    if |cs| == 0 {
      FlushHas(p);
    } else {
      var c, s := cs[0], AddBlock(p, cs[0]);
      var rest := EncodeCodes(cs[1..], s.next);
      if c.items != [] {
        HasEither(Flush(p), c.items);
        HasEither(Flush(p) + c.items, EndBlock(Pending(0, []), c.bits).items);
        HasEither(s.items, rest);
      } else {
        var q := Pending(p.run + 1, p.bits + c.bits);
        FlushHas(q);
        if q.run == MAX_RUN || |q.bits| > FULL {
          assert s.items == [] + Flush(q) == Flush(q);
          HasEither(s.items, rest);
        } else {
          CodesHave(cs[1..], s.next);
          HasEither(s.items, rest);
        }
      }
    }
  }

  // ----- Counts -----

  /** The counts that the first pass leaves. */
  function CountsOf(items: seq<Item>): (c: seq<nat>)
    ensures |c| == 257 && forall s :: 0 <= s < 257 ==> c[s] == P.Count(items, s)
  {
    seq(257, s requires 0 <= s => P.Count(items, s))
  }

  function Symbols(items: seq<Item>): nat {
    if |items| == 0 then 0 else Symbols(items[..|items| - 1]) + if items[|items| - 1].Sym? then 1 else 0
  }

  lemma {:induction false} CountsSum(items: seq<Item>)
    requires InTable(items)
    ensures Sum(CountsOf(items), 256) == Symbols(items)
    decreases |items|
  {
    if |items| == 0 {
      NoneCounted();
    } else {
      var front, last := items[..|items| - 1], items[|items| - 1];
      CountsSum(front);
      var c := CountsOf(front);
      if last.Sym? {
        SumUpdate(c, last.s, c[last.s] + 1, 256);
        hide Sum;
        assert CountsOf(items) == c[last.s := c[last.s] + 1];
      } else {
        hide Sum;
        assert CountsOf(items) == c;
      }
    }
  }

  lemma NoneCounted()
    ensures Sum(CountsOf([]), 256) == 0
  {
    ZeroSum(CountsOf([]), 256);
  }

  lemma {:induction false} ZeroSum(c: seq<nat>, n: nat)
    requires n <= |c| && forall s :: 0 <= s < n ==> c[s] == 0
    ensures Sum(c, n) == 0
  {
    if n > 0 { ZeroSum(c, n - 1); }
  }

  lemma {:induction false} Counted1(items: seq<Item>, i: nat)
    requires i < |items| && items[i].Sym?
    ensures P.Count(items, items[i].s) > 0
    decreases |items|
  {
    if i < |items| - 1 { Counted1(items[..|items| - 1], i); }
  }

  lemma {:induction false} NotCounted(items: seq<Item>, s: nat)
    requires forall i :: 0 <= i < |items| ==> items[i] != Sym(s)
    ensures P.Count(items, s) == 0
    decreases |items|
  {
    if |items| > 0 { NotCounted(items[..|items| - 1], s); }
  }

  /** The counts of a scan are fit for building a table. */
  lemma CountsSuitable(items: seq<Item>)
    requires InTable(items) && SmallSizes(items) && HasSymbol(items) && Symbols(items) <= NO_FREQUENCY
    ensures O.Suitable(CountsOf(items), false)
  {
    hide Sum, NonZero, P.Count, Symbols;
    CountsSum(items);
    var c := CountsOf(items);
    var i :| 0 <= i < |items| && items[i].Sym?;
    Counted1(items, i);
    NotCounted(items, 11);
    NotCounted(items, 12);
    O.TwoUnused(c, 11, 12, 256);
  }

  /** A table built from the counts codes every symbol. */
  lemma CountedCoded(items: seq<Item>, t: Table, e: EncoderTable)
    requires InTable(items) && O.BuiltFrom(t, CountsOf(items), false) && Encodes(e, t)
    ensures AllCoded(e, items)
  {
    hide O.BuiltFrom, Encodes, P.Count;
    O.EncodesWhole(e, t);
    forall i | 0 <= i < |items| ensures Coded1(e, items[i]) {
      if items[i].Sym? {
        Counted1(items, i);
        O.CodedIfCounted(e, t, CountsOf(items), false, items[i].s);
      }
    }
  }

  // ----- The items of a scan -----

  ghost predicate ScanInput(intervals: seq<seq<Block>>, ss: nat, se: nat) {
    && 1 <= ss <= se < 64 && (exists i :: 0 <= i < |intervals| && |intervals[i]| > 0)
    && forall i, j :: 0 <= i < |intervals| && 0 <= j < |intervals[i]| ==> Shorts(intervals[i][j])
  }

  lemma IntervalShorts(intervals: seq<seq<Block>>, ss: nat, se: nat, i: nat)
    requires ScanInput(intervals, ss, se) && i < |intervals|
    ensures forall j :: 0 <= j < |intervals[i]| ==> Shorts(intervals[i][j])
  {
    forall j | 0 <= j < |intervals[i]| ensures Shorts(intervals[i][j]) { }
  }

  function IntervalItems(blocks: seq<Block>, ss: nat, se: nat, al: nat, refine: bool): seq<Item>
    requires 1 <= ss <= se < 64
  {
    EncodeCodes(P.Written(P.Bands(blocks, ss, se, al), refine), M.NONE)
  }

  /** The items of all restart intervals. */
  function ScanItems(intervals: seq<seq<Block>>, ss: nat, se: nat, al: nat, refine: bool): seq<Item>
    requires 1 <= ss <= se < 64
    decreases |intervals|
  {
    if |intervals| == 0 then []
    else
      var m := |intervals| - 1;
      ScanItems(intervals[..m], ss, se, al, refine) + IntervalItems(intervals[m], ss, se, al, refine)
  }

  ghost predicate Codable(blocks: seq<Block>, ss: nat, se: nat, al: nat, refine: bool)
    requires 1 <= ss <= se < 64
  {
    forall j :: 0 <= j < |blocks| ==> P.BandCodable(P.Bands(blocks, ss, se, al)[j], refine)
  }

  ghost predicate CodableScan(intervals: seq<seq<Block>>, ss: nat, se: nat, al: nat, refine: bool)
    requires 1 <= ss <= se < 64
  {
    forall i :: 0 <= i < |intervals| ==> Codable(intervals[i], ss, se, al, refine)
  }

  lemma BandFit(v: Band, refine: bool)
    requires |v| > 0 && P.BandCodable(v, refine)
    ensures var c := if refine then StoredCode(v) else P.Target(P.Unknown(v), v);
      Fit(c.items) && BitsOk(c.bits) && Something(c)
  {
    hide Fit, CodeTo, InTable;
    if refine {
      var w := AsStored(v);
      UnitSize();
      forall j | 0 <= j < |w| ensures Known(w)[j] == 0 ==> NBits(Abs(w[j])) <= 10 { hide NBits; }
      CodeFit(Known(w), w, LastNew(Known(v), v, |v|), 0, 0, []);
      CodeHas(Known(w), w, LastNew(Known(v), v, |v|), 0, 0, []);
    } else {
      hide NBits;
      var h := P.Unknown(v);
      CodeFit(h, v, LastNew(h, v, |v|), 0, 0, []);
      CodeHas(h, v, LastNew(h, v, |v|), 0, 0, []);
    }
  }

  lemma UnitSize()
    ensures NBits(0) == 0 && NBits(1) == 1
  {
  }

  lemma IntervalFit(blocks: seq<Block>, ss: nat, se: nat, al: nat, refine: bool)
    requires 1 <= ss <= se < 64 && Codable(blocks, ss, se, al, refine)
    ensures Fit(IntervalItems(blocks, ss, se, al, refine))
    ensures (|blocks| > 0 ==> HasSymbol(IntervalItems(blocks, ss, se, al, refine)))
  {
    hide Fit, P.BandCodable, Something, HasSymbol, StoredCode, P.Target, P.BandOf;
    var vs := P.Bands(blocks, ss, se, al);
    var cs := P.Written(vs, refine);
    forall i | 0 <= i < |cs|
      ensures Fit(cs[i].items) && BitsOk(cs[i].bits) && Something(cs[i])
    {
      BandFit(vs[i], refine);
    }
    CodesFit(cs, M.NONE);
    if |blocks| > 0 { CodesHave(cs, M.NONE); }
  }

  lemma {:induction false} ScanFit(intervals: seq<seq<Block>>, ss: nat, se: nat, al: nat, refine: bool)
    requires 1 <= ss <= se < 64 && CodableScan(intervals, ss, se, al, refine)
    ensures Fit(ScanItems(intervals, ss, se, al, refine))
    ensures (exists i :: 0 <= i < |intervals| && |intervals[i]| > 0) ==>
      HasSymbol(ScanItems(intervals, ss, se, al, refine))
    decreases |intervals|
  {
    hide Fit, Codable, HasSymbol, IntervalItems;
    if |intervals| == 0 {
      EmptyFit();
    } else {
      var m := |intervals| - 1;
      ScanFit(intervals[..m], ss, se, al, refine);
      IntervalFit(intervals[m], ss, se, al, refine);
      var a, b := ScanItems(intervals[..m], ss, se, al, refine), IntervalItems(intervals[m], ss, se, al, refine);
      FitConcat(a, b);
      if i :| 0 <= i < |intervals| && |intervals[i]| > 0 {
        if i < m { assert |intervals[..m][i]| > 0; }
        HasEither(a, b);
      }
    }
  }

  /** The items of each interval are coded if all are. */
  lemma {:induction false} PartsCoded(intervals: seq<seq<Block>>, ss: nat, se: nat, al: nat, refine: bool,
      e: EncoderTable, i: nat)
    requires 1 <= ss <= se < 64 && i < |intervals| && AllCoded(e, ScanItems(intervals, ss, se, al, refine))
    ensures AllCoded(e, IntervalItems(intervals[i], ss, se, al, refine))
    decreases |intervals|
  {
    hide IntervalItems, Coded1;
    var m := |intervals| - 1;
    var a, b := ScanItems(intervals[..m], ss, se, al, refine), IntervalItems(intervals[m], ss, se, al, refine);
    if i == m {
      forall j | 0 <= j < |b| ensures Coded1(e, b[j]) { assert (a + b)[|a| + j] == b[j]; }
    } else {
      forall j | 0 <= j < |a| ensures Coded1(e, a[j]) { assert (a + b)[j] == a[j]; }
      PartsCoded(intervals[..m], ss, se, al, refine, e, i);
    }
  }

  // ----- Both passes -----

  /** The first pass, over all restart intervals. */
  method CountScan(intervals: seq<seq<Block>>, ss: nat, se: nat, al: nat, refine: bool)
    returns (ok: bool, counts: array<nat>)
    requires ScanInput(intervals, ss, se)
    ensures fresh(counts)
    ensures ok <==> CodableScan(intervals, ss, se, al, refine)
    ensures ok ==> counts[..] == CountsOf(ScanItems(intervals, ss, se, al, refine))
    ensures ok ==> InTable(ScanItems(intervals, ss, se, al, refine))
  {
    hide IntervalItems, InTable, P.Count, P.BandCodable, P.Bands, P.Written;
    var enc := new P.Encoder(true);
    counts := enc.counts;
    for i := 0 to |intervals|
      invariant enc.Valid() && enc.P() == M.NONE && enc.counts == counts && fresh(enc) && fresh(enc.counts)
      invariant fresh(enc.bitBuffer)
      invariant forall j :: 0 <= j < i ==> Codable(intervals[j], ss, se, al, refine)
      invariant enc.emitted == ScanItems(intervals[..i], ss, se, al, refine)
    {
      IntervalShorts(intervals, ss, se, i);
      ok := enc.EncodeInterval(intervals[i], ss, se, al, refine);
      assert ok <==> Codable(intervals[i], ss, se, al, refine);
      if !ok {
        return;
      }
      ItemsMore(intervals, ss, se, al, refine, i);
    }
    assert intervals[..|intervals|] == intervals;
    ok := true;
  }

  lemma ItemsMore(intervals: seq<seq<Block>>, ss: nat, se: nat, al: nat, refine: bool, i: nat)
    requires 1 <= ss <= se < 64 && i < |intervals|
    ensures ScanItems(intervals[..i + 1], ss, se, al, refine)
      == ScanItems(intervals[..i], ss, se, al, refine) +
        EncodeCodes(P.Written(P.Bands(intervals[i], ss, se, al), refine), M.NONE)
  {
    hide EncodeCodes, P.Written, P.Bands;
    assert intervals[..i + 1][..i] == intervals[..i] && intervals[..i + 1][i] == intervals[i];
  }

  /** The bytes of an interval: its bits, and fill bits up to a whole byte. */
  ghost predicate SegmentOf(out: seq<byte>, e: EncoderTable, items: seq<Item>) {
    WellStuffed(out) && AllCoded(e, items) &&
      AllBits(Unstuff(out)) == ItemsBits(e, items) + W.Fill(W.FillBits(|ItemsBits(e, items)|))
  }

  /** Writes the items of an interval; every one of them has a code. */
  method WriteItems(items: seq<Item>, e: EncoderTable, ghost t: Table) returns (out: seq<byte>)
    requires B.Pair(e, t) && AllCoded(e, items) && Sound(items)
    ensures SegmentOf(out, e, items)
  {
    hide B.Pair, ItemBits, Sound, Unstuff, WellStuffed, AllBits, Coded1, W.FillBits, W.Fill, BitsOf, Aligned;
    ShortSizes(e, t);
    var w := new Writer();
    for i := 0 to |items|
      invariant w.Valid() && fresh(w) && w.Written() == ItemsBits(e, items[..i])
    {
      assert Coded1(e, items[i]);
      ItemWritable(e, items, i);
      var ok := w.EmitItem(e, items[i]);
      assert items[..i + 1][..i] == items[..i] && items[..i + 1][i] == items[i];
    }
    assert items[..|items|] == items;
    WrittenFill(Unstuff(w.out), BitsOf(w.pending, w.putBits), ItemsBits(e, items));
    w.FlushBits();
    out := w.out;
    W.NoBits(w.pending);
    assert AllBits(Unstuff(out)) + [] == AllBits(Unstuff(out));
  }

  lemma SameFill(q: nat, n: nat)
    ensures W.FillBits(8 * q + n) == W.FillBits(n)
  {
  }

  lemma WrittenFill(bytes: seq<byte>, left: seq<bool>, bits: seq<bool>)
    requires AllBits(bytes) + left == bits
    ensures W.FillBits(|bits|) == W.FillBits(|left|)
  {
    hide AllBits, W.FillBits;
    SameFill(|bytes|, |left|);
  }

  lemma ShortSizes(e: EncoderTable, t: Table)
    requires B.Pair(e, t)
    ensures |e.ehufsi| == |e.ehufco| == 256 && forall s :: 0 <= s < 256 ==> e.ehufsi[s] <= 16
  {
    hide UpTo, Fits;
    forall s | 0 <= s < 256 ensures e.ehufsi[s] <= 16 {
      if e.ehufsi[s] != 0 { C.CodeFits(e, t, s); }
    }
  }

  lemma ItemWritable(e: EncoderTable, items: seq<Item>, i: nat)
    requires |e.ehufsi| == 256 && i < |items| && Coded1(e, items[i]) && Sound(items)
    ensures match items[i] case Sym(s) => s < 256 case Raw(n, x) => 0 < n <= 16
  {
  }

  datatype TwoPassResult = Refused | CodeTooLong | Written(segs: seq<seq<byte>>)

  /** Main result for progressive AC scans: counting all symbols, building the table and writing the
      scan. It fails only for a band that cannot be coded or counts that make a code longer than 32 bits;
      otherwise every symbol has a code, and the bytes of every interval are its bits. */
  method TwoPass(intervals: seq<seq<Block>>, ss: nat, se: nat, al: nat, refine: bool)
    returns (r: TwoPassResult, ghost t: Table, ghost e: EncoderTable)
    requires ScanInput(intervals, ss, se) && Symbols(ScanItems(intervals, ss, se, al, refine)) <= NO_FREQUENCY
    ensures r.Refused? <==> !CodableScan(intervals, ss, se, al, refine)
    ensures r.CodeTooLong? <==>
      !r.Refused? && Overlong(T.LengthsFor(CountsOf(ScanItems(intervals, ss, se, al, refine))))
    ensures r.Written? ==> B.Pair(e, t) && AllSegments(r.segs, intervals, ss, se, al, refine, e)
  {
    hide Symbols, ScanItems, IntervalItems, CodableScan, HasSymbol, Fit, InTable, O.Suitable, O.BuiltFrom, TableFor,
      Overlong, Shared,
      Lengths, B.Pair, AllSegments, EncoderOk, Encodes, NonZero, Sum, P.Count;
    t, e := Table([], []), EncoderTable([], []);
    ghost var all := ScanItems(intervals, ss, se, al, refine);
    var ok, counts := CountScan(intervals, ss, se, al, refine);
    if !ok {
      return Refused, t, e;
    }
    ghost var c := counts[..];
    ScanFit(intervals, ss, se, al, refine);
    FitParts(all);
    CountsSuitable(all);
    T.SuitableParts(c, false);
    var outcome := GenOptimalTable(counts);
    match outcome
    case TooLong => return CodeTooLong, t, e;
    case NoLength => assert false;
    case Built(table) =>
      O.TableCodes(table, c, false);
      BuiltParts(table, c);
      var ok1, et := MakeEncoderTable(table, false);
      T.Derived(table, et, false);
      CountedCoded(all, table, et);
      t, e := table, et;
      var segs := WriteScan(intervals, ss, se, al, refine, et, table);
      r := Written(segs);
  }

  lemma BuiltParts(t: Table, counts: seq<nat>)
    requires O.BuiltFrom(t, counts, false)
    ensures t.Shape() && EncoderOk(t, false)
  {
  }

  lemma FitParts(items: seq<Item>)
    requires Fit(items)
    ensures Sound(items) && SmallSizes(items)
  {
  }

  /** The second pass, over all restart intervals. */
  method WriteScan(intervals: seq<seq<Block>>, ss: nat, se: nat, al: nat, refine: bool, e: EncoderTable, ghost t: Table)
    returns (segs: seq<seq<byte>>)
    requires ScanInput(intervals, ss, se) && CodableScan(intervals, ss, se, al, refine)
    requires B.Pair(e, t) && AllCoded(e, ScanItems(intervals, ss, se, al, refine))
    ensures AllSegments(segs, intervals, ss, se, al, refine, e)
  {
    hide ScanItems, InTable, P.Count, P.BandCodable, P.Bands, P.Written, Fit, B.Pair, Coded1, EncodeCodes, SegmentOf,
      HasSymbol;
    var enc := new P.Encoder(false);
    segs := [];
    for i := 0 to |intervals|
      invariant enc.Valid() && enc.P() == M.NONE && !enc.gather && fresh(enc) && fresh(enc.counts)
      invariant fresh(enc.bitBuffer)
      invariant |segs| == i && forall j :: 0 <= j < i ==>
        SegmentOf(segs[j], e, IntervalItems(intervals[j], ss, se, al, refine))
    {
      IntervalShorts(intervals, ss, se, i);
      var n := |enc.output|;
      assert Codable(intervals[i], ss, se, al, refine);
      ghost var items := IntervalItems(intervals[i], ss, se, al, refine);
      var ok := enc.EncodeInterval(intervals[i], ss, se, al, refine);
      assert enc.output[n..] == items;
      PartsCoded(intervals, ss, se, al, refine, e, i);
      IntervalFit(intervals[i], ss, se, al, refine);
      FitParts(items);
      var s := WriteItems(enc.output[n..], e, t);
      segs := segs + [s];
    }
  }

  // ----- Reading back -----

  /** A decoder reads the bands of an interval back from its bytes and any marker after them. */
  lemma SegmentMeaning(blocks: seq<Block>, ss: nat, se: nat, al: nat, refine: bool, e: EncoderTable, t: Table,
      out: seq<byte>, tail: seq<byte>)
    requires 1 <= ss <= se < 64 && (forall i :: 0 <= i < |blocks| ==> Shorts(blocks[i]))
    requires Codable(blocks, ss, se, al, refine)
    requires refine ==> al >= 1 || forall i, k :: 0 <= i < |blocks| && ss <= k <= se ==> blocks[i][k] != -0x8000
    requires B.Pair(e, t) && SegmentOf(out, e, IntervalItems(blocks, ss, se, al, refine)) && IsMarker(tail)
    ensures B.Usable(t)
    ensures var vs := P.Bands(blocks, ss, se, al); var hs := P.Histories(vs, refine);
      DecodeBits(t, AllBits(R.DataOf(D.Source(out + tail, 0))), 0, hs).zs == vs
  {
    hide P.BandCodable, EncodeCodes, P.Bands, P.Written, Fit, DecodeBits, Decode, ItemsBits, AllBits, Unstuff,
      WellStuffed, R.DataOf, IsMarker, B.Usable;
    var vs := P.Bands(blocks, ss, se, al);
    var hs, items := P.Histories(vs, refine), IntervalItems(blocks, ss, se, al, refine);
    PairUsable(e, t);
    P.IntervalMeaning(blocks, ss, se, al, refine, []);
    assert items + [] == items;
    IntervalFit(blocks, ss, se, al, refine);
    FitParts(items);
    S.DataOfSegment(out, tail);
    DecodeAsBits(e, t, items, 0, hs, W.Fill(W.FillBits(|ItemsBits(e, items)|)));
  }

  lemma PairUsable(e: EncoderTable, t: Table)
    requires B.Pair(e, t)
    ensures B.Usable(t)
  {
  }

  /** What was read, and whether every restart marker stood where it was expected. */
  datatype Scan = Scan(ok: bool, vss: seq<seq<Band>>)

  /** Reads interval after interval; what is known of the bands of each is given. */
  function ReadScan(t: Table, src: D.Source, hss: seq<seq<Band>>, num: nat): Scan
    requires B.Usable(t) && num < 8
    decreases |hss|
  {
    if |hss| == 0 then Scan(true, [])
    else
      var vs := DecodeBits(t, AllBits(R.DataOf(src)), 0, hss[0]).zs;
      var m := Restart.MarkerAhead(src);
      if |hss| == 1 then Scan(true, [vs])
      else if m.marker != Restart.RST0 + num then Scan(false, [vs])
      else
        var r := ReadScan(t, D.Source(m.input, 0), hss[1..], (num + 1) % 8);
        Scan(r.ok, [vs] + r.vss)
  }

  function AllBands(intervals: seq<seq<Block>>, ss: nat, se: nat, al: nat): (vss: seq<seq<Band>>)
    requires 1 <= ss <= se < 64
    ensures |vss| == |intervals| && forall i :: 0 <= i < |vss| ==> vss[i] == P.Bands(intervals[i], ss, se, al)
  {
    seq(|intervals|, i requires 0 <= i < |intervals| => P.Bands(intervals[i], ss, se, al))
  }

  function AllHistories(vss: seq<seq<Band>>, refine: bool): (hss: seq<seq<Band>>)
    ensures |hss| == |vss| && forall i :: 0 <= i < |hss| ==> hss[i] == P.Histories(vss[i], refine)
  {
    seq(|vss|, i requires 0 <= i < |vss| => P.Histories(vss[i], refine))
  }

  ghost predicate AllSegments(segs: seq<seq<byte>>, intervals: seq<seq<Block>>, ss: nat, se: nat, al: nat, refine: bool,
      e: EncoderTable)
    requires 1 <= ss <= se < 64
  {
    |segs| == |intervals| && forall i :: 0 <= i < |intervals| ==>
      SegmentOf(segs[i], e, IntervalItems(intervals[i], ss, se, al, refine))
  }

  /** No magnitude is too large to be stored in a refinement scan. */
  ghost predicate Storable(intervals: seq<seq<Block>>, ss: nat, se: nat, al: nat, refine: bool) {
    refine && al == 0 ==>
      forall i, j, k :: 0 <= i < |intervals| && 0 <= j < |intervals[i]| && ss <= k <= se && k < 64 ==>
      intervals[i][j][k] != -0x8000
  }

  /** Main result: the bytes of all restart intervals, with restart markers between them and any marker
      after them, are decoded bit by bit to the bands of all blocks. */
  lemma {:induction false} ScanRoundTrip(intervals: seq<seq<Block>>, ss: nat, se: nat, al: nat, refine: bool,
      e: EncoderTable, t: Table,
      segs: seq<seq<byte>>, tail: seq<byte>, num: nat)
    requires 1 <= ss <= se < 64 && |intervals| > 0 && num < 8 && CodableScan(intervals, ss, se, al, refine)
    requires forall i, j :: 0 <= i < |intervals| && 0 <= j < |intervals[i]| ==> Shorts(intervals[i][j])
    requires Storable(intervals, ss, se, al, refine)
    requires B.Pair(e, t) && AllSegments(segs, intervals, ss, se, al, refine, e) && IsMarker(tail)
    ensures B.Usable(t)
    ensures var vss := AllBands(intervals, ss, se, al);
      ReadScan(t, D.Source(Restart.Joined(segs, num) + tail, 0), AllHistories(vss, refine), num) == Scan(true, vss)
    decreases |intervals|
  {
    hide Codable, SegmentOf, IsMarker, DecodeBits, AllBits, R.DataOf, Restart.MarkerAhead, P.Bands, P.Histories,
      IntervalItems, B.Pair, B.Usable, Restart.Joined, Restart.Marker;
    PairUsable(e, t);
    var vss := AllBands(intervals, ss, se, al);
    var hss, s := AllHistories(vss, refine), segs[0];
    var blocks, more := intervals[0], intervals[1..];
    FirstStorable(intervals, ss, se, al, refine);
    Restart.JoinedStep(segs, num);
    assert AllBands(more, ss, se, al) == vss[1..] && AllHistories(vss[1..], refine) == hss[1..];
    if |segs| == 1 {
      SegmentMeaning(blocks, ss, se, al, refine, e, t, s, tail);
      assert vss == [vss[0]];
    } else {
      var j := Restart.Joined(segs[1..], (num + 1) % 8);
      ConcatAssoc(s, Restart.Marker(num) + j, tail);
      ConcatAssoc(Restart.Marker(num), j, tail);
      Restart.MarkerIs(Restart.RST0 + num, j + tail);
      Restart.MarkerBytes(num);
      SegmentMeaning(blocks, ss, se, al, refine, e, t, s, Restart.Marker(num) + (j + tail));
      SegmentStuffed(s, e, IntervalItems(blocks, ss, se, al, refine));
      Restart.MarkerAfter(s, Restart.RST0 + num, j + tail);
      ScanRoundTrip(more, ss, se, al, refine, e, t, segs[1..], tail, (num + 1) % 8);
      assert [vss[0]] + vss[1..] == vss;
    }
  }

  lemma SegmentStuffed(out: seq<byte>, e: EncoderTable, items: seq<Item>)
    requires SegmentOf(out, e, items)
    ensures WellStuffed(out)
  {
  }

  lemma FirstStorable(intervals: seq<seq<Block>>, ss: nat, se: nat, al: nat, refine: bool)
    requires 1 <= ss <= se < 64 && |intervals| > 0 && Storable(intervals, ss, se, al, refine)
    ensures Storable(intervals[1..], ss, se, al, refine)
    ensures refine ==> al >= 1 || forall j, k :: 0 <= j < |intervals[0]| && ss <= k <= se ==>
      intervals[0][j][k] != -0x8000
  {
    if refine && al == 0 {
      forall j, k | 0 <= j < |intervals[0]| && ss <= k <= se ensures intervals[0][j][k] != -0x8000 { }
      forall i, j, k | 0 <= i < |intervals[1..]| && 0 <= j < |intervals[1..][i]| && ss <= k <= se && k < 64
        ensures intervals[1..][i][j][k] != -0x8000
      {
        assert intervals[1..][i] == intervals[i + 1];
      }
    }
  }
}
