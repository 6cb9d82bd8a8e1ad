/** A block that loses bits: codes of 16 bits leave so many of them pending at the end of the data
    that the fill bits push the first ones out of the accumulator. */
module HuffFlush {
  import opened Bits
  import opened Coefficients
  import opened Stuffing
  import opened HuffTable
  import opened HuffBits
  import opened HuffDerive
  import opened HuffWriter
  import opened HuffBlock
  import opened HuffCoder
  import opened HuffScan

  /** One code of each length. */
  function Thin(vals: seq<nat>): Table
    requires |vals| == 16
  {
    Table(seq(17, l => if l == 0 then 0 else 1), seq(256, p requires 0 <= p => if p < 16 then vals[p] else 0))
  }

  const DC_ORDER: seq<nat> := [0, 1, 2, 3, 4, 5, 6, 7, 8, 9, 10, 12, 13, 14, 15, 11]
  const AC_ORDER: seq<nat> := [2, 3, 4, 5, 6, 7, 8, 9, 10, 11, 12, 13, 14, 15, 1, 0]

  /** A DC difference of category 11, one coefficient of category 1, and the end of the block. */
  const WIDE: ScanBlock := ScanBlock(0, seq(64, i => if i == 0 then 1024 else if i == 1 then 1 else 0))

  lemma {:induction false} ThinCounts(vals: seq<nat>, l: nat)
    requires |vals| == 16 && l <= 16
    ensures UpTo(Thin(vals).bits, l) == l && End(Thin(vals).bits, l) == Pow2(l) - 1
  {
    if l > 0 { ThinCounts(vals, l - 1); }
  }

  lemma ThinOk(vals: seq<nat>, isDC: bool)
    requires |vals| == 16 && Distinct(vals, 16) && forall p :: 0 <= p < 16 ==> vals[p] <= 15
    ensures Thin(vals).Shape() && Usable(Thin(vals)) && Fits(Thin(vals).bits) && EncoderOk(Thin(vals), isDC)
    ensures DecoderOk(Thin(vals), isDC)
  {
    ThinCounts(vals, 16);
    Pow2Words();
    hide UpTo, End, Pow2;
  }

  lemma ThinCode(e: EncoderTable, vals: seq<nat>, l: nat)
    requires |vals| == 16 && 0 < l <= 16 && Encodes(e, Thin(vals)) && vals[l - 1] < 256
    ensures |e.ehufsi| == |e.ehufco| == 256 && e.ehufsi[vals[l - 1]] == l
    ensures e.ehufco[vals[l - 1]] == 2 * Pow2(l - 1) - 2
  {
    ThinCounts(vals, l - 1);
    hide UpTo, End, Pow2;
    var c := Symbol(l, 0);
    assert HasCode(Thin(vals).bits, c) && SymbolAt(Thin(vals), c) == vals[l - 1];
  }

  lemma {:induction false} OnlyZeros(z: Block, k: nat, r: nat)
    requires k <= 64 && (k < 64 || r > 0) && forall j :: k <= j < 64 ==> z[j] == 0
    ensures AcItems(z, k, r) == [EOB]
    decreases 64 - k
  {
    if k < 64 { OnlyZeros(z, k + 1, r + 1); }
  }

  lemma WideZigzag()
    ensures var z := Zig(WIDE.b); z[0] == 1024 && z[1] == 1 && forall k :: 2 <= k < 64 ==> z[k] == 0
  {
    OrdersInverse(0);
    OrdersInverse(1);
    assert Natural(0) == 0 && Natural(1) == 1;
    hide Natural;
    forall k | 2 <= k < 64 ensures Zig(WIDE.b)[k] == 0 { OrdersInverse(k); }
  }

  lemma WideCategories()
    ensures NBits(Abs(1024)) == 11 && NBits(Abs(1)) == 1
  {
    assert NBits(1) == 1 && NBits(8) == 4;
    assert NBits(64) == 7;
  }

  const WIDE_ITEMS: seq<Item> := [Item(true, 11, Extra(1024, 11), 11), Item(false, 1, Extra(1, 1), 1), EOB]

  lemma WideItems()
    ensures BlockItems(Zig(WIDE.b), 0) == WIDE_ITEMS
    ensures Shorts(Zig(WIDE.b)) && InRange(Zig(WIDE.b))
  {
    hide Zig, NBits, Extra, AcItems, NonzeroItems;
    WideZigzag();
    WideCategories();
    var z := Zig(WIDE.b);
    OnlyZeros(z, 2, 0);
    AcStep(z, 1, 0);
    NonzeroStep(0, 1);
  }

  lemma {:induction false} TopBit(x: nat, n: nat)
    requires 0 < n && Pow2(n - 1) <= x < Pow2(n)
    ensures BitsOf(x, n)[0]
  {
    if n > 1 { TopBit(x / 2, n - 1); }
  }

  lemma OneBlock(x: ScanBlock, t: Tables)
    requires TablesOk(t, 1) && x.c == 0 && Codable(x, t, 1, 0)
    ensures AllCodable([x], t, 1, Zero(1))
    ensures ScanBits([x], t, 1, Zero(1)) == ItemsBits(t.dc[0], t.ac[0], BlockItems(Zig(x.b), 0))
    ensures ScanPending(0, [x], t, 1, Zero(1)) == PendingAfter(0, t.dc[0], t.ac[0], BlockItems(Zig(x.b), 0))
  {
    hide BlockItems, Zig, AllCoded, ItemsBits, PendingAfter;
    assert [x][1..] == [] && Zero(1)[0] == 0;
  }

  /** After three items with codes of 16, 15 and 16 bits and twelve extra bits, 59 bits are pending. */
  lemma WidePending(dc: EncoderTable, ac: EncoderTable)
    requires |dc.ehufsi| == |dc.ehufco| == |ac.ehufsi| == |ac.ehufco| == 256
    requires dc.ehufsi[11] == 16 && ac.ehufsi[1] == 15 && ac.ehufsi[0] == 16 && 0x8000 <= dc.ehufco[11] < 0x10000
    ensures AllCoded(dc, ac, WIDE_ITEMS) && PendingAfter(0, dc, ac, WIDE_ITEMS) == 59 == |ItemsBits(dc, ac, WIDE_ITEMS)|
    ensures ItemsBits(dc, ac, WIDE_ITEMS)[0]
  {
    hide Extra, BitsOf, Pow2;
    var items := WIDE_ITEMS;
    assert items[1..][1..] == [EOB] && items[1..][0] == items[1];
    assert [EOB] + [] == [EOB];
    FirstCoded(dc, ac, EOB, []);
    NoneCoded(dc, ac);
    assert PendingAfter(43, dc, ac, [EOB]) == 59 && |ItemsBits(dc, ac, [EOB])| == 16;
    Pow2Words();
    TopBit(dc.ehufco[11], 16);
  }

  /** 59 bits are pending at the end, and the first one is set. */
  lemma WideLoses(t: Tables)
    requires TablesOk(t, 1) && t.td == [Thin(DC_ORDER)] && t.ta == [Thin(AC_ORDER)]
    ensures AllCodable([WIDE], t, 1, Zero(1))
    ensures !RoomFor(ScanBits([WIDE], t, 1, Zero(1)), ScanPending(0, [WIDE], t, 1, Zero(1)))
  {
    hide Pow2, UpTo, Encodes, AllCodable, ScanBits, ScanPending, Zig, BlockItems, PendingAfter, ItemsBits, AllCoded,
      Thin, DecoderOk;
    assert Pair(t.dc[0], t.td[0]) && Pair(t.ac[0], t.ta[0]);
    WideItems();
    ThinCode(t.dc[0], DC_ORDER, 16);
    ThinCode(t.ac[0], AC_ORDER, 15);
    ThinCode(t.ac[0], AC_ORDER, 16);
    Pow2Words();
    WidePending(t.dc[0], t.ac[0]);
    OneBlock(WIDE, t);
  }

  /** All blocks have codes, but the output is not their bits and some fill bits. */
  ghost predicate LostBits(blocks: seq<ScanBlock>, t: Tables, n: nat, out: seq<byte>) {
    && TablesOk(t, n) && AllCodable(blocks, t, n, Zero(n)) && WellStuffed(out)
    && forall fill: nat :: AllBits(Unstuff(out)) != ScanBits(blocks, t, n, Zero(n)) + Fill(fill)
  }

  /** Writing that block with derived tables: not all of its bits come out. */
  method EncodeWide() returns (out: seq<byte>, t: Tables)
    ensures LostBits([WIDE], t, 1, out)
  {
    hide Pow2, UpTo, Encodes, AllCodable, ScanBits, ScanPending, EncoderOk, DecoderOk, Usable, Thin, Unstuff, AllBits,
      RoomFor, RoomToFill;
    ThinOk(DC_ORDER, true);
    ThinOk(AC_ORDER, false);
    var ok, dc := MakeEncoderTable(Thin(DC_ORDER), true);
    var ok1, ac := MakeEncoderTable(Thin(AC_ORDER), false);
    t := Tables([Thin(DC_ORDER)], [Thin(AC_ORDER)], [dc], [ac]);
    WideLoses(t);
    var w := new BitWriter();
    EncodeSegment(w, [WIDE], t, 1);
    out := w.out;
  }
}
