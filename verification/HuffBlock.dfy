/** One block in sequential Huffman coding: the symbols it takes, their bits, and reading it back.
    (Sections F.1.2 and F.2.2 of ITU-T T.81.) */
module HuffBlock {
  import opened Bits
  import opened Coefficients
  import opened HuffTable
  import opened HuffBits
  import opened HuffDerive
  import opened HuffReader

  /** A symbol of the DC or the AC table, followed by the low n bits of val. */
  datatype Item = Item(dc: bool, sym: nat, val: nat, n: nat)

  const ZRL := Item(false, 0xF0, 0, 0)
  const EOB := Item(false, 0, 0, 0)

  // ----- Encoder side -----

  /** The low n bits of v, or of its complement if v is negative. */
  function Extra(v: int, n: nat): nat { (if v < 0 then v - 1 else v) % Pow2(n) }

  function DcItem(diff: int): Item {
    var n := NBits(Abs(diff));
    Item(true, n, Extra(diff, n), n)
  }

  /** A nonzero coefficient after r zeros. */
  function NonzeroItems(r: nat, v: int): seq<Item> {
    if r > 15 then [ZRL] + NonzeroItems(r - 16, v)
    else
      var n := NBits(Abs(v));
      [Item(false, 16 * r + n, Extra(v, n), n)]
  }

  /** The AC coefficients from k on, after r zeros. */
  function AcItems(z: Block, k: nat, r: nat): seq<Item>
    requires k <= 64
    decreases 64 - k
  {
    if k == 64 then (if r > 0 then [EOB] else [])
    else if z[k] == 0 then AcItems(z, k + 1, r + 1)
    else NonzeroItems(r, z[k]) + AcItems(z, k + 1, 0)
  }

  function BlockItems(z: Block, last: int): seq<Item> {
    [DcItem(z[0] - last)] + AcItems(z, 1, 0)
  }

  /** Is there a code for the symbol? */
  predicate Coded(dc: EncoderTable, ac: EncoderTable, i: Item) {
    var e := if i.dc then dc else ac;
    i.sym < |e.ehufsi| == |e.ehufco| && e.ehufsi[i.sym] != 0
  }

  function ItemBits(dc: EncoderTable, ac: EncoderTable, i: Item): seq<bool>
    requires Coded(dc, ac, i)
  {
    var e := if i.dc then dc else ac;
    BitsOf(e.ehufco[i.sym], e.ehufsi[i.sym]) + BitsOf(i.val, i.n)
  }

  predicate AllCoded(dc: EncoderTable, ac: EncoderTable, items: seq<Item>) {
    forall i :: 0 <= i < |items| ==> Coded(dc, ac, items[i])
  }

  function ItemsBits(dc: EncoderTable, ac: EncoderTable, items: seq<Item>): seq<bool>
    requires AllCoded(dc, ac, items)
  {
    if |items| == 0 then [] else ItemBits(dc, ac, items[0]) + ItemsBits(dc, ac, items[1..])
  }

  lemma {:induction false} ItemsBitsConcat(dc: EncoderTable, ac: EncoderTable, a: seq<Item>, b: seq<Item>)
    requires AllCoded(dc, ac, a) && AllCoded(dc, ac, b)
    ensures AllCoded(dc, ac, a + b)
    ensures ItemsBits(dc, ac, a + b) == ItemsBits(dc, ac, a) + ItemsBits(dc, ac, b)
    decreases |a|
  {
    hide Coded, ItemBits;
    if |a| == 0 {
      assert a + b == b;
    } else {
      ItemsBitsConcat(dc, ac, a[1..], b);
      assert (a + b)[1..] == a[1..] + b;
      BitsAssoc(ItemBits(dc, ac, a[0]), ItemsBits(dc, ac, a[1..]), ItemsBits(dc, ac, b));
    }
  }

  lemma BitsAssoc(a: seq<bool>, b: seq<bool>, c: seq<bool>)
    ensures (a + b) + c == a + (b + c)
  {
  }

  // ----- The items of a block in closed form -----

  /** The low bits of a value: itself, or if it is negative one less in two's complement. */
  lemma ExtraIs(v: int)
    ensures Extra(v, NBits(Abs(v))) == if v < 0 then v + Pow2(NBits(Abs(v))) - 1 else v
  {
    var n := NBits(Abs(v));
    if v != 0 {
      NBitsBounds(Abs(v));
      hide Pow2, NBits;
      if v < 0 { ModuloIs(v - 1, Pow2(n), v - 1 + Pow2(n)); } else { ModuloIs(v, Pow2(n), v); }
    }
  }

  /** A nonzero coefficient after r zeros takes a symbol 0xF0 for every sixteen of them, and one that has the
      zeros left in its upper half and the number of bits of the coefficient in its lower half. */
  lemma {:induction false} NonzeroIs(r: nat, v: int)
    ensures var s, n := NonzeroItems(r, v), NBits(Abs(v));
      && |s| == r / 16 + 1 && (forall i :: 0 <= i < r / 16 ==> s[i] == Item(false, 0xF0, 0, 0))
      && !s[r / 16].dc && s[r / 16].sym == 16 * (r % 16) + n
      && s[r / 16].val == (if v < 0 then v + Pow2(n) - 1 else v) && s[r / 16].n == n
  {
    hide Pow2, NBits, Extra;
    if r > 15 {
      NonzeroIs(r - 16, v);
      assert r / 16 == (r - 16) / 16 + 1 && r % 16 == (r - 16) % 16;
    } else {
      ExtraIs(v);
    }
  }

  /** From coefficient k on the next nonzero one is at m; if there is none, m is 64 and a zero symbol ends the
      block. */
  lemma {:induction false} AcIs(z: Block, k: nat, r: nat, m: nat)
    requires k <= m <= 64 && (forall j :: k <= j < m ==> z[j] == 0) && (m < 64 ==> z[m] != 0)
    ensures AcItems(z, k, r) ==
      if m < 64 then NonzeroItems(r + m - k, z[m]) + AcItems(z, m + 1, 0)
      else if r + m - k > 0 then [Item(false, 0, 0, 0)] else []
    decreases m - k
  {
    hide NonzeroItems;
    if k < m { AcIs(z, k + 1, r + 1, m); }
  }

  // ----- Decoder side -----

  /** HUFF_EXTEND: the value whose low s bits are x. */
  function Extend(x: nat, s: nat): int
    requires s > 0
  {
    if x < Pow2(s - 1) then x - Pow2(s) + 1 else x
  }

  predicate Usable(t: Table) { t.Shape() && UpTo(t.bits, 16) <= 256 }

  /** A value and the number of bits it took. */
  datatype Read<T> = Read(value: T, used: nat)

  function ReadDiff(t: Table, s: seq<bool>): (r: Read<int>)
    requires Usable(t)
  {
    var d := DecodeSymbol(t, s);
    if d.sym == 0 then Read(0, d.len)
    else Read(Extend(Peek(Drop(s, d.len), d.sym), d.sym), d.len + d.sym)
  }

  /** Coefficients from k on; a run may not leave the block. */
  function ReadAc(t: Table, s: seq<bool>, z: Block, k: nat): (r: Read<Block>)
    requires Usable(t)
    decreases if k < 64 then 64 - k else 0
  {
    if k >= 64 then Read(z, 0)
    else
      var d := DecodeSymbol(t, s);
      var run, n := d.sym / 16, d.sym % 16;
      if n > 0 then
        var i := if k + run < 64 then k + run else 63;
        var r := ReadAc(t, Drop(s, d.len + n), z[i := Extend(Peek(Drop(s, d.len), n), n)], k + run + 1);
        Read(r.value, d.len + n + r.used)
      else if run != 15 then Read(z, d.len)
      else
        var r := ReadAc(t, Drop(s, d.len), z, k + 16);
        Read(r.value, d.len + r.used)
  }

  function ZeroBlock(): Block { seq(64, i => 0) }

  /** One block; DC symbols are at most 15 in a DC table, so the difference is a short sum. */
  function ReadBlock(dc: Table, ac: Table, s: seq<bool>, last: int): (r: Read<Block>)
    requires Usable(dc) && Usable(ac)
  {
    var d := ReadDiff(dc, s);
    var a := ReadAc(ac, Drop(s, d.used), ZeroBlock()[0 := ToShort(last + d.value)], 1);
    Read(a.value, d.used + a.used)
  }

  // ----- Reading back what was written -----

  lemma ExtraExtend(v: int, n: nat)
    requires v != 0 && n == NBits(Abs(v))
    ensures n > 0 && Extra(v, n) < Pow2(n) && Extend(Extra(v, n), n) == v
  {
    NBitsBounds(Abs(v));
    var p: int := Pow2(n - 1);
    hide Pow2;
    assert Pow2(n) == 2 * p by { TwicePow(n); }
    if v < 0 { ModuloIs(v - 1, 2 * p, v - 1 + 2 * p); } else { ModuloIs(v, 2 * p, v); }
  }

  lemma ModuloIs(x: int, p: int, r: int)
    requires p > 0 && 0 <= r < p && (r == x || r == x + p)
    ensures x % p == r
  {
    if r == x + p { assert (x + p) % p == x % p; }
  }

  /** A table pair that fits: the encoder's derived from a valid table. */
  ghost predicate Pair(e: EncoderTable, t: Table) { Usable(t) && Fits(t.bits) && Encodes(e, t) }

  /** A coded symbol is decoded to itself. */
  lemma SymbolMeaning(e: EncoderTable, t: Table, v: nat, rest: seq<bool>)
    requires Pair(e, t) && v < 256 && e.ehufsi[v] != 0
    ensures DecodeSymbol(t, BitsOf(e.ehufco[v], e.ehufsi[v]) + rest) == Decoded(e.ehufsi[v], v)
  {
    hide UpTo, End, BitsOf, DecodeSymbol;
    var p :| 0 <= p < UpTo(t.bits, 16) && t.vals[..UpTo(t.bits, 16)][p] == v;
    var c := IndexOnto(t.bits, p, 16);
    assert SymbolAt(t, c) == v;
    DecodeCode(t, c, rest);
  }

  lemma DropFront(a: seq<bool>, rest: seq<bool>)
    ensures Drop(a + rest, |a|) == rest
  {
  }

  lemma ValueMeaning(v: nat, n: nat, rest: seq<bool>)
    requires v < Pow2(n)
    ensures Peek(BitsOf(v, n) + rest, n) == v
  {
    hide Pow2, BitsOf, Peek;
    PeekBits(v, n, rest);
    SmallModulo(v, Pow2(n));
  }

  /** An item at the front of the stream: its symbol, its value, and the rest. */
  lemma ItemMeaning(dc: EncoderTable, ac: EncoderTable, i: Item, t: Table, rest: seq<bool>)
    requires Coded(dc, ac, i) && Pair(if i.dc then dc else ac, t) && i.val < Pow2(i.n)
    ensures var s := ItemBits(dc, ac, i) + rest; var d := DecodeSymbol(t, s);
      && d.sym == i.sym && d.len + i.n == |ItemBits(dc, ac, i)|
      && Peek(Drop(s, d.len), i.n) == i.val && Drop(s, d.len + i.n) == rest
      && (i.n == 0 ==> Drop(s, d.len) == rest)
  {
    hide BitsOf, Pow2, DecodeSymbol, Encodes, Peek, UpTo, Drop;
    var e := if i.dc then dc else ac;
    var a, b := BitsOf(e.ehufco[i.sym], e.ehufsi[i.sym]), BitsOf(i.val, i.n);
    var s := ItemBits(dc, ac, i) + rest;
    assert s == a + (b + rest) && s == (a + b) + rest;
    EncodesSize(e, t);
    SymbolMeaning(e, t, i.sym, b + rest);
    DropFront(a, b + rest);
    DropFront(a + b, rest);
    ValueMeaning(i.val, i.n, rest);
  }

  lemma EncodesSize(e: EncoderTable, t: Table)
    requires Encodes(e, t)
    ensures |e.ehufsi| == 256
  {
  }

  lemma DiffMeaning(dc: EncoderTable, ac: EncoderTable, t: Table, diff: int, rest: seq<bool>)
    requires Pair(dc, t) && Coded(dc, ac, DcItem(diff))
    ensures ReadDiff(t, ItemBits(dc, ac, DcItem(diff)) + rest) == Read(diff, |ItemBits(dc, ac, DcItem(diff))|)
  {
    hide Pow2, DecodeSymbol, Encodes, Peek, UpTo, Drop, ItemBits, Extend, Extra, Coded;
    if diff != 0 { ExtraExtend(diff, NBits(Abs(diff))); }
    NoExtra();
    NoMagnitude();
    ItemMeaning(dc, ac, DcItem(diff), t, rest);
    if diff != 0 { assert DcItem(diff).sym > 0; }
  }

  lemma NoExtra()
    ensures Extra(0, 0) == 0 < Pow2(0)
  {
  }

  lemma NoMagnitude()
    ensures NBits(0) == 0
  {
  }

  /** Coefficients whose category fits the four bits that a symbol has for it. */
  predicate InRange(z: Block) { forall k :: 1 <= k < 64 ==> Abs(z[k]) <= 0x7FFF }

  lemma CategoryFits(v: int)
    requires v != 0 && Abs(v) <= 0x7FFF
    ensures 0 < NBits(Abs(v)) <= 15
  {
    Pow2Words();
    NBitsBounds(Abs(v));
    NBitsAtMost(Abs(v), 15);
  }

  /** The codes for one nonzero coefficient lead the decoder across the zeros before it. */
  lemma {:induction false} NonzeroMeaning(dc: EncoderTable, ac: EncoderTable, t: Table, v: int, k: nat, r: nat,
      z0: Block, rest: seq<bool>)
    requires Pair(ac, t) && v != 0 && Abs(v) <= 0x7FFF && 1 + r <= k < 64
    requires AllCoded(dc, ac, NonzeroItems(r, v))
    ensures var b := ItemsBits(dc, ac, NonzeroItems(r, v)); var q := ReadAc(t, rest, z0[k := v], k + 1);
      ReadAc(t, b + rest, z0, k - r) == Read(q.value, |b| + q.used)
    decreases r
  {
    hide Pow2, DecodeSymbol, Encodes, Peek, UpTo, Drop, ItemBits, Extend, Extra, Coded, Fits, NBits;
    var items := NonzeroItems(r, v);
    var more := ItemsBits(dc, ac, items[1..]);
    BitsAssoc(ItemBits(dc, ac, items[0]), more, rest);
    CategoryFits(v);
    if r > 15 {
      assert items[1..] == NonzeroItems(r - 16, v);
      NoExtra();
      ItemMeaning(dc, ac, ZRL, t, more + rest);
      NonzeroMeaning(dc, ac, t, v, k, r - 16, z0, rest);
    } else {
      assert items[1..] == [];
      assert more + rest == rest;
      ExtraExtend(v, NBits(Abs(v)));
      ItemMeaning(dc, ac, items[0], t, rest);
    }
  }

  /** The end-of-block code stops the decoder. */
  lemma EndMeaning(dc: EncoderTable, ac: EncoderTable, t: Table, z0: Block, k: nat, rest: seq<bool>)
    requires Pair(ac, t) && k < 64 && AllCoded(dc, ac, [EOB])
    ensures var b := ItemsBits(dc, ac, [EOB]); ReadAc(t, b + rest, z0, k) == Read(z0, |b|)
  {
    hide Pow2, DecodeSymbol, Encodes, Peek, UpTo, Drop, ItemBits, Coded, Fits;
    assert [EOB][0] == EOB && [EOB][1..] == [];
    NoExtra();
    ItemMeaning(dc, ac, EOB, t, rest);
    assert ItemBits(dc, ac, EOB) + [] == ItemBits(dc, ac, EOB);
  }

  /** Reading back the AC coefficients from k on. */
  lemma {:induction false} AcMeaning(dc: EncoderTable, ac: EncoderTable, t: Table, z: Block, k: nat, r: nat, z0: Block,
      rest: seq<bool>)
    requires Pair(ac, t) && InRange(z) && 1 + r <= k <= 64 && AllCoded(dc, ac, AcItems(z, k, r))
    requires forall j :: 0 <= j < k ==> z0[j] == z[j]
    requires forall j :: k - r <= j < 64 ==> z0[j] == 0
    ensures var b := ItemsBits(dc, ac, AcItems(z, k, r)); ReadAc(t, b + rest, z0, k - r) == Read(z, |b|)
    decreases 64 - k
  {
    hide Pow2, DecodeSymbol, Encodes, Peek, UpTo, Drop, ItemBits, Extend, Extra, Coded, Fits, NonzeroItems;
    var items := AcItems(z, k, r);
    if k == 64 {
      assert z0 == z;
      if r > 0 { EndMeaning(dc, ac, t, z0, 64 - r, rest); }
    } else if z[k] == 0 {
      AcMeaning(dc, ac, t, z, k + 1, r + 1, z0, rest);
    } else {
      var a, b := NonzeroItems(r, z[k]), AcItems(z, k + 1, 0);
      assert AllCoded(dc, ac, a) && AllCoded(dc, ac, b) by { SplitCoded(dc, ac, a, b); }
      ItemsBitsConcat(dc, ac, a, b);
      var more := ItemsBits(dc, ac, b) + rest;
      BitsAssoc(ItemsBits(dc, ac, a), ItemsBits(dc, ac, b), rest);
      NonzeroMeaning(dc, ac, t, z[k], k, r, z0, more);
      AcMeaning(dc, ac, t, z, k + 1, 0, z0[k := z[k]], rest);
    }
  }

  lemma SplitCoded(dc: EncoderTable, ac: EncoderTable, a: seq<Item>, b: seq<Item>)
    requires AllCoded(dc, ac, a + b)
    ensures AllCoded(dc, ac, a) && AllCoded(dc, ac, b)
  {
    forall i | 0 <= i < |a| ensures Coded(dc, ac, a[i]) { assert (a + b)[i] == a[i]; }
    forall i | 0 <= i < |b| ensures Coded(dc, ac, b[i]) { assert (a + b)[|a| + i] == b[i]; }
  }

  /** A block in range is read back as it was, and exactly its bits are taken. */
  lemma BlockMeaning(dc: EncoderTable, ac: EncoderTable, td: Table, ta: Table, z: Block, last: int, rest: seq<bool>)
    requires Pair(dc, td) && Pair(ac, ta) && InRange(z) && IsShort(z[0])
    requires AllCoded(dc, ac, BlockItems(z, last))
    ensures var b := ItemsBits(dc, ac, BlockItems(z, last));
      ReadBlock(td, ta, b + rest, last) == Read(z, |b|) && ReadDiff(td, b + rest).value == z[0] - last
  {
    hide Pow2, DecodeSymbol, Encodes, Peek, UpTo, Drop, ItemBits, Coded, Fits, ReadAc, ReadDiff, AcItems;
    var i, a := DcItem(z[0] - last), AcItems(z, 1, 0);
    SplitCoded(dc, ac, [i], a);
    assert [i][0] == i && ([i] + a)[1..] == a;
    var b, more := ItemBits(dc, ac, i), ItemsBits(dc, ac, a);
    BitsAssoc(b, more, rest);
    DiffMeaning(dc, ac, td, z[0] - last, more + rest);
    DropFront(b, more + rest);
    AcMeaning(dc, ac, ta, z, 1, 0, ZeroBlock()[0 := z[0]], rest);
  }

  // ----- Coefficients out of range -----

  lemma ExtendRange(x: nat, n: nat)
    requires 0 < n <= 15 && x < Pow2(n)
    ensures Abs(Extend(x, n)) <= 0x7FFF
  {
    Pow2Words();
    Pow2Monotone(n, 15);
    hide Pow2;
  }

  /** Whatever is read, no AC coefficient is out of range. */
  lemma {:induction false} ReadAcInRange(t: Table, s: seq<bool>, z: Block, k: nat)
    requires Usable(t) && InRange(z) && k >= 1
    ensures InRange(ReadAc(t, s, z, k).value)
    decreases if k < 64 then 64 - k else 0
  {
    hide Pow2, DecodeSymbol, Peek, UpTo, Drop, Extend, Abs;
    if k < 64 {
      var d := DecodeSymbol(t, s);
      var run, n := d.sym / 16, d.sym % 16;
      if n > 0 {
        var i := if k + run < 64 then k + run else 63;
        var v := Extend(Peek(Drop(s, d.len), n), n);
        PeekBound(Drop(s, d.len), n);
        ExtendRange(Peek(Drop(s, d.len), n), n);
        ReadAcInRange(t, Drop(s, d.len + n), z[i := v], k + run + 1);
      } else if run == 15 {
        ReadAcInRange(t, Drop(s, d.len), z, k + 16);
      }
    }
  }

  lemma ReadInRange(dc: Table, ac: Table, s: seq<bool>, last: int)
    requires Usable(dc) && Usable(ac)
    ensures InRange(ReadBlock(dc, ac, s, last).value)
  {
    hide ReadAc, ReadDiff, Usable, Drop, ToShort;
    var d := ReadDiff(dc, s);
    ReadAcInRange(ac, Drop(s, d.used), ZeroBlock()[0 := ToShort(last + d.value)], 1);
  }

  /** A block is read back exactly if it is in range. */
  lemma BlockExact(dc: EncoderTable, ac: EncoderTable, td: Table, ta: Table, z: Block, last: int, rest: seq<bool>)
    requires Pair(dc, td) && Pair(ac, ta) && IsShort(z[0]) && AllCoded(dc, ac, BlockItems(z, last))
    ensures ReadBlock(td, ta, ItemsBits(dc, ac, BlockItems(z, last)) + rest, last).value == z <==> InRange(z)
  {
    hide ReadBlock, BlockItems, ItemsBits, AllCoded, Encodes, Fits;
    ReadInRange(td, ta, ItemsBits(dc, ac, BlockItems(z, last)) + rest, last);
    if InRange(z) { BlockMeaning(dc, ac, td, ta, z, last, rest); }
  }

  /** What becomes of -32768 after r zeros: its category 16 is carried into the run, and the symbol says
      that no coefficient follows. */
  lemma {:induction false} MinimumItems(r: nat)
    ensures var items := NonzeroItems(r, -0x8000);
      |items| > 0 && items[|items| - 1].sym == 16 * (r % 16 + 1) && items[|items| - 1].sym % 16 == 0
    decreases r
  {
    hide Extra, NBits;
    MinimumCategory();
    if r > 15 { MinimumItems(r - 16); }
  }

  lemma MinimumCategory()
    ensures NBits(0x8000) == 16
  {
    Pow2Words();
    NBitsBounds(0x8000);
    NBitsAtMost(0x8000, 16);
    hide Pow2;
    if NBits(0x8000) < 16 { Pow2Monotone(NBits(0x8000), 15); }
  }
}
