/** Progressive AC scans down to the bytes: what the symbols and raw bits of a restart interval become, and
    a decoder that reads them bit by bit. */
module ProgBits {
  import opened Bits
  import opened HuffTable
  import opened HuffBits
  import opened HuffDerive
  import R = HuffReader
  import B = HuffBlock
  import opened ProgItems
  import opened ProgWriter

  // ----- Reading bits -----

  datatype BitPart = BitPart(s: seq<bool>, z: Band)

  /** Passes over r zeros, up to the next one, with a bit for every nonzero coefficient on the way. */
  function ReadRunBits(s: seq<bool>, h: Band, z: Band, r: nat): (p: BitPart)
    requires |z| <= |h|
    ensures |z| <= |p.z| <= |h|
    decreases |h| - |z|
  {
    if |z| == |h| then BitPart(s, z)
    else if h[|z|] != 0 then ReadRunBits(Drop(s, 1), h, z + [Corrected(h[|z|], Peek(s, 1))], r)
    else if r == 0 then BitPart(s, z)
    else ReadRunBits(s, h, z + [0], r - 1)
  }

  /** The rest of a block that has ended. */
  function ReadRestBits(s: seq<bool>, h: Band, z: Band): BitPart
    requires |z| <= |h|
    decreases |h| - |z|
  {
    if |z| == |h| then BitPart(s, z)
    else if h[|z|] == 0 then ReadRestBits(s, h, z + [0])
    else ReadRestBits(Drop(s, 1), h, z + [Corrected(h[|z|], Peek(s, 1))])
  }

  datatype BitEnding = BitEnding(s: seq<bool>, run: nat, z: Band)

  /** A block, and how many more end with it. A run that leaves the band ends the block. */
  function ReadBlockBits(t: Table, s: seq<bool>, h: Band, z: Band): BitEnding
    requires B.Usable(t) && |z| <= |h|
    decreases |h| - |z|
  {
    if |z| == |h| then BitEnding(s, 0, z)
    else
      var d := R.DecodeSymbol(t, s);
      var r, n := d.sym / 16, d.sym % 16;
      var s1 := Drop(s, d.len);
      if n == 0 && r < 15 then
        var p := ReadRestBits(Drop(s1, r), h, z);
        BitEnding(p.s, Pow2(r) + Peek(s1, r) - 1, p.z)
      else
        var p := ReadRunBits(Drop(s1, n), h, z, r);
        if |p.z| == |h| then BitEnding(p.s, 0, p.z)
        else ReadBlockBits(t, p.s, h, p.z + [if n > 0 then B.Extend(Peek(s1, n), n) else 0])
  }

  datatype BitBlocks = BitBlocks(s: seq<bool>, run: nat, zs: seq<Band>)

  /** The blocks of a restart interval, run of which have ended already. */
  function DecodeBits(t: Table, s: seq<bool>, run: nat, hs: seq<Band>): BitBlocks
    requires B.Usable(t)
    decreases |hs|
  {
    if |hs| == 0 then BitBlocks(s, run, [])
    else
      var b := if run > 0 then var p := ReadRestBits(s, hs[0], []);
        BitEnding(p.s, run - 1, p.z) else ReadBlockBits(t, s, hs[0], []);
      var rest := DecodeBits(t, b.s, b.run, hs[1..]);
      BitBlocks(rest.s, rest.run, [b.z] + rest.zs)
  }

  // ----- Items as bits -----

  /** Raw bits hold what they are given. */
  ghost predicate Sound(items: seq<Item>) {
    forall i :: 0 <= i < |items| && items[i].Raw? ==> 0 < items[i].n <= 16 && items[i].x < Pow2(items[i].n)
  }

  ghost predicate Ready(e: EncoderTable, items: seq<Item>) { AllCoded(e, items) && Sound(items) }

  lemma ReadyRest(e: EncoderTable, items: seq<Item>)
    requires Ready(e, items) && |items| > 0
    ensures Ready(e, items[1..]) && Coded1(e, items[0])
    ensures ItemsBits(e, items) == ItemBits(e, items[0]) + ItemsBits(e, items[1..])
  {
    assert items == [items[0]] + items[1..];
    hide Coded1, ItemBits;
    FirstBits(e, items[0], items[1..]);
  }

  lemma DropFront(a: seq<bool>, b: seq<bool>)
    ensures Drop(a + b, |a|) == b
  {
  }

  lemma RawHead(e: EncoderTable, items: seq<Item>, rest: seq<bool>)
    requires Ready(e, items) && |items| > 0 && items[0].Raw?
    ensures Ready(e, items[1..])
    ensures var s := ItemsBits(e, items) + rest;
      Peek(s, items[0].n) == items[0].x && Drop(s, items[0].n) == ItemsBits(e, items[1..]) + rest
  {
    hide BitsOf, Pow2, Peek, ItemsBits;
    ReadyRest(e, items);
    var n, x := items[0].n, items[0].x;
    var more := ItemsBits(e, items[1..]) + rest;
    B.BitsAssoc(BitsOf(x, n), ItemsBits(e, items[1..]), rest);
    PeekBits(x, n, more);
    QuotientUnique(x, Pow2(n), 0, x);
    DropFront(BitsOf(x, n), more);
  }

  lemma SymHead(e: EncoderTable, t: Table, items: seq<Item>, rest: seq<bool>)
    requires B.Pair(e, t) && Ready(e, items) && |items| > 0 && items[0].Sym?
    ensures Ready(e, items[1..]) && items[0].s < 256
    ensures var s := ItemsBits(e, items) + rest; var d := R.DecodeSymbol(t, s);
      d.sym == items[0].s && Drop(s, d.len) == ItemsBits(e, items[1..]) + rest
  {
    hide BitsOf, Pow2, Peek, ItemsBits, R.DecodeSymbol, UpTo, Fits;
    ReadyRest(e, items);
    B.EncodesSize(e, t);
    var v := items[0].s;
    var more := ItemsBits(e, items[1..]) + rest;
    B.BitsAssoc(BitsOf(e.ehufco[v], e.ehufsi[v]), ItemsBits(e, items[1..]), rest);
    B.SymbolMeaning(e, t, v, more);
    DropFront(BitsOf(e.ehufco[v], e.ehufsi[v]), more);
  }

  // ----- Reading bits does what reading items does -----

  lemma {:induction false} RunAsBits(e: EncoderTable, items: seq<Item>, h: Band, z: Band, r: nat, rest: seq<bool>)
    requires Ready(e, items) && |z| <= |h| && ReadRun(items, h, z, r).Part?
    ensures var p := ReadRun(items, h, z, r);
      Ready(e, p.items) &&
        ReadRunBits(ItemsBits(e, items) + rest, h, z, r) == BitPart(ItemsBits(e, p.items) + rest, p.z)
    decreases |h| - |z|
  {
    hide Ready, ItemsBits, Drop, Peek, Corrected;
    if |z| < |h| {
      if h[|z|] != 0 {
        RawHead(e, items, rest);
        RunAsBits(e, items[1..], h, z + [Corrected(h[|z|], items[0].x)], r, rest);
      } else if r > 0 {
        RunAsBits(e, items, h, z + [0], r - 1, rest);
      }
    }
  }

  lemma {:induction false} RestAsBits(e: EncoderTable, items: seq<Item>, h: Band, z: Band, rest: seq<bool>)
    requires Ready(e, items) && |z| <= |h| && ReadRest(items, h, z).Part?
    ensures var p := ReadRest(items, h, z);
      Ready(e, p.items) && ReadRestBits(ItemsBits(e, items) + rest, h, z) == BitPart(ItemsBits(e, p.items) + rest, p.z)
    decreases |h| - |z|
  {
    hide Ready, ItemsBits, Drop, Peek, Corrected;
    if |z| < |h| {
      if h[|z|] == 0 {
        RestAsBits(e, items, h, z + [0], rest);
      } else {
        RawHead(e, items, rest);
        RestAsBits(e, items[1..], h, z + [Corrected(h[|z|], items[0].x)], rest);
      }
    }
  }

  lemma PeekNothing(s: seq<bool>)
    ensures Peek(s, 0) == 0 && Drop(s, 0) == s && Pow2(0) == 1
  {
  }

  /** The end of a run of blocks. */
  lemma EobAsBits(e: EncoderTable, t: Table, items: seq<Item>, h: Band, z: Band, rest: seq<bool>)
    requires B.Pair(e, t) && Ready(e, items) && |z| < |h| && ReadBlock(items, h, z).Ending?
    requires |items| > 0 && items[0].Sym? && items[0].s % 16 == 0 && items[0].s / 16 < 15
    ensures var b := ReadBlock(items, h, z);
      Ready(e, b.items) &&
        ReadBlockBits(t, ItemsBits(e, items) + rest, h, z) == BitEnding(ItemsBits(e, b.items) + rest, b.run, b.z)
  {
    hide Sound, ItemsBits, Drop, Peek, R.DecodeSymbol, ReadRest, ReadRestBits, Pow2, B.Pair;
    SymHead(e, t, items, rest);
    var r := items[0].s / 16;
    if r == 0 {
      PeekNothing(ItemsBits(e, items[1..]) + rest);
      RestAsBits(e, items[1..], h, z, rest);
    } else {
      RawHead(e, items[1..], rest);
      assert items[1..][1..] == items[2..] && items[1..][0] == items[1];
      RestAsBits(e, items[2..], h, z, rest);
    }
  }

  lemma {:induction false} BlockAsBits(e: EncoderTable, t: Table, items: seq<Item>, h: Band, z: Band, rest: seq<bool>)
    requires B.Pair(e, t) && Ready(e, items) && |z| <= |h| && ReadBlock(items, h, z).Ending?
    ensures var b := ReadBlock(items, h, z);
      Ready(e, b.items) &&
        ReadBlockBits(t, ItemsBits(e, items) + rest, h, z) == BitEnding(ItemsBits(e, b.items) + rest, b.run, b.z)
    decreases |h| - |z|
  {
    hide Sound, ItemsBits, Drop, Peek, R.DecodeSymbol, ReadRun, ReadRunBits, Pow2, B.Extend, B.Pair;
    if |z| < |h| {
      var r, n := items[0].s / 16, items[0].s % 16;
      if n == 0 && r < 15 {
        EobAsBits(e, t, items, h, z, rest);
      } else {
        SymHead(e, t, items, rest);
        var more := items[if n > 0 then 2 else 1..];
        if n > 0 {
          RawHead(e, items[1..], rest);
          assert items[1..][1..] == items[2..] && items[1..][0] == items[1];
        } else {
          PeekNothing(ItemsBits(e, items[1..]) + rest);
        }
        RunAsBits(e, more, h, z, r, rest);
        var p := ReadRun(more, h, z, r);
        BlockAsBits(e, t, p.items, h, p.z + [if n > 0 then B.Extend(items[1].x, n) else 0], rest);
      }
    }
  }

  lemma {:induction false} DecodeAsBits(e: EncoderTable, t: Table, items: seq<Item>, run: nat, hs: seq<Band>,
      rest: seq<bool>)
    requires B.Pair(e, t) && Ready(e, items) && Decode(items, run, hs).Blocks?
    ensures var b := Decode(items, run, hs);
      Ready(e, b.items) &&
        DecodeBits(t, ItemsBits(e, items) + rest, run, hs) == BitBlocks(ItemsBits(e, b.items) + rest, b.run, b.zs)
    decreases |hs|
  {
    hide Ready, ItemsBits, ReadRest, ReadRestBits, ReadBlock, ReadBlockBits, B.Pair;
    if |hs| > 0 {
      if run > 0 { RestAsBits(e, items, hs[0], [], rest); } else { BlockAsBits(e, t, items, hs[0], [], rest); }
      var b := if run > 0 then Ended(ReadRest(items, hs[0], []), run - 1) else ReadBlock(items, hs[0], []);
      DecodeAsBits(e, t, b.items, b.run, hs[1..], rest);
    }
  }
}
