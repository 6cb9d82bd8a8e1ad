/** Sequential Huffman coding of a restart interval, down to the bytes. */
module HuffScan {
  import opened Bits
  import opened Stuffing
  import opened Coefficients
  import opened QmRoundTrip
  import D = QmDecoder
  import opened HuffTable
  import opened HuffBits
  import opened HuffDerive
  import opened HuffReader
  import opened HuffWriter
  import opened HuffBlock
  import opened HuffCoder
  import opened Prediction

  /** A block of component c, in natural order. */
  datatype ScanBlock = ScanBlock(c: nat, b: Block)

  /** The tables of each component: as transmitted, and as the encoder derived them. */
  datatype Tables = Tables(td: seq<Table>, ta: seq<Table>, dc: seq<EncoderTable>, ac: seq<EncoderTable>)

  ghost predicate TablesOk(t: Tables, n: nat) {
    && |t.td| == |t.ta| == |t.dc| == |t.ac| == n
    && forall c :: 0 <= c < n ==> Pair(t.dc[c], t.td[c]) && Pair(t.ac[c], t.ta[c]) && DecoderOk(t.td[c], true)
  }

  predicate LastsOk(lasts: seq<int>, n: nat) { |lasts| == n && forall c :: 0 <= c < n ==> IsShort(lasts[c]) }

  /** A block that can be coded after a block of its component with DC coefficient last. */
  ghost predicate Codable(x: ScanBlock, t: Tables, n: nat, last: int)
    requires TablesOk(t, n) && x.c < n
  {
    Shorts(Zig(x.b)) && AllCoded(t.dc[x.c], t.ac[x.c], BlockItems(Zig(x.b), last))
  }

  ghost predicate AllCodable(blocks: seq<ScanBlock>, t: Tables, n: nat, lasts: seq<int>)
    requires TablesOk(t, n) && LastsOk(lasts, n)
    decreases |blocks|
  {
    |blocks| == 0 ||
      var x := blocks[0];
      x.c < n && Codable(x, t, n, lasts[x.c]) && AllCodable(blocks[1..], t, n, lasts[x.c := Zig(x.b)[0]])
  }

  /** The bits of all blocks. */
  ghost function ScanBits(blocks: seq<ScanBlock>, t: Tables, n: nat, lasts: seq<int>): seq<bool>
    requires TablesOk(t, n) && LastsOk(lasts, n) && AllCodable(blocks, t, n, lasts)
    decreases |blocks|
  {
    if |blocks| == 0 then []
    else
      var x := blocks[0];
      ItemsBits(t.dc[x.c], t.ac[x.c], BlockItems(Zig(x.b), lasts[x.c]))
        + ScanBits(blocks[1..], t, n, lasts[x.c := Zig(x.b)[0]])
  }

  /** How many bits are pending after all blocks. */
  ghost function ScanPending(k: nat, blocks: seq<ScanBlock>, t: Tables, n: nat, lasts: seq<int>): nat
    requires TablesOk(t, n) && LastsOk(lasts, n) && AllCodable(blocks, t, n, lasts)
    decreases |blocks|
  {
    if |blocks| == 0 then k
    else
      var x := blocks[0];
      ScanPending(PendingAfter(k, t.dc[x.c], t.ac[x.c], BlockItems(Zig(x.b), lasts[x.c])), blocks[1..], t, n,
        lasts[x.c := Zig(x.b)[0]])
  }

  /** No AC coefficient is -32768. */
  ghost predicate ScanInRange(blocks: seq<ScanBlock>) { forall i :: 0 <= i < |blocks| ==> InRange(Zig(blocks[i].b)) }

  predicate AllUsable(td: seq<Table>, ta: seq<Table>) {
    |td| == |ta| && forall c :: 0 <= c < |td| ==> Usable(td[c]) && Usable(ta[c])
  }

  predicate Below(cs: seq<nat>, n: nat) { forall i :: 0 <= i < |cs| ==> cs[i] < n }

  /** Decoding blocks of the components cs. */
  function ReadScan(td: seq<Table>, ta: seq<Table>, s: seq<bool>, cs: seq<nat>, lasts: seq<int>): (r: Read<seq<Block>>)
    requires |td| == |ta| == |lasts| && AllUsable(td, ta) && Below(cs, |td|)
    ensures |r.value| == |cs|
    decreases |cs|
  {
    if |cs| == 0 then Read([], 0)
    else
      var c := cs[0];
      var r := ReadBlock(td[c], ta[c], s, lasts[c]);
      var q := ReadScan(td, ta, Drop(s, r.used), cs[1..], lasts[c := ToInt(lasts[c] + ReadDiff(td[c], s).value)]);
      Read([r.value] + q.value, r.used + q.used)
  }

  function Components(blocks: seq<ScanBlock>): (cs: seq<nat>)
    ensures |cs| == |blocks| && forall i :: 0 <= i < |cs| ==> cs[i] == blocks[i].c
  {
    seq(|blocks|, i requires 0 <= i < |blocks| => blocks[i].c)
  }

  function Zigs(blocks: seq<ScanBlock>): (zs: seq<Block>)
    ensures |zs| == |blocks| && forall i :: 0 <= i < |zs| ==> zs[i] == Zig(blocks[i].b)
  {
    seq(|blocks|, i requires 0 <= i < |blocks| => Zig(blocks[i].b))
  }

  lemma {:induction false} ComponentsInRange(blocks: seq<ScanBlock>, t: Tables, n: nat, lasts: seq<int>)
    requires TablesOk(t, n) && LastsOk(lasts, n) && AllCodable(blocks, t, n, lasts)
    ensures forall i :: 0 <= i < |blocks| ==> blocks[i].c < n
    decreases |blocks|
  {
    if |blocks| > 0 {
      ComponentsInRange(blocks[1..], t, n, lasts[blocks[0].c := Zig(blocks[0].b)[0]]);
      forall i | 0 <= i < |blocks| ensures blocks[i].c < n {
        if i > 0 { assert blocks[1..][i - 1] == blocks[i]; }
      }
    }
  }

  lemma TablesUsable(t: Tables, n: nat)
    requires TablesOk(t, n)
    ensures AllUsable(t.td, t.ta)
  {
  }

  lemma TablesCount(t: Tables, n: nat)
    requires TablesOk(t, n)
    ensures |t.td| == |t.ta| == n
  {
  }

  lemma ShortIsInt(x: int)
    requires IsShort(x)
    ensures ToInt(x) == x
  {
  }

  /** Whatever is read, it is in range. */
  lemma {:induction false} ReadScanInRange(td: seq<Table>, ta: seq<Table>, s: seq<bool>, cs: seq<nat>, lasts: seq<int>)
    requires |td| == |ta| == |lasts| && AllUsable(td, ta) && Below(cs, |td|)
    ensures forall i :: 0 <= i < |cs| ==> InRange(ReadScan(td, ta, s, cs, lasts).value[i])
    decreases |cs|
  {
    hide Usable, ReadBlock, ReadDiff, Drop, InRange;
    if |cs| > 0 {
      var c := cs[0];
      var r := ReadBlock(td[c], ta[c], s, lasts[c]);
      ReadInRange(td[c], ta[c], s, lasts[c]);
      ReadScanInRange(td, ta, Drop(s, r.used), cs[1..], lasts[c := ToInt(lasts[c] + ReadDiff(td[c], s).value)]);
    }
  }

  /** All blocks are read back, whatever follows them. */
  lemma {:induction false} ScanMeaning(blocks: seq<ScanBlock>, t: Tables, n: nat, lasts: seq<int>, rest: seq<bool>)
    requires TablesOk(t, n) && LastsOk(lasts, n) && AllCodable(blocks, t, n, lasts) && ScanInRange(blocks)
    ensures Below(Components(blocks), |t.td|)
    ensures AllUsable(t.td, t.ta)
    ensures var s := ScanBits(blocks, t, n, lasts);
      ReadScan(t.td, t.ta, s + rest, Components(blocks), lasts) == Read(Zigs(blocks), |s|)
    decreases |blocks|
  {
    hide Pair, Usable, UpTo, ReadBlock, ReadDiff, AllCoded, BlockItems, ItemsBits, Drop, DecoderOk, Zig, InRange;
    ComponentsInRange(blocks, t, n, lasts);
    TablesUsable(t, n);
    if |blocks| > 0 {
      var x := blocks[0];
      var z, last := Zig(x.b), lasts[x.c];
      var lasts1 := lasts[x.c := z[0]];
      var b, more := ItemsBits(t.dc[x.c], t.ac[x.c], BlockItems(z, last)), ScanBits(blocks[1..], t, n, lasts1);
      BitsAssoc(b, more, rest);
      BlockMeaning(t.dc[x.c], t.ac[x.c], t.td[x.c], t.ta[x.c], z, last, more + rest);
      DropFront(b, more + rest);
      ShortIsInt(z[0]);
      ScanMeaning(blocks[1..], t, n, lasts1, rest);
      assert Components(blocks)[1..] == Components(blocks[1..]);
      assert Zigs(blocks) == [z] + Zigs(blocks[1..]);
    }
  }

  // ----- Bytes -----

  lemma {:induction false} DataOfSegment(s: seq<byte>, tail: seq<byte>)
    requires WellStuffed(s) && IsMarker(tail)
    ensures DataOf(D.Source(s + tail, 0)) == Unstuff(s)
    decreases |s|
  {
    hide Unstuff, WellStuffed, IsMarker;
    if |s| == 0 {
      EmptyUnstuff(s);
      assert s + tail == tail;
      MarkerHead(tail);
      SkipToMarker(tail);
    } else {
      FirstData(s);
      NextOfStuffed(s, tail);
      DataOfSegment(s[Width(s)..], tail);
    }
  }

  /** No DC predictions yet. */
  function Zero(n: nat): (lasts: seq<int>)
    ensures LastsOk(lasts, n)
  {
    seq(n, c => 0)
  }

  // ----- The bits of an interval, without the state that the coders keep -----

  ghost function SentDcs(blocks: seq<ScanBlock>): (dcs: seq<int>)
    ensures |dcs| == |blocks|
  {
    seq(|blocks|, i requires 0 <= i < |blocks| => Zig(blocks[i].b)[0])
  }

  /** The items of block i, its DC coefficient predicted by the block before it of the same component. */
  ghost function ItemsOf(blocks: seq<ScanBlock>, i: nat): seq<Item>
    requires i < |blocks|
  {
    BlockItems(Zig(blocks[i].b), Predicted(Components(blocks), SentDcs(blocks), i, blocks[i].c))
  }

  /** There is a code for every symbol of the blocks from the i-th on. */
  ghost predicate Suited(blocks: seq<ScanBlock>, t: Tables, n: nat, i: nat)
    requires TablesOk(t, n) && i <= |blocks|
    decreases |blocks| - i
  {
    i == |blocks| || (blocks[i].c < n && Shorts(Zig(blocks[i].b))
      && AllCoded(t.dc[blocks[i].c], t.ac[blocks[i].c], ItemsOf(blocks, i)) && Suited(blocks, t, n, i + 1))
  }

  ghost function BitsFrom(blocks: seq<ScanBlock>, t: Tables, n: nat, i: nat): seq<bool>
    requires TablesOk(t, n) && i <= |blocks| && Suited(blocks, t, n, i)
    decreases |blocks| - i
  {
    if i == |blocks| then []
    else ItemsBits(t.dc[blocks[i].c], t.ac[blocks[i].c], ItemsOf(blocks, i)) + BitsFrom(blocks, t, n, i + 1)
  }

  /** The state of the coder after i blocks. */
  ghost predicate InState(blocks: seq<ScanBlock>, i: nat, lasts: seq<int>)
    requires i <= |blocks|
  {
    forall c :: 0 <= c < |lasts| ==> lasts[c] == Predicted(Components(blocks), SentDcs(blocks), i, c)
  }

  lemma NextState(blocks: seq<ScanBlock>, i: nat, lasts: seq<int>)
    requires i < |blocks| && InState(blocks, i, lasts) && blocks[i].c < |lasts|
    ensures InState(blocks, i + 1, lasts[blocks[i].c := Zig(blocks[i].b)[0]])
  {
    hide Zig;
  }

  lemma {:induction false} BitsAsSpecified(blocks: seq<ScanBlock>, t: Tables, n: nat, i: nat, lasts: seq<int>)
    requires TablesOk(t, n) && LastsOk(lasts, n) && i <= |blocks| && InState(blocks, i, lasts)
    ensures AllCodable(blocks[i..], t, n, lasts) <==> Suited(blocks, t, n, i)
    ensures Suited(blocks, t, n, i) ==> ScanBits(blocks[i..], t, n, lasts) == BitsFrom(blocks, t, n, i)
    decreases |blocks| - i
  {
    hide Zig, BlockItems, AllCoded, ItemsBits, Predicted;
    if i < |blocks| {
      var c := blocks[i].c;
      assert blocks[i..][0] == blocks[i] && blocks[i..][1..] == blocks[i + 1..];
      if c < n && Codable(blocks[i], t, n, lasts[c]) {
        NextState(blocks, i, lasts);
        BitsAsSpecified(blocks, t, n, i + 1, lasts[c := Zig(blocks[i].b)[0]]);
      }
    }
  }

  /** Main result: every restart interval starts afresh, predicting 0, and within it the prediction of a block
      is the last DC coefficient of its component. */
  lemma IntervalBits(blocks: seq<ScanBlock>, t: Tables, n: nat)
    requires TablesOk(t, n)
    ensures AllCodable(blocks, t, n, Zero(n)) <==> Suited(blocks, t, n, 0)
    ensures Suited(blocks, t, n, 0) ==> ScanBits(blocks, t, n, Zero(n)) == BitsFrom(blocks, t, n, 0)
  {
    hide Suited, BitsFrom, ScanBits, AllCodable, TablesOk;
    assert blocks[0..] == blocks;
    BitsAsSpecified(blocks, t, n, 0, Zero(n));
  }

  /** Main result: a segment whose data bits are those of the blocks and some fill bits, followed
      by any marker, is decoded to exactly those blocks, without running out of data, if and only if no
      AC coefficient is -32768. */
  lemma SegmentRoundTrip(blocks: seq<ScanBlock>, t: Tables, n: nat, out: seq<byte>, fill: nat, tail: seq<byte>)
    requires TablesOk(t, n) && AllCodable(blocks, t, n, Zero(n)) && WellStuffed(out) && IsMarker(tail)
    requires AllBits(Unstuff(out)) == ScanBits(blocks, t, n, Zero(n)) + Fill(fill)
    ensures Below(Components(blocks), |t.td|)
    ensures AllUsable(t.td, t.ta)
    ensures var s := AllBits(DataOf(D.Source(out + tail, 0)));
      var r := ReadScan(t.td, t.ta, s, Components(blocks), Zero(n));
      && (r.value == Zigs(blocks) <==> ScanInRange(blocks))
      && (ScanInRange(blocks) ==> r.used <= |s|)
  {
    hide AllCodable, ReadScan, AllBits, Unstuff, WellStuffed, IsMarker, TablesOk, InRange, Zig;
    DataOfSegment(out, tail);
    ComponentsInRange(blocks, t, n, Zero(n));
    TablesUsable(t, n);
    TablesCount(t, n);
    ReadScanInRange(t.td, t.ta, AllBits(DataOf(D.Source(out + tail, 0))), Components(blocks), Zero(n));
    if ScanInRange(blocks) { ScanMeaning(blocks, t, n, Zero(n), Fill(fill)); }
  }

  // ----- The encoder's and the decoder's loops over the blocks of a restart interval -----

  /** The end of the last block leaves the fill bits enough room in the word. */
  ghost predicate RoomToFill(x: ScanBlock, t: Tables, n: nat)
    requires TablesOk(t, n) && x.c < n
  {
    (if Zig(x.b)[63] == 0 then t.ac[x.c].ehufsi[0] else NBits(Abs(Zig(x.b)[63]))) <= 10
  }

  /** Writes the blocks of a restart interval and completes the last byte: the output is exactly their
      bits and fill bits, unless the word has no room for the fill bits and loses some ones. */
  method EncodeSegment(w: BitWriter, blocks: seq<ScanBlock>, t: Tables, n: nat)
    requires w.Valid() && w.putBits == 0 && w.out == []
    requires TablesOk(t, n) && AllCodable(blocks, t, n, Zero(n))
    modifies w
    ensures w.Valid() && w.putBits == 0
    ensures var goal, k := ScanBits(blocks, t, n, Zero(n)), ScanPending(0, blocks, t, n, Zero(n));
      && |AllBits(Unstuff(w.out))| == |goal| + FillBits(k)
      && (AllBits(Unstuff(w.out)) == goal + Fill(FillBits(k)) <==> RoomFor(goal, k))
      && (|blocks| > 0 && blocks[|blocks| - 1].c < n && RoomToFill(blocks[|blocks| - 1], t, n) ==> RoomFor(goal, k))
  {
    hide Pair, Usable, UpTo, AllCoded, BlockItems, ItemsBits, PendingAfter, DecoderOk, Zig, WellStuffed, Unstuff,
      AllBits, BitsOf, Pow2,
      AllCodable, RoomToFill, RoomFor;
    ghost var goal, end := ScanBits(blocks, t, n, Zero(n)), ScanPending(0, blocks, t, n, Zero(n));
    ComponentsInRange(blocks, t, n, Zero(n));
    var lasts := Zero(n);
    var i := 0;
    NothingWritten(w.putBuffer);
    assert blocks[0..] == blocks;
    while i < |blocks|
      invariant i <= |blocks| && w.Valid() && LastsOk(lasts, n) && AllCodable(blocks[i..], t, n, lasts)
      invariant w.Written() + ScanBits(blocks[i..], t, n, lasts) == goal
      invariant ScanPending(w.putBits, blocks[i..], t, n, lasts) == end
      invariant 0 < i == |blocks| && RoomToFill(blocks[i - 1], t, n) ==> w.putBits <= 57
    {
      var x := blocks[i];
      NextBlock(blocks, i, t, n, lasts, w.putBits);
      ghost var before := w.Written();
      EncodeOneBlock(w, x.b, lasts[x.c], t.dc[x.c], t.ac[x.c], t.td[x.c], t.ta[x.c]);
      FirstCoefficient(x.b);
      LastRoom(x, t, n, w.putBits);
      BitsAssoc(before, ItemsBits(t.dc[x.c], t.ac[x.c], BlockItems(Zig(x.b), lasts[x.c])),
        ScanBits(blocks[i + 1..], t, n, lasts[x.c := x.b[0]]));
      lasts := lasts[x.c := x.b[0]];
      i := i + 1;
    }
    NoMoreBlocks(blocks[i..], t, n, lasts, w.putBits);
    assert w.Written() + [] == w.Written();
    FewPending(goal, w.putBits);
    w.FlushBits();
    NothingPending(w);
  }

  lemma FewPending(s: seq<bool>, k: nat)
    ensures k <= 57 ==> RoomFor(s, k)
  {
  }

  lemma NothingPending(w: BitWriter)
    requires w.Valid() && w.putBits == 0
    ensures w.Written() == AllBits(Unstuff(w.out))
  {
    hide AllBits, Unstuff, WellStuffed, Pow2;
    NoBits(w.putBuffer);
  }

  lemma NothingWritten(buffer: nat)
    ensures WellStuffed([]) && AllBits(Unstuff([])) + BitsOf(buffer, 0) == []
  {
  }

  lemma LastRoom(x: ScanBlock, t: Tables, n: nat, k: nat)
    requires TablesOk(t, n) && x.c < n
    requires k <= 47 + if Zig(x.b)[63] == 0 then t.ac[x.c].ehufsi[0] else NBits(Abs(Zig(x.b)[63]))
    ensures RoomToFill(x, t, n) ==> k <= 57
  {
  }

  lemma NoMoreBlocks(blocks: seq<ScanBlock>, t: Tables, n: nat, lasts: seq<int>, k: nat)
    requires TablesOk(t, n) && LastsOk(lasts, n) && |blocks| == 0 && AllCodable(blocks, t, n, lasts)
    ensures ScanBits(blocks, t, n, lasts) == [] && ScanPending(k, blocks, t, n, lasts) == k
  {
  }

  lemma NextBlock(blocks: seq<ScanBlock>, i: nat, t: Tables, n: nat, lasts: seq<int>, k: nat)
    requires i < |blocks| && TablesOk(t, n) && LastsOk(lasts, n) && AllCodable(blocks[i..], t, n, lasts)
    ensures var x := blocks[i];
      && x.c < n && Codable(x, t, n, lasts[x.c])
      && LastsOk(lasts[x.c := Zig(x.b)[0]], n)
      && AllCodable(blocks[i + 1..], t, n, lasts[x.c := Zig(x.b)[0]])
      && ScanBits(blocks[i..], t, n, lasts)
         == ItemsBits(t.dc[x.c], t.ac[x.c], BlockItems(Zig(x.b), lasts[x.c])) +
           ScanBits(blocks[i + 1..], t, n, lasts[x.c := Zig(x.b)[0]])
      && ScanPending(k, blocks[i..], t, n, lasts)
         == ScanPending(PendingAfter(k, t.dc[x.c], t.ac[x.c], BlockItems(Zig(x.b), lasts[x.c])), blocks[i + 1..], t, n,
           lasts[x.c := Zig(x.b)[0]])
  {
    hide Pair, AllCoded, PendingAfter, BlockItems, ItemsBits, DecoderOk, Zig;
    assert blocks[i..][0] == blocks[i] && blocks[i..][1..] == blocks[i + 1..];
  }

  /** The decoders' tables of each component. */
  datatype DecoderTables = DecoderTables(dc: seq<DecoderTable>, ac: seq<DecoderTable>)

  ghost predicate DecodersOk(d: DecoderTables, td: seq<Table>, ta: seq<Table>) {
    && |d.dc| == |d.ac| == |td| == |ta|
    && forall c :: 0 <= c < |td| ==> Decodes(d.dc[c], td[c]) && DecoderOk(td[c], true) && Decodes(d.ac[c], ta[c])
  }

  lemma DecodersUsable(d: DecoderTables, td: seq<Table>, ta: seq<Table>)
    requires DecodersOk(d, td, ta)
    ensures AllUsable(td, ta)
  {
    forall c | 0 <= c < |td| ensures Usable(td[c]) && Usable(ta[c]) {
      TableUsable(d.dc[c], td[c]);
      TableUsable(d.ac[c], ta[c]);
    }
  }

  /** Decodes one block for each of the components cs, in this order. */
  method DecodeSegment(rd: BitReader, cs: seq<nat>, ghost td: seq<Table>, ghost ta: seq<Table>, d: DecoderTables)
    returns (zs: seq<Block>)
    requires rd.Valid() && DecodersOk(d, td, ta) && Below(cs, |td|)
    modifies rd
    ensures rd.Valid() && rd.Ahead() == old(rd.Ahead())
    ensures AllUsable(td, ta)
    ensures var r := ReadScan(td, ta, old(rd.Stream()), cs, Zero(|td|));
      && |zs| == |cs| && (forall i :: 0 <= i < |cs| ==> Zig(zs[i]) == r.value[i])
      && Taken(old(rd.Stream()), r.used, rd.Stream(), old(rd.insufficientData), rd.insufficientData)
  {
    hide Usable, UpTo, ReadBlock, ReadDiff, DecoderOk, Decodes, Drop, Taken, Zig, Pow2, BitReader.Stream,
      BitReader.Ahead, ToInt, ReadScan, AllUsable, Below;
    DecodersUsable(d, td, ta);
    ghost var s, w, goal := rd.Stream(), rd.insufficientData, ReadScan(td, ta, rd.Stream(), cs, Zero(|td|));
    ghost var u: nat := 0;
    NothingTaken(s, w);
    var lasts := Zero(|d.dc|);
    zs := [];
    assert cs[0..] == cs && goal.value[0..] == goal.value;
    while |zs| < |cs|
      invariant |zs| <= |cs| && rd.Valid() && rd.Ahead() == old(rd.Ahead()) && |lasts| == |td|
      invariant Below(cs[|zs|..], |td|)
      invariant Taken(s, u, rd.Stream(), w, rd.insufficientData)
      invariant var r := ReadScan(td, ta, Drop(s, u), cs[|zs|..], lasts);
        goal.used == u + r.used && goal.value[|zs|..] == r.value
      invariant forall j :: 0 <= j < |zs| ==> Zig(zs[j]) == goal.value[j]
    {
      var c := cs[|zs|];
      ghost var at, r, w0 := Drop(s, u), rd.Stream(), rd.insufficientData;
      ReadScanStep(td, ta, at, cs, |zs|, lasts);
      ReadBlockSame(td[c], ta[c], s, u, r, w, w0, lasts[c]);
      var block := new int[64](_ => 0);
      var last := DecodeBlock(rd, td[c], ta[c], d.dc[c], d.ac[c], block, lasts[c]);
      ghost var used := ReadBlock(td[c], ta[c], at, lasts[c]).used;
      TakenStep(s, u, r, used, rd.Stream(), w, w0, rd.insufficientData);
      u := u + used;
      lasts := lasts[c := last];
      zs := zs + [block[..]];
    }
    ReadScanEnd(td, ta, Drop(s, u), cs[|zs|..], lasts);
  }

  lemma ReadScanEnd(td: seq<Table>, ta: seq<Table>, s: seq<bool>, cs: seq<nat>, lasts: seq<int>)
    requires |td| == |ta| == |lasts| && AllUsable(td, ta)
    requires |cs| == 0
    ensures Below(cs, |td|) && ReadScan(td, ta, s, cs, lasts) == Read([], 0)
  {
  }

  lemma ReadScanStep(td: seq<Table>, ta: seq<Table>, s: seq<bool>, cs: seq<nat>, i: nat, lasts: seq<int>)
    requires |td| == |ta| == |lasts| && AllUsable(td, ta)
    requires i < |cs| && Below(cs, |td|)
    ensures cs[i] < |td| && Below(cs[i..], |td|) && Below(cs[i + 1..], |td|)
    ensures var c := cs[i];
      var r := ReadBlock(td[c], ta[c], s, lasts[c]);
      var q := ReadScan(td, ta, Drop(s, r.used), cs[i + 1..], lasts[c := ToInt(lasts[c] + ReadDiff(td[c], s).value)]);
      ReadScan(td, ta, s, cs[i..], lasts) == Read([r.value] + q.value, r.used + q.used)
  {
    hide Usable, ReadBlock, ReadDiff, Drop, ToInt;
    assert cs[i..][0] == cs[i] && cs[i..][1..] == cs[i + 1..];
  }

  lemma ReadBlockSame(td: Table, ta: Table, s: seq<bool>, m: nat, r: seq<bool>, w0: bool, w1: bool, last: int)
    requires Usable(td) && Usable(ta) && Taken(s, m, r, w0, w1)
    ensures ReadBlock(td, ta, r, last) == ReadBlock(td, ta, Drop(s, m), last)
    ensures ReadDiff(td, r) == ReadDiff(td, Drop(s, m))
  {
    hide UpTo, DecodeSymbol, Drop, Same, ReadAc, Extend, Peek;
    var v := Drop(s, m);
    DecodeSame(td, r, v);
    var d := DecodeSymbol(td, r);
    SameDrop(r, v, d.len);
    PeekSame(Drop(r, d.len), Drop(v, d.len), d.sym);
    var q := ReadDiff(td, r);
    SameDrop(r, v, q.used);
    ReadAcAlike(ta, Drop(r, q.used), Drop(v, q.used), ZeroBlock()[0 := ToShort(last + q.value)], 1);
  }
}
