/** Two-pass sequential Huffman coding: the first pass counts the symbols that the second will emit,
    so that the tables built in between have a code for every one of them. */
module HuffOptimized {
  import opened Bits
  import opened Coefficients
  import opened HuffTable
  import opened HuffDerive
  import opened HuffBlock
  import opened HuffCoder
  import opened HuffScan
  import opened HuffMerge
  import opened HuffOptimal

  /** The items of all blocks whose component uses table k. */
  function TableItems(blocks: seq<ScanBlock>, lasts: seq<int>, tbl: seq<nat>, k: nat): seq<Item>
    requires |lasts| == |tbl| && forall i :: 0 <= i < |blocks| ==> blocks[i].c < |tbl|
    decreases |blocks|
  {
    if |blocks| == 0 then []
    else
      var x := blocks[0];
      var z := Zig(x.b);
      (if tbl[x.c] == k then BlockItems(z, lasts[x.c]) else []) + TableItems(blocks[1..], lasts[x.c := z[0]], tbl, k)
  }

  /** Every block is in the range that the counting pass accepts. */
  predicate CountableAll(blocks: seq<ScanBlock>, lasts: seq<int>)
    requires forall i :: 0 <= i < |blocks| ==> blocks[i].c < |lasts|
    decreases |blocks|
  {
    |blocks| == 0 ||
      (Countable(Zig(blocks[0].b), lasts[blocks[0].c]) &&
        CountableAll(blocks[1..], lasts[blocks[0].c := Zig(blocks[0].b)[0]]))
  }

  /** A symbol that counting can meet: a small category, and no run with a DC symbol. */
  predicate Plausible(i: Item) { i.sym < 256 && i.sym % 16 <= 11 && (i.dc ==> i.sym <= 11) }

  predicate AllPlausible(items: seq<Item>) { forall i :: 0 <= i < |items| ==> Plausible(items[i]) }

  lemma PlausibleConcat(a: seq<Item>, b: seq<Item>)
    requires AllPlausible(a) && AllPlausible(b)
    ensures AllPlausible(a + b)
  {
  }

  lemma PlausibleSmall(items: seq<Item>)
    requires AllPlausible(items)
    ensures SmallSymbols(items)
  {
  }

  lemma ZrlPlausible()
    ensures Plausible(ZRL)
  {
  }

  lemma ShortRun(r: nat, n: nat, val: nat)
    requires r <= 15 && n <= 10
    ensures Plausible(Item(false, 16 * r + n, val, n))
  {
  }

  lemma {:induction false} NonzeroPlausible(r: nat, v: int)
    requires NBits(Abs(v)) <= 10
    ensures AllPlausible(NonzeroItems(r, v))
    decreases r
  {
    hide Extra, NBits, Plausible;
    NonzeroStep(r, v);
    if r > 15 {
      NonzeroPlausible(r - 16, v);
      assert Plausible(ZRL) by { ZrlPlausible(); }
    } else {
      ShortRun(r, NBits(Abs(v)), Extra(v, NBits(Abs(v))));
    }
  }

  lemma {:induction false} AcPlausible(z: Block, k: nat, r: nat)
    requires 1 <= k <= 64 && forall j :: k <= j < 64 ==> NBits(Abs(z[j])) <= 10
    ensures AllPlausible(AcItems(z, k, r))
    decreases 64 - k
  {
    if k < 64 {
      if z[k] == 0 {
        AcPlausible(z, k + 1, r + 1);
      } else {
        NonzeroPlausible(r, z[k]);
        AcPlausible(z, k + 1, 0);
        PlausibleConcat(NonzeroItems(r, z[k]), AcItems(z, k + 1, 0));
      }
    }
  }

  lemma BlockPlausible(z: Block, last: int)
    requires Countable(z, last)
    ensures AllPlausible(BlockItems(z, last))
  {
    AcPlausible(z, 1, 0);
    PlausibleConcat([DcItem(z[0] - last)], AcItems(z, 1, 0));
  }

  lemma {:induction false} TablePlausible(blocks: seq<ScanBlock>, lasts: seq<int>, tbl: seq<nat>, k: nat)
    requires |lasts| == |tbl| && forall i :: 0 <= i < |blocks| ==> blocks[i].c < |tbl|
    requires CountableAll(blocks, lasts)
    ensures AllPlausible(TableItems(blocks, lasts, tbl, k))
    decreases |blocks|
  {
    hide Plausible, BlockItems, Countable, Zig;
    if |blocks| > 0 {
      var x := blocks[0];
      BlockPlausible(Zig(x.b), lasts[x.c]);
      TablePlausible(blocks[1..], lasts[x.c := Zig(x.b)[0]], tbl, k);
      var first := if tbl[x.c] == k then BlockItems(Zig(x.b), lasts[x.c]) else [];
      PlausibleConcat(first, TableItems(blocks[1..], lasts[x.c := Zig(x.b)[0]], tbl, k));
    }
  }

  // ----- Counts -----

  lemma {:induction false} TallyConcat(counts: seq<nat>, a: seq<Item>, b: seq<Item>, dc: bool)
    requires |counts| == 257 && SmallSymbols(a) && SmallSymbols(b)
    ensures SmallSymbols(a + b) && Tally(counts, a + b, dc) == Tally(Tally(counts, a, dc), b, dc)
    decreases |a|
  {
    if |a| == 0 {
      assert a + b == b;
    } else {
      var i := a[0];
      TallyConcat(if i.dc == dc then counts[i.sym := counts[i.sym] + 1] else counts, a[1..], b, dc);
      assert (a + b)[1..] == a[1..] + b;
    }
  }

  /** Counts only grow. */
  lemma {:induction false} TallyGrows(counts: seq<nat>, items: seq<Item>, dc: bool, s: nat)
    requires |counts| == 257 && SmallSymbols(items) && s < 257
    ensures Tally(counts, items, dc)[s] >= counts[s]
    decreases |items|
  {
    if |items| > 0 {
      var i := items[0];
      TallyGrows(if i.dc == dc then counts[i.sym := counts[i.sym] + 1] else counts, items[1..], dc, s);
    }
  }

  /** Every item is counted. */
  lemma {:induction false} TallyCounts(counts: seq<nat>, items: seq<Item>, dc: bool, j: nat)
    requires |counts| == 257 && SmallSymbols(items) && j < |items| && items[j].dc == dc
    ensures Tally(counts, items, dc)[items[j].sym] > 0
    decreases |items|
  {
    var i := items[0];
    var c := if i.dc == dc then counts[i.sym := counts[i.sym] + 1] else counts;
    if j == 0 { TallyGrows(c, items[1..], dc, i.sym); } else { TallyCounts(c, items[1..], dc, j - 1); }
  }

  /** Nothing else is counted. */
  lemma {:induction false} TallyOnly(counts: seq<nat>, items: seq<Item>, dc: bool, s: nat)
    requires |counts| == 257 && SmallSymbols(items) && s < 257
    requires forall j :: 0 <= j < |items| && items[j].dc == dc ==> items[j].sym != s
    ensures Tally(counts, items, dc)[s] == counts[s]
    decreases |items|
  {
    if |items| > 0 {
      var i := items[0];
      assert i.dc == dc ==> i.sym != s;
      forall j | 0 <= j < |items[1..]| && items[1..][j].dc == dc ensures items[1..][j].sym != s {
        assert items[1..][j] == items[j + 1];
      }
      TallyOnly(if i.dc == dc then counts[i.sym := counts[i.sym] + 1] else counts, items[1..], dc, s);
    }
  }

  // ----- The counting pass over the blocks of a restart interval -----

  /** One array of counts for each table. */
  ghost predicate Separate(dc: seq<array<nat>>, ac: seq<array<nat>>) {
    && (forall k :: 0 <= k < |dc| ==> dc[k].Length == 257)
    && (forall k :: 0 <= k < |ac| ==> ac[k].Length == 257)
    && (forall i, j :: 0 <= i < j < |dc| ==> dc[i] != dc[j])
    && (forall i, j :: 0 <= i < j < |ac| ==> ac[i] != ac[j])
    && (forall i, j :: 0 <= i < |dc| && 0 <= j < |ac| ==> dc[i] != ac[j])
  }

  /** The counts of one table after the items done, when the items rest are still to come. */
  ghost predicate Counted(was: seq<nat>, now: seq<nat>, done: seq<Item>, rest: seq<Item>, all: seq<Item>, dc: bool) {
    |was| == 257 && SmallSymbols(done) && now == Tally(was, done, dc) && done + rest == all
  }

  lemma CountedMore(was: seq<nat>, now: seq<nat>, done: seq<Item>, items: seq<Item>, rest: seq<Item>, all: seq<Item>,
      dc: bool)
    requires Counted(was, now, done, items + rest, all, dc) && SmallSymbols(items)
    ensures |now| == 257 && Counted(was, Tally(now, items, dc), done + items, rest, all, dc)
  {
    hide Tally, SmallSymbols;
    TallyConcat(was, done, items, dc);
    ItemsAssoc(done, items, rest);
  }

  lemma TableStep(blocks: seq<ScanBlock>, i: nat, lasts: seq<int>, tbl: seq<nat>, k: nat)
    requires |lasts| == |tbl| && i < |blocks| && forall j :: 0 <= j < |blocks| ==> blocks[j].c < |tbl|
    ensures var x := blocks[i]; var more := TableItems(blocks[i + 1..], lasts[x.c := Zig(x.b)[0]], tbl, k);
      TableItems(blocks[i..], lasts, tbl, k) == if tbl[x.c] == k then BlockItems(Zig(x.b), lasts[x.c]) + more else more
  {
    hide BlockItems, Zig;
    assert blocks[i..][0] == blocks[i] && blocks[i..][1..] == blocks[i + 1..];
  }

  lemma CountableStep(blocks: seq<ScanBlock>, i: nat, lasts: seq<int>)
    requires i < |blocks| && forall j :: 0 <= j < |blocks| ==> blocks[j].c < |lasts|
    ensures var x := blocks[i];
      CountableAll(blocks[i..], lasts) <==>
        Countable(Zig(x.b), lasts[x.c]) && CountableAll(blocks[i + 1..], lasts[x.c := Zig(x.b)[0]])
  {
    hide Countable, Zig;
    assert blocks[i..][0] == blocks[i] && blocks[i..][1..] == blocks[i + 1..];
  }

  /** The state of the counts between two blocks. */
  ghost predicate AllCounted(was: seq<seq<nat>>, counts: seq<seq<nat>>, done: seq<seq<Item>>, blocks: seq<ScanBlock>,
      n: nat, i: nat,
      lasts: seq<int>, tbl: seq<nat>, dc: bool)
    requires |lasts| == |tbl| == n && i <= |blocks| && forall j :: 0 <= j < |blocks| ==> blocks[j].c < n
  {
    && |was| == |counts| == |done|
    && forall k :: 0 <= k < |was| ==>
         Counted(was[k], counts[k], done[k], TableItems(blocks[i..], lasts, tbl, k),
           TableItems(blocks, Zero(n), tbl, k), dc)
  }

  lemma AllCountedStep(was: seq<seq<nat>>, counts: seq<seq<nat>>, done: seq<seq<Item>>, blocks: seq<ScanBlock>, n: nat,
      i: nat,
      lasts: seq<int>, tbl: seq<nat>, dc: bool)
    requires |lasts| == |tbl| == n && i < |blocks| && forall j :: 0 <= j < |blocks| ==> blocks[j].c < n
    requires AllCounted(was, counts, done, blocks, n, i, lasts, tbl, dc)
    requires tbl[blocks[i].c] < |was| && SmallSymbols(BlockItems(Zig(blocks[i].b), lasts[blocks[i].c]))
    ensures var x := blocks[i]; var k := tbl[x.c]; var items := BlockItems(Zig(x.b), lasts[x.c]);
      && |counts| == |done| == |was| && |counts[k]| == 257
      && AllCounted(was, counts[k := Tally(counts[k], items, dc)], done[k := done[k] + items], blocks, n, i + 1,
           lasts[x.c := Zig(x.b)[0]], tbl, dc)
  {
    hide BlockItems, Zig, Tally, SmallSymbols, TableItems, Counted;
    var x := blocks[i];
    var k, items := tbl[x.c], BlockItems(Zig(x.b), lasts[x.c]);
    var lasts1 := lasts[x.c := Zig(x.b)[0]];
    forall j | 0 <= j < |was|
      ensures j == k ==> |counts[j]| == 257
      ensures var c := if j == k then Tally(counts[j], items, dc) else counts[j];
        var d := if j == k then done[j] + items else done[j];
        Counted(was[j], c, d, TableItems(blocks[i + 1..], lasts1, tbl, j), TableItems(blocks, Zero(n), tbl, j), dc)
    {
      TableStep(blocks, i, lasts, tbl, j);
      if j == k {
        CountedMore(was[j], counts[j], done[j], items, TableItems(blocks[i + 1..], lasts1, tbl, j),
          TableItems(blocks, Zero(n), tbl, j), dc);
      }
    }
  }

  lemma AllCountedStart(was: seq<seq<nat>>, done: seq<seq<Item>>, blocks: seq<ScanBlock>, n: nat, tbl: seq<nat>,
      dc: bool)
    requires |tbl| == n && forall j :: 0 <= j < |blocks| ==> blocks[j].c < n
    requires |was| == |done| && forall k :: 0 <= k < |was| ==> |was[k]| == 257 && done[k] == []
    ensures AllCounted(was, was, done, blocks, n, 0, Zero(n), tbl, dc)
  {
    hide BlockItems, Zig, TableItems;
    assert blocks[0..] == blocks;
  }

  /** When all blocks are done, the counts are those of all items. */
  lemma AllCountedEnd(was: seq<seq<nat>>, counts: seq<seq<nat>>, done: seq<seq<Item>>, blocks: seq<ScanBlock>, n: nat,
      lasts: seq<int>, tbl: seq<nat>, dc: bool)
    requires |lasts| == |tbl| == n && forall j :: 0 <= j < |blocks| ==> blocks[j].c < n
    requires AllCounted(was, counts, done, blocks, n, |blocks|, lasts, tbl, dc)
    ensures forall k :: 0 <= k < |was| ==> |was[k]| == 257 && SmallSymbols(TableItems(blocks, Zero(n), tbl, k))
    ensures forall k :: 0 <= k < |was| ==> counts[k] == Tally(was[k], TableItems(blocks, Zero(n), tbl, k), dc)
  {
    hide Tally, SmallSymbols;
    forall k | 0 <= k < |was| ensures done[k] == TableItems(blocks, Zero(n), tbl, k) {
      assert TableItems(blocks[|blocks|..], lasts, tbl, k) == [];
      assert Counted(was[k], counts[k], done[k], TableItems(blocks[|blocks|..], lasts, tbl, k),
        TableItems(blocks, Zero(n), tbl, k), dc);
    }
  }

  ghost function Contents(a: seq<array<nat>>): (s: seq<seq<nat>>)
    reads a
    ensures |s| == |a| && forall k :: 0 <= k < |a| ==> s[k] == a[k][..]
  {
    seq(|a|, k requires 0 <= k < |a| reads a => a[k][..])
  }

  method GatherSegment(blocks: seq<ScanBlock>, n: nat, dcTbl: seq<nat>, acTbl: seq<nat>, dc: seq<array<nat>>,
      ac: seq<array<nat>>)
    returns (ok: bool)
    requires |dcTbl| == |acTbl| == n && Separate(dc, ac)
    requires forall i :: 0 <= i < |blocks| ==> blocks[i].c < n
    requires forall c :: 0 <= c < n ==> dcTbl[c] < |dc| && acTbl[c] < |ac|
    modifies dc, ac
    ensures ok <==> CountableAll(blocks, Zero(n))
    ensures ok ==> forall k :: 0 <= k < |dc| ==>
      SmallSymbols(TableItems(blocks, Zero(n), dcTbl, k)) &&
        dc[k][..] == Tally(old(dc[k][..]), TableItems(blocks, Zero(n), dcTbl, k), true)
    ensures ok ==> forall k :: 0 <= k < |ac| ==>
      SmallSymbols(TableItems(blocks, Zero(n), acTbl, k)) &&
        ac[k][..] == Tally(old(ac[k][..]), TableItems(blocks, Zero(n), acTbl, k), false)
  {
    hide BlockItems, Zig, Countable, Tally, SmallSymbols, TableItems, AllCounted;
    var lasts := Zero(n);
    var i := 0;
    ghost var was0, was1 := Contents(dc), Contents(ac);
    ghost var done0: seq<seq<Item>>, done1: seq<seq<Item>> := seq(|dc|, k => []), seq(|ac|, k => []);
    assert blocks[0..] == blocks;
    AllCountedStart(was0, done0, blocks, n, dcTbl, true);
    AllCountedStart(was1, done1, blocks, n, acTbl, false);
    while i < |blocks|
      invariant i <= |blocks| && |lasts| == n
      invariant CountableAll(blocks, Zero(n)) <==> CountableAll(blocks[i..], lasts)
      invariant AllCounted(was0, Contents(dc), done0, blocks, n, i, lasts, dcTbl, true)
      invariant AllCounted(was1, Contents(ac), done1, blocks, n, i, lasts, acTbl, false)
    {
      var x := blocks[i];
      CountableStep(blocks, i, lasts);
      var k, l := dcTbl[x.c], acTbl[x.c];
      ghost var dcs, acs := Contents(dc), Contents(ac);
      ok := HtestOneBlock(dc[k], ac[l], x.b, lasts[x.c]);
      if !ok {
        return;
      }
      FirstCoefficient(x.b);
      ghost var items := BlockItems(Zig(x.b), lasts[x.c]);
      AllCountedStep(was0, dcs, done0, blocks, n, i, lasts, dcTbl, true);
      AllCountedStep(was1, acs, done1, blocks, n, i, lasts, acTbl, false);
      assert Contents(dc) == dcs[k := Tally(dcs[k], items, true)];
      assert Contents(ac) == acs[l := Tally(acs[l], items, false)];
      done0, done1 := done0[k := done0[k] + items], done1[l := done1[l] + items];
      lasts := lasts[x.c := x.b[0]];
      i := i + 1;
    }
    AllCountedEnd(was0, Contents(dc), done0, blocks, n, lasts, dcTbl, true);
    AllCountedEnd(was1, Contents(ac), done1, blocks, n, lasts, acTbl, false);
    ok := true;
  }

  // ----- The tables built from the counts -----

  /** Counts before the first block. */
  function NoCounts(): (c: seq<nat>)
    ensures |c| == 257 && forall s :: 0 <= s < 257 ==> c[s] == 0
  {
    seq(257, s => 0)
  }

  lemma {:induction false} TwoUnused(f: seq<nat>, a: nat, b: nat, n: nat)
    requires a < b < n <= |f| && f[a] == 0 && f[b] == 0
    ensures NonZero(f, n) <= n - 2
  {
    if b == n - 1 { OneUnused(f, a, n - 1); } else { TwoUnused(f, a, b, n - 1); }
  }

  lemma {:induction false} OneUnused(f: seq<nat>, a: nat, n: nat)
    requires a < n <= |f| && f[a] == 0
    ensures NonZero(f, n) <= n - 1
  {
    if a < n - 1 { OneUnused(f, a, n - 1); }
  }

  lemma {:induction false} SumCounted(counts: seq<nat>, s: nat, n: nat)
    requires s < n <= |counts|
    ensures Sum(counts[s := counts[s] + 1], n) == Sum(counts, n) + 1
  {
    SumUpdate(counts, s, counts[s] + 1, n);
  }

  function HowMany(items: seq<Item>, dc: bool): nat {
    if |items| == 0 then 0 else (if items[0].dc == dc then 1 else 0) + HowMany(items[1..], dc)
  }

  /** The counts add up to the number of items. */
  lemma {:induction false} TallySum(counts: seq<nat>, items: seq<Item>, dc: bool)
    requires |counts| == 257 && SmallSymbols(items)
    ensures Sum(Tally(counts, items, dc), 256) == Sum(counts, 256) + HowMany(items, dc)
    decreases |items|
  {
    if |items| > 0 {
      var i := items[0];
      if i.dc == dc { SumCounted(counts, i.sym, 256); }
      TallySum(if i.dc == dc then counts[i.sym := counts[i.sym] + 1] else counts, items[1..], dc);
    }
  }

  lemma {:induction false} SumNothing(n: nat)
    requires n <= 257
    ensures Sum(NoCounts(), n) == 0
  {
    if n > 0 { SumNothing(n - 1); }
  }

  /** Counts that a table can be built from without any count of lengths wrapping around. */
  ghost predicate Suitable(counts: seq<nat>, dc: bool) {
    && |counts| == 257 && (exists s :: 0 <= s < 256 && counts[s] > 0)
    && Sum(counts, 256) <= NO_FREQUENCY && NonZero(counts, 256) <= 254
    && (dc ==> forall s :: 16 <= s < 256 ==> counts[s] == 0)
  }

  /** The counts of any items of up to 10^9 are fit for building a table. */
  lemma CountsSuitable(items: seq<Item>, dc: bool, j: nat)
    requires AllPlausible(items) && j < |items| && items[j].dc == dc && HowMany(items, dc) <= NO_FREQUENCY
    ensures SmallSymbols(items) && Suitable(Tally(NoCounts(), items, dc), dc)
  {
    hide Tally, NonZero, Sum, HowMany;
    PlausibleSmall(items);
    TallyCounts(NoCounts(), items, dc, j);
    TallySum(NoCounts(), items, dc);
    SumNothing(256);
    var c := Tally(NoCounts(), items, dc);
    TallyOnly(NoCounts(), items, dc, 12);
    TallyOnly(NoCounts(), items, dc, 13);
    TwoUnused(c, 12, 13, 256);
    if dc {
      forall s | 16 <= s < 256 ensures c[s] == 0 { TallyOnly(NoCounts(), items, dc, s); }
    }
  }

  /** What building a table from counts promises: it is valid, and codes whatever was counted. */
  ghost predicate BuiltFrom(t: Table, counts: seq<nat>, dc: bool) {
    && |counts| == 257 && t.Shape() && EncoderOk(t, dc)
    && forall s :: 0 <= s < 256 && counts[s] > 0 ==> s in t.vals[..UpTo(t.bits, 16)]
  }

  /** A table for exactly the symbols counted; DC symbols beyond 15 are never counted. */
  lemma TableCodes(t: Table, counts: seq<nat>, dc: bool)
    requires |counts| == 257 && TableFor(t, counts) && (dc ==> forall s :: 16 <= s < 256 ==> counts[s] == 0)
    ensures BuiltFrom(t, counts, dc)
  {
    hide UpTo, NonZero, Fits, Distinct;
    forall p | 0 <= p < UpTo(t.bits, 16) ensures t.vals[p] <= if dc then 15 else 255 {
      var s := t.vals[p];
      assert t.vals[..UpTo(t.bits, 16)][p] == s;
      assert s in t.vals[..UpTo(t.bits, 16)] && s < 256;
      assert counts[s] > 0;
    }
  }

  lemma CodedIfCounted(e: EncoderTable, t: Table, counts: seq<nat>, dc: bool, s: nat)
    requires BuiltFrom(t, counts, dc) && Encodes(e, t) && s < 256 && counts[s] > 0
    ensures e.ehufsi[s] != 0
  {
    hide UpTo, Fits, Distinct;
    var p :| 0 <= p < UpTo(t.bits, 16) && t.vals[..UpTo(t.bits, 16)][p] == s;
    var c := IndexOnto(t.bits, p, 16);
    assert SymbolAt(t, c) == s;
  }

  ghost predicate CountsCover(counts: seq<nat>, items: seq<Item>, dc: bool) {
    |counts| == 257 && forall j :: 0 <= j < |items| && items[j].dc == dc ==>
      items[j].sym < 256 && counts[items[j].sym] > 0
  }

  lemma CoversSplit(counts: seq<nat>, a: seq<Item>, b: seq<Item>, dc: bool)
    requires CountsCover(counts, a + b, dc)
    ensures CountsCover(counts, a, dc) && CountsCover(counts, b, dc)
  {
    forall j | 0 <= j < |a| && a[j].dc == dc
      ensures a[j].sym < 256 && counts[a[j].sym] > 0
    {
      assert (a + b)[j] == a[j];
    }
    forall j | 0 <= j < |b| && b[j].dc == dc
      ensures b[j].sym < 256 && counts[b[j].sym] > 0
    {
      assert (a + b)[|a| + j] == b[j];
    }
  }

  lemma TallyCovers(counts: seq<nat>, items: seq<Item>, dc: bool)
    requires |counts| == 257 && SmallSymbols(items)
    ensures CountsCover(Tally(counts, items, dc), items, dc)
  {
    forall j | 0 <= j < |items| && items[j].dc == dc ensures Tally(counts, items, dc)[items[j].sym] > 0 {
      TallyCounts(counts, items, dc, j);
    }
  }

  /** The tables of all components are built from counts that cover the blocks. */
  ghost predicate Prepared(t: Tables, n: nat, dcTbl: seq<nat>, acTbl: seq<nat>, dc: seq<seq<nat>>, ac: seq<seq<nat>>) {
    && TablesOk(t, n) && |dcTbl| == |acTbl| == n
    && (forall c :: 0 <= c < n ==> dcTbl[c] < |dc| && acTbl[c] < |ac|)
    && (forall c :: 0 <= c < n ==> BuiltFrom(t.td[c], dc[dcTbl[c]], true) && BuiltFrom(t.ta[c], ac[acTbl[c]], false))
  }

  /** Every symbol of a counted block sequence has a code in the tables built from the counts. */
  lemma {:induction false} CountedCodable(blocks: seq<ScanBlock>, lasts: seq<int>, n: nat, t: Tables,
      dcTbl: seq<nat>, acTbl: seq<nat>, dc: seq<seq<nat>>, ac: seq<seq<nat>>)
    requires Prepared(t, n, dcTbl, acTbl, dc, ac) && LastsOk(lasts, n)
    requires forall i :: 0 <= i < |blocks| ==> blocks[i].c < n && Shorts(Zig(blocks[i].b))
    requires CountableAll(blocks, lasts)
    requires forall k :: 0 <= k < |dc| ==> CountsCover(dc[k], TableItems(blocks, lasts, dcTbl, k), true)
    requires forall k :: 0 <= k < |ac| ==> CountsCover(ac[k], TableItems(blocks, lasts, acTbl, k), false)
    ensures AllCodable(blocks, t, n, lasts) && ScanInRange(blocks)
    decreases |blocks|
  {
    hide BuiltFrom, CountsCover, BlockItems, Zig, Pair, Countable, AllCoded, Shorts, InRange;
    if |blocks| > 0 {
      var x := blocks[0];
      var z, last := Zig(x.b), lasts[x.c];
      var lasts1, rest := lasts[x.c := z[0]], blocks[1..];
      assert Shorts(Zig(blocks[0].b));
      FirstShort(z);
      var d, a := dcTbl[x.c], acTbl[x.c];
      CoversSplit(dc[d], BlockItems(z, last), TableItems(rest, lasts1, dcTbl, d), true);
      CoversSplit(ac[a], BlockItems(z, last), TableItems(rest, lasts1, acTbl, a), false);
      BlockCodable(z, last, t.dc[x.c], t.ac[x.c], t.td[x.c], t.ta[x.c], dc[d], ac[a]);
      forall k | 0 <= k < |dc| ensures CountsCover(dc[k], TableItems(rest, lasts1, dcTbl, k), true) {
        RestCovered(blocks, lasts, dcTbl, k, dc[k], true);
      }
      forall k | 0 <= k < |ac| ensures CountsCover(ac[k], TableItems(rest, lasts1, acTbl, k), false) {
        RestCovered(blocks, lasts, acTbl, k, ac[k], false);
      }
      assert forall i :: 0 <= i < |rest| ==> rest[i] == blocks[i + 1];
      CountedCodable(rest, lasts1, n, t, dcTbl, acTbl, dc, ac);
    }
  }

  lemma FirstShort(z: Block)
    requires Shorts(z)
    ensures IsShort(z[0])
  {
  }

  lemma RestCovered(blocks: seq<ScanBlock>, lasts: seq<int>, tbl: seq<nat>, k: nat, counts: seq<nat>, dc: bool)
    requires |blocks| > 0 && |lasts| == |tbl| && forall i :: 0 <= i < |blocks| ==> blocks[i].c < |tbl|
    requires CountsCover(counts, TableItems(blocks, lasts, tbl, k), dc)
    ensures CountsCover(counts, TableItems(blocks[1..], lasts[blocks[0].c := Zig(blocks[0].b)[0]], tbl, k), dc)
  {
    hide BlockItems, Zig;
    var x := blocks[0];
    var first := if tbl[x.c] == k then BlockItems(Zig(x.b), lasts[x.c]) else [];
    CoversSplit(counts, first, TableItems(blocks[1..], lasts[x.c := Zig(x.b)[0]], tbl, k), dc);
  }

  lemma BlockCodable(z: Block, last: int, dc: EncoderTable, ac: EncoderTable, td: Table, ta: Table, dcCounts: seq<nat>,
      acCounts: seq<nat>)
    requires Pair(dc, td) && Pair(ac, ta) && BuiltFrom(td, dcCounts, true) && BuiltFrom(ta, acCounts, false)
    requires Countable(z, last) && CountsCover(dcCounts, BlockItems(z, last), true)
    requires CountsCover(acCounts, BlockItems(z, last), false)
    ensures InRange(z) && AllCoded(dc, ac, BlockItems(z, last))
  {
    hide BuiltFrom, BlockItems, Usable, Fits, Encodes;
    var items := BlockItems(z, last);
    EncodesSize(dc, td);
    EncodesSize(ac, ta);
    forall i | 0 <= i < |items| ensures Coded(dc, ac, items[i]) {
      EncodesWhole(dc, td);
      EncodesWhole(ac, ta);
      if items[i].dc {
        CodedIfCounted(dc, td, dcCounts, true, items[i].sym);
      } else {
        CodedIfCounted(ac, ta, acCounts, false, items[i].sym);
      }
    }
    forall k | 1 <= k < 64 ensures Abs(z[k]) <= 0x7FFF { SmallMagnitude(Abs(z[k])); }
  }

  lemma EncodesWhole(e: EncoderTable, t: Table)
    requires Encodes(e, t)
    ensures |e.ehufsi| == |e.ehufco| == 256
  {
  }

  lemma SmallMagnitude(v: nat)
    requires NBits(v) <= 10
    ensures v <= 0x7FFF
  {
    if v > 0 {
      NBitsBounds(v);
      Pow2Monotone(NBits(v), 15);
      Pow2Words();
    }
  }
}
