/** Two-pass coding of a whole scan: count the symbols of all restart intervals, build tables from the
    counts, write the scan with them, and read it back. */
module HuffTwoPass {
  import opened Bits
  import opened Coefficients
  import opened QmRoundTrip
  import D = QmDecoder
  import opened HuffTable
  import opened HuffDerive
  import opened HuffReader
  import opened HuffBlock
  import opened HuffCoder
  import opened HuffScan
  import opened HuffRestart
  import Restart
  import opened HuffMerge
  import opened HuffLimit
  import opened HuffOptimal
  import opened HuffOptimized

  const NUM_TBLS: nat := 4

  /** Blocks of n components with 16-bit coefficients, and the table numbers of the components. */
  ghost predicate Blocks(intervals: seq<seq<ScanBlock>>, n: nat) {
    forall i, j :: 0 <= i < |intervals| && 0 <= j < |intervals[i]| ==>
      intervals[i][j].c < n && Shorts(Zig(intervals[i][j].b))
  }

  predicate Numbers(tbl: seq<nat>, n: nat) { |tbl| == n && forall c :: 0 <= c < n ==> tbl[c] < NUM_TBLS }

  ghost predicate Occurs(intervals: seq<seq<ScanBlock>>, c: nat) {
    exists i, j :: 0 <= i < |intervals| && 0 <= j < |intervals[i]| && intervals[i][j].c == c
  }

  lemma BlocksOf(intervals: seq<seq<ScanBlock>>, n: nat, i: nat)
    requires Blocks(intervals, n) && i < |intervals|
    ensures forall j :: 0 <= j < |intervals[i]| ==> intervals[i][j].c < n && Shorts(Zig(intervals[i][j].b))
  {
    forall j | 0 <= j < |intervals[i]| ensures intervals[i][j].c < n && Shorts(Zig(intervals[i][j].b)) { }
  }

  // ----- The items of a scan -----

  /** The items of all intervals that use table k, as the counting pass meets them. */
  function ScanItems(intervals: seq<seq<ScanBlock>>, n: nat, tbl: seq<nat>, k: nat): seq<Item>
    requires |tbl| == n && forall i, j :: 0 <= i < |intervals| && 0 <= j < |intervals[i]| ==> intervals[i][j].c < n
    decreases |intervals|
  {
    if |intervals| == 0 then []
    else
      var m := |intervals| - 1;
      ScanItems(intervals[..m], n, tbl, k) + TableItems(intervals[m], Zero(n), tbl, k)
  }

  ghost predicate CountableScan(intervals: seq<seq<ScanBlock>>, n: nat)
    requires forall i, j :: 0 <= i < |intervals| && 0 <= j < |intervals[i]| ==> intervals[i][j].c < n
  {
    forall i :: 0 <= i < |intervals| ==> CountableAll(intervals[i], Zero(n))
  }

  lemma {:induction false} ScanPlausible(intervals: seq<seq<ScanBlock>>, n: nat, tbl: seq<nat>, k: nat)
    requires |tbl| == n && Blocks(intervals, n) && CountableScan(intervals, n)
    ensures AllPlausible(ScanItems(intervals, n, tbl, k))
    decreases |intervals|
  {
    hide CountableAll, TableItems, Plausible;
    if |intervals| > 0 {
      var m := |intervals| - 1;
      ScanPlausible(intervals[..m], n, tbl, k);
      BlocksOf(intervals, n, m);
      TablePlausible(intervals[m], Zero(n), tbl, k);
      PlausibleConcat(ScanItems(intervals[..m], n, tbl, k), TableItems(intervals[m], Zero(n), tbl, k));
    }
  }

  /** Counts that cover the scan cover each interval. */
  lemma {:induction false} ScanCovers(counts: seq<nat>, intervals: seq<seq<ScanBlock>>, n: nat, tbl: seq<nat>, k: nat,
      dc: bool, i: nat)
    requires |tbl| == n && Blocks(intervals, n) && i < |intervals|
    requires CountsCover(counts, ScanItems(intervals, n, tbl, k), dc)
    ensures forall j :: 0 <= j < |intervals[i]| ==> intervals[i][j].c < n
    ensures CountsCover(counts, TableItems(intervals[i], Zero(n), tbl, k), dc)
    decreases |intervals|
  {
    hide TableItems, CountsCover;
    var m := |intervals| - 1;
    BlocksOf(intervals, n, i);
    BlocksOf(intervals, n, m);
    CoversSplit(counts, ScanItems(intervals[..m], n, tbl, k), TableItems(intervals[m], Zero(n), tbl, k), dc);
    if i < m { ScanCovers(counts, intervals[..m], n, tbl, k, dc, i); }
  }

  // ----- Every block has a DC and an AC item -----

  lemma {:induction false} AcItemsSome(z: Block, k: nat, r: nat)
    requires k <= 64 && (k < 64 || r > 0)
    ensures |AcItems(z, k, r)| > 0 && !AcItems(z, k, r)[0].dc
    decreases 64 - k
  {
    if k < 64 {
      if z[k] == 0 { AcItemsSome(z, k + 1, r + 1); }
    }
  }

  lemma BlockHas(z: Block, last: int, dc: bool) returns (j: nat)
    ensures j < |BlockItems(z, last)| && BlockItems(z, last)[j].dc == dc
  {
    AcItemsSome(z, 1, 0);
    j := if dc then 0 else 1;
    assert BlockItems(z, last)[1] == AcItems(z, 1, 0)[0];
  }

  lemma {:induction false} TableHas(blocks: seq<ScanBlock>, lasts: seq<int>, tbl: seq<nat>, m: nat, dc: bool)
    returns (j: nat)
    requires |lasts| == |tbl| && m < |blocks| && forall i :: 0 <= i < |blocks| ==> blocks[i].c < |tbl|
    ensures var items := TableItems(blocks, lasts, tbl, tbl[blocks[m].c]); j < |items| && items[j].dc == dc
    decreases |blocks|
  {
    hide BlockItems, Zig;
    var x, k := blocks[0], tbl[blocks[m].c];
    var first := if tbl[x.c] == k then BlockItems(Zig(x.b), lasts[x.c]) else [];
    var rest := TableItems(blocks[1..], lasts[x.c := Zig(x.b)[0]], tbl, k);
    assert TableItems(blocks, lasts, tbl, k) == first + rest;
    if m == 0 {
      j := BlockHas(Zig(x.b), lasts[x.c], dc);
      assert (first + rest)[j] == first[j];
    } else {
      var i := TableHas(blocks[1..], lasts[x.c := Zig(x.b)[0]], tbl, m - 1, dc);
      j := |first| + i;
      assert (first + rest)[j] == rest[i];
    }
  }

  lemma {:induction false} ScanHas(intervals: seq<seq<ScanBlock>>, n: nat, tbl: seq<nat>, c: nat, dc: bool)
    returns (j: nat)
    requires |tbl| == n && Blocks(intervals, n) && c < n && Occurs(intervals, c)
    ensures var items := ScanItems(intervals, n, tbl, tbl[c]); j < |items| && items[j].dc == dc
    decreases |intervals|
  {
    hide TableItems, Zig;
    var m := |intervals| - 1;
    var front, last := ScanItems(intervals[..m], n, tbl, tbl[c]), TableItems(intervals[m], Zero(n), tbl, tbl[c]);
    BlocksOf(intervals, n, m);
    if b :| 0 <= b < |intervals[m]| && intervals[m][b].c == c {
      var i := TableHas(intervals[m], Zero(n), tbl, b, dc);
      j := |front| + i;
      assert (front + last)[j] == last[i];
    } else {
      var a, b :| 0 <= a < |intervals| && 0 <= b < |intervals[a]| && intervals[a][b].c == c;
      assert a < m && intervals[..m][a][b].c == c;
      j := ScanHas(intervals[..m], n, tbl, c, dc);
      assert (front + last)[j] == front[j];
    }
  }

  // ----- The counting pass -----

  /** The counts of table k after the whole scan. */
  function ScanCounts(intervals: seq<seq<ScanBlock>>, n: nat, tbl: seq<nat>, k: nat, dc: bool): (c: seq<nat>)
    requires |tbl| == n && forall i, j :: 0 <= i < |intervals| && 0 <= j < |intervals[i]| ==> intervals[i][j].c < n
    requires SmallSymbols(ScanItems(intervals, n, tbl, k))
  {
    Tally(NoCounts(), ScanItems(intervals, n, tbl, k), dc)
  }

  /** The counts after the first i intervals. */
  ghost predicate Gathered(now: seq<seq<nat>>, intervals: seq<seq<ScanBlock>>, n: nat, tbl: seq<nat>, dc: bool, i: nat)
    requires |tbl| == n && Blocks(intervals, n) && i <= |intervals|
  {
    && |now| == NUM_TBLS
    && forall k :: 0 <= k < NUM_TBLS ==>
         SmallSymbols(ScanItems(intervals[..i], n, tbl, k)) && now[k] == ScanCounts(intervals[..i], n, tbl, k, dc)
  }

  lemma GatheredMore(now: seq<seq<nat>>, next: seq<seq<nat>>, intervals: seq<seq<ScanBlock>>, n: nat, tbl: seq<nat>,
      dc: bool, i: nat)
    requires |tbl| == n && Blocks(intervals, n) && i < |intervals| && |next| == NUM_TBLS
    requires Gathered(now, intervals, n, tbl, dc, i)
    requires forall j :: 0 <= j < |intervals[i]| ==> intervals[i][j].c < n
    requires |now| == NUM_TBLS && forall k :: 0 <= k < NUM_TBLS ==>
      |now[k]| == 257 && SmallSymbols(TableItems(intervals[i], Zero(n), tbl, k))
    requires forall k :: 0 <= k < NUM_TBLS ==> next[k] == Tally(now[k], TableItems(intervals[i], Zero(n), tbl, k), dc)
    ensures Gathered(next, intervals, n, tbl, dc, i + 1)
  {
    hide TableItems, Tally, SmallSymbols;
    var all := intervals[..i + 1];
    assert all[..i] == intervals[..i] && all[i] == intervals[i];
    forall k | 0 <= k < NUM_TBLS
      ensures SmallSymbols(ScanItems(all, n, tbl, k)) && next[k] == ScanCounts(all, n, tbl, k, dc)
    {
      var a, b := ScanItems(intervals[..i], n, tbl, k), TableItems(intervals[i], Zero(n), tbl, k);
      assert ScanItems(all, n, tbl, k) == a + b;
      assert now[k] == Tally(NoCounts(), a, dc);
      TallyConcat(NoCounts(), a, b, dc);
    }
  }

  lemma NothingGathered(now: seq<seq<nat>>, intervals: seq<seq<ScanBlock>>, n: nat, tbl: seq<nat>, dc: bool)
    requires |tbl| == n && Blocks(intervals, n) && |now| == NUM_TBLS && forall k :: 0 <= k < NUM_TBLS ==>
      now[k] == NoCounts()
    ensures Gathered(now, intervals, n, tbl, dc, 0)
  {
  }

  method NewCounts() returns (counts: seq<array<nat>>)
    ensures |counts| == NUM_TBLS && fresh(counts) && forall k :: 0 <= k < NUM_TBLS ==>
      counts[k].Length == 257 && counts[k][..] == NoCounts()
    ensures forall i, j :: 0 <= i < j < NUM_TBLS ==> counts[i] != counts[j]
  {
    var a, b := new nat[257](_ => 0), new nat[257](_ => 0);
    var c, d := new nat[257](_ => 0), new nat[257](_ => 0);
    counts := [a, b, c, d];
    assert a[..] == NoCounts() && b[..] == NoCounts() && c[..] == NoCounts() && d[..] == NoCounts();
  }

  /** Counts all symbols of the scan; fails at a coefficient that is out of range. */
  method GatherScan(intervals: seq<seq<ScanBlock>>, n: nat, dcTbl: seq<nat>, acTbl: seq<nat>, dc: seq<array<nat>>,
      ac: seq<array<nat>>)
    returns (ok: bool)
    requires Blocks(intervals, n) && Numbers(dcTbl, n) && Numbers(acTbl, n)
    requires |dc| == |ac| == NUM_TBLS && Separate(dc, ac)
    requires forall k :: 0 <= k < NUM_TBLS ==> dc[k][..] == NoCounts() && ac[k][..] == NoCounts()
    modifies dc, ac
    ensures ok <==> CountableScan(intervals, n)
    ensures ok ==> Gathered(Contents(dc), intervals, n, dcTbl, true, |intervals|)
    ensures ok ==> Gathered(Contents(ac), intervals, n, acTbl, false, |intervals|)
  {
    hide CountableAll, TableItems, Tally, SmallSymbols, Gathered;
    NothingGathered(Contents(dc), intervals, n, dcTbl, true);
    NothingGathered(Contents(ac), intervals, n, acTbl, false);
    for i := 0 to |intervals|
      invariant forall j :: 0 <= j < i ==> CountableAll(intervals[j], Zero(n))
      invariant Gathered(Contents(dc), intervals, n, dcTbl, true, i)
      invariant Gathered(Contents(ac), intervals, n, acTbl, false, i)
    {
      BlocksOf(intervals, n, i);
      ghost var d, a := Contents(dc), Contents(ac);
      ok := GatherSegment(intervals[i], n, dcTbl, acTbl, dc, ac);
      if !ok {
        return;
      }
      GatheredMore(d, Contents(dc), intervals, n, dcTbl, true, i);
      GatheredMore(a, Contents(ac), intervals, n, acTbl, false, i);
    }
    ok := true;
  }

  // ----- The tables -----

  /** The code lengths that Huffman's algorithm gives for these counts. */
  function LengthsFor(counts: seq<nat>): seq<nat>
    requires |counts| == 257
  {
    Lengths(counts[256 := 1])
  }

  /** Tables done are built from the counts; the counts of the others are still there. */
  ghost predicate PartlyBuilt(was: seq<seq<nat>>, now: seq<seq<nat>>, did: seq<bool>, huff: seq<Table>, dc: bool) {
    && |was| == |now| == |did| == |huff| && (forall k :: 0 <= k < |was| ==> |was[k]| == 257)
    && forall k :: 0 <= k < |was| ==>
         if did[k] then BuiltFrom(huff[k], was[k], dc) && !Overlong(LengthsFor(was[k])) else now[k] == was[k]
  }

  /** Builds table k unless that has been done: building it destroys the counts. */
  method BuildOnce(counts: seq<array<nat>>, k: nat, did0: seq<bool>, huff0: seq<Table>, dc: bool,
      ghost was: seq<seq<nat>>)
    returns (ok: bool, did: seq<bool>, huff: seq<Table>)
    requires k < |counts| && (forall i :: 0 <= i < |counts| ==> counts[i].Length == 257)
    requires forall i, j :: 0 <= i < j < |counts| ==> counts[i] != counts[j]
    requires PartlyBuilt(was, Contents(counts), did0, huff0, dc) && Suitable(was[k], dc)
    modifies counts[k]
    ensures ok <==> !Overlong(LengthsFor(was[k]))
    ensures ok ==> PartlyBuilt(was, Contents(counts), did, huff, dc) && did == did0[k := true]
  {
    hide Overlong, Suitable, BuiltFrom, TableFor, Shared, Lengths, NonZero, Sum;
    did, huff := did0, huff0;
    if did0[k] {
      return true, did, huff;
    }
    ghost var c := was[k];
    assert counts[k][..] == Contents(counts)[k] == c;
    assert (exists s :: 0 <= s < 256 && counts[k][s] > 0) && Sum(c, 256) <= NO_FREQUENCY &&
      NonZero(c, 256) <= 254 by { SuitableParts(c, dc); }
    var r := GenOptimalTable(counts[k]);
    match r
    case Built(t) =>
      SuitableParts(c, dc);
      TableCodes(t, c, dc);
      ok, did, huff := true, did[k := true], huff[k := t];
    case TooLong => ok := false;
    case NoLength => assert false;
  }

  lemma SuitableParts(c: seq<nat>, dc: bool)
    requires Suitable(c, dc)
    ensures |c| == 257 && (exists s :: 0 <= s < 256 && c[s] > 0) && Sum(c, 256) <= NO_FREQUENCY
    ensures NonZero(c, 256) <= 254
    ensures dc ==> forall s :: 16 <= s < 256 ==> c[s] == 0
  {
  }

  /** No table that a component uses gets a code longer than 32 bits. */
  ghost predicate NoneOverlong(counts: seq<seq<nat>>, tbl: seq<nat>) {
    forall c :: 0 <= c < |tbl| ==> tbl[c] < |counts| && |counts[tbl[c]]| == 257 && !Overlong(LengthsFor(counts[tbl[c]]))
  }

  ghost predicate AllSuitable(counts: seq<seq<nat>>, tbl: seq<nat>, dc: bool) {
    |counts| == NUM_TBLS && forall c :: 0 <= c < |tbl| ==> tbl[c] < NUM_TBLS && Suitable(counts[tbl[c]], dc)
  }

  /** The tables of all components are built from the counts. */
  ghost predicate AllBuilt(counts: seq<seq<nat>>, tbl: seq<nat>, huff: seq<Table>, dc: bool) {
    |counts| == |huff| && forall c :: 0 <= c < |tbl| ==> tbl[c] < |huff| && BuiltFrom(huff[tbl[c]], counts[tbl[c]], dc)
  }

  /** Builds the tables of all components, each table once. */
  method FinishGather(dc: seq<array<nat>>, ac: seq<array<nat>>, n: nat, dcTbl: seq<nat>, acTbl: seq<nat>)
    returns (ok: bool, dcHuff: seq<Table>, acHuff: seq<Table>)
    requires Numbers(dcTbl, n) && Numbers(acTbl, n) && |dc| == |ac| == NUM_TBLS && Separate(dc, ac)
    requires AllSuitable(Contents(dc), dcTbl, true) && AllSuitable(Contents(ac), acTbl, false)
    modifies dc, ac
    ensures ok <==> old(NoneOverlong(Contents(dc), dcTbl) && NoneOverlong(Contents(ac), acTbl))
    ensures ok ==> AllBuilt(old(Contents(dc)), dcTbl, dcHuff, true) && AllBuilt(old(Contents(ac)), acTbl, acHuff, false)
  {
    hide Overlong, Suitable, BuiltFrom, LengthsFor;
    ghost var was0, was1 := Contents(dc), Contents(ac);
    var empty := Table(seq(17, i => 0), seq(256, i => 0));
    dcHuff, acHuff := seq(NUM_TBLS, i => empty), seq(NUM_TBLS, i => empty);
    var didDc, didAc := seq(NUM_TBLS, i => false), seq(NUM_TBLS, i => false);
    for c := 0 to n
      invariant PartlyBuilt(was0, Contents(dc), didDc, dcHuff, true)
      invariant PartlyBuilt(was1, Contents(ac), didAc, acHuff, false)
      invariant forall i :: 0 <= i < c ==> didDc[dcTbl[i]] && didAc[acTbl[i]]
    {
      ghost var acs := Contents(ac);
      ok, didDc, dcHuff := BuildOnce(dc, dcTbl[c], didDc, dcHuff, true, was0);
      assert Contents(ac) == acs;
      if !ok {
        return;
      }
      ghost var dcs := Contents(dc);
      ok, didAc, acHuff := BuildOnce(ac, acTbl[c], didAc, acHuff, false, was1);
      assert Contents(dc) == dcs;
      if !ok {
        return;
      }
    }
    ok := true;
  }

  /** Derives the encoder's tables of each component. */
  method DeriveTables(n: nat, dcTbl: seq<nat>, acTbl: seq<nat>, dcHuff: seq<Table>, acHuff: seq<Table>,
      ghost dc: seq<seq<nat>>, ghost ac: seq<seq<nat>>) returns (t: Tables)
    requires |dcTbl| == |acTbl| == n && AllBuilt(dc, dcTbl, dcHuff, true) && AllBuilt(ac, acTbl, acHuff, false)
    ensures Prepared(t, n, dcTbl, acTbl, dc, ac)
    ensures forall c :: 0 <= c < n ==> DecoderOk(t.ta[c], false)
  {
    hide EncoderOk, DecoderOk, Pair, CountsCover;
    t := Tables([], [], [], []);
    for c := 0 to n
      invariant |t.td| == |t.ta| == |t.dc| == |t.ac| == c
      invariant forall i :: 0 <= i < c ==>
        Pair(t.dc[i], t.td[i]) && Pair(t.ac[i], t.ta[i]) && t.td[i] == dcHuff[dcTbl[i]] && t.ta[i] == acHuff[acTbl[i]]
      invariant forall i :: 0 <= i < c ==> DecoderOk(t.td[i], true) && DecoderOk(t.ta[i], false)
    {
      var td, ta := dcHuff[dcTbl[c]], acHuff[acTbl[c]];
      var ok0, d := MakeEncoderTable(td, true);
      var ok1, a := MakeEncoderTable(ta, false);
      Derived(td, d, true);
      Derived(ta, a, false);
      t := Tables(t.td + [td], t.ta + [ta], t.dc + [d], t.ac + [a]);
    }
  }

  lemma Derived(t: Table, e: EncoderTable, dc: bool)
    requires t.Shape() && EncoderOk(t, dc) && Encodes(e, t)
    ensures Pair(e, t) && DecoderOk(t, dc)
  {
    hide UpTo, Fits, Distinct, Encodes;
  }

  /** Derives the decoder's tables of each component. */
  method DeriveDecoders(td: seq<Table>, ta: seq<Table>) returns (d: DecoderTables)
    requires |td| == |ta| && forall c :: 0 <= c < |td| ==>
      td[c].Shape() && ta[c].Shape() && DecoderOk(td[c], true) && DecoderOk(ta[c], false)
    ensures DecodersOk(d, td, ta)
  {
    hide DecoderOk, Decodes;
    d := DecoderTables([], []);
    for c := 0 to |td|
      invariant |d.dc| == |d.ac| == c && forall i :: 0 <= i < c ==> Decodes(d.dc[i], td[i]) && Decodes(d.ac[i], ta[i])
    {
      var ok0, x := MakeDecoderTable(td[c], true);
      var ok1, y := MakeDecoderTable(ta[c], false);
      d := DecoderTables(d.dc + [x], d.ac + [y]);
    }
  }

  // ----- Both passes, and reading back -----

  /** What a scan may be: some intervals of blocks of n components, each component with a block, and no
      table with more than 10^9 symbols to count. */
  ghost predicate ScanInput(intervals: seq<seq<ScanBlock>>, n: nat, dcTbl: seq<nat>, acTbl: seq<nat>) {
    && |intervals| > 0 && Blocks(intervals, n) && Numbers(dcTbl, n) && Numbers(acTbl, n)
    && (forall c :: 0 <= c < n ==> Occurs(intervals, c))
    && forall k :: 0 <= k < NUM_TBLS ==>
         HowMany(ScanItems(intervals, n, dcTbl, k), true) <= NO_FREQUENCY &&
           HowMany(ScanItems(intervals, n, acTbl, k), false) <= NO_FREQUENCY
  }

  lemma GatheredSuitable(now: seq<seq<nat>>, intervals: seq<seq<ScanBlock>>, n: nat, tbl: seq<nat>, dc: bool)
    requires Blocks(intervals, n) && Numbers(tbl, n) && CountableScan(intervals, n)
    requires Gathered(now, intervals, n, tbl, dc, |intervals|)
    requires forall c :: 0 <= c < n ==>
      Occurs(intervals, c) && HowMany(ScanItems(intervals, n, tbl, tbl[c]), dc) <= NO_FREQUENCY
    ensures AllSuitable(now, tbl, dc)
  {
    hide Suitable, Tally, Occurs, ScanItems, CountableScan, SmallSymbols, HowMany;
    assert intervals[..|intervals|] == intervals;
    forall c | 0 <= c < n ensures Suitable(now[tbl[c]], dc) {
      var j := ScanHas(intervals, n, tbl, c, dc);
      ScanPlausible(intervals, n, tbl, tbl[c]);
      CountsSuitable(ScanItems(intervals, n, tbl, tbl[c]), dc, j);
    }
  }

  lemma GatheredCovers(now: seq<seq<nat>>, intervals: seq<seq<ScanBlock>>, n: nat, tbl: seq<nat>, dc: bool, i: nat)
    requires Blocks(intervals, n) && |tbl| == n && i < |intervals| && Gathered(now, intervals, n, tbl, dc, |intervals|)
    ensures |now| == NUM_TBLS && forall j :: 0 <= j < |intervals[i]| ==> intervals[i][j].c < n
    ensures forall k :: 0 <= k < NUM_TBLS ==> CountsCover(now[k], TableItems(intervals[i], Zero(n), tbl, k), dc)
  {
    hide Tally, TableItems, CountsCover, ScanItems, SmallSymbols;
    assert intervals[..|intervals|] == intervals;
    BlocksOf(intervals, n, i);
    forall k | 0 <= k < NUM_TBLS ensures CountsCover(now[k], TableItems(intervals[i], Zero(n), tbl, k), dc) {
      TallyCovers(NoCounts(), ScanItems(intervals, n, tbl, k), dc);
      ScanCovers(now[k], intervals, n, tbl, k, dc, i);
    }
  }

  /** Every symbol of every interval has a code in the tables built from the counts of the scan. */
  lemma ScanCodable(intervals: seq<seq<ScanBlock>>, n: nat, t: Tables, dcTbl: seq<nat>, acTbl: seq<nat>,
      dc: seq<seq<nat>>, ac: seq<seq<nat>>)
    requires Blocks(intervals, n) && CountableScan(intervals, n) && Prepared(t, n, dcTbl, acTbl, dc, ac)
    requires Gathered(dc, intervals, n, dcTbl, true, |intervals|)
    requires Gathered(ac, intervals, n, acTbl, false, |intervals|)
    ensures AllOk(intervals, t, n) && AllInRange(intervals)
  {
    hide TablesOk, Gathered, CountsCover, TableItems, CountableAll, AllCodable, BuiltFrom, ScanInRange;
    forall i | 0 <= i < |intervals| ensures AllCodable(intervals[i], t, n, Zero(n)) && ScanInRange(intervals[i]) {
      GatheredCovers(dc, intervals, n, dcTbl, true, i);
      GatheredCovers(ac, intervals, n, acTbl, false, i);
      BlocksOf(intervals, n, i);
      CountedCodable(intervals[i], Zero(n), n, t, dcTbl, acTbl, dc, ac);
    }
  }

  /** The symbol counts of the scan for each table. */
  ghost predicate CountsOf(intervals: seq<seq<ScanBlock>>, n: nat, dcTbl: seq<nat>, acTbl: seq<nat>, dc: seq<seq<nat>>,
      ac: seq<seq<nat>>) {
    && Blocks(intervals, n) && |dcTbl| == |acTbl| == n
    && Gathered(dc, intervals, n, dcTbl, true, |intervals|) && Gathered(ac, intervals, n, acTbl, false, |intervals|)
  }

  /** A coefficient out of range, a code that gets too long, or the bytes of the scan and what is read
      from them. */
  datatype TwoPassResult = OutOfRange | CodeTooLong | Coded(out: seq<byte>, ok: bool, blocks: seq<seq<Block>>)

  /** The blocks that were read are those of the scan. */
  ghost predicate AllRead(blocks: seq<seq<Block>>, intervals: seq<seq<ScanBlock>>) {
    && |blocks| == |intervals|
    && forall i :: 0 <= i < |intervals| ==> |blocks[i]| == |intervals[i]| && forall j :: 0 <= j < |intervals[i]| ==>
      blocks[i][j] == intervals[i][j].b
  }

  ghost predicate AllKeep(intervals: seq<seq<ScanBlock>>, t: Tables, n: nat) {
    AllOk(intervals, t, n) && forall i :: 0 <= i < |intervals| ==> Keeps(intervals[i], t, n)
  }

  /** Blocks that read as those of the scan in zigzag order are those of the scan. */
  lemma ReadMeans(zss: seq<seq<Block>>, r: seq<seq<Block>>, intervals: seq<seq<ScanBlock>>)
    requires |zss| == |r| && r == AllZigs(intervals) && forall i :: 0 <= i < |zss| ==> SameBlocks(zss[i], r[i])
    ensures AllRead(zss, intervals)
  {
    hide Zig;
    forall i, j | 0 <= i < |intervals| && 0 <= j < |intervals[i]|
      ensures |zss[i]| == |intervals[i]| && zss[i][j] == intervals[i][j].b
    {
      assert SameBlocks(zss[i], r[i]);
      assert r[i] == Zigs(intervals[i]);
      ZigInjective(zss[i][j], intervals[i][j].b);
    }
    forall i | 0 <= i < |intervals| ensures |zss[i]| == |intervals[i]| { assert SameBlocks(zss[i], r[i]); }
  }

  /** Writes the scan with these tables and reads it back. */
  method WriteAndRead(intervals: seq<seq<ScanBlock>>, n: nat, t: Tables, tail: seq<byte>)
    returns (out: seq<byte>, ok: bool, blocks: seq<seq<Block>>)
    requires |intervals| > 0 && AllOk(intervals, t, n) && AllInRange(intervals) && IsMarker(tail)
    requires forall c :: 0 <= c < n ==> DecoderOk(t.ta[c], false)
    ensures AllKeep(intervals, t, n) ==> ok && AllRead(blocks, intervals)
  {
    hide AllCodable, TablesOk, DecoderOk, DecodersOk, SegmentOf, Keeps, AllUsable, Below, DataOf, IsMarker, AllRead,
      SameBlocks, ReadIntervals, Restart.Joined;
    ComponentsBelow(intervals, t, n);
    TablesShape(t, n);
    var segs;
    out, segs := EncodeScan(intervals, t, n);
    var d := DeriveDecoders(t.td, t.ta);
    var rd := new BitReader(out + tail);
    ghost var src := D.Source(out + tail, 0);
    ok, blocks := DecodeScan(rd, AllComponents(intervals), t.td, t.ta, d, src);
    if AllKeep(intervals, t, n) {
      ScanRoundTrip(intervals, t, n, segs, tail, 0);
      ReadMeans(blocks, AllZigs(intervals), intervals);
    }
  }

  lemma TablesShape(t: Tables, n: nat)
    requires TablesOk(t, n)
    ensures |t.td| == |t.ta| == n && forall c :: 0 <= c < n ==>
      t.td[c].Shape() && t.ta[c].Shape() && DecoderOk(t.td[c], true)
  {
    hide DecoderOk, Encodes, Fits;
  }

  /** Main result for optimized tables: counting all symbols of a scan, building the tables, writing
      the scan with them and reading it back. It fails only for a coefficient out of range or counts
      for which Huffman's algorithm makes a code longer than 32 bits; otherwise every symbol has a
      code, and what is read is what was written, unless the end of an interval loses bits. */
  method TwoPass(intervals: seq<seq<ScanBlock>>, n: nat, dcTbl: seq<nat>, acTbl: seq<nat>, tail: seq<byte>)
    returns (r: TwoPassResult, ghost dcs: seq<seq<nat>>, ghost acs: seq<seq<nat>>, ghost t: Tables)
    requires ScanInput(intervals, n, dcTbl, acTbl) && IsMarker(tail)
    ensures r.OutOfRange? <==> !CountableScan(intervals, n)
    ensures !r.OutOfRange? ==> CountsOf(intervals, n, dcTbl, acTbl, dcs, acs)
    ensures r.CodeTooLong? <==> !r.OutOfRange? && !(NoneOverlong(dcs, dcTbl) && NoneOverlong(acs, acTbl))
    ensures r.Coded? ==> Prepared(t, n, dcTbl, acTbl, dcs, acs) && AllOk(intervals, t, n)
    ensures r.Coded? && AllKeep(intervals, t, n) ==> r.ok && AllRead(r.blocks, intervals)
  {
    hide Occurs, CountableScan, Gathered, Suitable, AllSuitable, NoneOverlong, AllBuilt, Prepared, AllOk, AllKeep,
      AllRead, IsMarker, ScanItems, HowMany;
    dcs, acs, t := [], [], Tables([], [], [], []);
    var dc := NewCounts();
    var ac := NewCounts();
    var ok := GatherScan(intervals, n, dcTbl, acTbl, dc, ac);
    if !ok {
      return OutOfRange, dcs, acs, t;
    }
    dcs, acs := Contents(dc), Contents(ac);
    GatheredSuitable(dcs, intervals, n, dcTbl, true);
    GatheredSuitable(acs, intervals, n, acTbl, false);
    var dcHuff, acHuff;
    ok, dcHuff, acHuff := FinishGather(dc, ac, n, dcTbl, acTbl);
    if !ok {
      return CodeTooLong, dcs, acs, t;
    }
    var tables := DeriveTables(n, dcTbl, acTbl, dcHuff, acHuff, dcs, acs);
    t := tables;
    ScanCodable(intervals, n, t, dcTbl, acTbl, dcs, acs);
    var out, good, blocks := WriteAndRead(intervals, n, tables, tail);
    r := Coded(out, good, blocks);
  }
}
