/** Frequencies for which the limit of sixteen bits gives a more frequent symbol a longer code: Huffman's
    algorithm finds fifteen bits for the symbols 2, 3 and 4, which occur 4, 5 and 6 times, and one of
    their codes must become longer. It is that of symbol 4, which is listed last. */
module HuffDivided {
  import opened Bits
  import opened HuffTable
  import opened HuffMerge
  import opened HuffOrder
  import opened HuffLimit
  import opened HuffSizes

  /** Symbols 5 to 17 occur twenty times and then always twice as often as the one before. */
  const CHAIN: nat := 13

  function Doubled(j: nat): nat { 20 * Pow2(j) }

  const FREQ: seq<nat> := seq(SYMBOLS, s => Count(s, [1, 2, 4, 5, 6], 1, 0))

  /** A group of five symbols, the tree at the reserved symbol, and what is left of the chain from its
      symbol number k on. */
  function Count(s: int, g: seq<nat>, r: nat, k: nat): nat
    requires |g| == 5
  {
    if 0 <= s < 5 then g[s]
    else if 5 <= s < 5 + CHAIN then (if s - 5 >= k then Doubled(s - 5) else 0)
    else if s == 256 then r
    else 0
  }

  // ----- Single merges -----

  lemma OneMerge(freq: seq<nat>, codesize: seq<nat>, owner: seq<int>, c1: nat, c2: nat)
    requires |freq| == |codesize| == |owner| == SYMBOLS && Next(freq, c1, c2)
    requires freq[c1] <= NO_FREQUENCY && freq[c2] <= NO_FREQUENCY
    ensures MergeRun(freq, codesize, owner) ==
      MergeRun(MergedFreq(freq, c1, c2), Lengthened(codesize, owner, c1, c2), Joined(owner, c1, c2))
  {
    hide NonZero, MergedFreq, Lengthened, Joined;
    var a := Smallest(freq, -1, SYMBOLS);
    assert a == c1;
    var b := Smallest(freq, c1, SYMBOLS);
    assert b == c2;
    FewerTrees(freq, c1, c2, SYMBOLS);
  }

  lemma NoMerge(freq: seq<nat>, codesize: seq<nat>, owner: seq<int>, c: nat)
    requires |freq| == |codesize| == |owner| == SYMBOLS && c < SYMBOLS
    requires forall q :: 0 <= q < SYMBOLS && q != c ==> freq[q] == 0
    ensures MergeRun(freq, codesize, owner) == codesize
  {
    var a := Smallest(freq, -1, SYMBOLS);
    var b := Smallest(freq, a, SYMBOLS);
    hide NonZero;
  }

  // ----- The group -----

  /** What the group counts, what the tree at the reserved symbol does, and the length and tree of the five
      symbols and then of the reserved one. */
  datatype State = State(g: seq<nat>, r: nat, d: seq<nat>, o: seq<int>) {
    predicate Ok() { |g| == 5 && |d| == |o| == 6 }

    /** c1 and c2 come first in the group, and below the chain. */
    predicate Merges(c1: nat, c2: nat) {
      && Ok() && c1 in {3, 256} && c2 < 5 && c1 != c2
      && (var f1 := if c1 == 256 then r else g[3]; 0 < f1 <= g[c2] < 20 && (f1 == g[c2] ==> c1 > c2))
      && (forall x :: 0 <= x < 5 && x != c1 && x != c2 && g[x] > 0 ==> g[x] > g[c2] || (g[x] == g[c2] && x < c2))
      && (c1 != 256 && r > 0 ==> r > g[c2])
    }

    function Merged(c1: nat, c2: nat): (n: State)
      requires Merges(c1, c2)
      ensures n.Ok()
    {
      State((if c1 == 256 then g else g[c1 := g[c1] + g[c2]])[c2 := 0], if c1 == 256 then r + g[c2] else r,
        seq(6, x requires 0 <= x < 6 => d[x] + if o[x] == c1 || o[x] == c2 then 1 else 0),
        seq(6, x requires 0 <= x < 6 => if o[x] == c2 then c1 else o[x]))
    }
  }

  const STATE0 := State([1, 2, 4, 5, 6], 1, [0, 0, 0, 0, 0, 0], [0, 1, 2, 3, 4, 256])
  const STATE1 := State([0, 2, 4, 5, 6], 2, [1, 0, 0, 0, 0, 1], [256, 1, 2, 3, 4, 256])
  const STATE2 := State([0, 0, 4, 5, 6], 4, [2, 1, 0, 0, 0, 2], [256, 256, 2, 3, 4, 256])
  const STATE3 := State([0, 0, 0, 5, 6], 8, [3, 2, 1, 0, 0, 3], [256, 256, 256, 3, 4, 256])
  const STATE4 := State([0, 0, 0, 11, 0], 8, [3, 2, 1, 1, 1, 3], [256, 256, 256, 3, 3, 256])
  const STATE5 := State([0, 0, 0, 0, 0], 19, [4, 3, 2, 2, 2, 4], [256, 256, 256, 256, 256, 256])

  lemma State1()
    ensures STATE0.Merges(256, 0) && STATE0.Merged(256, 0) == STATE1
  {
  }

  lemma State2()
    ensures STATE1.Merges(256, 1) && STATE1.Merged(256, 1) == STATE2
  {
  }

  lemma State3()
    ensures STATE2.Merges(256, 2) && STATE2.Merged(256, 2) == STATE3
  {
  }

  lemma State4()
    ensures STATE3.Merges(3, 4) && STATE3.Merged(3, 4) == STATE4
  {
  }

  lemma State5()
    ensures STATE4.Merges(256, 3) && STATE4.Merged(256, 3) == STATE5
  {
  }

  /** The group is as the state says, and the chain is untouched. */
  ghost predicate Group(freq: seq<nat>, codesize: seq<nat>, owner: seq<int>, n: State) {
    && |freq| == |codesize| == |owner| == SYMBOLS && n.Ok()
    && (forall s :: 0 <= s < SYMBOLS ==> freq[s] == Count(s, n.g, n.r, 0))
    && (forall s :: 0 <= s < 5 ==> codesize[s] == n.d[s] && owner[s] == n.o[s])
    && (forall s :: 5 <= s < 256 ==> codesize[s] == 0 && owner[s] == if s < 5 + CHAIN then s else -1)
    && codesize[256] == n.d[5] && owner[256] == n.o[5]
  }

  lemma Large(s: int)
    requires 5 <= s < 5 + CHAIN
    ensures Doubled(s - 5) >= 20
  {
  }

  lemma GroupMerge(freq: seq<nat>, codesize: seq<nat>, owner: seq<int>, n: State, c1: nat, c2: nat)
    returns (freq1: seq<nat>, codesize1: seq<nat>, owner1: seq<int>)
    requires Group(freq, codesize, owner, n) && n.Merges(c1, c2)
    ensures Group(freq1, codesize1, owner1, n.Merged(c1, c2))
    ensures |freq| == |codesize| == |owner| == |freq1| == |codesize1| == |owner1| == SYMBOLS
    ensures MergeRun(freq, codesize, owner) == MergeRun(freq1, codesize1, owner1)
  {
    hide Doubled, MergeRun, NonZero;
    forall s | 5 <= s < 5 + CHAIN ensures freq[s] >= 20 { Large(s); }
    OneMerge(freq, codesize, owner, c1, c2);
    freq1, codesize1, owner1 := MergedFreq(freq, c1, c2), Lengthened(codesize, owner, c1, c2), Joined(owner, c1, c2);
  }

  lemma GroupStart(codesize: seq<nat>)
    requires codesize == seq(SYMBOLS, s => 0)
    ensures Group(FREQ, codesize, StartOwner(FREQ), STATE0)
    ensures Lengths(FREQ) == MergeRun(FREQ, codesize, StartOwner(FREQ))
  {
    hide Doubled, MergeRun;
    forall s | 5 <= s < 5 + CHAIN ensures FREQ[s] >= 20 { Large(s); }
  }

  /** After five merges the group is one tree. */
  lemma GroupRun() returns (freq: seq<nat>, codesize: seq<nat>, owner: seq<int>)
    ensures Group(freq, codesize, owner, STATE5)
    ensures |freq| == |codesize| == |owner| == SYMBOLS && Lengths(FREQ) == MergeRun(freq, codesize, owner)
  {
    hide Lengths, Doubled, MergeRun, Group, State.Merges, State.Merged;
    freq, codesize, owner := FREQ, seq(SYMBOLS, s => 0), StartOwner(FREQ);
    GroupStart(codesize);
    State1(); State2(); State3(); State4(); State5();
    freq, codesize, owner := GroupMerge(freq, codesize, owner, STATE0, 256, 0);
    freq, codesize, owner := GroupMerge(freq, codesize, owner, STATE1, 256, 1);
    freq, codesize, owner := GroupMerge(freq, codesize, owner, STATE2, 256, 2);
    freq, codesize, owner := GroupMerge(freq, codesize, owner, STATE3, 3, 4);
    freq, codesize, owner := GroupMerge(freq, codesize, owner, STATE4, 256, 3);
  }

  // ----- The chain -----

  /** The length of each symbol when the first k of the chain have joined the group. */
  function LengthOf(s: int, k: nat): int {
    if s == 0 || s == 256 then 4 + k
    else if s == 1 then 3 + k
    else if 2 <= s <= 4 then 2 + k
    else if 5 <= s < 5 + CHAIN && s - 5 < k then 5 + k - s
    else 0
  }

  ghost predicate Chain(freq: seq<nat>, codesize: seq<nat>, owner: seq<int>, k: nat) {
    && |freq| == |codesize| == |owner| == SYMBOLS && k <= CHAIN && Doubled(k) >= 1
    && (forall s :: 0 <= s < SYMBOLS ==> freq[s] == Count(s, [0, 0, 0, 0, 0], Doubled(k) - 1, k))
    && (forall s :: 0 <= s < SYMBOLS ==> codesize[s] == LengthOf(s, k))
    && (forall s :: 0 <= s < SYMBOLS ==>
          owner[s] == if s == 256 || s < 5 + k then 256 else if s < 5 + CHAIN then s else -1)
  }

  lemma DoubledNext(j: nat, k: nat)
    requires j <= k <= CHAIN
    ensures 20 <= Doubled(j) <= Doubled(k) <= 163840 && (j < k ==> 2 * Doubled(j) <= Doubled(k))
    ensures Doubled(j + 1) == 2 * Doubled(j)
  {
    Pow2Monotone(j, k);
    Pow2Monotone(k, 13);
    Pow2Words();
    if j < k { Pow2Monotone(j + 1, k); }
  }

  lemma ChainMerge(freq: seq<nat>, codesize: seq<nat>, owner: seq<int>, k: nat)
    requires Chain(freq, codesize, owner, k) && k < CHAIN
    ensures Chain(MergedFreq(freq, 256, 5 + k), Lengthened(codesize, owner, 256, 5 + k), Joined(owner, 256, 5 + k), k +
      1)
    ensures MergeRun(freq, codesize, owner) ==
      MergeRun(MergedFreq(freq, 256, 5 + k), Lengthened(codesize, owner, 256, 5 + k), Joined(owner, 256, 5 + k))
  {
    hide Doubled, MergeRun, NonZero;
    DoubledNext(k, k);
    forall j | k < j < CHAIN ensures Doubled(j) > Doubled(k) { DoubledNext(k, j); }
    assert forall q :: 0 <= q < SYMBOLS && freq[q] > 0 && q != 256 && q != 5 + k ==> freq[q] > Doubled(k);
    OneMerge(freq, codesize, owner, 256, 5 + k);
    var f := MergedFreq(freq, 256, 5 + k);
    assert f[256] == Doubled(k + 1) - 1;
  }

  lemma {:induction false} ChainRun(freq: seq<nat>, codesize: seq<nat>, owner: seq<int>, k: nat)
    requires Chain(freq, codesize, owner, k)
    ensures forall s :: 0 <= s < SYMBOLS ==> MergeRun(freq, codesize, owner)[s] == LengthOf(s, CHAIN)
    decreases CHAIN - k
  {
    hide Doubled, MergeRun, MergedFreq, Lengthened, Joined;
    if k < CHAIN {
      ChainMerge(freq, codesize, owner, k);
      ChainRun(MergedFreq(freq, 256, 5 + k), Lengthened(codesize, owner, 256, 5 + k), Joined(owner, 256, 5 + k), k + 1);
    } else {
      NoMerge(freq, codesize, owner, 256);
    }
  }

  lemma LengthsAre()
    ensures forall s :: 0 <= s < SYMBOLS ==> Lengths(FREQ)[s] == LengthOf(s, CHAIN)
  {
    hide MergeRun, Lengths;
    var freq, codesize, owner := GroupRun();
    assert Doubled(0) == 20 by { assert Pow2(0) == 1; }
    hide Doubled;
    assert Chain(freq, codesize, owner, 0);
    ChainRun(freq, codesize, owner, 0);
  }

  // ----- What is left after limiting -----

  lemma {:induction false} CountsAre(cs: seq<nat>, k: nat, n: nat)
    requires |cs| == SYMBOLS && n <= SYMBOLS && k > 0 && forall s :: 0 <= s < SYMBOLS ==> cs[s] == LengthOf(s, CHAIN)
    ensures CountAt(cs, k, n) ==
      (if k == 17 && n > 0 then 1 else 0) + (if k == 17 && n > 256 then 1 else 0) + (if k == 16 && n > 1 then 1 else 0)
      + (if k == 15 then (if n <= 2 then 0 else if n <= 5 then n - 2 else 3) else 0)
      + (if k <= 13 && 18 - k < n then 1 else 0)
  {
    if n > 0 { CountsAre(cs, k, n - 1); }
  }

  /** Counts as they are after limiting, before the reserved symbol's is taken away. */
  ghost predicate Limited(b: seq<nat>) {
    |b| == MAX_CLEN + 1 && forall k :: 0 < k <= MAX_CLEN ==>
      b[k] == if k <= 13 then 1 else if k == 15 then 2 else if k == 16 then 4 else 0
  }

  lemma LimitedAre(cs: seq<nat>)
    requires |cs| == SYMBOLS && forall s :: 0 <= s < SYMBOLS ==> cs[s] == LengthOf(s, CHAIN)
    ensures Limited(Limit(Counts(cs, SYMBOLS), MAX_CLEN))
  {
    hide CountAt, Limit;
    var b := Counts(cs, SYMBOLS);
    forall k | 0 < k <= MAX_CLEN
      ensures b[k] == if k <= 13 then 1 else if k == 15 then 3 else if k == 16 then 1 else if k == 17 then 2 else 0
    {
      CountsAre(cs, k, SYMBOLS);
    }
    LimitDown(b, MAX_CLEN);
    LimitOnce(b);
  }

  lemma {:induction false} LimitDown(b: seq<nat>, i: nat)
    requires 17 <= i < |b| && forall k :: 17 < k <= i ==> b[k] == 0
    ensures Limit(b, i) == Limit(b, 17)
    decreases i
  {
    if i > 17 { LimitDown(b, i - 1); }
  }

  lemma LimitOnce(b: seq<nat>)
    requires |b| == MAX_CLEN + 1 && forall k :: 0 < k <= MAX_CLEN ==>
      b[k] == if k <= 13 then 1 else if k == 15 then 3 else if k == 16 then 1 else if k == 17 then 2 else 0
    ensures Limited(Limit(b, 17))
  {
    assert b[15] == 3 && LastUsed(b, 15) == 15;
    var r := Shortened(b, 17, 15);
    assert Limit(b, 17) == Limit(r, 17);
    assert Limit(r, 17) == Limit(r, 16) == r;
  }

  lemma {:induction false} UpToOnes(b: seq<nat>, l: nat)
    requires l <= 13 < |b| && forall k :: 0 < k <= 13 ==> b[k] == 1
    ensures UpTo(b, l) == l
  {
    if l > 0 { UpToOnes(b, l - 1); }
  }

  lemma AllCoded()
    ensures Coded(FREQ) && MoreFrequent(FREQ, 4, 2)
  {
    hide Lengths, Doubled;
    LengthsAre();
    forall s | 5 <= s < 5 + CHAIN ensures FREQ[s] >= 20 { Large(s); }
  }

  /** Main result: a table made from these frequencies gives symbol 4, which occurs more often than symbol
      2, a longer code. */
  lemma LongerForFrequent()
    ensures Coded(FREQ) && MoreFrequent(FREQ, 4, 2) && Divided(FREQ, 4, 2)
    ensures SizeFor(Lengths(FREQ), 4) == 16 && SizeFor(Lengths(FREQ), 2) == 15
  {
    hide Lengths, Limit, CountAt, Coded, MoreFrequent, LengthAt;
    AllCoded();
    LengthsAre();
    var cs := Lengths(FREQ);
    LimitedAre(cs);
    var b, f, c := Limit(Counts(cs, SYMBOLS), MAX_CLEN), FinalBits(cs), Counts(cs, 256);
    assert LastUsed(b, 16) == 16;
    UpToOnes(f, 13);
    forall k | 0 < k <= 14 ensures c[k] == if k <= 13 then 1 else 0 { CountsAre(cs, k, 256); }
    UpToOnes(c, 13);
    CountsAre(cs, 15, 2);
    CountsAre(cs, 15, 4);
    assert UpTo(f, 14) == 13 && UpTo(f, 15) == 15;
    assert UpTo(f, 16) == 18;
    assert Rank(cs, 2) == 13 && Rank(cs, 4) == 15;
    LengthIs(f, 13, 16, 15);
    LengthIs(f, 15, 16, 16);
  }
}
