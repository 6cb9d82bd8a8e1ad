/** Huffman's algorithm as the library runs it: trees are chains of symbols, and merging two trees
    makes every code of both one bit longer. (Section K.2 of ITU-T T.81.) */
module HuffMerge {
  import opened Bits

  const SYMBOLS: nat := 257
  const NO_FREQUENCY: nat := 1000000000

  /** Depth to which code space is measured; no merging makes codes longer than this. */
  const DEPTH: nat := 256

  // ----- Counting -----

  /** Sum of the first n frequencies. */
  function Sum(freq: seq<nat>, n: nat): nat
    requires n <= |freq|
  {
    if n == 0 then 0 else Sum(freq, n - 1) + freq[n - 1]
  }

  /** How many of the first n frequencies are not zero. */
  function NonZero(freq: seq<nat>, n: nat): (r: nat)
    requires n <= |freq|
    ensures r <= n
  {
    if n == 0 then 0 else NonZero(freq, n - 1) + if freq[n - 1] > 0 then 1 else 0
  }

  lemma {:induction false} SumUpdate(freq: seq<nat>, i: nat, v: nat, n: nat)
    requires n <= |freq| && i < |freq|
    ensures Sum(freq[i := v], n) == Sum(freq, n) + if i < n then v - freq[i] else 0
  {
    if n > 0 { SumUpdate(freq, i, v, n - 1); }
  }

  lemma {:induction false} NonZeroUpdate(freq: seq<nat>, i: nat, v: nat, n: nat)
    requires n <= |freq| && i < |freq|
    ensures NonZero(freq[i := v], n) == NonZero(freq, n) +
      if i < n then (if v > 0 then 1 else 0) - (if freq[i] > 0 then 1 else 0) else 0
  {
    if n > 0 { NonZeroUpdate(freq, i, v, n - 1); }
  }

  lemma {:induction false} TwoInSum(freq: seq<nat>, a: nat, b: nat, n: nat)
    requires a < b < n <= |freq|
    ensures freq[a] + freq[b] <= Sum(freq, n)
  {
    if b == n - 1 { OneInSum(freq, a, n - 1); } else { TwoInSum(freq, a, b, n - 1); }
  }

  lemma {:induction false} OneInSum(freq: seq<nat>, a: nat, n: nat)
    requires a < n <= |freq|
    ensures freq[a] <= Sum(freq, n)
  {
    if a < n - 1 { OneInSum(freq, a, n - 1); }
  }

  lemma {:induction false} TwoNonZero(freq: seq<nat>, a: nat, b: nat, n: nat)
    requires a < b < n <= |freq| && freq[a] > 0 && freq[b] > 0
    ensures NonZero(freq, n) >= 2
  {
    if b == n - 1 { OneNonZero(freq, a, n - 1); } else { TwoNonZero(freq, a, b, n - 1); }
  }

  lemma {:induction false} OneNonZero(freq: seq<nat>, a: nat, n: nat)
    requires a < n <= |freq| && freq[a] > 0
    ensures NonZero(freq, n) >= 1
  {
    if a < n - 1 { OneNonZero(freq, a, n - 1); }
  }

  // ----- The forest -----

  /** The code space taken by the first n symbols that belong to the tree of c. */
  function Space(codesize: seq<nat>, owner: seq<int>, c: int, n: nat): nat
    requires n <= |codesize| && n <= |owner| && forall s :: 0 <= s < |codesize| ==> codesize[s] <= DEPTH
  {
    if n == 0 then 0
    else Space(codesize, owner, c, n - 1) + if owner[n - 1] == c then Pow2(DEPTH - codesize[n - 1]) else 0
  }

  /** chain lists symbols linked by others, from c on. */
  predicate Linked(others: seq<int>, chain: seq<nat>, c: nat)
    requires |others| == SYMBOLS
  {
    && 0 < |chain| && chain[0] == c
    && (forall i :: 0 <= i < |chain| ==> chain[i] < SYMBOLS)
    && (forall i :: 0 <= i < |chain| - 1 ==> others[chain[i]] == chain[i + 1])
    && others[chain[|chain| - 1]] == -1
  }

  predicate NoRepeats(chain: seq<nat>) { forall i, j :: 0 <= i < j < |chain| ==> chain[i] != chain[j] }

  /** The symbols of one tree: the chain of its root lists them, each once. */
  predicate Tree(others: seq<int>, owner: seq<int>, chain: seq<nat>, c: nat)
    requires |others| == |owner| == SYMBOLS
  {
    && Linked(others, chain, c) && NoRepeats(chain)
    && (forall i :: 0 <= i < |chain| ==> owner[chain[i]] == c)
    && (forall s :: 0 <= s < SYMBOLS && owner[s] == c ==> s in chain)
  }

  /** The state between two merges: chains hold the trees, owner names each symbol's root, -1 for
      symbols that are not used. Every tree fills its code space exactly. */
  ghost predicate Forest(freq: seq<nat>, codesize: seq<nat>, others: seq<int>, owner: seq<int>, chains: seq<seq<nat>>) {
    && |freq| == |codesize| == |others| == |owner| == |chains| == SYMBOLS
    && (forall s :: 0 <= s < SYMBOLS ==> codesize[s] <= SYMBOLS - NonZero(freq, SYMBOLS) && codesize[s] <= DEPTH)
    && (forall s :: 0 <= s < SYMBOLS ==> owner[s] == -1 || (0 <= owner[s] < SYMBOLS && freq[owner[s]] > 0))
    && (forall s :: 0 <= s < SYMBOLS && owner[s] == -1 ==> codesize[s] == 0)
    && (forall s :: 0 <= s < SYMBOLS && owner[s] >= 0 && codesize[s] == 0 ==> chains[owner[s]] == [s])
    && (forall c :: 0 <= c < SYMBOLS && freq[c] > 0 ==> Tree(others, owner, chains[c], c))
    && (forall c :: 0 <= c < SYMBOLS && freq[c] > 0 ==> Space(codesize, owner, c, SYMBOLS) == Pow2(DEPTH))
  }

  /** The used symbols, whatever tree they are in. */
  ghost function Used(owner: seq<int>): set<int> { set s | 0 <= s < |owner| && owner[s] >= 0 }

  // ----- The two smallest frequencies -----

  /** The smallest of the first n frequencies, other than that of skip and none over 10^9; of equal
      ones, the last. */
  function Smallest(freq: seq<nat>, skip: int, n: nat): (c: int)
    requires n <= |freq|
    ensures -1 <= c < n && (c != skip || c == -1)
    ensures c >= 0 ==> 0 < freq[c] <= NO_FREQUENCY
    ensures c >= 0 ==> forall i :: 0 <= i < n && i != skip && freq[i] > 0 ==>
      freq[c] < freq[i] || (freq[c] == freq[i] && i <= c)
    ensures c == -1 ==> forall i :: 0 <= i < n && i != skip ==> freq[i] == 0 || freq[i] > NO_FREQUENCY
  {
    if n == 0 then -1
    else
      var c := Smallest(freq, skip, n - 1);
      if freq[n - 1] != 0 && freq[n - 1] <= (if c < 0 then NO_FREQUENCY else freq[c]) && n - 1 != skip then n - 1 else c
  }

  method FindSmallest(freq: array<nat>, skip: int) returns (c: int)
    requires freq.Length == SYMBOLS
    ensures c == Smallest(freq[..], skip, SYMBOLS)
    ensures -1 <= c < SYMBOLS && (c != skip || c == -1)
    ensures c >= 0 ==> 0 < freq[c] <= NO_FREQUENCY
    ensures c >= 0 ==> forall i :: 0 <= i < SYMBOLS && i != skip && freq[i] > 0 ==>
      freq[c] < freq[i] || (freq[c] == freq[i] && i <= c)
    ensures c == -1 ==> forall i :: 0 <= i < SYMBOLS && i != skip ==> freq[i] == 0 || freq[i] > NO_FREQUENCY
  {
    c := -1;
    var v := NO_FREQUENCY;
    ghost var f := freq[..];
    for i := 0 to SYMBOLS
      invariant freq[..] == f && c == Smallest(f, skip, i) && v == if c < 0 then NO_FREQUENCY else f[c]
    {
      if freq[i] != 0 && freq[i] <= v && i != skip {
        v := freq[i];
        c := i;
      }
    }
  }

  // ----- Lengthening the codes of one tree -----

  /** Makes the code of every symbol in the chain of c0 one bit longer; returns the chain's end. */
  method Lengthen(codesize: array<nat>, others: array<int>, c0: nat, ghost chain: seq<nat>) returns (c: nat)
    requires codesize.Length == SYMBOLS && others.Length == SYMBOLS
    requires Linked(others[..], chain, c0) && NoRepeats(chain)
    modifies codesize
    ensures c == chain[|chain| - 1]
    ensures forall s :: 0 <= s < SYMBOLS ==> codesize[s] == old(codesize[s]) + if s in chain then 1 else 0
  {
    c := c0;
    codesize[c] := codesize[c] + 1;
    ghost var n := 1;
    assert chain[..1] == [c0];
    while others[c] >= 0
      invariant 1 <= n <= |chain| && c == chain[n - 1]
      invariant forall s :: 0 <= s < SYMBOLS ==> codesize[s] == old(codesize[s]) + if s in chain[..n] then 1 else 0
      decreases |chain| - n
    {
      assert chain[..n + 1] == chain[..n] + [chain[n]];
      c := others[c];
      codesize[c] := codesize[c] + 1;
      n := n + 1;
    }
    ChainEnd(others[..], chain, c0, n - 1);
    assert chain[..n] == chain;
  }

  /** Only the last symbol of a chain has no successor. */
  lemma ChainEnd(others: seq<int>, chain: seq<nat>, c0: nat, k: nat)
    requires |others| == SYMBOLS && Linked(others, chain, c0) && k < |chain| && others[chain[k]] < 0
    ensures k == |chain| - 1
  {
    forall i | 0 <= i < |chain| - 1 ensures others[chain[i]] >= 0 {
      assert others[chain[i]] == chain[i + 1];
    }
  }

  // ----- Merging two trees -----

  function Joined(owner: seq<int>, c1: int, c2: int): (o: seq<int>)
    ensures |o| == |owner|
  {
    seq(|owner|, s requires 0 <= s < |owner| => if owner[s] == c2 then c1 else owner[s])
  }

  /** One more bit for every symbol of the two trees. */
  ghost predicate Longer(before: seq<nat>, after: seq<nat>, owner: seq<int>, c1: int, c2: int) {
    && |before| == |after| == |owner|
    && forall s :: 0 <= s < |before| ==> after[s] == before[s] + if owner[s] == c1 || owner[s] == c2 then 1 else 0
  }

  function Lengthened(codesize: seq<nat>, owner: seq<int>, c1: int, c2: int): (r: seq<nat>)
    requires |codesize| == |owner|
    ensures Longer(codesize, r, owner, c1, c2)
  {
    seq(|codesize|, s requires 0 <= s < |codesize| => codesize[s] + if owner[s] == c1 || owner[s] == c2 then 1 else 0)
  }

  /** Two trees that each fill the code space fill one half of it each once they are merged. */
  lemma {:induction false} SpaceMerged(before: seq<nat>, after: seq<nat>, owner: seq<int>, c1: int, c2: int, n: nat)
    requires Longer(before, after, owner, c1, c2) && n <= |owner| && c1 != c2
    requires forall s :: 0 <= s < |before| ==> before[s] <= DEPTH && after[s] <= DEPTH
    ensures 2 * Space(after, Joined(owner, c1, c2), c1, n) == Space(before, owner, c1, n) + Space(before, owner, c2, n)
  {
    if n > 0 {
      SpaceMerged(before, after, owner, c1, c2, n - 1);
      if owner[n - 1] == c1 || owner[n - 1] == c2 { TwicePow(DEPTH - before[n - 1]); }
    }
  }

  lemma {:induction false} SpaceOther(before: seq<nat>, after: seq<nat>, owner: seq<int>, c1: int, c2: int, c: int,
      n: nat)
    requires Longer(before, after, owner, c1, c2) && n <= |owner| && c != c1 && c != c2
    requires forall s :: 0 <= s < |before| ==> before[s] <= DEPTH && after[s] <= DEPTH
    ensures Space(after, Joined(owner, c1, c2), c, n) == Space(before, owner, c, n)
  {
    if n > 0 { SpaceOther(before, after, owner, c1, c2, c, n - 1); }
  }

  /** Linking the end of one chain to the root of another joins the trees. */
  lemma TreeJoined(others: seq<int>, owner: seq<int>, a: seq<nat>, b: seq<nat>, c1: nat, c2: nat)
    requires |others| == |owner| == SYMBOLS && c1 != c2
    requires Tree(others, owner, a, c1) && Tree(others, owner, b, c2)
    ensures Tree(others[a[|a| - 1] := c2], Joined(owner, c1, c2), a + b, c1)
  {
    var e := a[|a| - 1];
    forall i | 0 <= i < |b| ensures b[i] != e { assert owner[b[i]] == c2 && owner[e] == c1; }
    var others1, owner1, c := others[e := c2], Joined(owner, c1, c2), a + b;
    forall i, j | 0 <= i < j < |c| ensures c[i] != c[j] {
      assert i < |a| ==> owner[c[i]] == c1;
      assert i >= |a| ==> c[i] == b[i - |a|];
      assert j < |a| ==> c[j] == a[j];
      assert j >= |a| ==> c[j] == b[j - |a|] && owner[c[j]] == c2;
    }
    forall s | 0 <= s < SYMBOLS && owner1[s] == c1 ensures s in c {
      assert s in a || s in b;
    }
  }

  lemma TreeOther(others: seq<int>, owner: seq<int>, chain: seq<nat>, c: nat, e: nat, c1: nat, c2: nat)
    requires |others| == |owner| == SYMBOLS && c != c1 && c != c2 && Tree(others, owner, chain, c)
    requires e < SYMBOLS && owner[e] == c1
    ensures Tree(others[e := c2], Joined(owner, c1, c2), chain, c)
  {
    forall i | 0 <= i < |chain| ensures chain[i] != e { assert owner[chain[i]] == c; }
  }

  lemma ChainOwner(others: seq<int>, owner: seq<int>, chain: seq<nat>, c: nat)
    requires |others| == |owner| == SYMBOLS && Tree(others, owner, chain, c)
    ensures forall s :: 0 <= s < SYMBOLS ==> (s in chain <==> owner[s] == c)
  {
  }

  lemma ForestMerged(freq: seq<nat>, codesize: seq<nat>, others: seq<int>, owner: seq<int>, chains: seq<seq<nat>>,
      codesize1: seq<nat>, c1: nat, c2: nat)
    requires Forest(freq, codesize, others, owner, chains) && c1 < SYMBOLS && c2 < SYMBOLS && c1 != c2
    requires freq[c1] > 0 && freq[c2] > 0 && Longer(codesize, codesize1, owner, c1, c2)
    ensures |chains[c1]| > 0 && chains[c1][|chains[c1]| - 1] < SYMBOLS
    ensures var freq1 := freq[c1 := freq[c1] + freq[c2]][c2 := 0];
      && Sum(freq1, SYMBOLS) == Sum(freq, SYMBOLS) && NonZero(freq1, SYMBOLS) == NonZero(freq, SYMBOLS) - 1
      && Forest(freq1, codesize1, others[chains[c1][|chains[c1]| - 1] := c2], Joined(owner, c1, c2),
        chains[c1 := chains[c1] + chains[c2]])
    ensures Used(Joined(owner, c1, c2)) == Used(owner)
  {
    hide Space, NonZero, Sum, Tree, Pow2, Joined, Linked, Used;
    var freq0 := freq[c1 := freq[c1] + freq[c2]];
    var freq1 := freq0[c2 := 0];
    SumUpdate(freq, c1, freq[c1] + freq[c2], SYMBOLS);
    SumUpdate(freq0, c2, 0, SYMBOLS);
    NonZeroUpdate(freq, c1, freq[c1] + freq[c2], SYMBOLS);
    NonZeroUpdate(freq0, c2, 0, SYMBOLS);
    if c1 < c2 { TwoNonZero(freq, c1, c2, SYMBOLS); } else { TwoNonZero(freq, c2, c1, SYMBOLS); }
    TreeEnd(others, owner, chains[c1], c1);
    TreeEnd(others, owner, chains[c2], c2);
    var e := chains[c1][|chains[c1]| - 1];
    var others1, owner1, chains1 := others[e := c2], Joined(owner, c1, c2), chains[c1 := chains[c1] + chains[c2]];
    TreeJoined(others, owner, chains[c1], chains[c2], c1, c2);
    SpaceMerged(codesize, codesize1, owner, c1, c2, SYMBOLS);
    forall c | 0 <= c < SYMBOLS && freq1[c] > 0
      ensures Tree(others1, owner1, chains1[c], c) && Space(codesize1, owner1, c, SYMBOLS) == Pow2(DEPTH)
    {
      if c != c1 {
        TreeOther(others, owner, chains[c], c, e, c1, c2);
        SpaceOther(codesize, codesize1, owner, c1, c2, c, SYMBOLS);
      }
    }
    JoinedOwner(owner, c1, c2);
  }

  lemma JoinedOwner(owner: seq<int>, c1: nat, c2: nat)
    ensures forall s :: 0 <= s < |owner| ==> Joined(owner, c1, c2)[s] == if owner[s] == c2 then c1 else owner[s]
    ensures Used(Joined(owner, c1, c2)) == Used(owner)
  {
  }

  lemma TreeEnd(others: seq<int>, owner: seq<int>, chain: seq<nat>, c: nat)
    requires |others| == |owner| == SYMBOLS && Tree(others, owner, chain, c)
    ensures |chain| > 0 && chain[|chain| - 1] < SYMBOLS && owner[chain[|chain| - 1]] == c
  {
  }

  /** Merges the trees of c1 and c2 into one with root c1. */
  method MergeTrees(freq: array<nat>, codesize: array<nat>, others: array<int>, c1: nat, c2: nat,
      ghost owner: seq<int>, ghost chains: seq<seq<nat>>)
    requires freq.Length == SYMBOLS && codesize.Length == SYMBOLS && others.Length == SYMBOLS && freq != codesize
    requires Forest(freq[..], codesize[..], others[..], owner, chains)
    requires c1 < SYMBOLS && c2 < SYMBOLS && c1 != c2 && freq[c1] > 0 && freq[c2] > 0
    modifies freq, codesize, others
    ensures Sum(freq[..], SYMBOLS) == old(Sum(freq[..], SYMBOLS))
    ensures NonZero(freq[..], SYMBOLS) == old(NonZero(freq[..], SYMBOLS)) - 1
    ensures Forest(freq[..], codesize[..], others[..], Joined(owner, c1, c2), chains[c1 := chains[c1] + chains[c2]])
    ensures Used(Joined(owner, c1, c2)) == Used(owner)
    ensures freq[..] == old(freq[..])[c1 := old(freq[c1]) + old(freq[c2])][c2 := 0]
    ensures Longer(old(codesize[..]), codesize[..], owner, c1, c2)
  {
    hide Space, NonZero, Sum, Pow2, Joined, Used, Forest, Tree, Linked, NoRepeats;
    ghost var fs, cs, os := freq[..], codesize[..], others[..];
    ForestTree(fs, cs, os, owner, chains, c1);
    ForestTree(fs, cs, os, owner, chains, c2);
    TreeEnd(os, owner, chains[c1], c1);
    freq[c1] := freq[c1] + freq[c2];
    freq[c2] := 0;
    var e := Lengthen(codesize, others, c1, chains[c1]);
    LinkedOther(os, owner, chains[c2], c2, e, c2);
    others[e] := c2;
    assert others[..] == os[e := c2];
    e := Lengthen(codesize, others, c2, chains[c2]);
    assert Longer(cs, codesize[..], owner, c1, c2);
    ForestMerged(fs, cs, os, owner, chains, codesize[..], c1, c2);
    assert freq[..] == fs[c1 := fs[c1] + fs[c2]][c2 := 0];
  }

  lemma ForestTree(freq: seq<nat>, codesize: seq<nat>, others: seq<int>, owner: seq<int>, chains: seq<seq<nat>>, c: nat)
    requires Forest(freq, codesize, others, owner, chains) && c < SYMBOLS && freq[c] > 0
    ensures |others| == |owner| == |chains| == SYMBOLS
    ensures Tree(others, owner, chains[c], c) && Linked(others, chains[c], c) && NoRepeats(chains[c])
    ensures forall s :: 0 <= s < SYMBOLS ==> (s in chains[c] <==> owner[s] == c)
  {
    hide Space, NonZero, Pow2;
    ChainOwner(others, owner, chains[c], c);
  }

  lemma LinkedOther(others: seq<int>, owner: seq<int>, chain: seq<nat>, c: nat, e: nat, v: int)
    requires |others| == |owner| == SYMBOLS && Tree(others, owner, chain, c) && e < SYMBOLS && owner[e] != c
    ensures Linked(others[e := v], chain, c)
  {
    forall i | 0 <= i < |chain| ensures chain[i] != e { assert owner[chain[i]] == c; }
  }

  // ----- The lengths that the algorithm arrives at -----

  function MergedFreq(freq: seq<nat>, c1: nat, c2: nat): (f: seq<nat>)
    requires c1 < |freq| && c2 < |freq|
    ensures |f| == |freq|
  {
    freq[c1 := freq[c1] + freq[c2]][c2 := 0]
  }

  lemma FewerTrees(freq: seq<nat>, c1: nat, c2: nat, n: nat)
    requires c1 < n && c2 < n && c1 != c2 && n <= |freq| && freq[c1] > 0 && freq[c2] > 0
    ensures NonZero(MergedFreq(freq, c1, c2), n) == NonZero(freq, n) - 1
    ensures Sum(MergedFreq(freq, c1, c2), n) == Sum(freq, n)
  {
    var f := freq[c1 := freq[c1] + freq[c2]];
    SumUpdate(freq, c1, freq[c1] + freq[c2], n);
    SumUpdate(f, c2, 0, n);
    NonZeroUpdate(freq, c1, freq[c1] + freq[c2], n);
    NonZeroUpdate(f, c2, 0, n);
  }

  /** The code lengths once no two trees are left to merge. */
  function MergeRun(freq: seq<nat>, codesize: seq<nat>, owner: seq<int>): (r: seq<nat>)
    requires |freq| == |codesize| == |owner| == SYMBOLS
    ensures |r| == SYMBOLS
    decreases NonZero(freq, SYMBOLS)
  {
    var c1 := Smallest(freq, -1, SYMBOLS);
    var c2 := Smallest(freq, c1, SYMBOLS);
    if c2 < 0 || c1 < 0 then codesize
    else
      FewerTrees(freq, c1, c2, SYMBOLS);
      MergeRun(MergedFreq(freq, c1, c2), Lengthened(codesize, owner, c1, c2), Joined(owner, c1, c2))
  }

  /** The code lengths for these frequencies. */
  function Lengths(freq: seq<nat>): (r: seq<nat>)
    requires |freq| == SYMBOLS
    ensures |r| == SYMBOLS
  {
    MergeRun(freq, seq(SYMBOLS, s => 0), StartOwner(freq))
  }

  // ----- How deep trees can grow -----

  function Fib(n: nat): nat { if n <= 1 then n else Fib(n - 1) + Fib(n - 2) }

  lemma {:induction false} FibMonotone(m: nat, n: nat)
    requires m <= n
    ensures Fib(m) <= Fib(n)
    decreases n - m
  {
    if m < n { FibMonotone(m, n - 1); }
  }

  /** Growth of a tree: its height, and the larger of the frequencies it was merged from. */
  datatype Growth = Growth(height: nat, part: nat)

  /** No code is longer than its tree is high. */
  ghost predicate Within(codesize: seq<nat>, owner: seq<int>, g: seq<Growth>) {
    && |codesize| == |owner| == |g| == SYMBOLS
    && forall s :: 0 <= s < SYMBOLS && 0 <= owner[s] < SYMBOLS ==> codesize[s] <= g[owner[s]].height
  }

  /** A tree of some height has at least the matching Fibonacci number as its frequency, and no
      other tree is lighter than the heavier part of this one was when it was merged. */
  ghost predicate Heavy(freq: seq<nat>, g: seq<Growth>) {
    && |freq| == |g| == SYMBOLS
    && (forall c :: 0 <= c < SYMBOLS && freq[c] > 0 ==> freq[c] >= Fib(g[c].height + 2))
    && (forall c :: 0 <= c < SYMBOLS && freq[c] > 0 && g[c].height > 0 ==> g[c].part >= Fib(g[c].height + 1))
    && (forall c, d :: 0 <= c < SYMBOLS && 0 <= d < SYMBOLS && c != d && freq[c] > 0 && freq[d] > 0 ==>
      freq[d] >= g[c].part)
  }

  ghost predicate Grown(freq: seq<nat>, codesize: seq<nat>, owner: seq<int>, g: seq<Growth>) {
    Within(codesize, owner, g) && Heavy(freq, g)
  }

  function Merged(a: Growth, b: Growth, fb: nat): Growth {
    Growth((if a.height > b.height then a.height else b.height) + 1, fb)
  }

  lemma WithinMerged(codesize: seq<nat>, owner: seq<int>, g: seq<Growth>, codesize1: seq<nat>, c1: nat, c2: nat,
      part: nat)
    requires Within(codesize, owner, g) && c1 < SYMBOLS && c2 < SYMBOLS && Longer(codesize, codesize1, owner, c1, c2)
    ensures Within(codesize1, Joined(owner, c1, c2), g[c1 := Merged(g[c1], g[c2], part)])
  {
  }

  /** The merged tree is heavy enough for its height: its heavier part was not lighter than the
      heavier part of either tree. */
  lemma MergedHeavy(freq: seq<nat>, g: seq<Growth>, c1: nat, c2: nat)
    requires Heavy(freq, g) && c1 < SYMBOLS && c2 < SYMBOLS && c1 != c2 && 0 < freq[c1] <= freq[c2]
    ensures var m := Merged(g[c1], g[c2], freq[c2]);
      freq[c1] + freq[c2] >= Fib(m.height + 2) && m.part >= Fib(m.height + 1)
  {
    hide Fib;
    var h := if g[c1].height > g[c2].height then g[c1].height else g[c2].height;
    FibStep(h);
    FibStep(h + 1);
  }

  /** Merging the two lightest trees keeps every tree heavy enough for its height. */
  lemma GrownMerged(freq: seq<nat>, codesize: seq<nat>, owner: seq<int>, g: seq<Growth>, codesize1: seq<nat>, c1: nat,
      c2: nat)
    requires Grown(freq, codesize, owner, g) && c1 < SYMBOLS && c2 < SYMBOLS && c1 != c2
    requires freq[c1] > 0 && freq[c2] > 0 && Longer(codesize, codesize1, owner, c1, c2)
    requires forall i :: 0 <= i < SYMBOLS && freq[i] > 0 ==> freq[c1] <= freq[i]
    requires forall i :: 0 <= i < SYMBOLS && i != c1 && freq[i] > 0 ==> freq[c2] <= freq[i]
    ensures Grown(freq[c1 := freq[c1] + freq[c2]][c2 := 0], codesize1, Joined(owner, c1, c2),
      g[c1 := Merged(g[c1], g[c2], freq[c2])])
  {
    hide Fib, Within, Longer, Joined;
    WithinMerged(codesize, owner, g, codesize1, c1, c2, freq[c2]);
    MergedHeavy(freq, g, c1, c2);
  }

  lemma FibStep(n: nat)
    ensures Fib(n + 2) == Fib(n + 1) + Fib(n) && Fib(1) == Fib(2) == 1
  {
  }

  // ----- The whole tree -----

  /** The code space taken by all symbols that have a code. */
  function AllSpace(codesize: seq<nat>, n: nat): nat
    requires n <= |codesize| && forall s :: 0 <= s < |codesize| ==> codesize[s] <= DEPTH
  {
    if n == 0 then 0
    else AllSpace(codesize, n - 1) + if codesize[n - 1] > 0 then Pow2(DEPTH - codesize[n - 1]) else 0
  }

  /** Exactly the symbols in used have a code, and the codes fill the code space exactly. */
  ghost predicate Complete(codesize: seq<nat>, used: set<int>) {
    && |codesize| == SYMBOLS
    && (forall s :: 0 <= s < SYMBOLS ==> (codesize[s] > 0 <==> s in used))
    && (forall s :: 0 <= s < SYMBOLS ==> codesize[s] <= DEPTH)
    && AllSpace(codesize, SYMBOLS) == Pow2(DEPTH)
  }

  lemma {:induction false} SpaceStart(codesize: seq<nat>, owner: seq<int>, c: nat, n: nat)
    requires n <= |codesize| == |owner| && forall s :: 0 <= s < |codesize| ==> codesize[s] == 0
    requires forall s :: 0 <= s < |owner| ==> (owner[s] == c <==> s == c)
    ensures Space(codesize, owner, c, n) == if c < n then Pow2(DEPTH) else 0
  {
    hide Pow2;
    if n > 0 { SpaceStart(codesize, owner, c, n - 1); }
  }

  /** At first every used symbol is a tree of its own. */
  lemma ForestStart(freq: seq<nat>, codesize: seq<nat>, others: seq<int>, owner: seq<int>, chains: seq<seq<nat>>)
    requires |freq| == |codesize| == |others| == |owner| == |chains| == SYMBOLS
    requires forall s :: 0 <= s < SYMBOLS ==> codesize[s] == 0 && others[s] == -1 && chains[s] == [s]
    requires forall s :: 0 <= s < SYMBOLS ==> owner[s] == if freq[s] > 0 then s else -1
    ensures Forest(freq, codesize, others, owner, chains)
  {
    hide NonZero, Pow2, Space;
    forall c | 0 <= c < SYMBOLS && freq[c] > 0
      ensures Tree(others, owner, chains[c], c) && Space(codesize, owner, c, SYMBOLS) == Pow2(DEPTH)
    {
      SpaceStart(codesize, owner, c, SYMBOLS);
    }
  }

  lemma {:induction false} SpaceIsAll(codesize: seq<nat>, owner: seq<int>, c: int, n: nat)
    requires n <= |codesize| == |owner| && forall s :: 0 <= s < |codesize| ==> codesize[s] <= DEPTH
    requires forall s :: 0 <= s < |codesize| ==> (codesize[s] > 0 <==> owner[s] == c)
    ensures Space(codesize, owner, c, n) == AllSpace(codesize, n)
  {
    if n > 0 { SpaceIsAll(codesize, owner, c, n - 1); }
  }

  predicate OneTreeOnly(freq: seq<nat>)
    requires |freq| == SYMBOLS
  {
    forall c, d :: 0 <= c < d < SYMBOLS ==> freq[c] == 0 || freq[d] == 0
  }

  lemma SameTree(freq: seq<nat>, c: nat, d: nat)
    requires |freq| == SYMBOLS && OneTreeOnly(freq) && c < SYMBOLS && d < SYMBOLS && freq[c] > 0 && freq[d] > 0
    ensures c == d
  {
  }

  lemma TwoInChain(chain: seq<nat>, a: nat, b: nat)
    requires a in chain && b in chain && a != b
    ensures |chain| >= 2
  {
  }

  /** A forest with a single tree of at least two symbols is a complete code. */
  lemma ForestDone(freq: seq<nat>, codesize: seq<nat>, others: seq<int>, owner: seq<int>, chains: seq<seq<nat>>, a: nat,
      b: nat)
    requires Forest(freq, codesize, others, owner, chains) && a < SYMBOLS && b < SYMBOLS && a != b
    requires |owner| == SYMBOLS && owner[a] >= 0 && owner[b] >= 0
    requires OneTreeOnly(freq)
    ensures Complete(codesize, Used(owner))
  {
    hide NonZero, Pow2, Space, AllSpace;
    var c := owner[a];
    forall s | 0 <= s < SYMBOLS && owner[s] >= 0 ensures owner[s] == c { SameTree(freq, owner[s], c); }
    ForestTree(freq, codesize, others, owner, chains, c);
    TwoInChain(chains[c], a, b);
    SpaceIsAll(codesize, owner, c, SYMBOLS);
  }

  /** With a total that stays within reach of the search, nothing is left to merge only when a
      single tree is left. */
  lemma OneLeft(freq: seq<nat>, c1: int)
    requires |freq| == SYMBOLS && Sum(freq, SYMBOLS) <= NO_FREQUENCY + 1
    requires c1 == -1 ==> forall i :: 0 <= i < SYMBOLS ==> freq[i] == 0 || freq[i] > NO_FREQUENCY
    requires forall i :: 0 <= i < SYMBOLS && i != c1 ==> freq[i] == 0 || freq[i] > NO_FREQUENCY
    ensures OneTreeOnly(freq)
  {
    forall c, d | 0 <= c < d < SYMBOLS ensures freq[c] == 0 || freq[d] == 0 {
      TwoInSum(freq, c, d, SYMBOLS);
    }
  }

  /** In a single tree no code is longer than the total count allows. */
  lemma GrownDone(freq: seq<nat>, codesize: seq<nat>, others: seq<int>, owner: seq<int>, chains: seq<seq<nat>>,
      g: seq<Growth>, s: nat)
    requires Forest(freq, codesize, others, owner, chains) && Grown(freq, codesize, owner, g) && s < SYMBOLS
    requires |freq| == SYMBOLS
    ensures codesize[s] > 0 ==> Fib(codesize[s] + 2) <= Sum(freq, SYMBOLS)
  {
    hide Fib, Sum, NonZero, Tree, Space;
    if codesize[s] > 0 {
      var c := owner[s];
      FibMonotone(codesize[s] + 2, g[c].height + 2);
      OneInSum(freq, c, SYMBOLS);
    }
  }

  /** Merges the two lightest trees until only one is left. */
  method MergeAll(freq: array<nat>, codesize: array<nat>, others: array<int>, ghost owner0: seq<int>,
      ghost chains0: seq<seq<nat>>,
      ghost g0: seq<Growth>) returns (ghost owner: seq<int>, ghost chains: seq<seq<nat>>, ghost g: seq<Growth>)
    requires freq.Length == SYMBOLS && codesize.Length == SYMBOLS && others.Length == SYMBOLS && freq != codesize
    requires Forest(freq[..], codesize[..], others[..], owner0, chains0) && Grown(freq[..], codesize[..], owner0, g0)
    requires Sum(freq[..], SYMBOLS) <= NO_FREQUENCY + 1
    modifies freq, codesize, others
    ensures Forest(freq[..], codesize[..], others[..], owner, chains) && Grown(freq[..], codesize[..], owner, g)
    ensures Used(owner) == Used(owner0) && Sum(freq[..], SYMBOLS) == old(Sum(freq[..], SYMBOLS))
    ensures OneTreeOnly(freq[..])
    ensures |owner0| == SYMBOLS && codesize[..] == MergeRun(old(freq[..]), old(codesize[..]), owner0)
  {
    hide NonZero, Sum, Forest, Joined, Grown, Longer, OneTreeOnly, MergeRun, Smallest, Lengthened, MergedFreq;
    Shapes(freq[..], codesize[..], others[..], owner0, chains0, g0);
    ghost var goal := MergeRun(freq[..], codesize[..], owner0);
    owner, chains, g := owner0, chains0, g0;
    while true
      invariant |owner| == SYMBOLS && MergeRun(freq[..], codesize[..], owner) == goal
      invariant Forest(freq[..], codesize[..], others[..], owner, chains) && Grown(freq[..], codesize[..], owner, g)
      invariant Used(owner) == Used(owner0) && Sum(freq[..], SYMBOLS) == old(Sum(freq[..], SYMBOLS))
      decreases NonZero(freq[..], SYMBOLS)
    {
      var c1 := FindSmallest(freq, -1);
      var c2 := FindSmallest(freq, c1);
      if c2 < 0 {
        OneLeft(freq[..], c1);
        RunEnds(freq[..], codesize[..], owner);
        break;
      }
      ghost var fs, cs := freq[..], codesize[..];
      Shapes(fs, cs, others[..], owner, chains, g);
      MergeTrees(freq, codesize, others, c1, c2, owner, chains);
      GrownMerged(fs, cs, owner, g, codesize[..], c1, c2);
      RunGoesOn(fs, cs, codesize[..], owner);
      owner, chains, g := Joined(owner, c1, c2), chains[c1 := chains[c1] + chains[c2]],
        g[c1 := Merged(g[c1], g[c2], fs[c2])];
    }
  }

  lemma RunEnds(freq: seq<nat>, codesize: seq<nat>, owner: seq<int>)
    requires |freq| == |codesize| == |owner| == SYMBOLS && Smallest(freq, Smallest(freq, -1, SYMBOLS), SYMBOLS) < 0
    ensures MergeRun(freq, codesize, owner) == codesize
  {
  }

  lemma RunGoesOn(freq: seq<nat>, codesize: seq<nat>, codesize1: seq<nat>, owner: seq<int>)
    requires |freq| == |codesize| == |owner| == SYMBOLS
    ensures var c1 := Smallest(freq, -1, SYMBOLS); var c2 := Smallest(freq, c1, SYMBOLS);
      c1 >= 0 && c2 >= 0 && Longer(codesize, codesize1, owner, c1, c2) ==>
        MergeRun(freq, codesize, owner) ==
          MergeRun(freq[c1 := freq[c1] + freq[c2]][c2 := 0], codesize1, Joined(owner, c1, c2))
  {
    hide Smallest, Joined;
    var c1 := Smallest(freq, -1, SYMBOLS);
    var c2 := Smallest(freq, c1, SYMBOLS);
    if c1 >= 0 && c2 >= 0 && Longer(codesize, codesize1, owner, c1, c2) {
      assert codesize1 == Lengthened(codesize, owner, c1, c2);
    }
  }

  lemma Shapes(freq: seq<nat>, codesize: seq<nat>, others: seq<int>, owner: seq<int>, chains: seq<seq<nat>>,
      g: seq<Growth>)
    requires Forest(freq, codesize, others, owner, chains) && Grown(freq, codesize, owner, g)
    ensures |owner| == |chains| == |g| == SYMBOLS
  {
  }

  ghost function UsedSymbols(freq: seq<nat>): set<int> { set s | 0 <= s < |freq| && freq[s] > 0 }

  function StartOwner(freq: seq<nat>): (owner: seq<int>)
    ensures |owner| == |freq| && forall s :: 0 <= s < |freq| ==> owner[s] == if freq[s] > 0 then s else -1
  {
    seq(|freq|, s requires 0 <= s < |freq| => if freq[s] > 0 then s else -1)
  }

  lemma StartUsed(freq: seq<nat>, a: nat)
    requires |freq| == SYMBOLS && freq[256] > 0 && a < SYMBOLS && freq[a] > 0
    ensures Used(StartOwner(freq)) == UsedSymbols(freq) && a in UsedSymbols(freq) && 256 in UsedSymbols(freq)
  {
  }

  /** Huffman's algorithm: for at least one used symbol besides the reserved one, and a total count
      of at most 10^9, it gives exactly the used symbols a code, the codes are complete, and none is
      longer than the total allows. */
  method BuildTree(freq: array<nat>) returns (codesize: array<nat>)
    requires freq.Length == SYMBOLS && freq[256] == 1 && Sum(freq[..], SYMBOLS) <= NO_FREQUENCY + 1
    requires exists s :: 0 <= s < 256 && freq[s] > 0
    modifies freq
    ensures fresh(codesize) && codesize[..] == Lengths(old(freq[..]))
    ensures Complete(codesize[..], UsedSymbols(old(freq[..])))
    ensures forall s :: 0 <= s < SYMBOLS && codesize[s] > 0 ==> Fib(codesize[s] + 2) <= old(Sum(freq[..], SYMBOLS))
  {
    hide NonZero, Sum, Forest, Fib, Complete, Grown, Used, OneTreeOnly, StartOwner, UsedSymbols, MergeRun;
    codesize := new nat[SYMBOLS](_ => 0);
    assert codesize[..] == seq(SYMBOLS, s => 0);
    var others := new int[SYMBOLS](_ => -1);
    ghost var owner0 := StartOwner(freq[..]);
    ghost var chains0: seq<seq<nat>> := seq(SYMBOLS, s => [s]);
    ghost var g0 := seq(SYMBOLS, s => Growth(0, 0));
    ForestStart(freq[..], codesize[..], others[..], owner0, chains0);
    GrownStart(freq[..], codesize[..], owner0, g0);
    ghost var a :| 0 <= a < 256 && freq[a] > 0;
    StartUsed(freq[..], a);
    ghost var owner, chains, g := MergeAll(freq, codesize, others, owner0, chains0, g0);
    AllDone(freq[..], codesize[..], others[..], owner, chains, g, a);
  }

  lemma AllDone(freq: seq<nat>, codesize: seq<nat>, others: seq<int>, owner: seq<int>, chains: seq<seq<nat>>,
      g: seq<Growth>, a: nat)
    requires Forest(freq, codesize, others, owner, chains) && Grown(freq, codesize, owner, g)
    requires a < 256 && a in Used(owner) && 256 in Used(owner) && |freq| == SYMBOLS && OneTreeOnly(freq)
    ensures Complete(codesize, Used(owner))
    ensures |codesize| == SYMBOLS && forall s :: 0 <= s < SYMBOLS && codesize[s] > 0 ==>
      Fib(codesize[s] + 2) <= Sum(freq, SYMBOLS)
  {
    hide NonZero, Sum, Forest, Fib, Complete, Grown;
    Shapes(freq, codesize, others, owner, chains, g);
    ForestDone(freq, codesize, others, owner, chains, a, 256);
    SameLength(codesize, Used(owner));
    forall s | 0 <= s < SYMBOLS ensures codesize[s] > 0 ==> Fib(codesize[s] + 2) <= Sum(freq, SYMBOLS) {
      GrownDone(freq, codesize, others, owner, chains, g, s);
    }
  }

  lemma SameLength(codesize: seq<nat>, used: set<int>)
    requires Complete(codesize, used)
    ensures |codesize| == SYMBOLS
  {
  }

  lemma GrownStart(freq: seq<nat>, codesize: seq<nat>, owner: seq<int>, g: seq<Growth>)
    requires |freq| == |codesize| == |owner| == |g| == SYMBOLS
    requires forall s :: 0 <= s < SYMBOLS ==> codesize[s] == 0 && g[s] == Growth(0, 0)
    ensures Grown(freq, codesize, owner, g)
  {
    FibStep(0);
  }
}
