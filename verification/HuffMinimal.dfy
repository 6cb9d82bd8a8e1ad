/** Huffman's algorithm as the library runs it is optimal: no prefix code for the symbols that occur takes
    fewer bits in total. */
module HuffMinimal {
  import opened Bits
  import opened HuffMerge
  import opened HuffOrder

  /** The bits for all occurrences of the first n symbols. */
  function Cost(freq: seq<nat>, sizes: seq<nat>, n: nat): nat
    requires n <= |freq| && n <= |sizes|
  {
    if n == 0 then 0 else Cost(freq, sizes, n - 1) + freq[n - 1] * sizes[n - 1]
  }

  /** The part of a code space of 2 ** m that a symbol takes, if it occurs. */
  function Part(f: nat, l: nat, m: nat): nat { if f > 0 && l <= m then Pow2(m - l) else 0 }

  function Room(freq: seq<nat>, sizes: seq<nat>, m: nat, n: nat): nat
    requires n <= |freq| && n <= |sizes|
  {
    if n == 0 then 0 else Room(freq, sizes, m, n - 1) + Part(freq[n - 1], sizes[n - 1], m)
  }

  /** The lengths, up to m, of a prefix code for the symbols that occur: those that satisfy the inequality of
      Kraft and McMillan. */
  ghost predicate Prefix(freq: seq<nat>, sizes: seq<nat>, m: nat) {
    && |freq| == |sizes| == SYMBOLS
    && (forall s :: 0 <= s < SYMBOLS && freq[s] > 0 ==> sizes[s] <= m)
    && Room(freq, sizes, m, SYMBOLS) <= Pow2(m)
  }

  // ----- Changing a symbol -----

  lemma {:induction false} CostUpdate(freq: seq<nat>, sizes: seq<nat>, i: nat, f: nat, l: nat, n: nat)
    requires n <= |freq| == |sizes| && i < |freq|
    ensures Cost(freq[i := f], sizes[i := l], n) ==
      Cost(freq, sizes, n) + if i < n then f * l - freq[i] * sizes[i] else 0
  {
    if n > 0 { CostUpdate(freq, sizes, i, f, l, n - 1); }
  }

  lemma {:induction false} RoomUpdate(freq: seq<nat>, sizes: seq<nat>, m: nat, i: nat, f: nat, l: nat, n: nat)
    requires n <= |freq| == |sizes| && i < |freq|
    ensures Room(freq[i := f], sizes[i := l], m, n) ==
      Room(freq, sizes, m, n) + if i < n then Part(f, l, m) - Part(freq[i], sizes[i], m) else 0
  {
    hide Part;
    if n > 0 { RoomUpdate(freq, sizes, m, i, f, l, n - 1); }
  }

  lemma {:induction false} InRoom(freq: seq<nat>, sizes: seq<nat>, m: nat, i: nat, n: nat)
    requires i < n <= |freq| == |sizes|
    ensures Part(freq[i], sizes[i], m) <= Room(freq, sizes, m, n)
  {
    if i < n - 1 { InRoom(freq, sizes, m, i, n - 1); }
  }

  /** Exchanging lengths so that the symbol that occurs less often has the longer code. */
  lemma Exchanged(freq: seq<nat>, sizes: seq<nat>, m: nat, a: nat, b: nat)
    requires Prefix(freq, sizes, m) && a < SYMBOLS && b < SYMBOLS && a != b
    requires 0 < freq[a] <= freq[b] && sizes[a] <= sizes[b]
    ensures var r := sizes[a := sizes[b]][b := sizes[a]];
      Prefix(freq, r, m) && Cost(freq, r, SYMBOLS) <= Cost(freq, sizes, SYMBOLS)
  {
    hide Cost, Room, Pow2;
    var r0 := sizes[a := sizes[b]];
    CostUpdate(freq, sizes, a, freq[a], sizes[b], SYMBOLS);
    CostUpdate(freq, r0, b, freq[b], sizes[a], SYMBOLS);
    RoomUpdate(freq, sizes, m, a, freq[a], sizes[b], SYMBOLS);
    RoomUpdate(freq, r0, m, b, freq[b], sizes[a], SYMBOLS);
    assert freq[a := freq[a]] == freq && freq[b := freq[b]] == freq;
    Cheaper(freq[a], freq[b], sizes[a], sizes[b]);
  }

  lemma Cheaper(fa: nat, fb: nat, la: nat, lb: nat)
    requires fa <= fb && la <= lb
    ensures fa * lb + fb * la <= fa * la + fb * lb
  {
    var f, l := fb - fa, lb - la;
    assert fb * lb + fa * la - fa * lb - fb * la == f * l;
  }

  // ----- The two symbols that occur least get the longest codes -----

  ghost predicate LongestBut(freq: seq<nat>, sizes: seq<nat>, c: int, skip: int) {
    && |freq| == |sizes| == SYMBOLS && 0 <= c < SYMBOLS
    && forall s :: 0 <= s < SYMBOLS && s != skip && freq[s] > 0 ==> sizes[s] <= sizes[c]
  }

  lemma {:induction false} Longest(freq: seq<nat>, sizes: seq<nat>, skip: int, n: nat) returns (x: int)
    requires n <= |freq| == |sizes|
    ensures -1 <= x < n && (x >= 0 ==> x != skip && freq[x] > 0)
    ensures forall s :: 0 <= s < n && s != skip && freq[s] > 0 ==> x >= 0 && sizes[s] <= sizes[x]
  {
    if n == 0 {
      x := -1;
    } else {
      x := Longest(freq, sizes, skip, n - 1);
      if n - 1 != skip && freq[n - 1] > 0 && (x < 0 || sizes[n - 1] > sizes[x]) { x := n - 1; }
    }
  }

  /** Among all symbols but skip, c occurs least. */
  lemma Sink(freq: seq<nat>, sizes: seq<nat>, m: nat, c: nat, skip: int) returns (r: seq<nat>)
    requires Prefix(freq, sizes, m) && c < SYMBOLS && c != skip && freq[c] > 0
    requires forall q :: 0 <= q < SYMBOLS && q != skip && freq[q] > 0 ==> freq[c] <= freq[q]
    requires skip >= 0 ==> LongestBut(freq, sizes, skip, skip)
    ensures Prefix(freq, r, m) && Cost(freq, r, SYMBOLS) <= Cost(freq, sizes, SYMBOLS)
    ensures LongestBut(freq, r, c, skip) && (skip >= 0 ==> LongestBut(freq, r, skip, skip))
  {
    hide Cost, Room, Pow2;
    var x := Longest(freq, sizes, skip, SYMBOLS);
    r := sizes;
    if x != c {
      Exchanged(freq, sizes, m, c, x);
      r := sizes[c := sizes[x]][x := sizes[c]];
    }
  }

  lemma {:induction false} Multiple(freq: seq<nat>, sizes: seq<nat>, m: nat, k: nat, n: nat) returns (q: nat)
    requires n <= |freq| == |sizes| && k <= m && forall s :: 0 <= s < n && freq[s] > 0 ==> sizes[s] <= k
    ensures Room(freq, sizes, m, n) == q * Pow2(m - k)
  {
    hide Pow2;
    q := 0;
    if n > 0 {
      q := Multiple(freq, sizes, m, k, n - 1);
      if freq[n - 1] > 0 {
        var l := sizes[n - 1];
        Pow2Add(k - l, m - k);
        assert (q + Pow2(k - l)) * Pow2(m - k) == q * Pow2(m - k) + Pow2(k - l) * Pow2(m - k);
        q := q + Pow2(k - l);
      }
    }
  }

  /** A code space of q parts that another code does not fill has room for one part more. */
  lemma RoomLeft(q: nat, k: nat, m: nat, rest: nat)
    requires k <= m && rest > 0 && q * Pow2(m - k) + rest <= Pow2(m)
    ensures q * Pow2(m - k) + Pow2(m - k) <= Pow2(m)
  {
    hide Pow2;
    var p := Pow2(m - k);
    Pow2Add(k, m - k);
    if q >= Pow2(k) { MulMonotone(Pow2(k), q, p); }
    MulMonotone(q + 1, Pow2(k), p);
    assert (q + 1) * p == q * p + p;
  }

  /** The longest code can be cut down to the next. */
  lemma Level(freq: seq<nat>, sizes: seq<nat>, m: nat, c1: nat, c2: nat)
    requires Prefix(freq, sizes, m) && c1 < SYMBOLS && c2 < SYMBOLS && c1 != c2 && freq[c1] > 0 && freq[c2] > 0
    requires LongestBut(freq, sizes, c2, c1) && sizes[c2] <= sizes[c1]
    ensures sizes[c2] > 0 && Prefix(freq, sizes[c1 := sizes[c2]], m)
    ensures Cost(freq, sizes[c1 := sizes[c2]], SYMBOLS) <= Cost(freq, sizes, SYMBOLS)
  {
    hide Cost, Room, Pow2;
    var k, f := sizes[c2], freq[c1 := 0];
    CostUpdate(freq, sizes, c1, freq[c1], k, SYMBOLS);
    RoomUpdate(freq, sizes, m, c1, freq[c1], k, SYMBOLS);
    RoomUpdate(freq, sizes, m, c1, 0, sizes[c1], SYMBOLS);
    assert freq[c1 := freq[c1]] == freq && sizes[c1 := sizes[c1]] == sizes;
    MulMonotone(k, sizes[c1], freq[c1]);
    var q := Multiple(f, sizes, m, k, SYMBOLS);
    InRoom(f, sizes, m, c2, SYMBOLS);
    RoomLeft(q, k, m, Pow2(m - sizes[c1]));
  }

  /** Two codes that differ in their last bit only become one that is a bit shorter. */
  lemma Shortened(freq: seq<nat>, sizes: seq<nat>, m: nat, c1: nat, c2: nat)
    requires Prefix(freq, sizes, m) && c1 < SYMBOLS && c2 < SYMBOLS && c1 != c2 && freq[c1] > 0 && freq[c2] > 0
    requires sizes[c1] == sizes[c2] > 0
    ensures var f, r := MergedFreq(freq, c1, c2), sizes[c1 := sizes[c1] - 1];
      Prefix(f, r, m) && Cost(f, r, SYMBOLS) + freq[c1] + freq[c2] == Cost(freq, sizes, SYMBOLS)
  {
    hide Cost, Room, Pow2;
    var k, f0, r := sizes[c1], freq[c1 := freq[c1] + freq[c2]], sizes[c1 := sizes[c1] - 1];
    CostUpdate(freq, sizes, c1, freq[c1] + freq[c2], k - 1, SYMBOLS);
    CostUpdate(f0, r, c2, 0, k, SYMBOLS);
    RoomUpdate(freq, sizes, m, c1, freq[c1] + freq[c2], k - 1, SYMBOLS);
    RoomUpdate(f0, r, m, c2, 0, k, SYMBOLS);
    assert r[c2 := k] == r;
    TwicePow(m - k + 1);
    Total(freq[c1], freq[c2], k);
  }

  lemma Total(a: nat, b: nat, k: nat)
    requires k > 0
    ensures (a + b) * (k - 1) + a + b == a * k + b * k
  {
  }

  // ----- No code is cheaper -----

  /** What the merges cost: each makes the codes of two trees a bit longer. */
  function Least(freq: seq<nat>): nat
    requires |freq| == SYMBOLS
    decreases NonZero(freq, SYMBOLS)
  {
    var c1 := Smallest(freq, -1, SYMBOLS);
    var c2 := Smallest(freq, c1, SYMBOLS);
    if c2 < 0 || c1 < 0 then 0
    else
      FewerTrees(freq, c1, c2, SYMBOLS);
      freq[c1] + freq[c2] + Least(MergedFreq(freq, c1, c2))
  }

  lemma NextLeast(freq: seq<nat>, c1: int, c2: int)
    requires Next(freq, c1, c2)
    ensures forall q :: 0 <= q < SYMBOLS && freq[q] > 0 ==> freq[c1] <= freq[q]
    ensures forall q :: 0 <= q < SYMBOLS && q != c1 && freq[q] > 0 ==> freq[c2] <= freq[q]
  {
    forall q | 0 <= q < SYMBOLS && freq[q] > 0 ensures freq[c1] <= freq[q] {
      if q != c1 { assert First(freq, c1, q); }
    }
    forall q | 0 <= q < SYMBOLS && q != c1 && freq[q] > 0 ensures freq[c2] <= freq[q] {
      if q != c2 { assert First(freq, c2, q); }
    }
  }

  lemma {:induction false} NoneCheaper(freq: seq<nat>, sizes: seq<nat>, m: nat)
    requires Prefix(freq, sizes, m)
    ensures Least(freq) <= Cost(freq, sizes, SYMBOLS)
    decreases NonZero(freq, SYMBOLS)
  {
    hide Cost, Room, Pow2, NonZero, Smallest, MergedFreq, Next, Prefix, LongestBut;
    PrefixShape(freq, sizes, m);
    var c1 := Smallest(freq, -1, SYMBOLS);
    var c2 := Smallest(freq, c1, SYMBOLS);
    if c1 >= 0 && c2 >= 0 {
      SmallestAreNext(freq);
      NextLeast(freq, c1, c2);
      FewerTrees(freq, c1, c2, SYMBOLS);
      var r1 := Sink(freq, sizes, m, c1, -1);
      SinkOne(freq, r1, c1);
      var r2 := Sink(freq, r1, m, c2, c1);
      SinkTwo(freq, r2, c1, c2);
      Level(freq, r2, m, c1, c2);
      var r3 := r2[c1 := r2[c2]];
      Shortened(freq, r3, m, c1, c2);
      NoneCheaper(MergedFreq(freq, c1, c2), r3[c1 := r3[c1] - 1], m);
    }
  }

  lemma PrefixShape(freq: seq<nat>, sizes: seq<nat>, m: nat)
    requires Prefix(freq, sizes, m)
    ensures |freq| == |sizes| == SYMBOLS
  {
  }

  lemma SinkOne(freq: seq<nat>, sizes: seq<nat>, c1: nat)
    requires LongestBut(freq, sizes, c1, -1)
    ensures LongestBut(freq, sizes, c1, c1)
  {
  }

  lemma SinkTwo(freq: seq<nat>, sizes: seq<nat>, c1: nat, c2: nat)
    requires LongestBut(freq, sizes, c1, c1) && |freq| == SYMBOLS && c2 < SYMBOLS && freq[c2] > 0 && c1 != c2
    ensures |sizes| == SYMBOLS && sizes[c2] <= sizes[c1]
  {
  }

  // ----- What the lengths of the algorithm cost -----

  /** The occurrences of those of the first n symbols that are in the tree of c. */
  function Weight(freq: seq<nat>, owner: seq<int>, c: int, n: nat): nat
    requires n <= |freq| && n <= |owner|
  {
    if n == 0 then 0 else Weight(freq, owner, c, n - 1) + if owner[n - 1] == c then freq[n - 1] else 0
  }

  lemma {:induction false} CostLengthened(freq: seq<nat>, codesize: seq<nat>, owner: seq<int>, c1: int, c2: int, n: nat)
    requires n <= |freq| == |codesize| == |owner| && c1 != c2
    ensures Cost(freq, Lengthened(codesize, owner, c1, c2), n) ==
      Cost(freq, codesize, n) + Weight(freq, owner, c1, n) + Weight(freq, owner, c2, n)
  {
    if n > 0 {
      CostLengthened(freq, codesize, owner, c1, c2, n - 1);
      assert freq[n - 1] * (codesize[n - 1] + 1) == freq[n - 1] * codesize[n - 1] + freq[n - 1];
    }
  }

  lemma {:induction false} WeightJoined(freq: seq<nat>, owner: seq<int>, c1: int, c2: int, c: int, n: nat)
    requires n <= |freq| == |owner| && c1 != c2 && c != c2
    ensures Weight(freq, Joined(owner, c1, c2), c, n) ==
      Weight(freq, owner, c, n) + if c == c1 then Weight(freq, owner, c2, n) else 0
  {
    if n > 0 { WeightJoined(freq, owner, c1, c2, c, n - 1); }
  }

  lemma {:induction false} WeightAlone(freq: seq<nat>, owner: seq<int>, c: nat, n: nat)
    requires n <= |freq| == |owner| && forall s :: 0 <= s < n ==> (owner[s] == c <==> s == c)
    ensures Weight(freq, owner, c, n) == if c < n then freq[c] else 0
  {
    if n > 0 { WeightAlone(freq, owner, c, n - 1); }
  }

  /** A tree weighs as much as its symbols. */
  ghost predicate Weighed(freq0: seq<nat>, freq: seq<nat>, owner: seq<int>) {
    && |freq0| == |freq| == |owner| == SYMBOLS
    && forall c :: 0 <= c < SYMBOLS && freq[c] > 0 ==> freq[c] == Weight(freq0, owner, c, SYMBOLS)
  }

  lemma WeighedMerged(freq0: seq<nat>, freq: seq<nat>, owner: seq<int>, c1: nat, c2: nat)
    requires Weighed(freq0, freq, owner) && c1 < SYMBOLS && c2 < SYMBOLS && c1 != c2 && freq[c1] > 0 && freq[c2] > 0
    ensures Weighed(freq0, MergedFreq(freq, c1, c2), Joined(owner, c1, c2))
  {
    hide Weight, Joined;
    var f, o := MergedFreq(freq, c1, c2), Joined(owner, c1, c2);
    forall c | 0 <= c < SYMBOLS && f[c] > 0 ensures f[c] == Weight(freq0, o, c, SYMBOLS) {
      WeightJoined(freq0, owner, c1, c2, c, SYMBOLS);
    }
  }

  lemma {:induction false} RunCost(freq0: seq<nat>, freq: seq<nat>, codesize: seq<nat>, owner: seq<int>)
    requires Weighed(freq0, freq, owner) && |codesize| == SYMBOLS
    ensures |freq0| == |freq| == |owner| == SYMBOLS
    ensures Cost(freq0, MergeRun(freq, codesize, owner), SYMBOLS) == Cost(freq0, codesize, SYMBOLS) + Least(freq)
    decreases |freq|, if |freq| == SYMBOLS then NonZero(freq, SYMBOLS) else 0
  {
    hide Cost, NonZero, Smallest, MergedFreq, Weight, Joined, Lengthened;
    var c1 := Smallest(freq, -1, SYMBOLS);
    var c2 := Smallest(freq, c1, SYMBOLS);
    if c1 >= 0 && c2 >= 0 {
      FewerTrees(freq, c1, c2, SYMBOLS);
      WeighedMerged(freq0, freq, owner, c1, c2);
      CostLengthened(freq0, codesize, owner, c1, c2, SYMBOLS);
      RunCost(freq0, MergedFreq(freq, c1, c2), Lengthened(codesize, owner, c1, c2), Joined(owner, c1, c2));
    }
  }

  lemma {:induction false} NothingYet(freq: seq<nat>, sizes: seq<nat>, n: nat)
    requires n <= |freq| == |sizes| && forall s :: 0 <= s < n ==> sizes[s] == 0
    ensures Cost(freq, sizes, n) == 0
  {
    if n > 0 { NothingYet(freq, sizes, n - 1); }
  }

  /** Main result: no prefix code for the symbols that occur takes fewer bits than the lengths of the
      algorithm. */
  lemma LengthsMinimal(freq: seq<nat>, sizes: seq<nat>, m: nat)
    requires Prefix(freq, sizes, m)
    ensures |freq| == |sizes| == SYMBOLS
    ensures Cost(freq, Lengths(freq), SYMBOLS) <= Cost(freq, sizes, SYMBOLS)
  {
    hide Cost, Weight, MergeRun, Least, Room;
    PrefixShape(freq, sizes, m);
    var none: seq<nat>, owner := seq(SYMBOLS, s => 0), StartOwner(freq);
    forall c | 0 <= c < SYMBOLS && freq[c] > 0 ensures freq[c] == Weight(freq, owner, c, SYMBOLS) {
      WeightAlone(freq, owner, c, SYMBOLS);
    }
    RunCost(freq, freq, none, owner);
    NothingYet(freq, none, SYMBOLS);
    NoneCheaper(freq, sizes, m);
  }

  /** And where they are complete they are themselves those of a prefix code. */
  lemma LengthsPrefix(freq: seq<nat>, sizes: seq<nat>)
    requires |freq| == SYMBOLS && Complete(sizes, UsedSymbols(freq))
    ensures Prefix(freq, sizes, DEPTH)
  {
    hide Room, AllSpace;
    RoomIsSpace(freq, sizes, SYMBOLS);
  }

  lemma {:induction false} RoomIsSpace(freq: seq<nat>, sizes: seq<nat>, n: nat)
    requires n <= |freq| == |sizes| && forall s :: 0 <= s < |sizes| ==> sizes[s] <= DEPTH
    requires forall s :: 0 <= s < n ==> (sizes[s] > 0 <==> freq[s] > 0)
    ensures Room(freq, sizes, DEPTH, n) == AllSpace(sizes, n)
  {
    if n > 0 { RoomIsSpace(freq, sizes, n - 1); }
  }
}
