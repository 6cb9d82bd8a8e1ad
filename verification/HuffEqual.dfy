/** Equally frequent symbols: Huffman's algorithm, with the library's choice among equal frequencies,
    gives 256 of them codes of one length. */
module HuffEqual {
  import opened Bits
  import opened HuffMerge

  /** Frequency of a tree of 2^d symbols that each occur v times. */
  function Weight(v: nat, d: nat): nat { v * Pow2(d) }

  lemma WeightDoubles(v: nat, d: nat)
    ensures Weight(v, d + 1) == 2 * Weight(v, d) && Weight(v, d) >= v
  {
    MulAssoc(v, 2, Pow2(d));
    MulMonotone(1, Pow2(d), v);
  }

  /** All symbols but b occur v times, except for the reserved one, which occurs once. */
  ghost predicate Equal(freq: seq<nat>, b: nat, v: nat) {
    && |freq| == SYMBOLS && b < 256 && v >= 1 && freq[256] == 1
    && (forall s :: 0 <= s < 256 && s != b ==> freq[s] == v)
    && (freq[b] == 0 || freq[b] > 255 * v + 1)
    && Sum(freq, SYMBOLS) <= NO_FREQUENCY + 1
  }

  /** Every symbol but b is in a tree without b, whose symbols all have codes of one length. */
  ghost predicate Members(freq: seq<nat>, codesize: seq<nat>, owner: seq<int>, b: nat)
    requires |freq| == |codesize| == |owner| == SYMBOLS
  {
    forall s :: 0 <= s < SYMBOLS && s != b ==>
      0 <= owner[s] < SYMBOLS && owner[s] != b && freq[owner[s]] > 0 && codesize[s] == codesize[owner[s]]
  }

  /** A tree has height k or k + 1, and the frequency that goes with it. */
  ghost predicate Roots(freq: seq<nat>, codesize: seq<nat>, owner: seq<int>, b: nat, v: nat, k: nat)
    requires |freq| == |codesize| == |owner| == SYMBOLS && v >= 1
  {
    forall c :: 0 <= c < SYMBOLS && c != b && freq[c] > 0 ==>
      && owner[c] == c && (codesize[c] == k || codesize[c] == k + 1)
      && freq[c] + (if owner[256] == c then v - 1 else 0) == Weight(v, codesize[c])
  }

  /** Between two merges: the trees of all symbols but b are perfect, of height k or k + 1. */
  ghost predicate Level(freq: seq<nat>, codesize: seq<nat>, owner: seq<int>, b: nat, v: nat, k: nat) {
    && |freq| == |codesize| == |owner| == SYMBOLS && b < 256 && v >= 1
    && codesize[b] == 0 && (if freq[b] == 0 then owner[b] == -1 else owner[b] == b && freq[b] > 255 * v + 1)
    && Members(freq, codesize, owner, b) && Roots(freq, codesize, owner, b, v, k)
    && Sum(freq, SYMBOLS) == 255 * v + 1 + freq[b] <= NO_FREQUENCY + 1
  }

  lemma {:induction false} SumEqual(freq: seq<nat>, b: nat, v: nat, n: nat)
    requires Equal(freq, b, v) && n <= 256
    ensures Sum(freq, n) == (if b < n then v * (n - 1) + freq[b] else v * n)
  {
    if n > 0 {
      SumEqual(freq, b, v, n - 1);
      assert v * n == v * (n - 1) + v;
      if n > 1 { assert v * (n - 1) == v * (n - 2) + v; }
    }
  }

  lemma LevelStart(freq: seq<nat>, b: nat, v: nat)
    requires Equal(freq, b, v)
    ensures Level(freq, seq(SYMBOLS, s => 0), StartOwner(freq), b, v, 0)
  {
    SumEqual(freq, b, v, 256);
    assert Sum(freq, SYMBOLS) == Sum(freq, 256) + 1;
    assert v * 255 == 255 * v && Weight(v, 0) == v;
  }

  // ----- How many trees of each height there are -----

  /** The frequencies as if the reserved symbol occurred v times, too, without that of b. */
  ghost function Nominal(freq: seq<nat>, owner: seq<int>, b: nat, v: nat): (f: seq<nat>)
    requires |freq| == |owner| == SYMBOLS && b < 256 && v >= 1 && 0 <= owner[256] < SYMBOLS
    ensures |f| == SYMBOLS
  {
    var f := freq[b := 0];
    f[owner[256] := f[owner[256]] + (v - 1)]
  }

  lemma NominalSum(freq: seq<nat>, codesize: seq<nat>, owner: seq<int>, b: nat, v: nat, k: nat)
    requires Level(freq, codesize, owner, b, v, k)
    ensures 0 <= owner[256] < SYMBOLS && Sum(Nominal(freq, owner, b, v), SYMBOLS) == 256 * v
    ensures forall c :: 0 <= c < SYMBOLS ==>
      Nominal(freq, owner, b, v)[c] == if c != b && freq[c] > 0 then Weight(v, codesize[c]) else 0
  {
    hide Sum, Weight;
    SumUpdate(freq, b, 0, SYMBOLS);
    var f := freq[b := 0];
    SumUpdate(f, owner[256], f[owner[256]] + (v - 1), SYMBOLS);
  }

  /** A sum of multiples of 2w, and at most one w. */
  lemma {:induction false} OddOne(f: seq<nat>, c: nat, w: nat, n: nat) returns (a: nat)
    requires c < |f| && n <= |f| && f[c] == w
    requires forall i :: 0 <= i < |f| && i != c ==> f[i] == 0 || f[i] == 2 * w
    ensures Sum(f, n) == 2 * w * a + if c < n then w else 0
    ensures a == 0 ==> forall i :: 0 <= i < n && i != c ==> f[i] == 0
  {
    if n == 0 {
      a := 0;
    } else {
      var a0 := OddOne(f, c, w, n - 1);
      a := if n - 1 != c && f[n - 1] != 0 then a0 + 1 else a0;
      assert 2 * w * (a0 + 1) == 2 * w * a0 + 2 * w;
    }
  }

  /** 256 as a power of two times an odd number. */
  lemma OddFactor(k: nat, a: nat)
    requires (2 * a + 1) * Pow2(k) == 256
    ensures k == 8 && a == 0
  {
    Pow2Small();
    TwicePow(9);
    hide Pow2;
    if k < 8 {
      Pow2Add(8 - k, k);
      MulCancel(2 * a + 1, Pow2(8 - k), Pow2(k));
      TwicePow(8 - k);
    } else if k == 8 {
    } else {
      Pow2Monotone(9, k);
      MulMonotone(1, 2 * a + 1, Pow2(k));
    }
  }

  lemma OddWeights(v: nat, k: nat, a: nat)
    requires v >= 1 && 2 * Weight(v, k) * a + Weight(v, k) == 256 * v
    ensures k == 8 && a == 0
  {
    hide Pow2;
    var p := Pow2(k);
    Regroup(v, p, a);
    MulCancel((2 * a + 1) * p, 256, v);
    OddFactor(k, a);
  }

  lemma Regroup(v: nat, p: nat, a: nat)
    ensures 2 * (v * p) * a + v * p == (2 * a + 1) * p * v
  {
    MulAssoc(2 * a + 1, p, v);
    assert (2 * a + 1) * (p * v) == 2 * a * (p * v) + p * v;
    assert 2 * (v * p) * a == 2 * a * (p * v);
  }

  // ----- One merge -----

  lemma OneBound(freq: seq<nat>, c: nat)
    requires |freq| == SYMBOLS && c < SYMBOLS
    ensures freq[c] <= Sum(freq, SYMBOLS)
  {
    OneInSum(freq, c, SYMBOLS);
  }

  /** The lightest tree has the lower height, if there is one of that height. */
  lemma FirstTree(freq: seq<nat>, codesize: seq<nat>, owner: seq<int>, b: nat, v: nat, k: nat, c: nat)
    requires Level(freq, codesize, owner, b, v, k)
    requires c < SYMBOLS && c != b && freq[c] > 0 && codesize[c] == k
    ensures var c1 := Smallest(freq, -1, SYMBOLS); 0 <= c1 < SYMBOLS && c1 != b && codesize[c1] == k && freq[c1] > 0
  {
    hide Sum, Weight;
    WeightDoubles(v, k);
    OneBound(freq, c);
    OneBelowHeavy(freq, b, c);
    hide Smallest;
  }

  lemma OneBelowHeavy(freq: seq<nat>, b: nat, c: nat)
    requires |freq| == SYMBOLS && b < SYMBOLS && c < SYMBOLS && c != b
    ensures freq[c] <= Sum(freq, SYMBOLS) - freq[b]
  {
    SumUpdate(freq, b, 0, SYMBOLS);
    OneInSum(freq[b := 0], c, SYMBOLS);
  }

  /** The next tree has the same height, if there is another one of that height. */
  lemma SecondTree(freq: seq<nat>, codesize: seq<nat>, owner: seq<int>, b: nat, v: nat, k: nat, c1: nat, c: nat)
    requires Level(freq, codesize, owner, b, v, k) && c1 < SYMBOLS && c1 != b && freq[c1] > 0 && codesize[c1] == k
    requires c < SYMBOLS && c != b && c != c1 && freq[c] > 0 && codesize[c] == k
    ensures var c2 := Smallest(freq, c1, SYMBOLS); 0 <= c2 < SYMBOLS && c2 != b && codesize[c2] == k && freq[c2] > 0
  {
    hide Sum, Smallest;
    WeightDoubles(v, k);
    hide Weight;
    OneBound(freq, c);
    if c < c1 { TwoInSum(freq, c, c1, SYMBOLS); } else { TwoInSum(freq, c1, c, SYMBOLS); }
    if freq[b] > 0 { BelowHeavy(freq, b, c1, c); }
  }

  /** A tree that is not all of the small ones is lighter than b. */
  lemma BelowHeavy(freq: seq<nat>, b: nat, c1: nat, c: nat)
    requires |freq| == SYMBOLS && b < SYMBOLS && c1 < SYMBOLS && c < SYMBOLS && c != b && c1 != b && c != c1
    ensures freq[c] + freq[c1] <= Sum(freq, SYMBOLS) - freq[b]
  {
    SumUpdate(freq, b, 0, SYMBOLS);
    var f := freq[b := 0];
    if c < c1 { TwoInSum(f, c, c1, SYMBOLS); } else { TwoInSum(f, c1, c, SYMBOLS); }
  }

  /** If there is no other, there is no other tree at all but b, and this one has all 256 symbols. */
  lemma LastTree(freq: seq<nat>, codesize: seq<nat>, owner: seq<int>, b: nat, v: nat, k: nat, c1: nat)
    requires Level(freq, codesize, owner, b, v, k) && c1 < SYMBOLS && c1 != b && freq[c1] > 0 && codesize[c1] == k
    requires forall c :: 0 <= c < SYMBOLS && c != b && c != c1 && freq[c] > 0 ==> codesize[c] == k + 1
    ensures k == 8 && forall c :: 0 <= c < SYMBOLS && c != b && c != c1 ==> freq[c] == 0
  {
    hide Sum;
    NominalSum(freq, codesize, owner, b, v, k);
    WeightDoubles(v, k);
    hide Weight;
    var f := Nominal(freq, owner, b, v);
    var a := OddOne(f, c1, Weight(v, k), SYMBOLS);
    OddWeights(v, k, a);
    forall c | 0 <= c < SYMBOLS && c != b && c != c1 ensures freq[c] == 0 {
      if freq[c] > 0 {
        assert f[c] == 0;
        PositiveWeight(v, codesize[c]);
      }
    }
  }

  lemma PositiveWeight(v: nat, d: nat)
    requires v >= 1
    ensures Weight(v, d) > 0
  {
    WeightDoubles(v, d);
  }

  /** Merging two trees of height k. */
  lemma LevelMerged(freq: seq<nat>, codesize: seq<nat>, owner: seq<int>, b: nat, v: nat, k: nat, c1: nat, c2: nat)
    requires Level(freq, codesize, owner, b, v, k)
    requires c1 < SYMBOLS && c2 < SYMBOLS && c1 != c2 && c1 != b && c2 != b
    requires freq[c1] > 0 && freq[c2] > 0 && codesize[c1] == codesize[c2] == k
    ensures Level(MergedFreq(freq, c1, c2), Lengthened(codesize, owner, c1, c2), Joined(owner, c1, c2), b, v, k)
    ensures MergedFreq(freq, c1, c2)[b] == freq[b] && MergedFreq(freq, c1, c2)[c1] > 0
    ensures Lengthened(codesize, owner, c1, c2)[c1] == k + 1
  {
    hide Sum;
    FewerTrees(freq, c1, c2, SYMBOLS);
    MergedMembers(freq, codesize, owner, b, c1, c2);
    MergedRoots(freq, codesize, owner, b, v, k, c1, c2);
    hide Members, Roots;
  }

  lemma MergedMembers(freq: seq<nat>, codesize: seq<nat>, owner: seq<int>, b: nat, c1: nat, c2: nat)
    requires |freq| == |codesize| == |owner| == SYMBOLS && Members(freq, codesize, owner, b)
    requires c1 < SYMBOLS && c2 < SYMBOLS && c1 != c2 && c1 != b && c2 != b
    requires forall c :: 0 <= c < SYMBOLS && c != b && freq[c] > 0 ==> owner[c] == c
    requires freq[c1] > 0 && freq[c2] > 0 && codesize[c1] == codesize[c2]
    ensures Members(MergedFreq(freq, c1, c2), Lengthened(codesize, owner, c1, c2), Joined(owner, c1, c2), b)
  {
  }

  lemma MergedRoots(freq: seq<nat>, codesize: seq<nat>, owner: seq<int>, b: nat, v: nat, k: nat, c1: nat, c2: nat)
    requires |freq| == |codesize| == |owner| == SYMBOLS && v >= 1 && Roots(freq, codesize, owner, b, v, k)
    requires c1 < SYMBOLS && c2 < SYMBOLS && c1 != c2 && c1 != b && c2 != b
    requires freq[c1] > 0 && freq[c2] > 0 && codesize[c1] == codesize[c2] == k
    ensures Roots(MergedFreq(freq, c1, c2), Lengthened(codesize, owner, c1, c2), Joined(owner, c1, c2), b, v, k)
  {
    WeightDoubles(v, k);
    hide Weight;
    assert owner[c1] == c1 && owner[c2] == c2;
  }

  // ----- The whole run -----

  /** The next height, once no tree of height k is left. */
  lemma LevelUp(freq: seq<nat>, codesize: seq<nat>, owner: seq<int>, b: nat, v: nat, k: nat)
    requires Level(freq, codesize, owner, b, v, k)
    requires forall c :: 0 <= c < SYMBOLS && c != b && freq[c] > 0 ==> codesize[c] != k
    ensures Level(freq, codesize, owner, b, v, k + 1)
  {
    hide Sum, Weight;
  }

  /** The lengths that the trees lead to: 8 for all symbols but b if b does not occur, otherwise 9, and 1 for b. */
  ghost predicate EqualLengths(r: seq<nat>, b: nat, heavy: bool) {
    |r| == SYMBOLS && forall s :: 0 <= s < SYMBOLS ==>
      r[s] == if s == b then (if heavy then 1 else 0) else if heavy then 9 else 8
  }

  /** With one tree left, and perhaps b, at most one merge remains. */
  lemma LastMerge(freq: seq<nat>, codesize: seq<nat>, owner: seq<int>, b: nat, v: nat, k: nat, c1: nat)
    requires Level(freq, codesize, owner, b, v, k) && c1 == Smallest(freq, -1, SYMBOLS) && c1 != b && codesize[c1] == k
    requires forall c :: 0 <= c < SYMBOLS && c != b && c != c1 && freq[c] > 0 ==> codesize[c] != k
    ensures EqualLengths(MergeRun(freq, codesize, owner), b, freq[b] > 0)
  {
    hide Sum, Weight, NonZero, MergeRun;
    LastTree(freq, codesize, owner, b, v, k, c1);
    OneBelowHeavy(freq, c1, b);
    forall s | 0 <= s < SYMBOLS && s != b ensures owner[s] == c1 && codesize[s] == 8 {
      assert freq[owner[s]] > 0;
    }
    var c2 := Smallest(freq, c1, SYMBOLS);
    if c2 < 0 {
      RunEnds(freq, codesize, owner);
    } else {
      var f, l, o := freq[c1 := freq[c1] + freq[c2]][c2 := 0], Lengthened(codesize, owner, c1, c2),
        Joined(owner, c1, c2);
      RunGoesOn(freq, codesize, l, owner);
      NoSecond(f, c1);
      RunEnds(f, l, o);
    }
  }

  lemma NoSecond(freq: seq<nat>, c: nat)
    requires |freq| == SYMBOLS && forall d :: 0 <= d < SYMBOLS && d != c ==> freq[d] == 0
    ensures Smallest(freq, Smallest(freq, -1, SYMBOLS), SYMBOLS) < 0
  {
    var c1 := Smallest(freq, -1, SYMBOLS);
    hide Smallest;
    var c2 := Smallest(freq, c1, SYMBOLS);
  }

  lemma {:induction false} LevelRun(freq: seq<nat>, codesize: seq<nat>, owner: seq<int>, b: nat, v: nat, k: nat)
    requires Level(freq, codesize, owner, b, v, k)
    requires exists c :: 0 <= c < SYMBOLS && c != b && freq[c] > 0 && codesize[c] == k
    ensures EqualLengths(MergeRun(freq, codesize, owner), b, freq[b] > 0)
    decreases NonZero(freq, SYMBOLS), 0
  {
    hide Sum, Weight, Smallest, Joined, Lengthened, MergedFreq, NonZero, Level, EqualLengths;
    LevelShape(freq, codesize, owner, b, v, k);
    var c :| 0 <= c < SYMBOLS && c != b && freq[c] > 0 && codesize[c] == k;
    FirstTree(freq, codesize, owner, b, v, k, c);
    var c1 := Smallest(freq, -1, SYMBOLS);
    var c2 := Smallest(freq, c1, SYMBOLS);
    if d :| 0 <= d < SYMBOLS && d != b && d != c1 && freq[d] > 0 && codesize[d] == k {
      SecondTree(freq, codesize, owner, b, v, k, c1, d);
      LevelMerged(freq, codesize, owner, b, v, k, c1, c2);
      FewerTrees(freq, c1, c2, SYMBOLS);
      var f, l, o := MergedFreq(freq, c1, c2), Lengthened(codesize, owner, c1, c2), Joined(owner, c1, c2);
      RunFurther(f, l, o, b, v, k, c1);
    } else {
      LastMerge(freq, codesize, owner, b, v, k, c1);
    }
  }

  lemma LevelShape(freq: seq<nat>, codesize: seq<nat>, owner: seq<int>, b: nat, v: nat, k: nat)
    requires Level(freq, codesize, owner, b, v, k)
    ensures |freq| == |codesize| == |owner| == SYMBOLS && b < SYMBOLS
  {
  }

  /** After a merge, on this level or the next. */
  lemma {:induction false} RunFurther(freq: seq<nat>, codesize: seq<nat>, owner: seq<int>, b: nat, v: nat, k: nat,
      c1: nat)
    requires Level(freq, codesize, owner, b, v, k) && c1 < SYMBOLS && c1 != b && freq[c1] > 0 && codesize[c1] == k + 1
    ensures EqualLengths(MergeRun(freq, codesize, owner), b, freq[b] > 0)
    decreases NonZero(freq, SYMBOLS), 1
  {
    hide Sum, Weight, Smallest, NonZero, EqualLengths, MergeRun;
    if c :| 0 <= c < SYMBOLS && c != b && freq[c] > 0 && codesize[c] == k {
      LevelRun(freq, codesize, owner, b, v, k);
    } else {
      LevelUp(freq, codesize, owner, b, v, k);
      LevelRun(freq, codesize, owner, b, v, k + 1);
    }
  }

  /** Main result: 256 symbols, the reserved one among them, that occur equally often all get a code of
      length 8; if another symbol outweighs them, it gets one of length 1 and they get codes of length 9. */
  lemma EqualCounts(freq: seq<nat>, b: nat, v: nat)
    requires Equal(freq, b, v)
    ensures EqualLengths(Lengths(freq), b, freq[b] > 0)
  {
    hide Sum, Weight, MergeRun, EqualLengths;
    LevelStart(freq, b, v);
    var codesize: seq<nat> := seq(SYMBOLS, s => 0);
    assert freq[256] > 0 && codesize[256] == 0;
    LevelRun(freq, codesize, StartOwner(freq), b, v, 0);
  }
}
