/** Huffman's algorithm as the library runs it gives a symbol that occurs more often no longer a code,
    and of equally frequent symbols the larger one no shorter a code; so the reserved symbol's code is
    one of the longest. Trees are merged in the order in which they were made. */
module HuffOrder {
  import opened HuffMerge

  /** Tree r is merged before tree q. */
  predicate First(freq: seq<nat>, r: int, q: int)
    requires 0 <= r < |freq| && 0 <= q < |freq|
  {
    freq[r] < freq[q] || (freq[r] == freq[q] && r > q)
  }

  ghost predicate Shape(freq: seq<nat>, codesize: seq<nat>, owner: seq<int>) {
    && |freq| == |codesize| == |owner| == SYMBOLS
    && forall s :: 0 <= s < SYMBOLS ==> -1 <= owner[s] < SYMBOLS && (owner[s] >= 0 ==> freq[owner[s]] > 0)
  }

  /** A tree that was made by a merge comes before all that can still be made: it weighs at most twice
      as much as any other. */
  ghost predicate Made(freq: seq<nat>, r: int)
    requires 0 <= r < |freq|
  {
    forall q :: 0 <= q < |freq| && q != r && freq[q] > 0 ==>
      freq[r] < 2 * freq[q] || (freq[r] == 2 * freq[q] && q < r)
  }

  ghost predicate AllMade(freq: seq<nat>, codesize: seq<nat>, owner: seq<int>)
    requires Shape(freq, codesize, owner)
  {
    forall s :: 0 <= s < SYMBOLS && owner[s] >= 0 && codesize[s] > 0 ==> Made(freq, owner[s])
  }

  /** Symbol s is no deeper than t, and where it is as deep in another tree, that of t is merged first. */
  ghost predicate Shallower(freq: seq<nat>, codesize: seq<nat>, owner: seq<int>, s: nat, t: nat)
    requires Shape(freq, codesize, owner) && s < SYMBOLS && t < SYMBOLS
  {
    && owner[s] >= 0 && owner[t] >= 0 && codesize[s] <= codesize[t]
    && (owner[s] != owner[t] && codesize[s] == codesize[t] ==> First(freq, owner[t], owner[s]))
  }

  /** c1 and c2 are the first two trees. */
  ghost predicate Next(freq: seq<nat>, c1: int, c2: int) {
    && |freq| == SYMBOLS && 0 <= c1 < SYMBOLS && 0 <= c2 < SYMBOLS && c1 != c2 && freq[c1] > 0 && freq[c2] > 0
    && (forall q :: 0 <= q < SYMBOLS && freq[q] > 0 && q != c1 ==> First(freq, c1, q))
    && (forall q :: 0 <= q < SYMBOLS && freq[q] > 0 && q != c1 && q != c2 ==> First(freq, c2, q))
  }

  lemma SmallestAreNext(freq: seq<nat>)
    requires |freq| == SYMBOLS
    ensures var c1 := Smallest(freq, -1, SYMBOLS); var c2 := Smallest(freq, c1, SYMBOLS);
      c1 >= 0 && c2 >= 0 ==> Next(freq, c1, c2)
  {
  }

  lemma MergedShape(freq: seq<nat>, codesize: seq<nat>, owner: seq<int>, c1: nat, c2: nat)
    requires Shape(freq, codesize, owner) && Next(freq, c1, c2)
    ensures Shape(MergedFreq(freq, c1, c2), Lengthened(codesize, owner, c1, c2), Joined(owner, c1, c2))
  {
  }

  lemma MergedMade(freq: seq<nat>, codesize: seq<nat>, owner: seq<int>, c1: nat, c2: nat)
    requires Shape(freq, codesize, owner) && AllMade(freq, codesize, owner) && Next(freq, c1, c2)
    ensures Shape(MergedFreq(freq, c1, c2), Lengthened(codesize, owner, c1, c2), Joined(owner, c1, c2))
    ensures AllMade(MergedFreq(freq, c1, c2), Lengthened(codesize, owner, c1, c2), Joined(owner, c1, c2))
  {
    MergedShape(freq, codesize, owner, c1, c2);
    var f, l, o := MergedFreq(freq, c1, c2), Lengthened(codesize, owner, c1, c2), Joined(owner, c1, c2);
    forall s | 0 <= s < SYMBOLS && o[s] >= 0 && l[s] > 0 ensures Made(f, o[s]) {
      if o[s] == c1 { NewMade(freq, c1, c2); } else { OldMade(freq, c1, c2, owner[s]); }
    }
  }

  lemma NewMade(freq: seq<nat>, c1: nat, c2: nat)
    requires Next(freq, c1, c2)
    ensures Made(MergedFreq(freq, c1, c2), c1)
  {
    var f := MergedFreq(freq, c1, c2);
    forall q | 0 <= q < |f| && q != c1 && f[q] > 0 ensures f[c1] < 2 * f[q] || (f[c1] == 2 * f[q] && q < c1) {
      assert First(freq, c1, q) && First(freq, c2, q) && First(freq, c1, c2);
    }
  }

  lemma OldMade(freq: seq<nat>, c1: nat, c2: nat, r: nat)
    requires Next(freq, c1, c2) && r < SYMBOLS && r != c1 && r != c2 && Made(freq, r)
    ensures Made(MergedFreq(freq, c1, c2), r)
  {
  }

  lemma MergedShallower(freq: seq<nat>, codesize: seq<nat>, owner: seq<int>, c1: nat, c2: nat, s: nat, t: nat)
    requires Shape(freq, codesize, owner) && AllMade(freq, codesize, owner) && Next(freq, c1, c2)
    requires s < SYMBOLS && t < SYMBOLS && Shallower(freq, codesize, owner, s, t)
    ensures Shape(MergedFreq(freq, c1, c2), Lengthened(codesize, owner, c1, c2), Joined(owner, c1, c2))
    ensures Shallower(MergedFreq(freq, c1, c2), Lengthened(codesize, owner, c1, c2), Joined(owner, c1, c2), s, t)
  {
    MergedShape(freq, codesize, owner, c1, c2);
    assert First(freq, c1, c2);
    if owner[s] in {c1 as int, c2} && owner[t] !in {c1 as int, c2} {
      assert First(freq, c2, owner[t]) && First(freq, c1, owner[t]);
      assert Made(freq, owner[t]);
    }
  }

  /** What the run keeps, it ends with. */
  lemma {:induction false} RunShallower(freq: seq<nat>, codesize: seq<nat>, owner: seq<int>, s: nat, t: nat)
    requires Shape(freq, codesize, owner) && AllMade(freq, codesize, owner)
    requires s < SYMBOLS && t < SYMBOLS && Shallower(freq, codesize, owner, s, t)
    ensures MergeRun(freq, codesize, owner)[s] <= MergeRun(freq, codesize, owner)[t]
    decreases NonZero(freq, SYMBOLS)
  {
    hide Smallest, NonZero, Lengthened, Joined, MergedFreq, Next, AllMade, Shallower;
    var c1 := Smallest(freq, -1, SYMBOLS);
    var c2 := Smallest(freq, c1, SYMBOLS);
    if c1 < 0 || c2 < 0 {
      ShallowerMeans(freq, codesize, owner, s, t);
    } else {
      SmallestAreNext(freq);
      FewerTrees(freq, c1, c2, SYMBOLS);
      MergedMade(freq, codesize, owner, c1, c2);
      MergedShallower(freq, codesize, owner, c1, c2, s, t);
      RunShallower(MergedFreq(freq, c1, c2), Lengthened(codesize, owner, c1, c2), Joined(owner, c1, c2), s, t);
    }
  }

  lemma ShallowerMeans(freq: seq<nat>, codesize: seq<nat>, owner: seq<int>, s: nat, t: nat)
    requires Shape(freq, codesize, owner) && s < SYMBOLS && t < SYMBOLS && Shallower(freq, codesize, owner, s, t)
    ensures codesize[s] <= codesize[t]
  {
  }

  /** Main result: a symbol that occurs more often, or as often and is smaller, has no longer a code. */
  lemma LengthsOrdered(freq: seq<nat>, s: nat, t: nat)
    requires |freq| == SYMBOLS && s < SYMBOLS && t < SYMBOLS && freq[t] > 0
    requires freq[s] > freq[t] || (freq[s] == freq[t] && s <= t)
    ensures Lengths(freq)[s] <= Lengths(freq)[t]
  {
    var codesize: seq<nat> := seq(SYMBOLS, s => 0);
    hide MergeRun;
    if s != t { RunShallower(freq, codesize, StartOwner(freq), s, t); }
  }

  /** The reserved symbol, which occurs once, has one of the longest codes. */
  lemma ReservedLongest(freq: seq<nat>, s: nat)
    requires |freq| == SYMBOLS && freq[256] == 1 && s < SYMBOLS && freq[s] > 0
    ensures Lengths(freq)[s] <= Lengths(freq)[256]
  {
    LengthsOrdered(freq, s, 256);
  }
}
