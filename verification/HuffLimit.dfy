/** From the code lengths of Huffman's algorithm to the counts and the list of symbols in a table: the
    lengths are counted, none may be over sixteen bits, and the all-ones code goes. (Section K.2 of ITU-T
    T.81.) */
module HuffLimit {
  import opened Bits
  import opened HuffTable
  import opened HuffMerge

  const MAX_CLEN: nat := 32

  // ----- Sums over the length counts -----

  lemma PowSplit(k: nat, l: nat)
    requires k < l
    ensures Pow2(l - k) == 2 * Pow2(l - 1 - k)
  {
  }

  /** Changing one count changes the code space at length l in proportion. */
  lemma {:induction false} EndUpdate(b: seq<nat>, k: nat, v: nat, l: nat)
    requires 0 < k < |b| && l < |b|
    ensures End(b[k := v], l) == End(b, l) + if k <= l then (v - b[k]) * Pow2(l - k) else 0
  {
    if l > 0 {
      EndUpdate(b, k, v, l - 1);
      if k < l {
        PowSplit(k, l);
        TwiceTimes(v - b[k], Pow2(l - 1 - k));
      }
    }
  }

  lemma TwiceTimes(x: int, p: nat)
    ensures 2 * (x * p) == x * (2 * p)
  {
  }

  lemma {:induction false} UpToUpdate(b: seq<nat>, k: nat, v: nat, l: nat)
    requires 0 < k < |b| && l < |b|
    ensures UpTo(b[k := v], l) == UpTo(b, l) + if k <= l then v - b[k] else 0
  {
    if l > 0 { UpToUpdate(b, k, v, l - 1); }
  }

  lemma {:induction false} InUpTo(b: seq<nat>, k: nat, l: nat)
    requires 0 < k <= l < |b|
    ensures b[k] <= UpTo(b, l)
  {
    if k < l { InUpTo(b, k, l - 1); }
  }

  // ----- Counting the lengths -----

  /** How many of the first n symbols have a code of length k. */
  function CountAt(codesize: seq<nat>, k: nat, n: nat): (r: nat)
    requires n <= |codesize|
  {
    if n == 0 then 0 else CountAt(codesize, k, n - 1) + if codesize[n - 1] == k then 1 else 0
  }

  /** The length counts of the first n symbols; symbols without a code are not counted. */
  function Counts(codesize: seq<nat>, n: nat): (b: seq<nat>)
    requires n <= |codesize|
    ensures |b| == MAX_CLEN + 1 && forall k :: 0 < k <= MAX_CLEN ==> b[k] == CountAt(codesize, k, n)
  {
    seq(MAX_CLEN + 1, k requires 0 <= k => if k == 0 then 0 else CountAt(codesize, k, n))
  }

  lemma CountsStep(codesize: seq<nat>, n: nat)
    requires n < |codesize|
    ensures var b, s := Counts(codesize, n), codesize[n];
      Counts(codesize, n + 1) == if 0 < s <= MAX_CLEN then b[s := b[s] + 1] else b
  {
  }

  lemma CountsNone(codesize: seq<nat>)
    ensures UpTo(Counts(codesize, 0), MAX_CLEN) == 0 && End(Counts(codesize, 0), MAX_CLEN) == 0
  {
    AllZero(Counts(codesize, 0), MAX_CLEN);
  }

  lemma {:induction false} AllZero(b: seq<nat>, l: nat)
    requires l < |b| && forall k :: 0 < k <= l ==> b[k] == 0
    ensures UpTo(b, l) == 0 && End(b, l) == 0
  {
    if l > 0 { AllZero(b, l - 1); }
  }

  /** The counts add up to the number of symbols with a code. */
  lemma {:induction false} CountsTotal(codesize: seq<nat>, n: nat)
    requires n <= |codesize| && forall s :: 0 <= s < |codesize| ==> codesize[s] <= MAX_CLEN
    ensures UpTo(Counts(codesize, n), MAX_CLEN) == NonZero(codesize, n)
  {
    hide Counts;
    if n == 0 {
      CountsNone(codesize);
    } else {
      CountsTotal(codesize, n - 1);
      CountsStep(codesize, n - 1);
      var b, s := Counts(codesize, n - 1), codesize[n - 1];
      if s > 0 { UpToUpdate(b, s, b[s] + 1, MAX_CLEN); }
    }
  }

  /** The code space of the counts is that of the symbols. */
  lemma {:induction false} CountsSpace(codesize: seq<nat>, n: nat)
    requires n <= |codesize| && forall s :: 0 <= s < |codesize| ==> codesize[s] <= MAX_CLEN
    ensures forall s :: 0 <= s < |codesize| ==> codesize[s] <= DEPTH
    ensures AllSpace(codesize, n) == End(Counts(codesize, n), MAX_CLEN) * Pow2(DEPTH - MAX_CLEN)
  {
    hide Counts, Pow2, End;
    if n == 0 {
      CountsNone(codesize);
    } else {
      CountsSpace(codesize, n - 1);
      CountsStep(codesize, n - 1);
      var b, s := Counts(codesize, n - 1), codesize[n - 1];
      if s > 0 {
        EndUpdate(b, s, b[s] + 1, MAX_CLEN);
        Pow2Add(MAX_CLEN - s, DEPTH - MAX_CLEN);
        SumTimes(End(b, MAX_CLEN), Pow2(MAX_CLEN - s), Pow2(DEPTH - MAX_CLEN));
      }
    }
  }

  lemma SumTimes(x: nat, y: nat, p: nat)
    ensures (x + 1 * y) * p == x * p + y * p
  {
  }

  /** A complete code fills the code space at the greatest length. */
  lemma CompleteCounts(codesize: seq<nat>, used: set<int>)
    requires Complete(codesize, used) && forall s :: 0 <= s < SYMBOLS ==> codesize[s] <= MAX_CLEN
    ensures End(Counts(codesize, SYMBOLS), MAX_CLEN) == Pow2(MAX_CLEN)
  {
    hide Pow2, End, AllSpace, Counts;
    CountsSpace(codesize, SYMBOLS);
    Pow2Add(MAX_CLEN, DEPTH - MAX_CLEN);
    MulCancel(End(Counts(codesize, SYMBOLS), MAX_CLEN), Pow2(MAX_CLEN), Pow2(DEPTH - MAX_CLEN));
  }

  lemma {:induction false} CountBelow(codesize: seq<nat>, k: nat, n: nat)
    requires n <= |codesize| && k > 0
    ensures CountAt(codesize, k, n) <= NonZero(codesize, n)
  {
    if n > 0 { CountBelow(codesize, k, n - 1); }
  }

  /** Counts the lengths in bytes, which wrap around at 256; fails if a code is too long. */
  method CountLengths(codesize: array<nat>) returns (ok: bool, bits: array<nat>)
    requires codesize.Length == SYMBOLS
    ensures ok <==> forall s :: 0 <= s < SYMBOLS ==> codesize[s] <= MAX_CLEN
    ensures fresh(bits) && bits.Length == MAX_CLEN + 1 && bits[0] == 0
    ensures ok ==> forall k :: 0 < k <= MAX_CLEN ==> bits[k] == CountAt(codesize[..], k, SYMBOLS) % 256
  {
    bits := new nat[MAX_CLEN + 1](_ => 0);
    ghost var cs := codesize[..];
    for i := 0 to SYMBOLS
      invariant codesize[..] == cs && bits[0] == 0
      invariant forall s :: 0 <= s < i ==> codesize[s] <= MAX_CLEN
      invariant forall k :: 0 < k <= MAX_CLEN ==> bits[k] == CountAt(cs, k, i) % 256
    {
      if codesize[i] != 0 {
        if codesize[i] > MAX_CLEN {
          return false, bits;
        }
        bits[codesize[i]] := (bits[codesize[i]] + 1) % 256;
      }
    }
    ok := true;
  }

  // ----- When the bytes that count lengths wrap around -----

  /** Some length is that of 256 codes or more. */
  ghost predicate Shared(codesize: seq<nat>)
    requires |codesize| == SYMBOLS
  {
    exists k :: 0 < k <= MAX_CLEN && CountAt(codesize, k, SYMBOLS) >= 256
  }

  lemma {:induction false} AtMostOne(b: seq<nat>, l: nat) returns (a: nat)
    requires l < |b| && UpTo(b, l) == 1
    ensures 0 < a <= l && b[a] == 1 && End(b, l) == Pow2(l - a)
    ensures forall k :: 0 < k <= l && k != a ==> b[k] == 0
  {
    if b[l] > 0 {
      NothingUpTo(b, l - 1);
      AllZero(b, l - 1);
      a := l;
    } else {
      a := AtMostOne(b, l - 1);
    }
  }

  lemma {:induction false} NothingUpTo(b: seq<nat>, l: nat)
    requires l < |b| && UpTo(b, l) == 0
    ensures forall k :: 0 < k <= l ==> b[k] == 0
  {
    if l > 0 { NothingUpTo(b, l - 1); }
  }

  /** Two powers of two that add up to a power of two are its halves. */
  lemma TwoHalves(a: nat, b: nat, m: nat)
    requires Pow2(a) + Pow2(b) == Pow2(m)
    ensures a + 1 == b + 1 == m
  {
    hide Pow2;
    if a >= m { Pow2Monotone(m, a); } else { Pow2Monotone(a, m - 1); }
    if b >= m { Pow2Monotone(m, b); } else { Pow2Monotone(b, m - 1); }
    TwicePow(m);
    if a + 1 < m { StrictlyLess(a, m - 1); }
    if b + 1 < m { StrictlyLess(b, m - 1); }
  }

  lemma StrictlyLess(a: nat, m: nat)
    requires a < m
    ensures Pow2(a) < Pow2(m)
  {
    TwicePow(m);
    Pow2Monotone(a, m - 1);
  }

  lemma TimesPow(l: nat, k: nat)
    requires 0 < k <= l
    ensures 256 * Pow2(l - k) == Pow2(l - k + 8)
  {
    Pow2Small();
    Pow2Add(l - k, 8);
  }

  /** Among at most 257 codes that fill the code space, 256 are of one length only if that length is
      8 and there are no others, or it is 9 and there is one other, of length 1. */
  lemma ManyOfOne(b: seq<nat>, l: nat, k: nat)
    requires 9 < l < |b| && 0 < k <= l && b[k] >= 256 && UpTo(b, l) <= 257 && End(b, l) == Pow2(l)
    ensures b[k] == 256 && ((k == 8 && UpTo(b, l) == 256) || (k == 9 && UpTo(b, l) == 257 && b[1] == 1))
    ensures forall i :: 0 < i <= l && i != k && i != 1 ==> b[i] == 0
    ensures k == 8 ==> b[1] == 0
  {
    hide Pow2, UpTo, End;
    var c := b[k := b[k] - 256];
    EndUpdate(b, k, b[k] - 256, l);
    UpToUpdate(b, k, b[k] - 256, l);
    TimesPow(l, k);
    if UpTo(c, l) == 0 {
      NothingUpTo(c, l);
      AllZero(c, l);
      if l - k + 8 < l { StrictlyLess(l - k + 8, l); } else if l - k + 8 > l { StrictlyLess(l, l - k + 8); }
    } else {
      var a := AtMostOne(c, l);
      TwoHalves(l - a, l - k + 8, l);
    }
    assert c[k] == 0;
    forall i | 0 < i <= l && i != k ensures b[i] == c[i] { }
  }

  /** With a length over sixteen in use, no length has 256 codes. */
  lemma NoneShared(b: seq<nat>, i: nat)
    requires CompleteTo(b, i) && 16 <= i && UpTo(b, MAX_CLEN) <= 257
    requires exists l :: 16 <= l <= i && b[l] > 0
    ensures forall k :: 0 < k <= MAX_CLEN ==> b[k] <= 255
  {
    hide Pow2, UpTo, End;
    NoneAbove(b, i, MAX_CLEN);
    var l :| 16 <= l <= i && b[l] > 0;
    forall k | 0 < k <= MAX_CLEN ensures b[k] <= 255 {
      if b[k] > 255 { ManyOfOne(b, i, k); }
    }
  }

  // ----- No code over sixteen bits -----

  /** One step: two codes of length i become one of length i - 1, and one of length j becomes the
      prefix of two. */
  function Shortened(b: seq<nat>, i: nat, j: nat): (r: seq<nat>)
    requires 0 < j && j + 1 < i < |b| && b[i] >= 2 && b[j] >= 1
    ensures |r| == |b|
  {
    var b1 := b[i := b[i] - 2];
    var b2 := b1[i - 1 := b1[i - 1] + 1];
    var b3 := b2[j + 1 := b2[j + 1] + 2];
    b3[j := b3[j] - 1]
  }

  /** Neither the number of codes nor the code space changes. */
  lemma ShortenedKeeps(b: seq<nat>, i: nat, j: nat, l: nat)
    requires 0 < j && j + 1 < i <= l < |b| && b[i] >= 2 && b[j] >= 1
    ensures UpTo(Shortened(b, i, j), l) == UpTo(b, l)
    ensures End(Shortened(b, i, j), i) == End(b, i)
    ensures Shortened(b, i, j)[i] == b[i] - 2 && forall k :: i < k < |b| ==> Shortened(b, i, j)[k] == b[k]
  {
    hide Pow2, End, UpTo;
    var b1 := b[i := b[i] - 2];
    var b2 := b1[i - 1 := b1[i - 1] + 1];
    var b3 := b2[j + 1 := b2[j + 1] + 2];
    EndUpdate(b, i, b[i] - 2, i); UpToUpdate(b, i, b[i] - 2, l);
    EndUpdate(b1, i - 1, b1[i - 1] + 1, i); UpToUpdate(b1, i - 1, b1[i - 1] + 1, l);
    EndUpdate(b2, j + 1, b2[j + 1] + 2, i); UpToUpdate(b2, j + 1, b2[j + 1] + 2, l);
    EndUpdate(b3, j, b3[j] - 1, i); UpToUpdate(b3, j, b3[j] - 1, l);
    PowSplit(j, i);
    Pow2Small();
  }

  /** A complete code has an even number of codes of its greatest length, and, unless they are too
      few to fill the code space, some code at least two bits shorter. */
  lemma Pairs(b: seq<nat>, i: nat)
    requires 16 < i < |b| && End(b, i) == Pow2(i) && b[i] > 0 && b[i] <= 255 && b[i - 1] <= 255
    ensures b[i] >= 2 && End(b, i - 2) > 0
  {
    Pow2Monotone(16, i);
    Pow2Words();
    assert Pow2(i) == 2 * Pow2(i - 1);
    hide Pow2;
    assert End(b, i) == 2 * End(b, i - 1) + b[i] && End(b, i - 1) == 2 * End(b, i - 2) + b[i - 1];
  }

  /** The greatest length up to i with a code; 0 if there is none. */
  function LastUsed(b: seq<nat>, i: nat): (j: nat)
    requires i < |b|
    ensures j <= i && (j > 0 ==> b[j] > 0) && forall k :: j < k <= i ==> b[k] == 0
  {
    if i == 0 || b[i] > 0 then i else LastUsed(b, i - 1)
  }

  /** Pairs of codes of length i, then of the lengths below it down to 17, become one code that is one bit
      shorter and one next to the longest code that is shorter still. */
  function Limit(b: seq<nat>, i: nat): (r: seq<nat>)
    requires i < |b|
    ensures |r| == |b|
    decreases i, b[i]
  {
    if i <= 16 then b
    else if b[i] == 0 then Limit(b, i - 1)
    else
      var j := LastUsed(b, i - 2);
      if j == 0 || b[i] < 2 then b else Limit(Shortened(b, i, j), i)
  }

  /** The longest code length up to i0 in use; 0 if there is none, in which case the search leaves
      the counts at their lower end. */
  method FindUsedLength(bits: array<nat>, i0: nat) returns (i: nat)
    requires i0 < bits.Length
    ensures i == LastUsed(bits[..], i0)
    ensures i <= i0 && (i > 0 ==> bits[i] > 0) && forall k :: i < k <= i0 ==> bits[k] == 0
    ensures End(bits[..], i0) > 0 ==> i > 0
  {
    i := i0;
    while i > 0 && bits[i] == 0
      invariant i <= i0 && forall k :: i < k <= i0 ==> bits[k] == 0
      invariant LastUsed(bits[..], i) == LastUsed(bits[..], i0)
      decreases i
    {
      i := i - 1;
    }
    if i == 0 { AllZero(bits[..], i0); }
  }

  ghost predicate CompleteTo(b: seq<nat>, i: nat) {
    i < |b| == MAX_CLEN + 1 && End(b, i) == Pow2(i) && forall k :: i < k <= MAX_CLEN ==> b[k] == 0
  }

  /** Counts of a complete code for at most 257 symbols that fit a byte each. */
  ghost predicate Good(b: seq<nat>, i: nat, total: nat) {
    CompleteTo(b, i) && UpTo(b, MAX_CLEN) == total <= 257 && forall k :: 0 < k <= MAX_CLEN ==> b[k] <= 255
  }

  predicate NoneLong(b: seq<nat>) { |b| == MAX_CLEN + 1 && forall k :: 16 < k <= MAX_CLEN ==> b[k] == 0 }

  /** Shortens pairs of codes until none is longer than sixteen bits. */
  method LimitLengths(bits: array<nat>, ghost total: nat)
    requires bits.Length == MAX_CLEN + 1 && (Good(bits[..], MAX_CLEN, total) || NoneLong(bits[..]))
    modifies bits
    ensures old(Good(bits[..], MAX_CLEN, total)) ==> Good(bits[..], 16, total)
    ensures old(Good(bits[..], MAX_CLEN, total)) ==> bits[..] == Limit(old(bits[..]), MAX_CLEN)
    ensures old(NoneLong(bits[..])) ==> bits[..] == old(bits[..])
  {
    hide Pow2, UpTo, Good;
    ghost var goal := Limit(bits[..], MAX_CLEN);
    var i := MAX_CLEN;
    while i > 16
      invariant 16 <= i <= MAX_CLEN
      invariant old(Good(bits[..], MAX_CLEN, total)) ==> Good(bits[..], i, total) && Limit(bits[..], i) == goal
      invariant old(NoneLong(bits[..])) ==> bits[..] == old(bits[..])
    {
      while bits[i] > 0
        invariant old(Good(bits[..], MAX_CLEN, total)) ==> Good(bits[..], i, total) && Limit(bits[..], i) == goal
        invariant old(NoneLong(bits[..])) ==> bits[..] == old(bits[..])
        decreases bits[i]
      {
        assert bits[i] == bits[..][i];
        ShortenOne(bits, i, total);
      }
      NoneAt(bits[..], i, total);
      i := i - 1;
    }
  }

  lemma NoneAt(b: seq<nat>, i: nat, total: nat)
    requires |b| == MAX_CLEN + 1 && 0 < i <= MAX_CLEN && b[i] == 0
    ensures Good(b, i, total) ==> Good(b, i - 1, total)
  {
    hide UpTo;
  }

  method ShortenOne(bits: array<nat>, i: nat, ghost total: nat)
    requires bits.Length == MAX_CLEN + 1 && 16 < i <= MAX_CLEN && Good(bits[..], i, total) && bits[i] > 0
    modifies bits
    ensures Good(bits[..], i, total) && bits[i] < old(bits[i])
    ensures Limit(bits[..], i) == Limit(old(bits[..]), i)
  {
    hide Pow2, UpTo, End;
    ghost var b := bits[..];
    Pairs(b, i);
    var j := FindUsedLength(bits, i - 2);
    ghost var r := Shortened(b, i, j);
    ShortenedKeeps(b, i, j, MAX_CLEN);
    assert r[i - 1] > 0;
    NoneShared(r, i);
    bits[i] := bits[i] - 2;
    bits[i - 1] := (bits[i - 1] + 1) % 256;
    bits[j + 1] := (bits[j + 1] + 2) % 256;
    bits[j] := bits[j] - 1;
    assert bits[..] == r;
  }

  /** Takes the reserved symbol's code away: the last of the longest codes, which is all ones.
      Returns its length, or 0 if no length is in use. */
  method RemoveReserved(bits: array<nat>, ghost total: nat) returns (i: nat)
    requires bits.Length == MAX_CLEN + 1
    modifies bits
    ensures i == LastUsed(old(bits[..]), 16)
    ensures i <= 16 && (i > 0 ==> old(bits[i]) > 0) && forall k :: i < k <= 16 ==> old(bits[k]) == 0
    ensures bits[..] == if i > 0 then old(bits[..])[i := old(bits[i]) - 1] else old(bits[..])
    ensures old(Good(bits[..], 16, total)) ==> i > 0 && UpTo(bits[..17], 16) == total - 1 && Fits(bits[..17])
  {
    hide Pow2, UpTo, End;
    ghost var b := bits[..];
    i := FindUsedLength(bits, 16);
    if i > 0 { bits[i] := bits[i] - 1; }
    if Good(b, 16, total) {
      assert bits[..] == b[i := b[i] - 1];
      ReservedRemoved(b, i);
      assert bits[..17] == bits[..][..17];
    }
  }

  lemma {:induction false} FrontOnly(b: seq<nat>, n: nat, l: nat)
    requires l < n <= |b|
    ensures UpTo(b[..n], l) == UpTo(b, l) && End(b[..n], l) == End(b, l)
  {
    if l > 0 { FrontOnly(b, n, l - 1); }
  }

  lemma {:induction false} NoneAbove(b: seq<nat>, l: nat, m: nat)
    requires l <= m < |b| && forall k :: l < k <= m ==> b[k] == 0
    ensures UpTo(b, m) == UpTo(b, l)
    decreases m - l
  {
    if l < m { NoneAbove(b, l, m - 1); }
  }

  lemma ReservedRemoved(b: seq<nat>, i: nat)
    requires CompleteTo(b, 16) && 0 < i <= 16 && b[i] > 0
    ensures var r := b[i := b[i] - 1]; UpTo(r[..17], 16) == UpTo(b, MAX_CLEN) - 1 && Fits(r[..17])
  {
    hide UpTo, End, Pow2;
    var r := b[i := b[i] - 1];
    NoneAbove(b, 16, MAX_CLEN);
    UpToUpdate(b, i, b[i] - 1, 16);
    EndUpdate(b, i, b[i] - 1, 16);
    FrontOnly(r, 17, 16);
    Pow2Words();
    OneLess(End(b, 16), Pow2(16 - i));
  }

  lemma OneLess(x: nat, p: nat)
    requires p > 0
    ensures x + (0 - 1) * p < x
  {
  }

  // ----- The symbols in code order -----

  lemma {:induction false} CountAtMonotone(codesize: seq<nat>, k: nat, m: nat, n: nat)
    requires m <= n <= |codesize|
    ensures CountAt(codesize, k, m) <= CountAt(codesize, k, n)
    decreases n - m
  {
    if m < n { CountAtMonotone(codesize, k, m, n - 1); }
  }

  /** Symbols with shorter codes come first, and among equals the smaller ones. */
  predicate Precedes(codesize: seq<nat>, s: nat, t: nat)
    requires s < |codesize| && t < |codesize|
  {
    codesize[s] < codesize[t] || (codesize[s] == codesize[t] && s < t)
  }

  predicate ListedBefore(codesize: seq<nat>, s: nat, i: nat, j: nat)
    requires s < |codesize|
  {
    codesize[s] > 0 && (codesize[s] < i || (codesize[s] == i && s < j))
  }

  /** vals lists, in code order, the symbols up to length i and symbol j. */
  ghost predicate Listed(codesize: seq<nat>, vals: seq<nat>, i: nat, j: nat)
    requires |codesize| == SYMBOLS
  {
    && (forall q :: 0 <= q < |vals| ==> vals[q] < 256 && ListedBefore(codesize, vals[q], i, j))
    && (forall q, r :: 0 <= q < r < |vals| ==> Precedes(codesize, vals[q], vals[r]))
    && (forall s :: 0 <= s < 256 && ListedBefore(codesize, s, i, j) ==> s in vals)
  }

  /** How many symbols come before s in code order. */
  function Rank(codesize: seq<nat>, s: nat): nat
    requires |codesize| == SYMBOLS && s < 256 && 0 < codesize[s] <= MAX_CLEN
  {
    UpTo(Counts(codesize, 256), codesize[s] - 1) + CountAt(codesize, codesize[s], s)
  }

  /** Each symbol stands at its rank. */
  ghost predicate Placed(codesize: seq<nat>, vals: seq<nat>)
    requires |codesize| == SYMBOLS
  {
    forall q :: 0 <= q < |vals| ==>
      vals[q] < 256 && 0 < codesize[vals[q]] <= MAX_CLEN && Rank(codesize, vals[q]) == q
  }

  /** There is always room for one more symbol. */
  lemma ListRoom(codesize: seq<nat>, i: nat, j: nat)
    requires |codesize| == SYMBOLS && forall s :: 0 <= s < SYMBOLS ==> codesize[s] <= MAX_CLEN
    requires j < 256 && 0 < codesize[j] == i
    ensures UpTo(Counts(codesize, 256), i - 1) + CountAt(codesize, i, j) < 256
  {
    CountAtMonotone(codesize, i, j + 1, 256);
    UpToMonotone(Counts(codesize, 256), i, MAX_CLEN);
    CountsTotal(codesize, 256);
  }

  method SortSymbols(codesize: array<nat>) returns (huffval: array<nat>, p: nat)
    requires codesize.Length == SYMBOLS && forall s :: 0 <= s < SYMBOLS ==> codesize[s] <= MAX_CLEN
    ensures huffval.Length == 256 && p == UpTo(Counts(codesize[..], 256), MAX_CLEN) <= 256
    ensures Listed(codesize[..], huffval[..p], MAX_CLEN + 1, 0) && Placed(codesize[..], huffval[..p])
    ensures forall q :: p <= q < 256 ==> huffval[q] == 0
    ensures forall q :: 0 <= q < 256 ==> huffval[q] < 256
  {
    hide Counts, NonZero, Placed, Listed, UpTo;
    ghost var cs := codesize[..];
    huffval := new nat[256](_ => 0);
    p := 0;
    NoneUpTo(cs);
    for i := 1 to MAX_CLEN + 1
      invariant codesize[..] == cs
      invariant p == UpTo(Counts(cs, 256), i - 1) <= 256 && Listed(cs, huffval[..p], i, 0)
      invariant Placed(cs, huffval[..p])
      invariant forall q :: p <= q < 256 ==> huffval[q] == 0
    {
      NoneCounted(cs, i);
      for j := 0 to 256
        invariant codesize[..] == cs
        invariant p == UpTo(Counts(cs, 256), i - 1) + CountAt(cs, i, j) <= 256 && Listed(cs, huffval[..p], i, j)
        invariant Placed(cs, huffval[..p])
        invariant forall q :: p <= q < 256 ==> huffval[q] == 0
      {
        if codesize[j] == i {
          ListRoom(cs, i, j);
          ghost var before := huffval[..p];
          huffval[p] := j;
          p := p + 1;
          assert huffval[..p] == before + [j];
          ListedMore(cs, before, i, j);
          PlacedMore(cs, before, j);
        } else {
          ListedSame(cs, huffval[..p], i, j);
        }
      }
      NextLength(cs, huffval[..p], i);
    }
    CountsTotal(cs, 256);
    ListedSymbols(cs, huffval[..p], MAX_CLEN + 1, 0);
    assert forall q :: 0 <= q < p ==> huffval[q] == huffval[..p][q];
  }

  lemma ListedSymbols(codesize: seq<nat>, vals: seq<nat>, i: nat, j: nat)
    requires |codesize| == SYMBOLS && Listed(codesize, vals, i, j)
    ensures forall q :: 0 <= q < |vals| ==> vals[q] < 256
  {
  }

  lemma PlacedMore(codesize: seq<nat>, vals: seq<nat>, j: nat)
    requires |codesize| == SYMBOLS && Placed(codesize, vals) && j < 256 && 0 < codesize[j] <= MAX_CLEN
    requires |vals| == UpTo(Counts(codesize, 256), codesize[j] - 1) + CountAt(codesize, codesize[j], j)
    ensures Placed(codesize, vals + [j])
  {
    hide UpTo, Counts, CountAt;
  }

  lemma NoneUpTo(codesize: seq<nat>)
    requires |codesize| == SYMBOLS
    ensures UpTo(Counts(codesize, 256), 0) == 0 && Listed(codesize, [], 1, 0) && Placed(codesize, [])
  {
  }

  lemma NoneCounted(codesize: seq<nat>, i: nat)
    ensures CountAt(codesize, i, 0) == 0
  {
  }

  lemma ListedMore(codesize: seq<nat>, vals: seq<nat>, i: nat, j: nat)
    requires |codesize| == SYMBOLS && Listed(codesize, vals, i, j) && j < 256 && 0 < codesize[j] == i
    ensures Listed(codesize, vals + [j], i, j + 1)
  {
    var r := vals + [j];
    forall s | 0 <= s < 256 && ListedBefore(codesize, s, i, j + 1) ensures s in r {
      if s == j { assert r[|vals|] == j; } else { assert s in vals; }
    }
  }

  lemma ListedSame(codesize: seq<nat>, vals: seq<nat>, i: nat, j: nat)
    requires |codesize| == SYMBOLS && Listed(codesize, vals, i, j) && j < 256 && codesize[j] != i
    ensures Listed(codesize, vals, i, j + 1)
  {
  }

  lemma NextLength(codesize: seq<nat>, vals: seq<nat>, i: nat)
    requires |codesize| == SYMBOLS && Listed(codesize, vals, i, 256) && 0 < i <= MAX_CLEN
    ensures Listed(codesize, vals, i + 1, 0)
    ensures UpTo(Counts(codesize, 256), i - 1) + CountAt(codesize, i, 256) == UpTo(Counts(codesize, 256), i)
  {
  }

  // ----- The table -----

  /** How many codes of each length are left of a code with these lengths, once none is over sixteen bits
      and that of the reserved symbol is gone. */
  function FinalBits(codesize: seq<nat>): (b: seq<nat>)
    requires |codesize| == SYMBOLS
    ensures |b| == 17
  {
    var b := Limit(Counts(codesize, SYMBOLS), MAX_CLEN);
    var i := LastUsed(b, 16);
    (if i > 0 then b[i := b[i] - 1] else b)[..17]
  }

  /** The table of a code with these lengths: so many codes of each length, and the symbols by length and,
      where that is equal, by value. */
  ghost predicate TableOf(t: Table, codesize: seq<nat>)
    requires |codesize| == SYMBOLS
  {
    && t.Shape() && t.bits == FinalBits(codesize) && UpTo(t.bits, 16) <= 256
    && Listed(codesize, t.vals[..UpTo(t.bits, 16)], MAX_CLEN + 1, 0)
    && Placed(codesize, t.vals[..UpTo(t.bits, 16)])
  }
}
