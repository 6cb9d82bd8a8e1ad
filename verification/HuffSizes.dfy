/** The code lengths in a table made from symbol counts. Lengths over sixteen bits are cut down after
    Huffman's algorithm, but the symbols stay in the order of the lengths that it gave them. */
module HuffSizes {
  import opened HuffTable
  import opened HuffDerive
  import opened HuffMerge
  import opened HuffLimit
  import opened HuffMinimal
  import opened HuffOrder

  // ----- The length at a place in the list of symbols -----

  /** The least length up to l of which the codes reach past place q. */
  function LengthAt(bits: seq<nat>, q: nat, l: nat): (r: nat)
    requires l < |bits|
    ensures r <= l
  {
    if l == 0 || q >= UpTo(bits, l - 1) then l else LengthAt(bits, q, l - 1)
  }

  lemma {:induction false} LengthMonotone(bits: seq<nat>, p: nat, q: nat, l: nat)
    requires l < |bits| && p <= q
    ensures LengthAt(bits, p, l) <= LengthAt(bits, q, l)
  {
    if l > 0 { LengthMonotone(bits, p, q, l - 1); }
  }

  lemma {:induction false} LengthIs(bits: seq<nat>, q: nat, l: nat, m: nat)
    requires 0 < m <= l < |bits| && UpTo(bits, m - 1) <= q < UpTo(bits, m)
    ensures LengthAt(bits, q, l) == m
  {
    if m < l {
      UpToMonotone(bits, m, l - 1);
      LengthIs(bits, q, l - 1, m);
    }
  }

  /** The length that symbol s has in the table of a code with these lengths. */
  function SizeFor(codesize: seq<nat>, s: nat): nat
    requires |codesize| == SYMBOLS && s < 256 && 0 < codesize[s] <= MAX_CLEN
  {
    LengthAt(FinalBits(codesize), Rank(codesize, s), 16)
  }

  /** All codes of the algorithm are short enough for the counters. */
  predicate Countable(codesize: seq<nat>) {
    |codesize| == SYMBOLS && forall s :: 0 <= s < SYMBOLS ==> codesize[s] <= MAX_CLEN
  }

  /** What a derived table holds of a symbol is its length. */
  lemma SizeIs(codesize: seq<nat>, t: Table, e: EncoderTable, s: nat)
    requires Countable(codesize) && TableOf(t, codesize) && Encodes(e, t) && s < 256 && codesize[s] > 0
    ensures e.ehufsi[s] == SizeFor(codesize, s)
  {
    hide UpTo, FinalBits, Rank, LengthAt;
    var vals := t.vals[..UpTo(t.bits, 16)];
    assert ListedBefore(codesize, s, MAX_CLEN + 1, 0);
    var q :| 0 <= q < |vals| && vals[q] == s;
    var c := IndexOnto(t.bits, q, 16);
    assert SymbolAt(t, c) == s;
    IndexInRange(t.bits, c, 16);
    IndexFrom(t.bits, c);
    LengthIs(t.bits, q, 16, c.l);
  }

  lemma IndexFrom(bits: seq<nat>, c: Symbol)
    requires HasCode(bits, c)
    ensures UpTo(bits, c.l - 1) <= Index(bits, c)
  {
  }

  /** Symbols are ranked by length, and among equals by value. */
  lemma RankOrdered(codesize: seq<nat>, s: nat, u: nat)
    requires Countable(codesize) && s < 256 && u < 256 && codesize[s] > 0 && codesize[u] > 0 && Precedes(codesize, s, u)
    ensures Rank(codesize, s) <= Rank(codesize, u)
  {
    hide UpTo, CountAt;
    if codesize[s] < codesize[u] {
      CountAtMonotone(codesize, codesize[s], s, 256);
      UpToStep(Counts(codesize, 256), codesize[s]);
      UpToMonotone(Counts(codesize, 256), codesize[s], codesize[u] - 1);
    } else {
      CountAtMonotone(codesize, codesize[s], s, u);
    }
  }

  lemma UpToStep(bits: seq<nat>, l: nat)
    requires 0 < l < |bits|
    ensures UpTo(bits, l) == UpTo(bits, l - 1) + bits[l]
  {
  }

  // ----- Frequent symbols and short codes -----

  /** Frequencies, that of the reserved symbol among them, for which the algorithm finds a length for
      exactly the symbols that occur, and none that is too long for the counters. */
  ghost predicate Coded(freq: seq<nat>) {
    && |freq| == SYMBOLS && freq[256] == 1 && Countable(Lengths(freq))
    && forall s :: 0 <= s < SYMBOLS ==> (freq[s] > 0 <==> Lengths(freq)[s] > 0)
  }

  /** Symbol s occurs more often than symbol u. */
  predicate MoreFrequent(freq: seq<nat>, s: nat, u: nat)
    requires |freq| == SYMBOLS
  {
    s < 256 && u < 256 && freq[s] > freq[u] > 0
  }

  /** A symbol that occurs more often has no longer a code. */
  ghost predicate FrequentFirst(freq: seq<nat>, sizes: seq<nat>)
    requires |freq| == SYMBOLS && |sizes| == 256
  {
    forall s: nat, u: nat :: MoreFrequent(freq, s, u) ==> sizes[s] <= sizes[u]
  }

  /** The algorithm finds one length for both, they get two, and the smaller symbol, which is listed first,
      occurs less often. */
  ghost predicate Divided(freq: seq<nat>, s: nat, u: nat)
    requires Coded(freq) && MoreFrequent(freq, s, u)
  {
    var cs := Lengths(freq);
    cs[s] == cs[u] && u < s && SizeFor(cs, u) < SizeFor(cs, s)
  }

  lemma SizesOrdered(freq: seq<nat>, t: Table, e: EncoderTable, s: nat, u: nat)
    requires Coded(freq) && TableOf(t, Lengths(freq)) && Encodes(e, t) && MoreFrequent(freq, s, u)
    ensures e.ehufsi[s] <= e.ehufsi[u] <==> !Divided(freq, s, u)
  {
    hide Lengths, TableOf, Encodes, FinalBits, Rank, LengthAt;
    var cs := Lengths(freq);
    LengthsOrdered(freq, s, u);
    SizeIs(cs, t, e, s);
    SizeIs(cs, t, e, u);
    if Precedes(cs, s, u) {
      RankOrdered(cs, s, u);
      LengthMonotone(FinalBits(cs), Rank(cs, s), Rank(cs, u), 16);
    }
  }

  /** Main result: a symbol that occurs more often has no longer a code, unless limiting the lengths
      divides symbols of one length. */
  lemma FrequencyOrder(freq: seq<nat>, t: Table, e: EncoderTable)
    requires Coded(freq) && TableOf(t, Lengths(freq)) && Encodes(e, t)
    ensures |e.ehufsi| == 256
    ensures FrequentFirst(freq, e.ehufsi) <==> forall s: nat, u: nat :: MoreFrequent(freq, s, u) ==>
      !Divided(freq, s, u)
  {
    hide TableOf, Divided, Lengths;
    EncodesSizes(e, t);
    forall s: nat, u: nat | MoreFrequent(freq, s, u)
      ensures e.ehufsi[s] <= e.ehufsi[u] <==> !Divided(freq, s, u)
    {
      SizesOrdered(freq, t, e, s, u);
    }
  }

  lemma EncodesSizes(e: EncoderTable, t: Table)
    requires Encodes(e, t)
    ensures |e.ehufsi| == 256
  {
  }

  // ----- Lengths that need no limiting -----

  lemma {:induction false} LimitNothing(b: seq<nat>, i: nat)
    requires i < |b| && forall k :: 16 < k <= i ==> b[k] == 0
    ensures Limit(b, i) == b
    decreases i
  {
    if i > 16 { LimitNothing(b, i - 1); }
  }

  lemma {:induction false} NoneOfLength(codesize: seq<nat>, k: nat, n: nat)
    requires n <= |codesize| && forall s :: 0 <= s < n ==> codesize[s] != k
    ensures CountAt(codesize, k, n) == 0
  {
    if n > 0 { NoneOfLength(codesize, k, n - 1); }
  }

  lemma LastUsedIs(b: seq<nat>, i: nat, j: nat)
    requires 0 < j <= i < |b| && b[j] > 0 && forall k :: j < k <= i ==> b[k] == 0
    ensures LastUsed(b, i) == j
  {
  }

  /** The reserved symbol takes the code that is removed, so those of the others stay as they are. */
  lemma ReservedOnly(codesize: seq<nat>)
    requires Countable(codesize) && 0 < codesize[256] <= 16
    requires forall s :: 0 <= s < SYMBOLS ==> codesize[s] <= codesize[256]
    ensures FinalBits(codesize) == Counts(codesize, 256)[..17]
  {
    hide CountAt;
    var b, l := Counts(codesize, SYMBOLS), codesize[256];
    CountsStep(codesize, 256);
    forall k | l < k <= MAX_CLEN ensures b[k] == 0 { NoneOfLength(codesize, k, SYMBOLS); }
    LimitNothing(b, MAX_CLEN);
    LastUsedIs(b, 16, l);
    assert b[l := b[l] - 1] == Counts(codesize, 256);
  }

  lemma {:induction false} UpToFront(b: seq<nat>, m: nat, l: nat)
    requires l < m <= |b|
    ensures UpTo(b[..m], l) == UpTo(b, l)
  {
    if l > 0 { UpToFront(b, m, l - 1); }
  }

  /** Without limiting, every symbol has the length that the algorithm finds. */
  lemma OwnLength(freq: seq<nat>, s: nat)
    requires Coded(freq) && s < 256 && freq[s] > 0 && Lengths(freq)[256] <= 16
    ensures SizeFor(Lengths(freq), s) == Lengths(freq)[s] <= 16
  {
    hide Lengths, UpTo, CountAt, FinalBits, LengthAt, Counts;
    var cs := Lengths(freq);
    forall x | 0 <= x < SYMBOLS ensures cs[x] <= cs[256] { if freq[x] > 0 { ReservedLongest(freq, x); } }
    ReservedOnly(cs);
    var l, b := cs[s], Counts(cs, 256);
    UpToFront(b, 17, l);
    UpToFront(b, 17, l - 1);
    UpToStep(b, l);
    CountAtMonotone(cs, l, s + 1, 256);
    CountHere(cs, s);
    LengthIs(b[..17], Rank(cs, s), 16, l);
  }

  lemma CountHere(codesize: seq<nat>, s: nat)
    requires s < |codesize|
    ensures CountAt(codesize, codesize[s], s + 1) == CountAt(codesize, codesize[s], s) + 1
  {
  }

  /** Main result: if no length is over sixteen bits, the table has exactly the lengths of the algorithm,
      and a symbol that occurs more often has no longer a code. */
  lemma ShortLengths(freq: seq<nat>, t: Table, e: EncoderTable)
    requires Coded(freq) && TableOf(t, Lengths(freq)) && Encodes(e, t)
    requires forall s :: 0 <= s < SYMBOLS ==> Lengths(freq)[s] <= 16
    ensures |e.ehufsi| == 256 && FrequentFirst(freq, e.ehufsi)
    ensures forall s :: 0 <= s < 256 && freq[s] > 0 ==> e.ehufsi[s] == Lengths(freq)[s]
  {
    hide Lengths, TableOf, Encodes, SizeFor;
    FrequencyOrder(freq, t, e);
    forall s: nat | s < 256 && freq[s] > 0 ensures e.ehufsi[s] == Lengths(freq)[s] == SizeFor(Lengths(freq), s) {
      SizeIs(Lengths(freq), t, e, s);
      OwnLength(freq, s);
    }
  }

  // ----- The total length -----

  /** No prefix code for the symbols that occur and the reserved one takes fewer bits in total. */
  ghost predicate Cheapest(freq: seq<nat>, sizes: seq<nat>)
    requires |freq| == SYMBOLS && |sizes| == 256
  {
    forall other: seq<nat>, m: nat :: Prefix(freq, other, m) ==>
      Cost(freq, sizes, 256) + Lengths(freq)[256] <= Cost(freq, other, SYMBOLS)
  }

  lemma {:induction false} SameCost(freq: seq<nat>, a: seq<nat>, b: seq<nat>, n: nat)
    requires n <= |freq| && n <= |a| && n <= |b| && forall s :: 0 <= s < n && freq[s] > 0 ==> a[s] == b[s]
    ensures Cost(freq, a, n) == Cost(freq, b, n)
  {
    if n > 0 {
      SameCost(freq, a, b, n - 1);
      if freq[n - 1] == 0 { assert 0 * a[n - 1] == 0 * b[n - 1]; }
    }
  }

  /** Main result: the lengths of the algorithm are the best ones. */
  lemma OwnCheapest(freq: seq<nat>, sizes: seq<nat>)
    requires |freq| == SYMBOLS && freq[256] == 1 && |sizes| == 256
    requires forall s :: 0 <= s < 256 && freq[s] > 0 ==> sizes[s] == Lengths(freq)[s]
    ensures Cheapest(freq, sizes)
  {
    hide Lengths, Prefix;
    SameCost(freq, sizes, Lengths(freq), 256);
    forall other: seq<nat>, m: nat | Prefix(freq, other, m)
      ensures |other| == SYMBOLS && Cost(freq, sizes, 256) + Lengths(freq)[256] <= Cost(freq, other, SYMBOLS)
    {
      LengthsMinimal(freq, other, m);
    }
  }

  /** The code lengths of a table made from these frequencies. */
  ghost predicate SizesRight(freq: seq<nat>, sizes: seq<nat>)
    requires Coded(freq)
  {
    && |sizes| == 256
    && (FrequentFirst(freq, sizes) <==>
          forall s: nat, u: nat :: MoreFrequent(freq, s, u) ==> !Divided(freq, s, u))
    && (NoneOverSixteen(Lengths(freq)) ==>
          FrequentFirst(freq, sizes) && Cheapest(freq, sizes)
            && forall s :: 0 <= s < 256 && freq[s] > 0 ==> sizes[s] == Lengths(freq)[s])
  }

  predicate NoneOverSixteen(codesize: seq<nat>) { forall s :: 0 <= s < |codesize| ==> codesize[s] <= 16 }

  lemma TableSizes(freq: seq<nat>, t: Table)
    requires Coded(freq) && TableOf(t, Lengths(freq))
    ensures forall e :: Encodes(e, t) ==> SizesRight(freq, e.ehufsi)
  {
    hide FrequentFirst, Cheapest, Divided, Lengths, TableOf, Encodes;
    forall e | Encodes(e, t) ensures SizesRight(freq, e.ehufsi) {
      FrequencyOrder(freq, t, e);
      if NoneOverSixteen(Lengths(freq)) {
        ShortLengths(freq, t, e);
        OwnCheapest(freq, e.ehufsi);
      }
    }
  }
}
