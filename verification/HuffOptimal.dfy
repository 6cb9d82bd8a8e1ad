/** Building a Huffman table from symbol counts: code lengths from Huffman's algorithm, no code over
    sixteen bits, no all-ones code, and the shorter codes for the more frequent symbols. (Section K.2 of
    ITU-T T.81.) */
module HuffOptimal {
  import opened Bits
  import opened HuffTable
  import opened HuffDerive
  import opened HuffMerge
  import opened HuffLimit
  import opened HuffSizes
  import E = HuffEqual

  // ----- The whole procedure -----

  lemma {:induction false} SumFront(f: seq<nat>, m: nat, n: nat)
    requires n <= m <= |f|
    ensures Sum(f[..m], n) == Sum(f, n) && NonZero(f[..m], n) == NonZero(f, n)
  {
    if n > 0 { SumFront(f, m, n - 1); }
  }

  lemma WithReserved(f0: seq<nat>, f: seq<nat>)
    requires |f| == SYMBOLS && f0 == f[..256] && f[256] == 1
    ensures Sum(f, SYMBOLS) == Sum(f0, 256) + 1 && NonZero(f, SYMBOLS) == NonZero(f0, 256) + 1
  {
    SumFront(f, 256, 256);
  }

  lemma {:induction false} NonZeroSame(a: seq<nat>, b: seq<nat>, n: nat)
    requires n <= |a| && n <= |b| && forall s :: 0 <= s < n ==> (a[s] > 0 <==> b[s] > 0)
    ensures NonZero(a, n) == NonZero(b, n)
  {
    if n > 0 { NonZeroSame(a, b, n - 1); }
  }

  /** What a complete code for the used symbols means for its lengths. */
  lemma LengthsOfUsed(codesize: seq<nat>, f: seq<nat>)
    requires |f| == SYMBOLS && f[256] > 0 && Complete(codesize, UsedSymbols(f))
    ensures |codesize| == SYMBOLS && forall s :: 0 <= s < SYMBOLS ==> (codesize[s] > 0 <==> f[s] > 0)
    ensures NonZero(codesize, SYMBOLS) == NonZero(f, SYMBOLS)
    ensures NonZero(codesize, 256) == NonZero(codesize, SYMBOLS) - 1
  {
    hide AllSpace;
    NonZeroSame(codesize, f, SYMBOLS);
  }

  /** The counts describe a complete code, unless the byte of some length has wrapped around. */
  lemma CountsFit(codesize: seq<nat>, used: set<int>, bits: seq<nat>)
    requires Complete(codesize, used) && forall s :: 0 <= s < SYMBOLS ==> codesize[s] <= MAX_CLEN
    requires |bits| == MAX_CLEN + 1 && bits[0] == 0
    requires forall k :: 0 < k <= MAX_CLEN ==> bits[k] == CountAt(codesize, k, SYMBOLS) % 256
    ensures !Shared(codesize) ==> Good(bits, MAX_CLEN, NonZero(codesize, SYMBOLS)) && bits == Counts(codesize, SYMBOLS)
  {
    hide NonZero, AllSpace, CountAt, End, UpTo, Pow2;
    if !Shared(codesize) {
      var c := Counts(codesize, SYMBOLS);
      assert bits == c;
      CompleteCounts(codesize, used);
      CountsTotal(codesize, SYMBOLS);
    }
  }

  /** What is left of the counts when 256 codes share a length. */
  ghost predicate Wrapped(codesize: seq<nat>, one: bool)
    requires |codesize| == SYMBOLS
  {
    && CountAt(codesize, if one then 9 else 8, SYMBOLS) == 256
    && forall k :: 0 < k <= MAX_CLEN ==> CountAt(codesize, k, SYMBOLS) % 256 == if one && k == 1 then 1 else 0
  }

  /** The byte counts are the true counts exactly if no length is shared by 256 codes; that takes 256
      codes of length 8, or 257 of which one has length 1 and the others 9. */
  lemma CountsRight(codesize: seq<nat>, used: set<int>)
    requires Complete(codesize, used) && forall s :: 0 <= s < SYMBOLS ==> codesize[s] <= MAX_CLEN
    ensures (forall k :: 0 < k <= MAX_CLEN ==>
      CountAt(codesize, k, SYMBOLS) % 256 == CountAt(codesize, k, SYMBOLS)) <==> !Shared(codesize)
    ensures Shared(codesize) <==> Wrapped(codesize, NonZero(codesize, SYMBOLS) == 257)
    ensures Shared(codesize) ==> NonZero(codesize, SYMBOLS) == 256 || NonZero(codesize, SYMBOLS) == 257
  {
    hide NonZero, AllSpace, CountAt, End, UpTo, Pow2;
    if Shared(codesize) {
      var k :| 0 < k <= MAX_CLEN && CountAt(codesize, k, SYMBOLS) >= 256;
      var c := Counts(codesize, SYMBOLS);
      CompleteCounts(codesize, used);
      CountsTotal(codesize, SYMBOLS);
      ManyOfOne(c, MAX_CLEN, k);
      forall i | 0 < i <= MAX_CLEN ensures CountAt(codesize, i, SYMBOLS) == c[i] { }
      assert CountAt(codesize, k, SYMBOLS) % 256 != CountAt(codesize, k, SYMBOLS);
    }
  }

  /** Frequencies that lead there: 255 equally frequent symbols leave no count at all, and 255 equally
      frequent ones besides one that outweighs them only that of the latter. */
  lemma {:induction false} EqualShare(codesize: seq<nat>, b: nat, heavy: bool, k: nat, n: nat)
    requires n <= SYMBOLS && E.EqualLengths(codesize, b, heavy) && b < 256 && k > 0
    ensures CountAt(codesize, k, n) ==
      (if k == (if heavy then 9 else 8) then if b < n then n - 1 else n else 0)
        + if heavy && k == 1 && b < n then 1 else 0
  {
    if n > 0 { EqualShare(codesize, b, heavy, k, n - 1); }
  }

  /** Equally frequent symbols make the bytes wrap around, however often they occur. */
  lemma CountWraps(freq: seq<nat>, b: nat, v: nat)
    requires E.Equal(freq, b, v)
    ensures Wrapped(Lengths(freq), freq[b] > 0) && Shared(Lengths(freq))
  {
    hide Lengths, Sum, CountAt, E.EqualLengths;
    E.EqualCounts(freq, b, v);
    var cs := Lengths(freq);
    forall k | 0 < k <= MAX_CLEN
      ensures CountAt(cs, k, SYMBOLS) ==
        (if k == (if freq[b] > 0 then 9 else 8) then 256 else 0) + if freq[b] > 0 && k == 1 then 1 else 0
    {
      EqualShare(cs, b, freq[b] > 0, k, SYMBOLS);
    }
  }

  /** A listing is a list of distinct symbols, exactly those that have a code. */
  lemma ListedAll(codesize: seq<nat>, vals: seq<nat>)
    requires |codesize| == SYMBOLS && Listed(codesize, vals, MAX_CLEN + 1, 0)
    requires forall s :: 0 <= s < SYMBOLS ==> codesize[s] <= MAX_CLEN
    ensures Distinct(vals, |vals|) && forall q :: 0 <= q < |vals| ==> vals[q] < 256
    ensures forall s :: 0 <= s < 256 ==> (s in vals <==> codesize[s] > 0)
  {
    forall p, q | 0 <= p < q < |vals| ensures vals[p] != vals[q] { assert Precedes(codesize, vals[p], vals[q]); }
    forall s | 0 <= s < 256 ensures s in vals <==> codesize[s] > 0 {
      if codesize[s] > 0 { assert ListedBefore(codesize, s, MAX_CLEN + 1, 0); }
    }
  }

  lemma FrontDistinct(vals: seq<nat>, p: nat)
    requires p <= |vals| && Distinct(vals[..p], p)
    ensures Distinct(vals, p)
  {
    forall i, j | 0 <= i < j < p ensures vals[i] != vals[j] { assert vals[..p][i] != vals[..p][j]; }
  }

  /** A table, or the error for too long a code, or a search for the longest code that finds none. */
  datatype Outcome = Built(t: Table) | TooLong | NoLength

  /** The table is valid and has a code for exactly the symbols that occur. */
  ghost predicate TableFor(t: Table, freq: seq<nat>)
    requires |freq| >= 256
  {
    && t.Shape() && EncoderOk(t, false) && UpTo(t.bits, 16) == NonZero(freq, 256)
    && forall s :: 0 <= s < 256 ==> (freq[s] > 0 <==> s in t.vals[..UpTo(t.bits, 16)])
  }

  ghost predicate Overlong(codesize: seq<nat>) { exists s :: 0 <= s < |codesize| && codesize[s] > MAX_CLEN }

  /** The table from the counts of a code's lengths and the symbols in their order. */
  lemma TableBuilt(codesize: seq<nat>, f: seq<nat>, bits: seq<nat>, vals: seq<nat>, p: nat)
    requires |f| == SYMBOLS && |codesize| == SYMBOLS && forall s :: 0 <= s < 256 ==> (codesize[s] > 0 <==> f[s] > 0)
    requires |bits| == 17 && |vals| == 256 && p == UpTo(bits, 16) == NonZero(codesize, 256) <= 256 && Fits(bits)
    requires Listed(codesize, vals[..p], MAX_CLEN + 1, 0) && forall s :: 0 <= s < SYMBOLS ==> codesize[s] <= MAX_CLEN
    requires forall q :: p <= q < 256 ==> vals[q] == 0
    ensures TableFor(Table(bits, vals), f)
  {
    hide UpTo, NonZero, Fits, Distinct, Listed;
    ListedAll(codesize, vals[..p]);
    FrontDistinct(vals, p);
    NonZeroSame(codesize, f, 256);
    assert forall q :: 0 <= q < p ==> vals[q] == vals[..p][q];
  }

  /** Without any counts there is no table for symbols that occur. */
  lemma EmptyTable(t: Table, freq: seq<nat>, s: nat)
    requires t.Shape() && |freq| == SYMBOLS && s < 256 && freq[s] > 0 && forall k :: 0 < k <= 16 ==> t.bits[k] == 0
    ensures !TableFor(t, freq)
  {
    AllZero(t.bits, 16);
    OneNonZero(freq, s, 256);
  }

  /** What becomes of counts that have wrapped around. */
  lemma WrappedAway(codesize: seq<nat>, one: bool, bits: seq<nat>)
    requires |codesize| == SYMBOLS && Wrapped(codesize, one) && |bits| == MAX_CLEN + 1
    requires forall k :: 0 < k <= MAX_CLEN ==> bits[k] == CountAt(codesize, k, SYMBOLS) % 256
    ensures NoneLong(bits) && forall k :: 0 < k <= 16 ==> bits[k] == if one && k == 1 then 1 else 0
  {
  }

  /** Builds a table for the counted symbols. It fails if, and only if, Huffman's algorithm gives some
      symbol a code longer than 32 bits, which takes a total count of at least 9227464, or gives 256
      symbols codes of one length. */
  method GenOptimalTable(freq: array<nat>) returns (r: Outcome)
    requires freq.Length == SYMBOLS
    requires exists s :: 0 <= s < 256 && freq[s] > 0
    requires Sum(freq[..], 256) <= NO_FREQUENCY
    modifies freq
    ensures var cs := Lengths(old(freq[..])[256 := 1]);
      && (r.TooLong? <==> Overlong(cs))
      && (r.Built? && TableFor(r.t, old(freq[..])) <==> !Overlong(cs) && !Shared(cs))
      && (r.NoLength? <==> !Overlong(cs) && Shared(cs) && NonZero(old(freq[..]), 256) == 255)
      && (NonZero(old(freq[..]), 256) < 255 && !Overlong(cs) ==> !Shared(cs))
    ensures var f := old(freq[..])[256 := 1];
      r.Built? && !Shared(Lengths(f)) ==>
        Coded(f) && TableOf(r.t, Lengths(f)) && forall e :: Encodes(e, r.t) ==> SizesRight(f, e.ehufsi)
    ensures r.TooLong? ==> Sum(old(freq[..]), 256) + 1 >= Fib(MAX_CLEN + 3)
  {
    hide UpTo, End, Complete, Fib, NonZero, Sum, Counts, CountAt, Good, Listed, Placed, Fits, UsedSymbols, Lengths,
      Shared,
      Wrapped, TableFor, Limit, LastUsed, Encodes, SizesRight;
    ghost var f0 := freq[..];
    freq[256] := 1;
    ghost var f := freq[..];
    assert f == f0[256 := 1] && f[..256] == f0[..256];
    SumFront(f0, 256, 256);
    WithReserved(f0[..256], f);
    var codesize := BuildTree(freq);
    ghost var cs := codesize[..];
    LengthsOfUsed(cs, f);
    var ok, bits := CountLengths(codesize);
    if !ok {
      ghost var s :| 0 <= s < SYMBOLS && codesize[s] > MAX_CLEN;
      FibMonotone(MAX_CLEN + 3, codesize[s] + 2);
      return TooLong;
    }
    CountsFit(cs, UsedSymbols(f), bits[..]);
    CountsRight(cs, UsedSymbols(f));
    ghost var total := NonZero(cs, SYMBOLS);
    if Shared(cs) { WrappedAway(cs, total == 257, bits[..]); }
    LimitLengths(bits, total);
    var i := RemoveReserved(bits, total);
    if i == 0 {
      assert bits[1] == 0;
      return NoLength;
    }
    var huffval, p := SortSymbols(codesize);
    r := Built(Table(bits[..17], huffval[..]));
    if Shared(cs) {
      ghost var s :| 0 <= s < 256 && f[s] > 0;
      EmptyTable(r.t, f0, s);
    } else {
      CountsTotal(cs, 256);
      assert bits[..17] == FinalBits(cs);
      TableBuilt(cs, f0, bits[..17], huffval[..], p);
      TableSizes(f, r.t);
    }
  }
}
