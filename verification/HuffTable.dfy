/** Huffman tables in their canonical form: how many codes of each length, and the symbols in code
    order. (Annex C of ITU-T T.81.) */
module HuffTable {
  import opened Bits

  /** bits[l]: number of codes of length l; vals: the symbols, shortest code first. */
  datatype Table = Table(bits: seq<nat>, vals: seq<nat>) {
    predicate Shape() { |bits| == 17 && |vals| == 256 && forall i :: 0 <= i < 256 ==> vals[i] < 256 }
  }

  /** Number of codes of length at most l. */
  function UpTo(bits: seq<nat>, l: nat): nat
    requires l < |bits|
  {
    if l == 0 then 0 else UpTo(bits, l - 1) + bits[l]
  }

  /** The first code value past those of length l: the codes of length l, in order, follow on
      twice the value reached at length l - 1. */
  function End(bits: seq<nat>, l: nat): nat
    requires l < |bits|
  {
    if l == 0 then 0 else 2 * End(bits, l - 1) + bits[l]
  }

  /** The j-th code of length l. */
  function Code(bits: seq<nat>, l: nat, j: nat): nat
    requires 0 < l < |bits|
  {
    2 * End(bits, l - 1) + j
  }

  /** Length and symbol of one code. */
  datatype Symbol = Symbol(l: nat, j: nat)

  predicate HasCode(bits: seq<nat>, c: Symbol) {
    0 < c.l < |bits| && c.j < bits[c.l]
  }

  function CodeOf(bits: seq<nat>, c: Symbol): nat
    requires HasCode(bits, c)
  {
    Code(bits, c.l, c.j)
  }

  /** The counts describe a code tree in which the all-ones code of every length stays unused. */
  predicate Fits(bits: seq<nat>)
    requires |bits| == 17
  {
    End(bits, 16) < 0x10000
  }

  lemma {:induction false} UpToMonotone(bits: seq<nat>, l: nat, m: nat)
    requires l <= m < |bits|
    ensures UpTo(bits, l) <= UpTo(bits, m)
    decreases m - l
  {
    if l < m { UpToMonotone(bits, l, m - 1); }
  }

  /** Going to longer codes at least keeps the share of code space that is used up. */
  lemma {:induction false} EndGrows(bits: seq<nat>, l: nat, m: nat)
    requires l <= m < |bits|
    ensures End(bits, l) * Pow2(m - l) <= End(bits, m)
    decreases m - l
  {
    if l < m {
      EndGrows(bits, l, m - 1);
      MulAssoc(End(bits, l), Pow2(m - 1 - l), 2);
    }
  }

  lemma {:induction false} EndBelow(bits: seq<nat>, l: nat)
    requires |bits| == 17 && Fits(bits) && l <= 16
    ensures End(bits, l) < Pow2(l)
  {
    EndGrows(bits, l, 16);
    Pow2Words();
    Pow2Add(l, 16 - l);
    if End(bits, l) >= Pow2(l) { MulMonotone(Pow2(l), End(bits, l), Pow2(16 - l)); }
  }

  /** No code is all ones, so the bits that pad the end of the data never look like a code. */
  lemma NoAllOnes(bits: seq<nat>, c: Symbol)
    requires |bits| == 17 && Fits(bits) && HasCode(bits, c)
    ensures CodeOf(bits, c) + 1 < Pow2(c.l)
  {
    EndBelow(bits, c.l);
  }

  lemma DivAtLeast(x: nat, y: nat, p: nat)
    requires p > 0 && y * p <= x
    ensures y <= x / p
  {
    QuotientRemainder(x, p);
    if x / p < y { MulMonotone(x / p + 1, y, p); }
  }

  lemma LongerIsLater(bits: seq<nat>, l: nat, c: Symbol)
    requires HasCode(bits, c) && l < c.l
    ensures End(bits, l) <= CodeOf(bits, c) / Pow2(c.l - l)
  {
    EndGrows(bits, l, c.l - 1);
    MulAssoc(End(bits, l), Pow2(c.l - 1 - l), 2);
    DivAtLeast(CodeOf(bits, c), End(bits, l), Pow2(c.l - l));
  }

  /** No code is the beginning of another. */
  lemma PrefixFree(bits: seq<nat>, c: Symbol, d: Symbol)
    requires HasCode(bits, c) && HasCode(bits, d) && c.l <= d.l && c != d
    ensures CodeOf(bits, d) / Pow2(d.l - c.l) != CodeOf(bits, c)
  {
    if c.l < d.l { LongerIsLater(bits, c.l, d); }
  }

  // ----- Bit strings -----

  /** The first n bits of s, continued with zeros, as a number. */
  function Peek(s: seq<bool>, n: nat): nat {
    if n == 0 then 0 else 2 * Peek(s, n - 1) + (if n - 1 < |s| && s[n - 1] then 1 else 0)
  }

  lemma {:induction false} PeekBound(s: seq<bool>, n: nat)
    ensures Peek(s, n) < Pow2(n)
  {
    if n > 0 { PeekBound(s, n - 1); }
  }

  lemma HalveQuotient(x: nat, b: nat, p: nat)
    requires b < 2 && p > 0
    ensures (2 * x + b) / (p * 2) == x / p
  {
    var q, r := x / p, x % p;
    assert x == q * p + r;
    MulAssoc(q, p, 2);
    QuotientUnique(2 * x + b, p * 2, q, 2 * r + b);
  }

  /** A shorter look at the same bits is the front part of a longer one. */
  lemma {:induction false} PeekPrefix(s: seq<bool>, m: nat, n: nat)
    requires m <= n
    ensures Peek(s, m) == Peek(s, n) / Pow2(n - m)
    decreases n - m
  {
    if m < n {
      PeekPrefix(s, m, n - 1);
      HalveQuotient(Peek(s, n - 1), if n - 1 < |s| && s[n - 1] then 1 else 0, Pow2(n - 1 - m));
      assert Pow2(n - m) == Pow2(n - 1 - m) * 2;
    }
  }

  lemma {:induction false} PeekAgree(s: seq<bool>, t: seq<bool>, n: nat)
    requires forall i :: 0 <= i < n ==> (i < |s| && s[i]) == (i < |t| && t[i])
    ensures Peek(s, n) == Peek(t, n)
  {
    if n > 0 { PeekAgree(s, t, n - 1); }
  }

  // ----- Decoding one symbol, bit by bit -----

  /** The largest code of length l, or -1. */
  function MaxCode(bits: seq<nat>, l: nat): int
    requires 0 < l < |bits|
  {
    if bits[l] > 0 then End(bits, l) - 1 else -1
  }

  /** The first length from l on at which the bits read so far are a code; 17 if there is none. */
  function CodeLength(bits: seq<nat>, s: seq<bool>, l: nat): (r: nat)
    requires |bits| == 17 && 0 < l <= 17
    ensures l <= r <= 17
    ensures forall k :: l <= k < r ==> Peek(s, k) > MaxCode(bits, k)
    ensures r < 17 ==> Peek(s, r) <= MaxCode(bits, r)
    decreases 17 - l
  {
    if l == 17 || Peek(s, l) <= MaxCode(bits, l) then l else CodeLength(bits, s, l + 1)
  }

  /** The first code value of length l. */
  function First(bits: seq<nat>, l: nat): nat
    requires 0 < l < |bits|
  {
    2 * End(bits, l - 1)
  }

  /** Bits that were too large at every shorter length are not below the first code of this one. */
  lemma {:induction false} NotBelowFirst(bits: seq<nat>, s: seq<bool>, k: nat)
    requires |bits| == 17 && 0 < k <= 17 && forall i :: 1 <= i < k ==> Peek(s, i) > MaxCode(bits, i)
    ensures Peek(s, k - 1) >= End(bits, k - 1)
    decreases k
  {
    if k > 1 {
      NotBelowFirst(bits, s, k - 1);
      NextLevel(bits, s, k - 1);
      hide Peek, End;
      assert Peek(s, k - 1) > MaxCode(bits, k - 1);
    }
  }

  lemma NextLevel(bits: seq<nat>, s: seq<bool>, l: nat)
    requires 0 < l < |bits|
    ensures End(bits, l) == 2 * End(bits, l - 1) + bits[l] && Peek(s, l) >= 2 * Peek(s, l - 1)
  {
  }

  lemma CodeInLevel(bits: seq<nat>, c: Symbol)
    requires HasCode(bits, c)
    ensures CodeOf(bits, c) == First(bits, c.l) + c.j <= MaxCode(bits, c.l)
  {
  }

  /** What bit-by-bit decoding finds: the code that the bits begin with, if there is one. */
  lemma DecodeExact(bits: seq<nat>, s: seq<bool>, c: Symbol)
    requires |bits| == 17 && HasCode(bits, c)
    ensures Peek(s, c.l) == CodeOf(bits, c) <==>
      CodeLength(bits, s, 1) == c.l && Peek(s, c.l) - First(bits, c.l) == c.j
  {
    hide Peek, Pow2, End;
    var r := CodeLength(bits, s, 1);
    if Peek(s, c.l) == CodeOf(bits, c) {
      CodeInLevel(bits, c);
      forall k | 1 <= k < c.l ensures Peek(s, k) > MaxCode(bits, k) {
        PeekPrefix(s, k, c.l);
        LongerIsLater(bits, k, c);
      }
      assert r == c.l;
    }
  }

  /** Whatever bit-by-bit decoding finds is a code. */
  lemma DecodeFinds(bits: seq<nat>, s: seq<bool>)
    requires |bits| == 17
    ensures var r := CodeLength(bits, s, 1);
      r < 17 ==> Peek(s, r) >= First(bits, r) && HasCode(bits, Symbol(r, Peek(s, r) - First(bits, r)))
  {
    var r := CodeLength(bits, s, 1);
    if r < 17 {
      NotBelowFirst(bits, s, r);
      NextLevel(bits, s, r);
      hide Peek, End;
    }
  }
}
