/** Numbers, bytes and bit strings: what the shift registers of the Huffman coder hold. */
module HuffBits {
  import opened Bits
  import opened HuffTable

  /** The low n bits of x, most significant first. */
  function BitsOf(x: nat, n: nat): (s: seq<bool>)
    ensures |s| == n
  {
    if n == 0 then [] else BitsOf(x / 2, n - 1) + [x % 2 == 1]
  }

  lemma HalfShifted(x: nat, p: nat, c: nat)
    ensures (x * (2 * p) + c) / 2 == x * p + c / 2 && (x * (2 * p) + c) % 2 == c % 2
  {
    assert x * (2 * p) == 2 * (x * p);
  }

  /** Shifting c in from the right appends its bits. */
  lemma {:induction false} BitsAppend(x: nat, n: nat, c: nat, k: nat)
    requires c < Pow2(k)
    ensures BitsOf(x * Pow2(k) + c, n + k) == BitsOf(x, n) + BitsOf(c, k)
    decreases k
  {
    if k > 0 {
      HalfShifted(x, Pow2(k - 1), c);
      BitsAppend(x, n, c / 2, k - 1);
      assert BitsOf(x, n) + BitsOf(c, k) == BitsOf(x, n) + BitsOf(c / 2, k - 1) + [c % 2 == 1];
    } else {
      assert BitsOf(x, n) + [] == BitsOf(x, n);
    }
  }

  lemma HalfModulo(x: nat, p: nat)
    requires p > 0
    ensures (x % (2 * p)) / 2 == x / 2 % p && x % (2 * p) % 2 == x % 2
  {
    var q, r := x / (2 * p), x % (2 * p);
    assert x == 2 * (q * p) + r by { assert q * (2 * p) == 2 * (q * p); }
    assert x / 2 == q * p + r / 2;
    QuotientUnique(x / 2, p, q, r / 2);
  }

  /** Bits above the low m do not matter. */
  lemma {:induction false} BitsModulo(x: nat, m: nat, n: nat)
    requires n <= m
    ensures BitsOf(x % Pow2(m), n) == BitsOf(x, n)
    decreases n
  {
    if n > 0 {
      HalfModulo(x, Pow2(m - 1));
      BitsModulo(x / 2, m - 1, n - 1);
    }
  }

  /** x shifted right by n bits. */
  function Shr(x: nat, n: nat): (q: nat)
    ensures x == q * Pow2(n) + x % Pow2(n)
  {
    QuotientRemainder(x, Pow2(n));
    x / Pow2(n)
  }

  /** Taking bits from the left. */
  lemma BitsSplit(x: nat, n: nat, k: nat)
    requires k <= n
    ensures BitsOf(x, n) == BitsOf(Shr(x, n - k), k) + BitsOf(x, n - k)
  {
    hide BitsOf, Pow2, Shr;
    BitsAppend(Shr(x, n - k), k, x % Pow2(n - k), n - k);
    BitsModulo(x, n - k, n - k);
  }

  lemma {:induction false} PeekBits(x: nat, n: nat, rest: seq<bool>)
    ensures Peek(BitsOf(x, n) + rest, n) == x % Pow2(n)
    decreases n
  {
    if n > 0 {
      PeekBits(x / 2, n - 1, [x % 2 == 1] + rest);
      assert BitsOf(x, n) + rest == BitsOf(x / 2, n - 1) + ([x % 2 == 1] + rest);
      var s := BitsOf(x, n) + rest;
      assert s[n - 1] == (x % 2 == 1);
      HalfModulo(x, Pow2(n - 1));
    }
  }

  // ----- Streams: bit strings continued with zeros -----

  predicate Bit(s: seq<bool>, i: nat) { i < |s| && s[i] }

  ghost predicate Same(s: seq<bool>, t: seq<bool>) { forall i: nat :: Bit(s, i) == Bit(t, i) }

  function Drop(s: seq<bool>, n: nat): (t: seq<bool>)
    ensures forall i: nat :: Bit(t, i) == Bit(s, n + i)
  {
    if n <= |s| then s[n..] else []
  }

  lemma SameDrop(s: seq<bool>, t: seq<bool>, n: nat)
    requires Same(s, t)
    ensures Same(Drop(s, n), Drop(t, n))
  {
    forall i: nat ensures Bit(Drop(s, n), i) == Bit(Drop(t, n), i) {
      assert Bit(s, n + i) == Bit(t, n + i);
    }
  }

  lemma DropDrop(s: seq<bool>, m: nat, n: nat)
    ensures Same(Drop(Drop(s, m), n), Drop(s, m + n))
  {
    forall i: nat ensures Bit(Drop(Drop(s, m), n), i) == Bit(Drop(s, m + n), i) {
      assert Bit(Drop(s, m), n + i) == Bit(s, m + (n + i));
    }
  }

  lemma {:induction false} PeekSame(s: seq<bool>, t: seq<bool>, n: nat)
    requires Same(s, t)
    ensures Peek(s, n) == Peek(t, n)
  {
    if n > 0 {
      PeekSame(s, t, n - 1);
      assert Bit(s, n - 1) == Bit(t, n - 1);
    }
  }

  /** Reading n bits after m bits. */
  lemma {:induction false} PeekDrop(s: seq<bool>, m: nat, n: nat)
    ensures Peek(s, m + n) == Peek(s, m) * Pow2(n) + Peek(Drop(s, m), n)
    decreases n
  {
    if n > 0 {
      PeekDrop(s, m, n - 1);
      assert Bit(Drop(s, m), n - 1) == Bit(s, m + n - 1);
      MulAssoc(Peek(s, m), Pow2(n - 1), 2);
    }
  }

  lemma {:induction false} CodeLengthSame(bits: seq<nat>, s: seq<bool>, t: seq<bool>, l: nat)
    requires |bits| == 17 && 0 < l <= 17 && Same(s, t)
    ensures CodeLength(bits, s, l) == CodeLength(bits, t, l)
    decreases 17 - l
  {
    if l < 17 {
      PeekSame(s, t, l);
      CodeLengthSame(bits, s, t, l + 1);
    }
  }

  // ----- Bytes -----

  function AllBits(bytes: seq<byte>): (s: seq<bool>)
    ensures |s| == 8 * |bytes|
  {
    if |bytes| == 0 then [] else AllBits(bytes[..|bytes| - 1]) + BitsOf(bytes[|bytes| - 1], 8)
  }

  lemma AllBitsAppend(bytes: seq<byte>, b: byte)
    ensures AllBits(bytes + [b]) == AllBits(bytes) + BitsOf(b, 8)
  {
    assert (bytes + [b])[..|bytes|] == bytes;
  }

  lemma {:induction false} AllBitsConcat(a: seq<byte>, b: seq<byte>)
    ensures AllBits(a + b) == AllBits(a) + AllBits(b)
    decreases |b|
  {
    if |b| == 0 {
      assert a + b == a;
    } else {
      var c, x := b[..|b| - 1], b[|b| - 1];
      AllBitsConcat(a, c);
      assert a + b == a + c + [x];
      AllBitsAppend(a + c, x);
      assert AllBits(a) + (AllBits(c) + BitsOf(x, 8)) == AllBits(a) + AllBits(c) + BitsOf(x, 8);
    }
  }
}
