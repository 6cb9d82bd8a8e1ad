/** Powers of two and byte strings read as big-endian numbers. */
module Bits {

  type byte = b: int | 0 <= b < 256

  function Pow2(n: nat): (p: nat)
    ensures p > 0
  {
    if n == 0 then 1 else 2 * Pow2(n - 1)
  }

  lemma {:induction false} Pow2Add(m: nat, n: nat)
    ensures Pow2(m + n) == Pow2(m) * Pow2(n)
  {
    if m > 0 {
      Pow2Add(m - 1, n);
      assert Pow2(m + n) == 2 * Pow2((m - 1) + n);
      assert 2 * (Pow2(m - 1) * Pow2(n)) == (2 * Pow2(m - 1)) * Pow2(n);
    }
  }

  /** The first eight doublings, as one step. */
  lemma Pow2Plus8(n: nat)
    ensures Pow2(n + 8) == 256 * Pow2(n)
  {
    Pow2Add(8, n);
    assert Pow2(8) == 256 by { Pow2Small(); }
  }

  lemma Pow2Small()
    ensures Pow2(0) == 1 && Pow2(1) == 2 && Pow2(2) == 4 && Pow2(3) == 8
    ensures Pow2(4) == 16 && Pow2(5) == 32 && Pow2(6) == 64 && Pow2(7) == 128
    ensures Pow2(8) == 256
  {
    assert Pow2(4) == 2 * Pow2(3);
    assert Pow2(8) == 2 * (2 * (2 * (2 * Pow2(4))));
  }

  lemma Pow2Eight()
    ensures Pow2(8) == 256
  {
    Pow2Small();
  }

  lemma TwicePow(n: nat)
    ensures n > 0 ==> Pow2(n) == 2 * Pow2(n - 1)
  {
  }

  lemma Pow2Words()
    ensures Pow2(13) == 0x2000 && Pow2(15) == 0x8000 && Pow2(16) == 0x10000 && Pow2(19) == 0x80000
    ensures Pow2(11) == 0x800 && Pow2(24) == 0x1000000 && Pow2(27) == 0x8000000
  {
    Pow2Small();
    Pow2Plus8(0); Pow2Plus8(8); Pow2Plus8(16);
    Pow2Plus8(5); Pow2Plus8(3); Pow2Plus8(11); Pow2Plus8(19);
  }

  lemma {:induction false} Pow2Monotone(m: nat, n: nat)
    requires m <= n
    ensures Pow2(m) <= Pow2(n)
    decreases n - m
  {
    if m < n { Pow2Monotone(m, n - 1); }
  }

  lemma MulMonotone(x: nat, y: nat, p: nat)
    requires x <= y
    ensures x * p <= y * p
  {
  }

  lemma MulStrict(x: nat, y: nat, p: nat)
    requires x < y && p > 0
    ensures x * p < y * p
  {
  }

  lemma MulAssoc(x: nat, y: nat, z: nat)
    ensures (x * y) * z == x * (y * z)
  {
  }

  lemma MulCancel(x: nat, y: nat, p: nat)
    requires p > 0 && x * p == y * p
    ensures x == y
  {
  }

  lemma NegTimes(x: int, p: nat)
    ensures (-x) * p == -(x * p)
  {
  }

  lemma IntMulMonotone(a: int, b: int, p: nat)
    requires a <= b
    ensures a * p <= b * p
  {
  }

  lemma QuotientRemainder(x: nat, p: nat)
    requires p > 0
    ensures x == x / p * p + x % p && x / p >= 0
  {
  }

  lemma QuotientUnique(x: nat, p: nat, q: nat, r: nat)
    requires p > 0 && x == q * p + r && r < p
    ensures x / p == q && x % p == r
  {
    if x / p < q { MulMonotone(x / p + 1, q, p); }
    if x / p > q { MulMonotone(q + 1, x / p, p); }
    assert x == x / p * p + x % p;
  }

  lemma DivDiv(x: nat, p: nat)
    requires p > 0
    ensures x / (2 * p) == x / p / 2
  {
    var q, r := x / p, x % p;
    var h, l := q / 2, q % 2;
    assert x == (2 * h + l) * p + r == h * (2 * p) + (l * p + r);
    assert 0 <= l * p + r < 2 * p;
    QuotientUnique(x, 2 * p, h, l * p + r);
  }

  lemma Nested(q: nat, n: nat, r: nat, m: nat, s: nat)
    ensures (q * n + r) * m + s == q * (m * n) + (r * m + s)
  {
    assert (q * n + r) * m == q * n * m + r * m;
    MulAssoc(q, n, m);
    assert n * m == m * n;
  }

  /** Dividing twice. */
  lemma DivTwice(x: nat, m: nat, n: nat)
    requires m > 0 && n > 0
    ensures m * n > 0 && x / (m * n) == x / m / n
  {
    var q1, r1 := x / m, x % m;
    var q2, r2 := q1 / n, q1 % n;
    QuotientRemainder(x, m);
    QuotientRemainder(q1, n);
    Nested(q2, n, r2, m, r1);
    MulMonotone(r2 + 1, n, m);
    QuotientUnique(x, m * n, q2, r2 * m + r1);
  }

  // ----- Byte strings -----

  /** The i-th byte, reading past the end as zero. */
  function At(s: seq<byte>, i: nat): (b: byte) {
    if i < |s| then s[i] else 0
  }

  /** The first m bytes of s, zero-padded, as one big-endian number. */
  function Val(s: seq<byte>, m: nat): nat {
    if m == 0 then 0 else 256 * Val(s, m - 1) + At(s, m - 1)
  }

  function Zeros(n: nat): (z: seq<byte>)
    ensures |z| == n && forall i :: 0 <= i < n ==> z[i] == 0
  {
    seq(n, i => 0)
  }

  function Ones(n: nat): (z: seq<byte>)
    ensures |z| == n && forall i :: 0 <= i < n ==> z[i] == 0xFF
  {
    seq(n, i => 0xFF)
  }

  /** Two strings that agree on their first m padded bytes have the same value. */
  lemma {:induction false} ValAgree(s: seq<byte>, t: seq<byte>, m: nat)
    requires forall i: nat :: i < m ==> At(s, i) == At(t, i)
    ensures Val(s, m) == Val(t, m)
  {
    if m > 0 { ValAgree(s, t, m - 1); }
  }

  lemma ValAppend(s: seq<byte>, b: byte)
    ensures Val(s + [b], |s| + 1) == 256 * Val(s, |s|) + b
  {
    ValAgree(s + [b], s, |s|);
  }

  lemma AppendByteBounds(p: nat, v: nat, w: nat, b: byte)
    requires p * v <= w < p * (v + 1)
    ensures (256 * p) * v <= 256 * w + b < (256 * p) * (v + 1)
  {
    assert (256 * p) * v == 256 * (p * v);
    assert (256 * p) * (v + 1) == 256 * (p * (v + 1));
  }

  /** Reading k further bytes multiplies the value by 256^k and adds less than that. */
  lemma {:induction false} ValExtend(s: seq<byte>, m: nat, k: nat)
    ensures Pow2(8 * k) * Val(s, m) <= Val(s, m + k) < Pow2(8 * k) * (Val(s, m) + 1)
  {
    if k > 0 {
      ValExtend(s, m, k - 1);
      Pow2Plus8(8 * (k - 1));
      assert 8 * k == 8 * (k - 1) + 8;
      AppendByteBounds(Pow2(8 * (k - 1)), Val(s, m), Val(s, m + k - 1), At(s, m + k - 1));
    }
  }

  /** Past the end, every further byte only appends zero digits. */
  lemma {:induction false} ValPastEnd(s: seq<byte>, m: nat, k: nat)
    requires m >= |s|
    ensures Val(s, m + k) == Pow2(8 * k) * Val(s, m)
  {
    if k > 0 {
      ValPastEnd(s, m, k - 1);
      Pow2Plus8(8 * (k - 1));
      assert 8 * k == 8 * (k - 1) + 8;
      MulAssoc(256, Pow2(8 * (k - 1)), Val(s, m));
    }
  }

  lemma {:induction false} ValBound(s: seq<byte>, m: nat)
    ensures Val(s, m) < Pow2(8 * m)
  {
    if m > 0 {
      ValBound(s, m - 1);
      Pow2Plus8(8 * (m - 1));
      assert 8 * m == 8 * (m - 1) + 8;
    }
  }
}
