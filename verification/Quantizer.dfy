/** Quantization by multiplying with a scaled reciprocal: exactly division with rounding. */
module Quantizer {
  import opened Bits
  import opened Coefficients

  const DCTSIZE2: nat := 64
  /** Bits of a DCT element. */
  const WORD: nat := 16

  // ----- Products and quotients, as named operations -----

  function Times(x: nat, y: nat): nat { x * y }

  function Quot(x: nat, d: nat): (q: nat)
    requires d > 0
  {
    QuotientRemainder(x, d);
    x / d
  }

  function Rem(x: nat, d: nat): (r: nat)
    requires d > 0
  {
    x % d
  }

  lemma Division(x: nat, d: nat)
    requires d > 0
    ensures x == Times(Quot(x, d), d) + Rem(x, d) && Rem(x, d) < d
  {
    QuotientRemainder(x, d);
  }

  lemma TimesAssoc(x: nat, y: nat, z: nat)
    ensures Times(Times(x, y), z) == Times(x, Times(y, z)) && Times(x, y) == Times(y, x)
  {
    MulAssoc(x, y, z);
  }

  lemma TimesSum(x: nat, y: nat, z: nat)
    ensures Times(x + y, z) == Times(x, z) + Times(y, z) && Times(z, x + y) == Times(z, x) + Times(z, y)
    ensures Times(1, z) == z
  {
  }

  lemma TimesMonotone(x: nat, y: nat, z: nat)
    requires x <= y
    ensures Times(x, z) <= Times(y, z) && Times(z, x) <= Times(z, y)
  {
    MulMonotone(x, y, z);
  }

  lemma TimesStrict(x: nat, y: nat, z: nat)
    requires x < y && z > 0
    ensures Times(x, z) < Times(y, z) && Times(z, x) < Times(z, y)
  {
    MulStrict(x, y, z);
  }

  lemma QuotIs(x: nat, d: nat, q: nat)
    requires d > 0 && Times(q, d) <= x < Times(q + 1, d)
    ensures Quot(x, d) == q
  {
    TimesSum(q, 1, d);
    QuotientUnique(x, d, q, x - Times(q, d));
  }

  /** A quotient found after multiplying by d. */
  lemma QuotScaled(p: nat, n: nat, d: nat, q: nat)
    requires n > 0 && d > 0 && Times(Times(q, d), n) <= Times(p, d) < Times(Times(q, d), n) + Times(d, n)
    ensures Quot(p, n) == q
  {
    hide Times, Quot;
    TimesAssoc(q, d, n);
    TimesAssoc(q, n, d);
    TimesAssoc(d, n, 1);
    TimesSum(q, 1, n);
    TimesSum(Times(q, n), n, d);
    if p < Times(q, n) { TimesStrict(p, Times(q, n), d); }
    if Times(q + 1, n) <= p { TimesMonotone(Times(q + 1, n), p, d); }
    QuotIs(p, n, q);
  }

  // ----- The reciprocal of a divisor -----

  /** Reciprocal, correction and shift. */
  datatype Recip = Recip(recip: nat, corr: nat, shift: int)

  /** The reciprocal of d for words of w bits; b is the position of the leading bit of d. */
  function Reciprocal(d: nat, w: nat): Recip
    requires d >= 1 && w >= 1
  {
    if d == 1 then Recip(1, 0, -(w as int))
    else
      var b := NBits(d) - 1;
      var fq, fr := Quot(Pow2(w + b), d), Rem(Pow2(w + b), d);
      if fr == 0 then Recip(fq / 2, d / 2, b - 1)
      else if fr <= d / 2 then Recip(fq, d / 2 + 1, b)
      else Recip(fq + 1, d / 2, b)
  }

  /** What the multiplication gives for a magnitude x. */
  function Scaled(x: nat, r: Recip, w: nat): nat
    requires r.shift + w >= 0
  {
    Quot(Times(x + r.corr, r.recip), Pow2(r.shift + w))
  }

  /** The magnitude divided by d, rounded to nearest. */
  function Rounded(x: nat, d: nat): nat
    requires d >= 1
  {
    Quot(x + d / 2, d)
  }

  /** Rounding to nearest is off by at most half a divisor. */
  lemma RoundingError(x: nat, d: nat)
    requires d >= 1
    ensures var e: int := Rounded(x, d) * d - x; 2 * e <= d && -2 * e <= d
  {
    QuotientRemainder(x + d / 2, d);
  }

  /** Rounding down: a slightly small reciprocal f gives the quotient of z - 1. */
  lemma SmallReciprocal(z: nat, d: nat, n: nat, f: nat, fr: nat)
    requires d > 0 && n > 0 && z > 0 && n == Times(f, d) + fr && 0 < fr && Times(z, fr) <= n
    ensures Quot(Times(z, f), n) == Quot(z - 1, d)
  {
    hide Times, Quot, Rem;
    var q, s := Quot(z - 1, d), Rem(z - 1, d);
    Division(z - 1, d);
    TimesAssoc(z, f, d);
    TimesSum(Times(f, d), fr, z);
    TimesSum(Times(q, d), s + 1, n);
    TimesMonotone(1, s + 1, n);
    TimesSum(n, 0, 1);
    TimesMonotone(s + 1, d, n);
    TimesStrict(0, z, fr);
    QuotScaled(Times(z, f), n, d, q);
  }

  /** Rounding up: a slightly large reciprocal gives the quotient of y. */
  lemma LargeReciprocal(y: nat, d: nat, n: nat, f: nat, e: nat)
    requires d > 0 && n > 0 && Times(f, d) == n + e && Times(y, e) < n
    ensures Quot(Times(y, f), n) == Quot(y, d)
  {
    hide Times, Quot, Rem;
    var q, s := Quot(y, d), Rem(y, d);
    Division(y, d);
    TimesAssoc(y, f, d);
    TimesSum(n, e, y);
    TimesSum(Times(q, d), s, n);
    TimesSum(s, 1, n);
    TimesSum(n, 0, 1);
    TimesMonotone(s + 1, d, n);
    QuotScaled(Times(y, f), n, d, q);
  }

  /** The leading bit of a divisor. */
  lemma DivisorBounds(d: nat, w: nat)
    requires 2 <= d < Pow2(w)
    ensures var b := NBits(d) - 1; 1 <= b < w && Pow2(b) <= d < 2 * Pow2(b)
  {
    NBitsBounds(d);
    NBitsAtMost(d, w);
    assert NBits(d) == 1 + NBits(d / 2);
    assert d / 2 > 0;
  }

  /** A divisor of a power of two is one. */
  lemma {:induction false} DivisorOfPower(d: nat, f: nat, n: nat) returns (k: nat)
    requires d * f == Pow2(n)
    ensures d == Pow2(k)
    decreases n
  {
    if n == 0 {
      if d >= 2 && f >= 1 { MulMonotone(2, d, 1); MulMonotone(1, f, d); }
      k := 0;
    } else if d % 2 == 0 {
      assert 2 * ((d / 2) * f) == d * f by { MulAssoc(2, d / 2, f); }
      k := DivisorOfPower(d / 2, f, n - 1);
      k := k + 1;
    } else {
      OddTimes(d, f, Pow2(n - 1));
      assert 2 * (d * (f / 2)) == d * f by { assert f == 2 * (f / 2); }
      k := DivisorOfPower(d, f / 2, n - 1);
    }
  }

  lemma OddTimes(d: nat, f: nat, p: nat)
    requires d % 2 == 1 && d * f == 2 * p
    ensures f % 2 == 0
  {
    var h := d / 2;
    assert d == 2 * h + 1;
    assert d * f == 2 * (h * f) + f;
  }

  lemma SamePower(k: nat, b: nat)
    requires Pow2(b) <= Pow2(k) < 2 * Pow2(b)
    ensures k == b
  {
    Pow2Monotone(if k < b then k + 1 else b, b);
    Pow2Monotone(if k > b then b + 1 else k, k);
  }

  lemma PowTimes(m: nat, n: nat)
    ensures Pow2(m + n) == Times(Pow2(m), Pow2(n))
  {
    Pow2Add(m, n);
  }

  /** What is to be shown of a reciprocal r of d for magnitude x. */
  predicate Exact(x: nat, d: nat, w: nat, r: Recip)
    requires w >= 1 && d >= 1
  {
    && r.shift + w >= 0 && r.recip < Pow2(w) && r.corr < Pow2(w)
    && Times(x + r.corr, r.recip) < Pow2(2 * w)
    && Scaled(x, r, w) == Rounded(x, d)
  }

  lemma ProductBelow(z: nat, f: nat, w: nat)
    requires z <= Pow2(w) && f < Pow2(w)
    ensures Times(z, f) < Pow2(2 * w)
  {
    hide Pow2, Times;
    PowTimes(w, w);
    TimesMonotone(z, Pow2(w), f);
    TimesStrict(f, Pow2(w), Pow2(w));
  }

  /** The case of a power of two. */
  lemma PowerOfTwo(x: nat, d: nat, w: nat)
    requires w >= 1 && 2 <= d < Pow2(w) && x < Pow2(w - 1) && Rem(Pow2(w + NBits(d) - 1), d) == 0
    ensures Exact(x, d, w, Reciprocal(d, w))
  {
    DivisorBounds(d, w);
    var b := NBits(d) - 1;
    var n := Pow2(w + b);
    Division(n, d);
    var k := DivisorOfPower(Quot(n, d), d, w + b);
    var j := DivisorOfPower(d, Quot(n, d), w + b);
    SamePower(j, b);
    TwicePow(w);
    TwicePow(b);
    hide Pow2, Times, Quot, Rem, NBits;
    PowTimes(w, b);
    TimesSame(Quot(n, d), Pow2(w), d);
    var y := x + d / 2;
    ProductBelow(y, Pow2(w - 1), w);
    PowTimes(w - 1, b);
    QuotShifted(y, Pow2(w - 1), d);
  }

  lemma TimesSame(x: nat, y: nat, d: nat)
    requires d > 0 && Times(x, d) == Times(y, d)
    ensures x == y
  {
    MulCancel(x, y, d);
  }

  /** Scaling both sides leaves a quotient as it is. */
  lemma QuotShifted(y: nat, p: nat, d: nat)
    requires p > 0 && d > 0
    ensures Times(p, d) > 0 && Quot(Times(y, p), Times(p, d)) == Quot(y, d)
  {
    hide Times, Quot, Rem;
    var q, s := Quot(y, d), Rem(y, d);
    Division(y, d);
    TimesStrict(0, p, d);
    TimesSum(Times(q, d), s, p);
    TimesAssoc(q, d, p);
    TimesAssoc(d, p, 1);
    TimesStrict(s, d, p);
    TimesSum(q, 1, Times(p, d));
    QuotIs(Times(y, p), Times(p, d), q);
  }

  /** The case of a fraction below one half. */
  lemma RoundedDown(x: nat, d: nat, w: nat)
    requires w >= 1 && 2 <= d < Pow2(w) && x < Pow2(w - 1) && 0 < Rem(Pow2(w + NBits(d) - 1), d) <= d / 2
    ensures Exact(x, d, w, Reciprocal(d, w))
  {
    DivisorBounds(d, w);
    TwicePow(w);
    hide Pow2, Times, Quot, Rem, NBits;
    var b := NBits(d) - 1;
    PowTimes(w, b);
    var n, z := Pow2(w + b), x + d / 2 + 1;
    var fq, fr := Quot(n, d), Rem(n, d);
    Division(n, d);
    TimesMonotone(z, Pow2(w), fr);
    TimesMonotone(fr, Pow2(b), Pow2(w));
    SmallReciprocal(z, d, n, fq, fr);
    TruncatedFits(d, Pow2(w), Pow2(b), fq, fr);
    ProductBelow(z, fq, w);
  }

  /** The truncated reciprocal fits a word. */
  lemma TruncatedFits(d: nat, p: nat, q: nat, f: nat, fr: nat)
    requires 0 < q <= d && 0 < fr < d && Times(p, q) == Times(f, d) + fr
    ensures f < p
  {
    hide Times;
    TimesMonotone(q, d, p);
    if p <= f { TimesMonotone(p, f, d); }
  }

  /** The case of a fraction above one half. */
  lemma RoundedUp(x: nat, d: nat, w: nat)
    requires w >= 1 && 2 <= d < Pow2(w) && x < Pow2(w - 1) && Rem(Pow2(w + NBits(d) - 1), d) > d / 2
    ensures Exact(x, d, w, Reciprocal(d, w))
  {
    hide Pow2, Times, Quot, Rem, NBits;
    DivisorBounds(d, w);
    TwicePow(w);
    var b := NBits(d) - 1;
    Pow2Monotone(b, w);
    PowTimes(w, b);
    var n, y := Pow2(w + b), x + d / 2;
    var fq, fr := Quot(n, d), Rem(n, d);
    var e := d - fr;
    Division(n, d);
    TimesSum(fq, 1, d);
    TimesMonotone(y, Pow2(w), e);
    TimesStrict(e, Pow2(b), Pow2(w));
    LargeReciprocal(y, d, n, fq + 1, e);
    IncreasedFits(d, Pow2(w), Pow2(b), fq + 1, e);
    ProductBelow(y, fq + 1, w);
  }

  lemma IncreasedFits(d: nat, p: nat, q: nat, f: nat, e: nat)
    requires 0 < q <= d && 0 < e < d && e < p && Times(f, d) == Times(p, q) + e
    ensures f < p
  {
    hide Times;
    TimesSum(q, 1, p);
    TimesSum(p, 1, d);
    TimesAssoc(p, q + 1, 1);
    TimesAssoc(p, q, 1);
    TimesAssoc(p, d, 1);
    if f > p { TimesMonotone(p + 1, f, d); } else { TimesMonotone(f, p, d); }
    TimesMonotone(if q < d then q + 1 else q, d, p);
  }

  lemma UnitDivisor(x: nat, w: nat)
    requires w >= 1 && x < Pow2(w - 1)
    ensures Exact(x, 1, w, Reciprocal(1, w))
  {
    Pow2Monotone(1, w);
    Pow2Monotone(w, 2 * w);
    assert Pow2(0) == 1;
  }

  /** Main result: for every word size and every divisor that fits a word, multiplying by the
      reciprocal is exactly division with rounding; reciprocal and correction fit a word, and the
      product two words. */
  lemma ReciprocalExact(x: nat, d: nat, w: nat)
    requires w >= 1 && 1 <= d < Pow2(w) && x < Pow2(w - 1)
    ensures Exact(x, d, w, Reciprocal(d, w))
  {
    hide Exact, Reciprocal, Quot, Rem;
    if d == 1 {
      UnitDivisor(x, w);
    } else {
      var fr := Rem(Pow2(w + NBits(d) - 1), d);
      if fr == 0 { PowerOfTwo(x, d, w); } else if fr <= d / 2 { RoundedDown(x, d, w); } else { RoundedUp(x, d, w); }
    }
  }

  // ----- The loops -----

  lemma Leading(val: nat, v: nat, k: nat)
    requires k <= 16 && v == val * Pow2(k) && 0x8000 <= v < 0x10000
    ensures NBits(val) == 16 - k
  {
    Pow2Words();
    if k == 16 {
      assert false;
    } else {
      Pow2Add(15 - k, k);
      Pow2Add(16 - k, k);
      hide Pow2;
      if val < Pow2(15 - k) { MulStrict(val, Pow2(15 - k), Pow2(k)); }
      if val >= Pow2(16 - k) { MulMonotone(Pow2(16 - k), val, Pow2(k)); }
      NBitsAtMost(val, 16 - k);
      NBitsAtLeast(val, 15 - k);
    }
  }

  lemma NBitsAtLeast(v: nat, n: nat)
    requires Pow2(n) <= v
    ensures NBits(v) > n
  {
    NBitsBounds(v);
    Pow2Monotone(if NBits(v) <= n then NBits(v) else n, n);
  }

  lemma Shifted(val: nat, v: nat, k: nat, j: nat)
    requires v == val * Pow2(k)
    ensures v * Pow2(j) == val * Pow2(k + j)
  {
    Pow2Add(k, j);
    MulAssoc(val, Pow2(k), Pow2(j));
  }

  /** Position of the leading one bit, from 1 on; 0 if there is none. */
  method Flss(val: nat) returns (bit: nat)
    requires val < 0x10000
    ensures bit == NBits(val)
  {
    if val == 0 {
      return 0;
    }
    bit := 16;
    var v := val;
    Pow2Small();
    hide NBits;
    if v / 0x100 == 0 { Shifted(val, v, 0, 8); bit := bit - 8; v := v * 0x100; }
    if v / 0x1000 == 0 { Shifted(val, v, 16 - bit, 4); bit := bit - 4; v := v * 0x10; }
    if v / 0x4000 == 0 { Shifted(val, v, 16 - bit, 2); bit := bit - 2; v := v * 4; }
    if v / 0x8000 == 0 { Shifted(val, v, 16 - bit, 1); bit := bit - 1; v := v * 2; }
    Leading(val, v, 16 - bit);
  }

  /** The scale that stands for the shift in vector code, cut off at a word; without meaning for 1. */
  function Scale(d: nat): nat
    requires 1 <= d < 0x10000
  {
    if d == 1 then 1 else ShiftRange(d); Pow2(WORD - Reciprocal(d, WORD).shift) % 0x10000
  }

  lemma ScaleIs(d: nat)
    requires 1 <= d < 0x10000
    ensures d == 1 ==> Scale(d) == 1
    ensures d > 1 ==>
      0 <= Reciprocal(d, WORD).shift <= 15 && Scale(d) == Pow2(WORD - Reciprocal(d, WORD).shift) % 0x10000
  {
    if d > 1 { ShiftRange(d); }
    hide Reciprocal, Pow2;
  }

  lemma ShiftRange(d: nat)
    requires 2 <= d < 0x10000
    ensures 0 <= Reciprocal(d, WORD).shift <= 15 && (d > 2 ==> Reciprocal(d, WORD).shift >= 1)
  {
    Pow2Words();
    Pow2Small();
    NBitsAtMost(d, 16);
    NBitsBounds(d);
    if d > 2 { NBitsAtLeast(d, 1); }
    if d == 3 {
      assert NBits(3) == 2 && Pow2(WORD + 1) == 2 * Pow2(WORD);
    } else if d > 3 {
      NBitsAtLeast(d, 2);
    }
    hide Pow2, NBits, Quot, Rem;
  }

  predicate EntryFor(dtbl: seq<int>, i: nat, d: nat)
    requires |dtbl| == 4 * DCTSIZE2 && i < DCTSIZE2 && 1 <= d < 0x10000
  {
    var r := Reciprocal(d, WORD);
    dtbl[i] == r.recip && dtbl[i + DCTSIZE2] == r.corr && dtbl[i + 2 * DCTSIZE2] == Scale(d) &&
      dtbl[i + 3 * DCTSIZE2] == r.shift
  }

  /** Enters the reciprocal of one divisor in the table: reciprocals, corrections, scales and shifts.
      Returns whether vector code may use the entry. */
  method ComputeReciprocal(divisor: nat, dtbl: array<int>, i: nat) returns (vector: bool)
    requires 1 <= divisor < 0x10000 && dtbl.Length == 4 * DCTSIZE2 && i < DCTSIZE2
    modifies dtbl
    ensures EntryFor(dtbl[..], i, divisor)
    ensures vector <==> forall x: nat :: x < 0x8000 ==> VectorQuotient(x, divisor) == Rounded(x, divisor)
    ensures forall p :: 0 <= p < dtbl.Length && p !in {i, i + DCTSIZE2, i + 2 * DCTSIZE2, i + 3 * DCTSIZE2} ==>
      dtbl[p] == old(dtbl[p])
  {
    hide VectorQuotient, Rounded, Scale, Pow2, Quot, Rem, NBits;
    VectorExact(divisor);
    ScaleIs(divisor);
    if divisor == 1 {
      dtbl[i] := 1;
      dtbl[i + DCTSIZE2] := 0;
      dtbl[i + 2 * DCTSIZE2] := 1;
      dtbl[i + 3 * DCTSIZE2] := -16;
      return false;
    }
    Pow2Words();
    DivisorBounds(divisor, WORD);
    ShiftRange(divisor);
    SmallShift(divisor);
    var leading := Flss(divisor);
    var b := leading - 1;
    var r := WORD + b;
    var fq, fr := Quot(Pow2(r), divisor), Rem(Pow2(r), divisor);
    var c := divisor / 2;
    if fr == 0 {
      fq := fq / 2;
      r := r - 1;
    } else if fr <= divisor / 2 {
      c := c + 1;
    } else {
      fq := fq + 1;
    }
    dtbl[i] := fq;
    dtbl[i + DCTSIZE2] := c;
    dtbl[i + 2 * DCTSIZE2] := Pow2(2 * WORD - r) % 0x10000;
    dtbl[i + 3 * DCTSIZE2] := r - WORD;
    vector := !(r <= 16);
  }

  // ----- Vector code -----

  /** Two multiplications that each keep the upper word of the product. */
  function VectorQuotient(x: nat, d: nat): nat
    requires 1 <= d < 0x10000
  {
    var r := Reciprocal(d, WORD);
    Quot(Times(Quot(Times(x + r.corr, r.recip), 0x10000), Scale(d)), 0x10000)
  }

  lemma SmallShift(d: nat)
    requires 2 <= d < 0x10000
    ensures Reciprocal(d, WORD).shift == 0 <==> d == 2
  {
    ShiftRange(d);
    if d == 2 {
      assert NBits(2) == 2;
      Pow2Words();
      assert Pow2(17) == 2 * Pow2(16);
    }
  }

  lemma QuotQuot(p: nat, m: nat, n: nat)
    requires m > 0 && n > 0
    ensures m * n > 0 && Quot(Quot(p, m), n) == Quot(p, m * n)
  {
    DivTwice(p, m, n);
  }

  lemma QuotCancel(q: nat, a: nat, b: nat)
    requires a > 0 && b > 0
    ensures a * b > 0 && Quot(Times(q, b), a * b) == Quot(q, a)
  {
    var h, l := q / a, q % a;
    QuotientRemainder(q, a);
    Nested(h, a, l, b, 0);
    assert b * a == a * b;
    MulStrict(l, a, b);
    QuotientUnique(q * b, a * b, h, l * b);
  }

  /** The two multiplications divide with rounding exactly if the divisor is neither 1 nor 2. */
  lemma VectorExact(d: nat)
    requires 1 <= d < 0x10000
    ensures (forall x: nat :: x < 0x8000 ==> VectorQuotient(x, d) == Rounded(x, d)) <==> d > 2
  {
    if d <= 2 {
      VectorFails(d);
    } else {
      forall x: nat | x < 0x8000 ensures VectorQuotient(x, d) == Rounded(x, d) { VectorRounds(x, d); }
    }
  }

  lemma VectorFails(d: nat)
    requires 1 <= d <= 2
    ensures VectorQuotient(1, d) != Rounded(1, d)
  {
    if d == 2 {
      SmallShift(2);
      Pow2Words();
      assert Scale(2) == 0;
    }
  }

  lemma VectorRounds(x: nat, d: nat)
    requires 2 < d < 0x10000 && x < 0x8000
    ensures VectorQuotient(x, d) == Rounded(x, d)
  {
    ShiftRange(d);
    WordExact(x, d);
    var r := Reciprocal(d, WORD);
    var s: nat := r.shift;
    Pow2Words();
    Pow2Add(s, 16 - s);
    Pow2Add(16, s);
    Pow2Monotone(16 - s, 15);
    hide Reciprocal, Pow2, Rounded, Times, Quot;
    var p := Times(x + r.corr, r.recip);
    QuotCancel(Quot(p, 0x10000), Pow2(s), Pow2(16 - s));
    QuotQuot(p, 0x10000, Pow2(s));
  }

  /** Division with rounding, symmetric about zero. */
  function Divided(x: int, d: nat): int
    requires d >= 1
  {
    if x < 0 then -(Rounded(-x, d) as int) else Rounded(x, d)
  }

  ghost predicate TableFor(dtbl: seq<int>, divisors: seq<nat>) {
    && |dtbl| == 4 * DCTSIZE2 && |divisors| == DCTSIZE2
    && forall i :: 0 <= i < DCTSIZE2 ==> 1 <= divisors[i] < 0x10000 && EntryFor(dtbl, i, divisors[i])
  }

  lemma WordExact(x: nat, d: nat)
    requires x < 0x8000 && 1 <= d < 0x10000
    ensures var r := Reciprocal(d, WORD);
      && r.shift + WORD >= 0 && Times(x + r.corr, r.recip) < 0x1_0000_0000
      && Quot(Times(x + r.corr, r.recip), Pow2(r.shift + WORD)) == Rounded(x, d)
  {
    Pow2Words();
    Pow2Add(16, 16);
    hide Reciprocal, Pow2, Rounded, Times, Quot;
    ReciprocalExact(x, d, WORD);
  }

  function Word32(x: int): nat { x % 0x1_0000_0000 }

  lemma ShiftSum(d: nat)
    requires 1 <= d < 0x10000
    ensures Reciprocal(d, WORD).shift + WORD >= 0
  {
    if d > 1 { ShiftRange(d); }
    hide Pow2, NBits, Quot, Rem;
  }

  /** The multiplication and the shift in 32-bit arithmetic, with the result cut off at a word. */
  function Multiplied(x: int, d: nat): int
    requires 1 <= d < 0x10000
  {
    ShiftSum(d);
    var r := Reciprocal(d, WORD);
    ToShort(Quot(Word32(Times(Word32(x + r.corr), r.recip)), Pow2(r.shift + WORD)))
  }

  lemma RoundedBelow(x: nat, d: nat)
    requires d >= 1
    ensures Rounded(x, d) <= x
  {
    RoundingError(x, d);
    hide Rounded;
    var q := Rounded(x, d);
    if q > x { TooFar(x, q, d); }
  }

  lemma TooFar(x: nat, q: nat, d: nat)
    requires d >= 1 && q > x
    ensures 2 * (q * d - x) > d
  {
    MulMonotone(x + 1, q, d);
    MulMonotone(1, d, x);
    assert (x + 1) * d == x * d + d && x * d == d * x;
  }

  lemma Same32(x: int)
    ensures 0 <= x < 0x1_0000_0000 ==> Word32(x) == x
    ensures -0x8000 < x < 0x8000 ==> ToShort(x) == x && ToShort(-x) == -x
  {
  }

  lemma MultipliedExact(x: nat, d: nat)
    requires x < 0x8000 && 1 <= d < 0x10000
    ensures Multiplied(x, d) == Rounded(x, d)
  {
    hide Reciprocal, Pow2, Rounded, Times, Quot, ToShort, Word32;
    RoundedBelow(x, d);
    WordExact(x, d);
    CorrFits(d);
    var r := Reciprocal(d, WORD);
    Same32(x + r.corr);
    Same32(Times(x + r.corr, r.recip));
    Same32(Rounded(x, d));
  }

  lemma CorrFits(d: nat)
    requires 1 <= d < 0x10000
    ensures Reciprocal(d, WORD).corr <= 0x8000
  {
    hide Pow2, NBits, Quot, Rem;
  }

  /** What becomes of a coefficient: it is negated if it is negative, and so is the result. */
  function Quantized(x: int, d: nat): int
    requires 1 <= d < 0x10000
  {
    if x < 0 then ToShort(-Multiplied(ToShort(-x), d)) else Multiplied(x, d)
  }

  /** Every coefficient that can be negated in a word is divided with rounding. */
  lemma NegatedExact(x: int, d: nat)
    requires -0x8000 < x < 0x8000 && 1 <= d < 0x10000
    ensures Quantized(x, d) == Divided(x, d)
  {
    hide Multiplied, Rounded, ToShort;
    MultipliedExact(Abs(x), d);
    RoundedBelow(Abs(x), d);
    Same32(x);
    Same32(Rounded(Abs(x), d));
  }

  // ----- The input that cannot be negated -----

  /** The divisors for which -32768 is divided with rounding as well: 1, and those, no powers of two,
      that go into 65536 one time less than the power of two below them does. */
  predicate DividesMinimum(d: nat)
    requires 1 <= d < 0x10000
  {
    LeadingBit(d);
    var b := NBits(d) - 1;
    d == 1 || (Pow2(b) < d && d * (Pow2(WORD - b) - 1) < 0x10000 && d != 65534)
  }

  lemma LeadingBit(d: nat)
    requires 1 <= d < 0x10000
    ensures 0 <= NBits(d) - 1 < WORD
  {
    Pow2Words();
    NBitsAtMost(d, 16);
    NBitsBounds(d);
  }

  /** The half of 65536 / d that each of the two roundings should give: p is the leading bit of d. */
  predicate Halves(d: nat, p: nat, k: nat) {
    1 <= k && p * k == 0x8000 && p <= d < 2 * p && 2 <= d < 0x10000
  }

  lemma LeadingHalves(d: nat)
    requires 2 <= d < 0x10000
    ensures var b := NBits(d) - 1;
      && 1 <= b <= 15 && Halves(d, Pow2(b), Pow2(15 - b)) && Pow2(WORD - b) == 2 * Pow2(15 - b)
      && Pow2(WORD + b) == 0x10000 * Pow2(b) && 2 * Pow2(WORD + b - 1) == Pow2(WORD + b)
  {
    hide Pow2, NBits;
    Pow2Words();
    DivisorBounds(d, 16);
    var b := NBits(d) - 1;
    Pow2Add(b, 15 - b);
    Pow2Add(16, b);
    TwicePow(WORD - b);
    TwicePow(WORD + b);
  }

  /** Rounding 2^15 / d gives at most k. */
  lemma RoundedMinimum(d: nat, p: nat, k: nat)
    requires Halves(d, p, k)
    ensures 1 <= Rounded(0x8000, d) <= k
    ensures Rounded(0x8000, d) == k <==> k * d <= 0x8000 + d / 2
  {
    var y, q := 0x8000 + d / 2, Rounded(0x8000, d);
    QuotientRemainder(y, d);
    RemainderBelow(y, d);
    MulMonotone(p, d, k);
    Distribute(q, d);
    Distribute(k, d);
    if q > k { MulMonotone(k + 1, q, d); }
    if q < k { MulMonotone(q + 1, k, d); }
  }

  lemma RemainderBelow(y: nat, d: nat)
    requires d > 0
    ensures y % d < d
  {
  }

  lemma Distribute(q: nat, d: nat)
    ensures (q + 1) * d == q * d + d && q * d == d * q
  {
  }

  /** What lies m below zero, wrapped around. */
  function Below(m: nat): nat {
    var z: int := m;
    Word32(-z)
  }

  /** Divided by n, that gives k or more, if it is not zero. */
  lemma WrappedQuotient(m: nat, k: nat, n: nat)
    requires k >= 1 && n >= 1 && k * n == 0x8000_0000 && m <= 0x8000_0000
    ensures var q := Quot(Below(m), n); (q == 0 || q >= k) && q < 2 * k && (q == k <==> m > (k - 1) * n)
  {
    var y := Below(m);
    var q := Quot(y, n);
    QuotientRemainder(y, n);
    RemainderBelow(y, n);
    Distribute(q, n);
    Distribute(k, n);
    Distribute(k - 1, n);
    assert 2 * k * n == 2 * (k * n) by { MulAssoc(2, k, n); }
    if m == 0 {
      assert y == 0;
      QuotientUnique(0, n, 0, 0);
    } else {
      assert y == 0x1_0000_0000 - m;
      if q < k { MulMonotone(q + 1, k, n); }
      if q > k { MulMonotone(k + 1, q, n); }
      if q >= 2 * k { MulMonotone(2 * k, q, n); }
    }
  }

  /** An odd divisor of 65536 is 1. */
  lemma OddFactor(d: nat, k: nat)
    requires d < 0x10000 && k >= 1
    ensures d * (2 * k - 1) != 0x10000
  {
    if d * (2 * k - 1) == 0x10000 {
      Pow2Words();
      var j := DivisorOfPower(2 * k - 1, d, 16);
      PowerParity(j);
    }
  }

  lemma {:induction false} PowerParity(j: nat)
    ensures Pow2(j) == 1 || Pow2(j) % 2 == 0
  {
    if j == 0 {
      assert Pow2(0) == 1;
    } else {
      TwicePow(j);
      hide Pow2;
    }
  }

  /** The rounding of 2^15 / d is k if and only if d goes into 65536 as often as it should. */
  lemma HalfRounds(d: nat, p: nat, k: nat)
    requires Halves(d, p, k)
    ensures k * d <= 0x8000 + d / 2 <==> d * (2 * k - 1) < 0x10000
  {
    assert d * (2 * k - 1) == 2 * (k * d) - d;
    OddFactor(d, k);
  }

  /** How far the magnitude exceeds what a quotient of k needs. */
  function Excess(d: nat, k: nat, a: nat): int
    requires k >= 1
  {
    a - (k - 1) * d
  }

  lemma ExcessIs(d: nat, k: nat, a: nat)
    requires k >= 1
    ensures 2 * Excess(d, k, a) == 2 * a + d - d * (2 * k - 1)
  {
    assert d * (2 * k - 1) == 2 * ((k - 1) * d) + d;
  }

  /** Both sides of the comparison that decides the quotient, multiplied by d. */
  lemma ExcessDecides(d: nat, k: nat, a: nat, f: nat, n: nat, e: int)
    requires d >= 1 && k >= 1 && f * d == n + e
    ensures a * f > (k - 1) * n <==> Excess(d, k, a) * n + a * e > 0
  {
    var g := Excess(d, k, a);
    var u: int, v: int := a * f, (k - 1) * n;
    assert u * d == a * n + a * e by {
      MulAssoc(a, f, d);
      assert a * (n + e) == a * n + a * e;
    }
    assert a * n == g * n + v * d by {
      assert a * n == (g + (k - 1) * d) * n;
      SumTimes(g, (k - 1) * d, n);
      MulAssoc(k - 1, d, n);
      MulAssoc(k - 1, n, d);
      assert d * n == n * d;
    }
    if u > v { IntStrict(v, u, d); } else { IntMulMonotone(u, v, d); }
  }

  lemma SumTimes(x: int, y: int, z: int)
    ensures (x + y) * z == x * z + y * z
  {
  }

  lemma IntStrict(a: int, b: int, p: nat)
    requires a < b && p > 0
    ensures a * p < b * p
  {
  }

  lemma SignOfProduct(x: nat, y: nat)
    ensures x * y >= 0 && (x > 0 && y > 0 ==> x * y > 0)
  {
  }

  /** Reciprocals rounded up are large enough. */
  lemma IncreasedReaches(d: nat, p: nat, k: nat, f: nat, e: nat)
    requires Halves(d, p, k) && f * d == 0x10000 * p + e && e > 0 && d * (2 * k - 1) < 0x10000
    ensures (0x8000 - d / 2) * f > (k - 1) * (0x10000 * p)
  {
    var a: nat := 0x8000 - d / 2;
    ExcessIs(d, k, a);
    ExcessDecides(d, k, a, f, 0x10000 * p, e);
    SignOfProduct(Excess(d, k, a), 0x10000 * p);
    SignOfProduct(a, e);
  }

  /** Reciprocals rounded down are, except for the largest even divisor. */
  lemma TruncatedReaches(d: nat, p: nat, k: nat, f: nat, fr: nat)
    requires Halves(d, p, k) && 0x10000 * p == f * d + fr && 0 < fr <= d / 2 && d * (2 * k - 1) < 0x10000
    ensures (0x7FFF - d / 2) * f > (k - 1) * (0x10000 * p) <==> d != 65534
  {
    var a: nat, n := 0x7FFF - d / 2, 0x10000 * p;
    var g := Excess(d, k, a);
    ExcessIs(d, k, a);
    assert g >= 0 by { ExcessParity(d, k); }
    PowerOrNot(d, p, f, fr);
    var e: int := -(fr as int);
    ExcessDecides(d, k, a, f, n, e);
    assert a * e == -(a * fr);
    SignOfProduct(a, fr);
    if g == 0 {
      NoExcess(d, p, k, f, fr);
    } else {
      MulMonotone(1, g, n);
      assert a * fr < n by {
        MulMonotone(a, 0x8000, fr);
        assert fr < p;
      }
      if d == 65534 { LargestEven(p, k); }
    }
  }

  lemma ExcessParity(d: nat, k: nat)
    requires d >= 2 && k >= 1 && d * (2 * k - 1) < 0x10000
    ensures 2 * (0x7FFF - d / 2) + d - d * (2 * k - 1) >= 0
  {
    assert d * (2 * k - 1) == 2 * (k * d) - d;
  }

  lemma LargestEven(p: nat, k: nat)
    requires Halves(65534, p, k)
    ensures k == 1
  {
    if k >= 2 { MulMonotone(2, k, p); }
  }

  /** Without excess, the reciprocal would have been rounded up. */
  lemma NoExcess(d: nat, p: nat, k: nat, f: nat, fr: nat)
    requires Halves(d, p, k) && p < d && 0x10000 * p == f * d + fr && 0 < fr <= d / 2
    requires Excess(d, k, 0x7FFF - d / 2) == 0
    ensures d == 65534
  {
    ExcessIs(d, k, 0x7FFF - d / 2);
    hide Excess;
    var t := d * (2 * k - 1);
    var q: nat := (2 * k - 1) * p;
    assert t * p == q * d by { MulAssoc(d, 2 * k - 1, p); }
    QuotientUnique(0x10000 * p, d, f, fr);
    if d % 2 == 1 {
      assert t == 0xFFFF;
      QuotientUnique(0x10000 * p, d, q, p);
    } else {
      assert t == 0xFFFE;
      Distribute(q, d);
      QuotientUnique(0x10000 * p, d, q + 1, 2 * p - d);
      FourThirds(d, p, k);
    }
  }

  lemma FourThirds(d: nat, p: nat, k: nat)
    requires Halves(d, p, k) && 4 * p <= 3 * d && d * (2 * k - 1) == 0xFFFE
    ensures k == 1
  {
    if k >= 2 {
      MulMonotone(2, k, p);
      MulMonotone(4 * p, 3 * d, 2 * k - 1);
      OddTimesBoth(d, p, k);
    }
  }

  lemma OddTimesBoth(d: int, p: int, k: int)
    ensures 4 * p * (2 * k - 1) == 8 * (p * k) - 4 * p && 3 * d * (2 * k - 1) == 3 * (d * (2 * k - 1))
  {
  }

  /** The product of a number below zero, wrapped around. */
  lemma WrappedProduct(a: nat, f: nat)
    requires a <= 0x8000 && f < 0x10000
    ensures Word32(Times(Below(a), f)) == Below(a * f) && a * f <= 0x8000_0000
  {
    hide Times;
    MulMonotone(a, 0x8000, f);
    if a > 0 {
      TimesBelow(a, f);
      WholeTurns(f, a * f);
    } else {
      TimesSum(0, 0, f);
    }
  }

  lemma WholeTurns(f: nat, m: int)
    ensures (0x1_0000_0000 * f - m) % 0x1_0000_0000 == -m % 0x1_0000_0000
  {
  }

  lemma TimesBelow(a: nat, f: nat)
    requires 0 < a <= 0x8000
    ensures Times(Below(a), f) == 0x1_0000_0000 * f - a * f
  {
    assert Below(a) == 0x1_0000_0000 - a;
    assert (0x1_0000_0000 - a) * f == 0x1_0000_0000 * f - a * f;
  }

  /** The reciprocal of d, with n the power of two behind it. */
  ghost predicate Uses(d: nat, f: nat, a: nat, n: nat)
    requires 1 <= d < 0x10000
  {
    var r := Reciprocal(d, WORD);
    r.shift + WORD >= 0 && r.recip == f < 0x10000 && r.corr + a == 0x8000 && Pow2(r.shift + WORD) == n
  }

  /** -32768 cannot be negated: what is multiplied lies below zero. */
  lemma MinimumProduct(d: nat, f: nat, a: nat, n: nat)
    requires 1 <= d < 0x10000 && n > 0 && Uses(d, f, a, n)
    ensures Multiplied(-0x8000, d) == ToShort(Quot(Below(a * f), n))
  {
    hide Reciprocal, Times, Quot, ToShort, Pow2;
    var r := Reciprocal(d, WORD);
    assert Word32(-0x8000 + r.corr) == Below(a);
    hide Word32, Below;
    WrappedProduct(a, f);
  }

  /** Quantizing -32768 comes down to one quotient. */
  lemma OneQuotient(d: nat, f: nat, a: nat, n: nat)
    requires 1 <= d < 0x10000 && n > 0 && Uses(d, f, a, n) && Quot(Below(a * f), n) < 0x10000
    ensures Quantized(-0x8000, d) == Divided(-0x8000, d) <==> Quot(Below(a * f), n) == Rounded(0x8000, d)
  {
    hide Rounded, Quot, Multiplied, Uses, Below, ToShort;
    MinimumProduct(d, f, a, n);
    RoundedBelow(0x8000, d);
    SameShort(Quot(Below(a * f), n), Rounded(0x8000, d));
    MinimumNegated();
  }

  lemma MinimumNegated()
    ensures ToShort(0x8000) == -0x8000
  {
  }

  lemma SameShort(q: nat, r: nat)
    requires q < 0x10000 && r <= 0x8000
    ensures var z: int := r; ToShort(-ToShort(q)) == -z <==> q == r
  {
  }

  /** For a divisor that is no power of two. */
  lemma HalvesDecide(d: nat, p: nat, k: nat, f: nat, a: nat)
    requires Halves(d, p, k) && Uses(d, f, a, 0x10000 * p)
    ensures Quantized(-0x8000, d) == Divided(-0x8000, d) <==>
      d * (2 * k - 1) < 0x10000 && a * f > (k - 1) * (0x10000 * p)
  {
    hide Quantized, Divided, Rounded, Quot, Reciprocal, Below, Pow2;
    RoundedMinimum(d, p, k);
    HalfRounds(d, p, k);
    WrappedProduct(a, f);
    assert k * (0x10000 * p) == 0x10000 * (p * k);
    WrappedQuotient(a * f, k, 0x10000 * p);
    assert 2 * k <= 0x10000 by { MulMonotone(1, p, k); }
    OneQuotient(d, f, a, 0x10000 * p);
  }

  lemma PowerOrNot(d: nat, p: nat, f: nat, fr: nat)
    requires p <= d < 2 * p && 0x10000 * p == f * d + fr && 0 < fr < d
    ensures p < d
  {
    if p == d {
      QuotientUnique(0x10000 * p, d, 0x10000, 0);
      QuotientUnique(0x10000 * p, d, f, fr);
    }
  }

  /** The condition, in terms of p and k. */
  lemma DividesIs(d: nat, p: nat, k: nat)
    requires 2 <= d < 0x10000 && 0 <= NBits(d) - 1 < WORD
    requires p == Pow2(NBits(d) - 1) && 2 * k == Pow2(WORD - (NBits(d) - 1))
    ensures DividesMinimum(d) <==> p < d && d * (2 * k - 1) < 0x10000 && d != 65534
  {
    hide Pow2, NBits;
  }

  lemma TruncatedMinimum(d: nat, p: nat, k: nat, f: nat, fr: nat)
    requires Halves(d, p, k) && 0x10000 * p == f * d + fr && 0 < fr <= d / 2 && Uses(d, f, 0x7FFF - d / 2, 0x10000 * p)
    ensures Quantized(-0x8000, d) == Divided(-0x8000, d) <==> p < d && d * (2 * k - 1) < 0x10000 && d != 65534
  {
    hide Quantized, Divided, Reciprocal, Pow2, Uses;
    PowerOrNot(d, p, f, fr);
    HalvesDecide(d, p, k, f, 0x7FFF - d / 2);
    if d * (2 * k - 1) < 0x10000 { TruncatedReaches(d, p, k, f, fr); }
  }

  lemma IncreasedMinimum(d: nat, p: nat, k: nat, f: nat, fr: nat)
    requires Halves(d, p, k) && 0x10000 * p == f * d + fr && d / 2 < fr < d
    requires Uses(d, f + 1, 0x8000 - d / 2, 0x10000 * p)
    ensures Quantized(-0x8000, d) == Divided(-0x8000, d) <==> p < d && d * (2 * k - 1) < 0x10000 && d != 65534
  {
    hide Quantized, Divided, Reciprocal, Pow2, Uses;
    PowerOrNot(d, p, f, fr);
    HalvesDecide(d, p, k, f + 1, 0x8000 - d / 2);
    Distribute(f, d);
    if d * (2 * k - 1) < 0x10000 { IncreasedReaches(d, p, k, f + 1, d - fr); }
    if d == 65534 { LargestEven(p, k); LargestEvenTruncated(f, fr); }
  }

  /** The reciprocal of 65534 is rounded down. */
  lemma LargestEvenTruncated(f: nat, fr: nat)
    requires 0x8000_0000 == f * 65534 + fr && fr < 65534
    ensures fr == 2
  {
    QuotientUnique(0x8000_0000, 65534, f, fr);
  }

  /** A power of two gives three times the quotient. */
  lemma PowerMinimum(d: nat, k: nat)
    requires Halves(d, d, k) && d % 2 == 0 && Uses(d, 0x8000, 0x8000 - d / 2, 0x8000 * d)
    ensures Quantized(-0x8000, d) != Divided(-0x8000, d)
  {
    hide Quantized, Divided, Reciprocal, Pow2, Uses;
    var h := d / 2;
    var a: nat := 0x8000 - h;
    assert Quot(Below(a * 0x8000), 0x8000 * d) == 3 * k by {
      assert Below(a * 0x8000) == 3 * k * (0x8000 * d) + h * 0x8000 by {
        assert 3 * k * (0x8000 * d) == 0x18000 * (d * k);
      }
      QuotientUnique(Below(a * 0x8000), 0x8000 * d, 3 * k, h * 0x8000);
    }
    assert Rounded(0x8000, d) == k by {
      assert k * d == d * k;
      QuotientUnique(0x8000 + h, d, k, h);
    }
    assert 3 * k < 0x10000 by { MulMonotone(2, d, k); }
    hide Rounded, Quot, Below;
    OneQuotient(d, 0x8000, a, 0x8000 * d);
  }

  lemma UnitMinimum()
    ensures Quantized(-0x8000, 1) == Divided(-0x8000, 1)
  {
    assert Uses(1, 1, 0x8000, 1) by { assert Pow2(0) == 1; }
    MinimumProduct(1, 1, 0x8000, 1);
    assert Quot(Below(0x8000 * 1), 1) == 0xFFFF_8000 by { QuotientUnique(0xFFFF_8000, 1, 0xFFFF_8000, 0); }
    assert Rounded(0x8000, 1) == 0x8000 by { QuotientUnique(0x8000, 1, 0x8000, 0); }
    hide Multiplied, Quot, Rounded, Uses, Below;
  }

  /** Three kinds of reciprocals. */
  lemma MinimumExact(d: nat)
    requires 2 <= d < 0x10000
    ensures Quantized(-0x8000, d) == Divided(-0x8000, d) <==> DividesMinimum(d)
  {
    hide Quantized, Divided, DividesMinimum, Pow2, NBits, Quot, Rem, Halves, Reciprocal, Uses;
    LeadingHalves(d);
    var b := NBits(d) - 1;
    var n, p, k := Pow2(WORD + b), Pow2(b), Pow2(15 - b);
    DividesIs(d, p, k);
    Division(n, d);
    var f, fr := Quot(n, d), Rem(n, d);
    ReciprocalUses(d);
    if fr == 0 {
      ReciprocalOfPower(d);
      PowerMinimum(d, k);
    } else if fr <= d / 2 {
      TruncatedMinimum(d, p, k, f, fr);
    } else {
      IncreasedMinimum(d, p, k, f, fr);
    }
  }

  /** What is multiplied in the two cases that do not divide evenly. */
  ghost predicate UnevenUses(d: nat, n: nat)
    requires 2 <= d < 0x10000
  {
    var f, fr := Quot(n, d), Rem(n, d);
    && (0 < fr <= d / 2 ==> Uses(d, f, 0x7FFF - d / 2, n))
    && (fr > d / 2 ==> Uses(d, f + 1, 0x8000 - d / 2, n))
  }

  lemma ReciprocalUses(d: nat)
    requires 2 <= d < 0x10000
    ensures NBits(d) >= 1 && UnevenUses(d, Pow2(WORD + NBits(d) - 1))
  {
    LeadingHalves(d);
    var b := NBits(d) - 1;
    var n, p := Pow2(WORD + b), Pow2(b);
    Division(n, d);
    var f, fr := Quot(n, d), Rem(n, d);
    hide Pow2, Quot, Rem, NBits;
    if 0 < fr <= d / 2 { TruncatedFits(d, 0x10000, p, f, fr); }
    Distribute(f, d);
    if fr > d / 2 { IncreasedFits(d, 0x10000, p, f + 1, d - fr); }
  }

  lemma EvenPower(d: nat)
    requires 2 <= d < 0x10000 && NBits(d) >= 1 && Rem(Pow2(WORD + NBits(d) - 1), d) == 0
    ensures d == Pow2(NBits(d) - 1) && d % 2 == 0 && Quot(Pow2(WORD + NBits(d) - 1), d) == 0x10000
  {
    hide NBits, Quot, Rem;
    LeadingHalves(d);
    var b := NBits(d) - 1;
    var n := Pow2(WORD + b);
    Division(n, d);
    var f := Quot(n, d);
    var j := DivisorOfPower(d, f, WORD + b);
    SamePower(j, b);
    assert d == 2 * Pow2(b - 1);
    hide Pow2;
    MulCancel(f, 0x10000, d);
  }

  lemma ReciprocalOfPower(d: nat)
    requires 2 <= d < 0x10000 && NBits(d) >= 1 && Rem(Pow2(WORD + NBits(d) - 1), d) == 0
    ensures d == Pow2(NBits(d) - 1) && d % 2 == 0 && Uses(d, 0x8000, 0x8000 - d / 2, 0x8000 * d)
  {
    hide Pow2, Quot, Rem, NBits;
    EvenPower(d);
    LeadingHalves(d);
  }

  /** Main result about the arithmetic of quantization: every coefficient is divided with rounding,
      -32768 for exactly the divisors above. */
  lemma QuantizedExact(x: int, d: nat)
    requires IsShort(x) && 1 <= d < 0x10000
    ensures Quantized(x, d) == Divided(x, d) <==> x != -0x8000 || DividesMinimum(d)
  {
    hide Quantized, Divided, Pow2, NBits;
    if x != -0x8000 {
      NegatedExact(x, d);
    } else if d == 1 {
      UnitMinimum();
    } else {
      MinimumExact(d);
    }
  }

  lemma ReciprocalOf8()
    ensures Reciprocal(8, WORD) == Recip(0x8000, 4, 2)
  {
    assert NBits(8) == 4;
    Pow2Words();
  }

  lemma Shift18()
    ensures Pow2(18) == 0x40000
  {
    Pow2Small();
    Pow2Plus8(10);
    Pow2Plus8(2);
  }

  /** It fails for 8, where -12288 comes out. */
  lemma MinimumMisquantized()
    ensures Quantized(-0x8000, 8) == -12288 && Divided(-0x8000, 8) == -4096
  {
    ReciprocalOf8();
    Shift18();
    hide Pow2, Reciprocal;
    assert Multiplied(-0x8000, 8) == 12288;
    assert Rounded(0x8000, 8) == 4096;
  }

  // ----- Quantizing a block -----

  /** The divisor for a quantization value: eight times as much, cut off at a word. */
  function Divisor(quantval: nat): (d: nat)
    ensures d < 0x10000
  {
    8 * quantval % 0x10000
  }

  /** It is eight times the value exactly for values below 8192, and nothing can be divided by it
      exactly for the multiples of that. */
  lemma DivisorRight(quantval: nat)
    requires quantval < 0x10000
    ensures Divisor(quantval) == 8 * quantval <==> quantval < 0x2000
    ensures Divisor(quantval) == 0 <==> quantval % 0x2000 == 0
    ensures Divisor(quantval) == 0 || Divisor(quantval) >= 8
  {
  }

  function Divisors(quantval: seq<nat>): (d: seq<nat>)
    ensures |d| == |quantval| && forall i :: 0 <= i < |quantval| ==> d[i] == Divisor(quantval[i])
  {
    seq(|quantval|, i requires 0 <= i < |quantval| => Divisor(quantval[i]))
  }

  /** Enters a quantization table, unless a reciprocal would have to be taken of zero. Returns whether
      vector code may be used; it may. */
  method StartPass(quantval: seq<nat>, dtbl: array<int>) returns (ok: bool, vector: bool)
    requires |quantval| == DCTSIZE2 && (forall i :: 0 <= i < DCTSIZE2 ==> quantval[i] < 0x10000)
    requires dtbl.Length == 4 * DCTSIZE2
    modifies dtbl
    ensures ok <==> forall i :: 0 <= i < DCTSIZE2 ==> quantval[i] % 0x2000 != 0
    ensures ok ==> TableFor(dtbl[..], Divisors(quantval))
    ensures ok ==> vector
  {
    hide Reciprocal, Scale;
    vector := true;
    var i := 0;
    while i < DCTSIZE2
      invariant 0 <= i <= DCTSIZE2
      invariant forall k :: 0 <= k < i ==>
        quantval[k] % 0x2000 != 0 && Divisor(quantval[k]) >= 1 && EntryFor(dtbl[..], k, Divisor(quantval[k]))
      invariant vector
    {
      DivisorRight(quantval[i]);
      var divisor := Divisor(quantval[i]);
      if divisor == 0 {
        return false, vector;
      }
      VectorExact(divisor);
      var v := ComputeReciprocal(divisor, dtbl, i);
      if !v {
        vector := false;
      }
      i := i + 1;
    }
    ok := true;
  }

  /** Quantizes a block. */
  method Quantize(block: array<int>, divisors: array<int>, workspace: array<int>, ghost d: seq<nat>)
    requires block.Length == DCTSIZE2 && workspace.Length == DCTSIZE2 && TableFor(divisors[..], d)
    requires block != divisors && block != workspace
    requires forall i :: 0 <= i < DCTSIZE2 ==> IsShort(workspace[i])
    modifies block
    ensures forall i :: 0 <= i < DCTSIZE2 ==> block[i] == Quantized(workspace[i], d[i])
    ensures forall i :: 0 <= i < DCTSIZE2 ==>
      (block[i] == Divided(workspace[i], d[i]) <==> workspace[i] != -0x8000 || DividesMinimum(d[i]))
  {
    hide Reciprocal, Pow2, Rounded, Times, Quot, Multiplied, Quantized, Divided, ToShort, DividesMinimum;
    var i := 0;
    while i < DCTSIZE2
      invariant 0 <= i <= DCTSIZE2
      invariant forall k :: 0 <= k < i ==> block[k] == Quantized(workspace[k], d[k])
    {
      var temp := workspace[i];
      assert EntryFor(divisors[..], i, d[i]);
      var recip, corr, shift := divisors[i], divisors[i + DCTSIZE2], divisors[i + 3 * DCTSIZE2];
      QuantizedParts(temp, d[i]);
      if temp < 0 {
        temp := ToShort(-temp);
        var product := Word32(Times(Word32(temp + corr), recip));
        temp := ToShort(Quot(product, Pow2(shift + WORD)));
        temp := ToShort(-temp);
      } else {
        var product := Word32(Times(Word32(temp + corr), recip));
        temp := ToShort(Quot(product, Pow2(shift + WORD)));
      }
      block[i] := temp;
      i := i + 1;
    }
    forall k | 0 <= k < DCTSIZE2
      ensures Quantized(workspace[k], d[k]) == Divided(workspace[k], d[k]) <==>
        workspace[k] != -0x8000 || DividesMinimum(d[k])
    {
      QuantizedExact(workspace[k], d[k]);
    }
  }

  lemma QuantizedParts(x: int, d: nat)
    requires 1 <= d < 0x10000
    ensures Reciprocal(d, WORD).shift + WORD >= 0
    ensures var t := if x < 0 then ToShort(-x) else x; var r := Reciprocal(d, WORD);
      var m := ToShort(Quot(Word32(Times(Word32(t + r.corr), r.recip)), Pow2(r.shift + WORD)));
      Quantized(x, d) == if x < 0 then ToShort(-m) else m
  {
    ShiftSum(d);
    hide Reciprocal, Pow2, Times, Quot, ToShort, Word32;
  }
}
