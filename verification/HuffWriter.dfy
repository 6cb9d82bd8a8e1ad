/** The encoder's 64-bit accumulator: codes are shifted in from the right and whole bytes leave from
    the left, with a zero byte stuffed after each 0xFF. */
module HuffWriter {
  import opened Bits
  import opened Stuffing
  import opened HuffBits

  const WORD_BITS: nat := 64

  /** The accumulator after a code of size bits; what overflows on the left is lost. */
  function Put(buffer: nat, code: nat, size: nat): (r: nat)
    ensures r < Pow2(WORD_BITS)
  {
    (buffer * Pow2(size) + code) % Pow2(WORD_BITS)
  }

  /** As long as the word is wide enough, putting a code appends its bits. */
  lemma PutAppends(buffer: nat, n: nat, code: nat, size: nat)
    requires code < Pow2(size) && n + size <= WORD_BITS
    ensures BitsOf(Put(buffer, code, size), n + size) == BitsOf(buffer, n) + BitsOf(code, size)
  {
    hide Pow2, BitsOf;
    BitsModulo(buffer * Pow2(size) + code, WORD_BITS, n + size);
    BitsAppend(buffer, n, code, size);
  }

  lemma {:induction false} BitsInjective(x: nat, y: nat, n: nat)
    requires BitsOf(x, n) == BitsOf(y, n)
    ensures x % Pow2(n) == y % Pow2(n)
  {
    PeekBits(x, n, []);
    PeekBits(y, n, []);
  }

  lemma ModModulo(x: nat, p: nat, k: nat)
    requires p > 0 && k > 0
    ensures k * p > 0
    ensures x % (k * p) < p <==> x % (k * p) == x % p
  {
    PositiveProduct(k, p);
    var q, r := x / (k * p), x % (k * p);
    QuotientRemainder(x, k * p);
    QuotientRemainder(r, p);
    MulAssoc(q, k, p);
    Distribute(q * k, r / p, p);
    QuotientUnique(x, p, q * k + r / p, r % p);
    if r < p { QuotientUnique(r, p, 0, r); }
  }

  lemma PositiveProduct(k: nat, p: nat)
    requires p > 0 && k > 0
    ensures k * p > 0
  {
  }

  lemma Distribute(x: nat, y: nat, p: nat)
    ensures (x + y) * p == x * p + y * p
  {
  }

  lemma PutFillEnds(buffer: nat)
    ensures Put(buffer, 0x7F, 7) % 128 == 127
  {
    Pow2Small();
    hide Pow2, Put, BitsOf;
    PutAppends(buffer, 0, 0x7F, 7);
    NoBits(buffer);
    assert BitsOf(Put(buffer, 0x7F, 7), 7) == BitsOf(0x7F, 7);
    BitsInjective(Put(buffer, 0x7F, 7), 0x7F, 7);
  }

  lemma ShiftedModulo(x: nat, n: nat)
    ensures (x * 128 + 127) % Pow2(n + 7) == x % Pow2(n) * 128 + 127
  {
    Pow2Small();
    Pow2Add(n, 7);
    hide Pow2;
    var q, r, p := Shr(x, n), x % Pow2(n), Pow2(n);
    MulAssoc(q, p, 128);
    QuotientUnique(x * 128 + 127, p * 128, q, r * 128 + 127);
  }

  /** Putting the seven fill bits keeps all n pending bits exactly when those that the word has no
      room for are zero; with at most 57 pending bits that is always so. */
  lemma FillExact(buffer: nat, n: nat)
    requires n <= 63
    ensures BitsOf(Put(buffer, 0x7F, 7), n + 7) == BitsOf(buffer, n) + BitsOf(0x7F, 7)
       <==> buffer % Pow2(n) < Pow2(57)
    ensures n <= 57 ==> buffer % Pow2(n) < Pow2(57)
  {
    Pow2Small();
    hide Pow2, BitsOf;
    var full := buffer * 128 + 127;
    BitsAppend(buffer, n, 0x7F, 7);
    if n <= 57 {
      Pow2Monotone(n, 57);
      PutAppends(buffer, n, 0x7F, 7);
    } else {
      Pow2Monotone(64, n + 7);
      ShiftedModulo(buffer, n);
      Pow2Add(n + 7 - 64, 64);
      ModModulo(full, Pow2(64), Pow2(n + 7 - 64));
      assert Pow2(64) == Pow2(57) * 128 by { Pow2Add(57, 7); }
      var put := Put(buffer, 0x7F, 7);
      QuotientUnique(put, Pow2(n + 7), 0, put);
      if BitsOf(put, n + 7) == BitsOf(full, n + 7) { BitsInjective(put, full, n + 7); }
      if buffer % Pow2(n) < Pow2(57) {
        BitsModulo(full, n + 7, n + 7);
      }
    }
  }

  // ----- How many bits are pending -----

  /** After a code, and after a code with extra bits. */
  function AfterBits(k: nat, size: nat): nat { (if k > 47 then k - 48 else k) + size }

  function AfterCode(k: nat, size: nat, n: nat): nat { (if k > 31 then k - 32 else k) + size + n }

  /** Of the last k bits, which are pending, those too many for the word with the fill bits are zero. */
  predicate RoomFor(s: seq<bool>, k: nat) { forall i :: 0 <= i < |s| && |s| - k <= i < |s| - 57 ==> !s[i] }

  predicate NoOnes(s: seq<bool>) { forall i :: 0 <= i < |s| ==> !s[i] }

  lemma NoOnesAppend(s: seq<bool>, b: bool)
    ensures NoOnes(s + [b]) <==> NoOnes(s) && !b
  {
    var t := s + [b];
    assert t[|s|] == b && forall i :: 0 <= i < |s| ==> t[i] == s[i];
  }

  lemma {:induction false} ZeroBits(x: nat, n: nat)
    requires x < Pow2(n)
    ensures x == 0 <==> NoOnes(BitsOf(x, n))
  {
    if n > 0 {
      ZeroBits(x / 2, n - 1);
      NoOnesAppend(BitsOf(x / 2, n - 1), x % 2 == 1);
    }
  }

  lemma ShrZero(y: nat, n: nat, k: nat)
    requires n <= k && y < Pow2(k)
    ensures Shr(y, n) < Pow2(k - n) && (Shr(y, n) == 0 <==> y < Pow2(n))
  {
    Pow2Add(k - n, n);
    hide Pow2;
    var q, p := Shr(y, n), Pow2(n);
    if q >= Pow2(k - n) { MulMonotone(Pow2(k - n), q, p); }
    if q > 0 { MulMonotone(1, q, p); }
  }

  /** The condition on the word is one on the bits written. */
  lemma RoomExact(front: seq<bool>, buffer: nat, k: nat)
    ensures buffer % Pow2(k) < Pow2(57) <==> RoomFor(front + BitsOf(buffer, k), k)
  {
    hide Pow2, BitsOf;
    var y, s := buffer % Pow2(k), front + BitsOf(buffer, k);
    if k <= 57 {
      Pow2Monotone(k, 57);
    } else {
      BitsModulo(buffer, k, k);
      BitsSplit(y, k, k - 57);
      ShrZero(y, 57, k);
      var high := BitsOf(Shr(y, 57), k - 57);
      ZeroBits(Shr(y, 57), k - 57);
      assert forall i :: 0 <= i < k - 57 ==> s[|front| + i] == high[i];
      if RoomFor(s, k) {
        forall i | 0 <= i < k - 57 ensures !high[i] { assert !s[|front| + i]; }
      }
    }
  }

  /** The fill bits that complete the last byte after n pending bits. */
  function FillBits(n: nat): nat { (n + 7) / 8 * 8 - n }

  class BitWriter {
    var putBuffer: nat
    var putBits: nat
    var out: seq<byte>

    ghost predicate Valid()
      reads this
    {
      putBuffer < Pow2(WORD_BITS) && putBits <= 63 && WellStuffed(out)
    }

    /** Every bit written so far. */
    ghost function Written(): seq<bool>
      reads this
      requires WellStuffed(out)
    {
      AllBits(Unstuff(out)) + BitsOf(putBuffer, putBits)
    }

    constructor ()
      ensures Valid() && Written() == [] && out == [] && putBits == 0
    {
      hide Pow2;
      putBuffer, putBits, out := 0, 0, [];
    }

    method EmitByte()
      requires putBuffer < Pow2(WORD_BITS) && WellStuffed(out) && putBits >= 8
      modifies this`putBits, this`out
      ensures WellStuffed(out) && putBits == old(putBits) - 8
      ensures Written() == old(Written())
    {
      hide Pow2, WellStuffed, Unstuff, BitsOf, AllBits;
      ghost var bytes := Unstuff(out);
      putBits := putBits - 8;
      var c := Shr(putBuffer, putBits) % 256;
      BitsSplit(putBuffer, putBits + 8, 8);
      Pow2Eight();
      BitsModulo(Shr(putBuffer, putBits), 8, 8);
      UnstuffAppend(out, c);
      AllBitsAppend(bytes, c);
      out := out + [c];
      if c == 0xFF {
        out := out + [0];
      }
      assert out == old(out) + Stuffed(c);
      assert AllBits(bytes) + (BitsOf(c, 8) + BitsOf(putBuffer, putBits)) == AllBits(bytes) + BitsOf(c, 8) +
        BitsOf(putBuffer, putBits);
    }

    method PutBits(code: nat, size: nat)
      requires putBuffer < Pow2(WORD_BITS) && WellStuffed(out)
      requires code < Pow2(size) && putBits + size <= WORD_BITS
      modifies this`putBuffer, this`putBits
      ensures putBuffer < Pow2(WORD_BITS) && putBits == old(putBits) + size
      ensures Written() == old(Written()) + BitsOf(code, size)
    {
      hide Pow2, WellStuffed, Unstuff, BitsOf, AllBits;
      PutAppends(putBuffer, putBits, code, size);
      assert AllBits(Unstuff(out)) + (BitsOf(putBuffer, putBits) + BitsOf(code, size))
          == AllBits(Unstuff(out)) + BitsOf(putBuffer, putBits) + BitsOf(code, size);
      putBits := putBits + size;
      putBuffer := Put(putBuffer, code, size);
    }

    /** Empties six bytes if the accumulator is too full for a code, then puts the code. */
    method EmitBits(code: nat, size: nat)
      requires Valid() && size <= 16 && code < Pow2(size)
      modifies this
      ensures Valid() && putBits == AfterBits(old(putBits), size)
      ensures Written() == old(Written()) + BitsOf(code, size)
    {
      hide Pow2, WellStuffed, Unstuff, BitsOf, AllBits;
      if putBits > 47 {
        EmitByte(); EmitByte(); EmitByte(); EmitByte(); EmitByte(); EmitByte();
      }
      PutBits(code, size);
    }

    /** Empties four bytes if necessary, then puts a code and the low bits of a value. */
    method EmitCode(code: nat, size: nat, temp2: int, nbits: nat)
      requires Valid() && size <= 16 && code < Pow2(size) && nbits <= 16
      modifies this
      ensures Valid() && putBits == AfterCode(old(putBits), size, nbits)
      ensures Written() == old(Written()) + BitsOf(code, size) + BitsOf(temp2 % Pow2(nbits), nbits)
    {
      hide Pow2, WellStuffed, Unstuff, BitsOf, AllBits;
      var low := temp2 % Pow2(nbits);
      if putBits > 31 {
        EmitByte(); EmitByte(); EmitByte(); EmitByte();
      }
      PutBits(code, size);
      PutBits(low, nbits);
    }

    /** Empties all whole bytes. */
    method EmitBytes()
      requires putBuffer < Pow2(WORD_BITS) && WellStuffed(out)
      modifies this`putBits, this`out
      ensures WellStuffed(out) && putBits == old(putBits) % 8
      ensures Written() == old(Written())
    {
      hide Pow2, WellStuffed, Unstuff, BitsOf, AllBits;
      while putBits >= 8
        invariant WellStuffed(out) && Written() == old(Written()) && putBits % 8 == old(putBits) % 8
        decreases putBits
      {
        EmitByte();
      }
    }

    /** Completes the last byte with ones and empties the accumulator; all pending bits reach the
        output exactly when the word had room for them. */
    method FlushBits()
      requires Valid()
      modifies this
      ensures Valid() && putBits == 0 && putBuffer == 0
      ensures Written() == old(Written()) + Fill(FillBits(old(putBits))) <==> RoomFor(old(Written()), old(putBits))
      ensures |Written()| == |old(Written())| + FillBits(old(putBits))
    {
      hide Pow2, WellStuffed, Unstuff, BitsOf, AllBits;
      ghost var n, front, bits := putBits, AllBits(Unstuff(out)), BitsOf(putBuffer, putBits);
      FillExact(putBuffer, putBits);
      RoomExact(front, putBuffer, putBits);
      putBits := putBits + 7;
      putBuffer := Put(putBuffer, 0x7F, 7);
      PutFillEnds(old(putBuffer));
      ghost var word := putBuffer;
      EmitBytes();
      FlushedBits(front, bits, word, n, AllBits(Unstuff(out)));
      putBuffer := 0;
      putBits := 0;
      NoBits(0);
      assert Written() == AllBits(Unstuff(out));
    }
  }

  /** What is in the output after the whole bytes have been emptied. */
  lemma FlushedBits(front: seq<bool>, bits: seq<bool>, word: nat, n: nat, out: seq<bool>)
    requires |bits| == n && front + BitsOf(word, n + 7) == out + BitsOf(word, (n + 7) % 8)
    requires word % 128 == 127
    ensures |out| == |front| + n + FillBits(n)
    ensures out == front + bits + Fill(FillBits(n)) <==> BitsOf(word, n + 7) == bits + BitsOf(0x7F, 7)
  {
    hide BitsOf;
    var left, all := (n + 7) % 8, BitsOf(word, n + 7);
    FillOnes(7);
    LowOnes(word, n + 7, 7);
    LowOnes(word, left, left);
    assert |out| == |front| + n + 7 - left;
    if out == front + bits + Fill(FillBits(n)) {
      forall i | 0 <= i < n + 7 ensures all[i] == (bits + BitsOf(0x7F, 7))[i] {
        assert (front + all)[|front| + i] == all[i];
        if i < n {
          assert out[|front| + i] == bits[i];
        }
      }
    }
    if all == bits + BitsOf(0x7F, 7) {
      forall i | 0 <= i < |out| ensures out[i] == (front + bits + Fill(FillBits(n)))[i] {
        assert (front + all)[i] == (out + BitsOf(word, left))[i];
      }
    }
  }

  /** Bits that are all ones. */
  function Fill(k: nat): (s: seq<bool>)
    ensures |s| == k && forall i :: 0 <= i < k ==> s[i]
  {
    seq(k, i => true)
  }

  lemma {:induction false} FillOnes(k: nat)
    requires k <= 7
    ensures forall i :: 0 <= i < k ==> BitsOf(0x7F, k)[i]
  {
    Pow2Small();
    PowOnes(7, k);
  }

  lemma {:induction false} PowOnes(j: nat, k: nat)
    requires k <= j
    ensures BitsOf(Pow2(j) - 1, k) == Fill(k)
  {
    hide Pow2;
    if k > 0 {
      PowOnes(j - 1, k - 1);
      TwicePow(j);
      var p := Pow2(j - 1);
      assert (2 * p - 1) / 2 == p - 1 && (2 * p - 1) % 2 == 1;
      assert Fill(k - 1) + [true] == Fill(k);
    }
  }

  /** The last bits of a word that ends in ones. */
  lemma LowOnes(word: nat, n: nat, k: nat)
    requires k <= 7 && k <= n && word % 128 == 127
    ensures forall i :: n - k <= i < n ==> BitsOf(word, n)[i]
  {
    Pow2Small();
    BitsSplit(word, n, n - k);
    BitsModulo(word, 7, k);
    FillOnes(k);
  }

  lemma NoBits(x: nat)
    ensures BitsOf(x, 0) == []
  {
  }
}
