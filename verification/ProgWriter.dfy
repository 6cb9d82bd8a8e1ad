/** The bits of progressive Huffman coding: the encoder's 24-bit buffer, from which whole bytes leave at
    once, and the bits of a sequence of symbols and raw bits. */
module ProgWriter {
  import opened Bits
  import opened Stuffing
  import opened HuffBits
  import opened HuffDerive
  import opened ProgItems
  import W = HuffWriter
  import B = HuffBlock

  // ----- Bits of items -----

  /** Is there a code for the symbol? */
  predicate Coded1(e: EncoderTable, i: Item) {
    i.Sym? ==> i.s < |e.ehufsi| == |e.ehufco| && e.ehufsi[i.s] != 0
  }

  predicate AllCoded(e: EncoderTable, items: seq<Item>) { forall i :: 0 <= i < |items| ==> Coded1(e, items[i]) }

  function ItemBits(e: EncoderTable, i: Item): seq<bool>
    requires Coded1(e, i)
  {
    match i
    case Sym(s) => BitsOf(e.ehufco[s], e.ehufsi[s])
    case Raw(n, x) => BitsOf(x, n)
  }

  function ItemsBits(e: EncoderTable, items: seq<Item>): seq<bool>
    requires AllCoded(e, items)
    decreases |items|
  {
    if |items| == 0 then [] else ItemsBits(e, items[..|items| - 1]) + ItemBits(e, items[|items| - 1])
  }

  lemma FirstBits(e: EncoderTable, i: Item, rest: seq<Item>)
    requires AllCoded(e, [i] + rest)
    ensures Coded1(e, i) && AllCoded(e, rest) && ItemsBits(e, [i] + rest) == ItemBits(e, i) + ItemsBits(e, rest)
  {
    assert ([i] + rest)[0] == i && forall j :: 0 <= j < |rest| ==> ([i] + rest)[j + 1] == rest[j];
    BitsConcat(e, [i], rest);
    assert [i][..0] == [] && [i][0] == i;
    assert [] + ItemBits(e, i) == ItemBits(e, i);
  }

  lemma {:induction false} BitsConcat(e: EncoderTable, a: seq<Item>, b: seq<Item>)
    requires AllCoded(e, a) && AllCoded(e, b)
    ensures AllCoded(e, a + b) && ItemsBits(e, a + b) == ItemsBits(e, a) + ItemsBits(e, b)
    decreases |b|
  {
    hide Coded1, ItemBits;
    if |b| == 0 {
      assert a + b == a;
      assert ItemsBits(e, a) + [] == ItemsBits(e, a);
    } else {
      var c, x := b[..|b| - 1], b[|b| - 1];
      BitsConcat(e, a, c);
      assert (a + b)[..|a + b| - 1] == a + c && (a + b)[|a + b| - 1] == x;
      B.BitsAssoc(ItemsBits(e, a), ItemsBits(e, c), ItemBits(e, x));
    }
  }

  // ----- The buffer -----

  /** x shifted left by n bits. */
  function Shl(x: nat, n: nat): nat { x * Pow2(n) }

  /** n pending bits, of value p, at the left end of 24. */
  predicate Aligned(buffer: nat, p: nat, n: nat) {
    n <= 23 && p < Pow2(n) && buffer == Shl(p, 24 - n)
  }

  /** The low n bits of x. */
  function Low(x: nat, n: nat): (r: nat)
    ensures r < Pow2(n) && BitsOf(r, n) == BitsOf(x, n)
  {
    BitsModulo(x, n, n);
    x % Pow2(n)
  }

  lemma Merge(buffer: nat, p: nat, n: nat, word: nat, size: nat)
    requires n <= 7 && size <= 16 && Aligned(buffer, p, n) && word < Pow2(size)
    ensures Aligned(buffer + Shl(word, 24 - (n + size)), Shl(p, size) + word, n + size)
    ensures BitsOf(Shl(p, size) + word, n + size) == BitsOf(p, n) + BitsOf(word, size)
  {
    Pow2Add(size, 24 - (n + size));
    Pow2Add(n, size);
    BitsAppend(p, n, word, size);
    hide Pow2, BitsOf;
    MergeParts(p, Pow2(n), word, Pow2(size), Pow2(24 - (n + size)));
  }

  lemma MergeParts(p: nat, a: nat, word: nat, b: nat, c: nat)
    requires p < a && word < b
    ensures (p * b + word) * c == p * (b * c) + word * c && p * b + word < a * b
  {
    W.Distribute(p * b, word, c);
    MulAssoc(p, b, c);
    MulMonotone(p + 1, a, b);
    W.Distribute(p, 1, b);
  }

  lemma UpperByte(buffer: nat, q: nat, low: nat)
    requires buffer == q * 0x10000 + low && low < 0x10000
    ensures buffer / 0x10000 == q && buffer * 256 % 0x1000000 == low * 256
  {
    QuotientUnique(buffer, 0x10000, q, low);
    QuotientUnique(buffer * 256, 0x1000000, q, low * 256);
  }

  lemma TakeByte(buffer: nat, q: nat, r: nat, m: nat, a: nat)
    requires m * a == 0x10000 && r < m && a > 0 && buffer == (q * m + r) * a && q * m + r < 256 * m
    ensures buffer / 0x10000 == q < 256 && buffer * 256 % 0x1000000 == r * (a * 256)
  {
    Parts(q, m, r, a);
    MulStrict(r, m, a);
    if q >= 256 { MulMonotone(256, q, m); }
    UpperByte(buffer, q, r * a);
    MulAssoc(r, a, 256);
  }

  lemma Powers(n: nat)
    requires 8 <= n <= 23
    ensures Pow2(n) == 256 * Pow2(n - 8) && Pow2(n - 8) * Pow2(24 - n) == 0x10000
    ensures Pow2(24 - (n - 8)) == Pow2(24 - n) * 256
  {
    Pow2Words();
    Pow2Small();
    Pow2Add(n - 8, 24 - n);
    Pow2Add(24 - n, 8);
    Pow2Plus8(n - 8);
  }

  /** The byte that leaves, and what stays. */
  lemma ByteOut(buffer: nat, p: nat, n: nat)
    requires Aligned(buffer, p, n) && n >= 8
    ensures buffer / 0x10000 == Shr(p, n - 8) < 256
    ensures Aligned(buffer * 256 % 0x1000000, p % Pow2(n - 8), n - 8)
    ensures BitsOf(p, n) == BitsOf(Shr(p, n - 8), 8) + BitsOf(p % Pow2(n - 8), n - 8)
  {
    hide Pow2, BitsOf, Shr;
    BitsSplit(p, n, 8);
    BitsModulo(p, n - 8, n - 8);
    Powers(n);
    TakeByte(buffer, Shr(p, n - 8), p % Pow2(n - 8), Pow2(n - 8), Pow2(24 - n));
  }

  lemma Parts(q: nat, m: nat, r: nat, a: nat)
    ensures (q * m + r) * a == q * (m * a) + r * a
  {
    W.Distribute(q * m, r, a);
    MulAssoc(q, m, a);
  }

  lemma AlignedSize(buffer: nat, p: nat, n: nat)
    requires Aligned(buffer, p, n)
    ensures n <= 23
  {
  }

  lemma NoneAligned()
    ensures Aligned(0, 0, 0)
  {
  }

  /** Of seven fill bits, those that are left in the buffer are not written. */
  lemma FillTaken(front: seq<bool>, out: seq<bool>, left: seq<bool>)
    requires out + left == front + W.Fill(7) && |left| <= 7
    ensures out == front + W.Fill(7 - |left|)
  {
    forall i | 0 <= i < |out|
      ensures out[i] == (front + W.Fill(7 - |left|))[i]
    {
      assert (out + left)[i] == (front + W.Fill(7))[i];
    }
  }

  class Writer {
    /** The right 24 bits of the buffer; those above are never used. */
    var putBuffer: nat
    var putBits: nat
    var out: seq<byte>
    ghost var pending: nat

    ghost predicate Valid()
      reads this
    {
      Aligned(putBuffer, pending, putBits) && putBits <= 7 && WellStuffed(out)
    }

    ghost function Written(): seq<bool>
      reads this
      requires WellStuffed(out)
    {
      AllBits(Unstuff(out)) + BitsOf(pending, putBits)
    }

    constructor ()
      ensures Valid() && Written() == [] && putBits == 0
    {
      putBuffer, putBits, out, pending := 0, 0, [], 0;
    }

    /** emit_bits: the low size bits of code; never more than seven bits stay behind. */
    method EmitBits(code: nat, size: nat)
      requires Valid() && 0 < size <= 16
      modifies this
      ensures Valid() && Written() == old(Written()) + BitsOf(code, size) && putBits == (old(putBits) + size) % 8
    {
      hide Pow2, WellStuffed, Unstuff, BitsOf, AllBits, Aligned, Shl, Low;
      AlignedSize(putBuffer, pending, putBits);
      var word := Low(code, size);
      Merge(putBuffer, pending, putBits, word, size);
      B.BitsAssoc(AllBits(Unstuff(out)), BitsOf(pending, putBits), BitsOf(word, size));
      pending := Shl(pending, size) + word;
      putBuffer := putBuffer + Shl(word, 24 - (putBits + size));
      putBits := putBits + size;
      EmitBytes();
    }

    /** Writes all whole bytes. */
    method EmitBytes()
      requires Aligned(putBuffer, pending, putBits) && putBits <= 23 && WellStuffed(out)
      modifies this
      ensures Valid() && Written() == old(Written()) && putBits == old(putBits) % 8
    {
      hide Pow2, WellStuffed, Unstuff, BitsOf, AllBits, Aligned;
      while putBits >= 8
        invariant Aligned(putBuffer, pending, putBits) && WellStuffed(out) && Written() == old(Written())
        invariant putBits <= 23 && putBits % 8 == old(putBits) % 8
        decreases putBits
      {
        EmitByte();
      }
    }

    /** The leftmost byte, with a zero stuffed after 0xFF. */
    method EmitByte()
      requires Aligned(putBuffer, pending, putBits) && putBits >= 8 && WellStuffed(out)
      modifies this
      ensures Aligned(putBuffer, pending, putBits) && putBits == old(putBits) - 8 && WellStuffed(out)
      ensures Written() == old(Written())
    {
      hide Pow2, WellStuffed, Unstuff, BitsOf, AllBits, Aligned;
      ByteOut(putBuffer, pending, putBits);
      var c: byte := putBuffer / 0x10000;
      ghost var bytes, rest := Unstuff(out), pending % Pow2(putBits - 8);
      UnstuffAppend(out, c);
      AllBitsAppend(bytes, c);
      B.BitsAssoc(AllBits(bytes), BitsOf(c, 8), BitsOf(rest, putBits - 8));
      out := out + [c];
      if c == 0xFF {
        out := out + [0];
      }
      assert out == old(out) + Stuffed(c);
      pending := rest;
      putBuffer := putBuffer * 256 % 0x1000000;
      putBits := putBits - 8;
    }

    /** flush_bits: completes the last byte with ones. */
    method FlushBits()
      requires Valid()
      modifies this
      ensures Valid() && putBits == 0 && Written() == old(Written()) + W.Fill(W.FillBits(old(putBits)))
    {
      hide Pow2, WellStuffed, Unstuff, BitsOf, AllBits, Aligned;
      ghost var front, n := Written(), putBits;
      EmitBits(0x7F, 7);
      W.FillOnes(7);
      assert BitsOf(0x7F, 7) == W.Fill(7);
      FillTaken(front, AllBits(Unstuff(out)), BitsOf(pending, putBits));
      W.NoBits(0);
      NoneAligned();
      putBuffer, putBits, pending := 0, 0, 0;
      assert AllBits(Unstuff(out)) + [] == AllBits(Unstuff(out));
    }

    /** A symbol or raw bits; an error if the symbol has no code. */
    method EmitItem(e: EncoderTable, i: Item) returns (ok: bool)
      requires Valid() && |e.ehufsi| == |e.ehufco| == 256 && (forall s :: 0 <= s < 256 ==> e.ehufsi[s] <= 16)
      requires match i case Sym(s) => s < 256 case Raw(n, x) => 0 < n <= 16
      modifies this
      ensures Valid() && (ok <==> Coded1(e, i)) && (ok ==> Written() == old(Written()) + ItemBits(e, i))
    {
      hide Pow2, WellStuffed, Unstuff, BitsOf, AllBits, Aligned;
      match i
      case Sym(s) =>
        ok := e.ehufsi[s] != 0;
        if ok { EmitBits(e.ehufco[s], e.ehufsi[s]); }
      case Raw(n, x) =>
        ok := true;
        EmitBits(x, n);
    }
  }
}
