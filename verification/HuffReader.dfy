/** The Huffman decoder's bit buffer, and the decoding of one symbol: through the lookahead table,
    bit by bit, and in the unrolled form that skips the checks for markers. */
module HuffReader {
  import opened Bits
  import opened HuffTable
  import opened HuffBits
  import opened HuffDerive
  import opened Restart
  import D = QmDecoder

  const MIN_GET_BITS: nat := 57
  const HUFF_LOOKAHEAD: nat := 8

  // ----- The data bytes up to the next marker -----

  /** All data bytes before the next marker, stuffed zeros removed. */
  function DataOf(s: D.Source): seq<byte>
    decreases |s.input|
  {
    if s.marker != 0 then []
    else
      var (b, t) := D.NextData(s);
      if t.marker != 0 then [] else NextShrinks(s); [b] + DataOf(t)
  }

  lemma FirstBits(b: byte, rest: seq<byte>)
    ensures AllBits([b] + rest) == BitsOf(b, 8) + AllBits(rest)
  {
    assert [b][..0] == [];
    AllBitsConcat([b], rest);
    assert AllBits([b]) == BitsOf(b, 8);
  }

  // ----- Consuming bits -----

  /** What is left of stream s after n bits were taken: exactly the rest if there were that many,
      and zeros after its end otherwise, with a warning. */
  ghost predicate Taken(s: seq<bool>, n: nat, rest: seq<bool>, before: bool, after: bool) {
    && Same(rest, Drop(s, n))
    && (n <= |s| ==> rest == s[n..] && after == before)
    && (n > |s| ==> after)
    && (before ==> after)
  }

  lemma TakenTwice(s: seq<bool>, m: nat, r: seq<bool>, n: nat, q: seq<bool>, w0: bool, w1: bool, w2: bool)
    requires Taken(s, m, r, w0, w1) && Taken(r, n, q, w1, w2)
    ensures Taken(s, m + n, q, w0, w2)
  {
    SameDrop(r, Drop(s, m), n);
    DropDrop(s, m, n);
  }

  // ----- One symbol -----

  /** Length and value of a decoded symbol; length 17 means that the bits start with no code. */
  datatype Decoded = Decoded(len: nat, sym: nat)

  /** Bit-by-bit decoding of the symbol at the front of s. */
  function DecodeSymbol(t: Table, s: seq<bool>): (r: Decoded)
    requires t.Shape() && UpTo(t.bits, 16) <= 256
    ensures 0 < r.len <= 17 && r.sym < 256
  {
    var l := CodeLength(t.bits, s, 1);
    if l == 17 then Decoded(17, 0)
    else
      DecodeFinds(t.bits, s);
      Decoded(l, SymbolAt(t, Symbol(l, Peek(s, l) - First(t.bits, l))))
  }

  /** The lookahead entry agrees with bit-by-bit decoding, whatever the next bits are. */
  lemma LookaheadRefines(t: Table, lookup: seq<nat>, s: seq<bool>)
    requires t.Shape() && UpTo(t.bits, 16) <= 256 && |lookup| == 256 && LookupOk(t, lookup)
    ensures Peek(s, 8) < 256
    ensures var e, r := lookup[Peek(s, 8)], DecodeSymbol(t, s);
      if e / 256 <= 8 then r == Decoded(e / 256, e % 256)
      else e / 256 == 9 && r.len > 8 && CodeLength(t.bits, s, 9) == r.len
  {
    hide Pow2, Peek, LookupOk, UpTo, CodeLength, DecodeSymbol;
    PeekBound(s, 8);
    Pow2Eight();
    if CodeLength(t.bits, s, 1) <= 8 {
      ShortCode(t, lookup, s);
      var r := DecodeSymbol(t, s);
      QuotientUnique(lookup[Peek(s, 8)], 256, r.len, r.sym);
    } else { LongCode(t, lookup, s); }
  }

  lemma ShortCode(t: Table, lookup: seq<nat>, s: seq<bool>)
    requires t.Shape() && UpTo(t.bits, 16) <= 256 && |lookup| == 256 && LookupOk(t, lookup)
    requires CodeLength(t.bits, s, 1) <= 8 && Peek(s, 8) < 256
    ensures lookup[Peek(s, 8)] == 256 * DecodeSymbol(t, s).len + DecodeSymbol(t, s).sym && DecodeSymbol(t, s).len <= 8
  {
    hide Pow2, Peek, UpTo, SymbolAt, LookupOk, Covers, End;
    var l := CodeLength(t.bits, s, 1);
    DecodeFinds(t.bits, s);
    var c := Symbol(l, Peek(s, l) - First(t.bits, l));
    CoversPeek(t.bits, c, s);
    LookupOf(t, lookup, c, Peek(s, 8));
  }

  lemma CoversPeek(bits: seq<nat>, c: Symbol, s: seq<bool>)
    requires |bits| == 17 && HasCode(bits, c) && c.l <= 8 && Peek(s, c.l) == CodeOf(bits, c)
    ensures Covers(bits, c, Peek(s, 8))
  {
    hide Pow2, Peek, End;
    PeekPrefix(s, c.l, 8);
  }

  lemma LookupOf(t: Table, lookup: seq<nat>, c: Symbol, w: nat)
    requires t.Shape() && UpTo(t.bits, 16) <= 256 && |lookup| == 256 && LookupOk(t, lookup) && w < 256
    requires HasCode(t.bits, c) && c.l <= 8 && Covers(t.bits, c, w)
    ensures lookup[w] == 256 * c.l + SymbolAt(t, c)
  {
    hide Covers, UpTo, SymbolAt, End;
  }

  lemma LongCode(t: Table, lookup: seq<nat>, s: seq<bool>)
    requires t.Shape() && UpTo(t.bits, 16) <= 256 && |lookup| == 256 && LookupOk(t, lookup)
    requires CodeLength(t.bits, s, 1) > 8 && Peek(s, 8) < 256
    ensures lookup[Peek(s, 8)] == 256 * 9 && CodeLength(t.bits, s, 9) == DecodeSymbol(t, s).len > 8
  {
    hide Pow2, Peek, UpTo, SymbolAt;
    forall c | HasCode(t.bits, c) && c.l <= 8 ensures !Covers(t.bits, c, Peek(s, 8)) {
      PeekPrefix(s, c.l, 8);
      DecodeExact(t.bits, s, c);
    }
    SkipShort(t.bits, s, 1, 9);
  }

  lemma {:induction false} SkipShort(bits: seq<nat>, s: seq<bool>, l: nat, k: nat)
    requires |bits| == 17 && 0 < l <= k && l <= 17 && k <= CodeLength(bits, s, l)
    ensures k <= 17 && CodeLength(bits, s, k) == CodeLength(bits, s, l)
    decreases k - l
  {
    if l < k { SkipShort(bits, s, l + 1, k); }
  }

  /** A stream that starts with a code is decoded to its symbol, and to its length. */
  lemma DecodeCode(t: Table, c: Symbol, rest: seq<bool>)
    requires t.Shape() && UpTo(t.bits, 16) <= 256 && Fits(t.bits) && HasCode(t.bits, c)
    ensures DecodeSymbol(t, BitsOf(CodeOf(t.bits, c), c.l) + rest) == Decoded(c.l, SymbolAt(t, c))
  {
    var s := BitsOf(CodeOf(t.bits, c), c.l) + rest;
    NoAllOnes(t.bits, c);
    PeekBits(CodeOf(t.bits, c), c.l, rest);
    hide UpTo, BitsOf, Peek, Pow2;
    SmallModulo(CodeOf(t.bits, c), Pow2(c.l));
    DecodeExact(t.bits, s, c);
  }

  lemma SmallModulo(x: nat, p: nat)
    requires x < p
    ensures x % p == x
  {
  }

  lemma DecodeSame(t: Table, s: seq<bool>, u: seq<bool>)
    requires t.Shape() && UpTo(t.bits, 16) <= 256 && Same(s, u)
    ensures DecodeSymbol(t, s) == DecodeSymbol(t, u)
  {
    hide Peek, End, UpTo, SymbolAt, CodeLength, Same;
    CodeLengthSame(t.bits, s, u, 1);
    PeekSame(s, u, CodeLength(t.bits, s, 1));
  }

  class BitReader {
    var getBuffer: nat
    var bitsLeft: nat
    var input: seq<byte>
    var unreadMarker: byte
    var insufficientData: bool

    ghost predicate Valid()
      reads this
    {
      getBuffer < Pow2(64) && bitsLeft <= 64
    }

    /** The bits still to come, up to the next marker. */
    ghost function Stream(): seq<bool>
      reads this
    {
      BitsOf(getBuffer, bitsLeft) + AllBits(DataOf(D.Source(input, unreadMarker)))
    }

    /** The next marker, and what follows it. */
    ghost function Ahead(): D.Source
      reads this`input, this`unreadMarker
    {
      MarkerAhead(D.Source(input, unreadMarker))
    }

    constructor (data: seq<byte>)
      ensures Ahead() == MarkerAhead(D.Source(data, 0))
      ensures Valid() && Stream() == AllBits(DataOf(D.Source(data, 0))) && !insufficientData
    {
      hide Pow2;
      getBuffer, bitsLeft, input, unreadMarker, insufficientData := 0, 0, data, 0, false;
    }

    /** Reads one byte; at the end of the data the source supplies an EOI marker. */
    method GetByte() returns (data: byte)
      modifies this`input
      ensures data == D.GetByte(old(input)).0 && input == D.GetByte(old(input)).1
    {
      if |input| == 0 {
        input := [0xFF, 0xD9];
        assert input[1..] == [0xD9];
      }
      data := input[0];
      input := input[1..];
      assert D.GetByte(old(input)).1 == input;
    }

    /** Reads one data byte, or stops at a marker. */
    method ReadData() returns (data: byte)
      requires unreadMarker == 0
      modifies this`input, this`unreadMarker
      ensures data == D.NextData(old(D.Source(input, unreadMarker))).0
      ensures D.Source(input, unreadMarker) == D.NextData(old(D.Source(input, unreadMarker))).1
    {
      data := GetByte();
      if data == 0xFF {
        ghost var s := input;
        data := GetByte();
        while data == 0xFF
          invariant unreadMarker == 0
          invariant D.SkipFill(s) == if data == 0xFF then D.SkipFill(input) else (data, input)
          decreases if data != 0xFF then 0 else if |input| > 0 && input[0] != 0xFF then 1 else |input| + 2
        {
          data := GetByte();
        }
        if data == 0 {
          data := 0xFF;
        } else {
          unreadMarker := data;
          data := 0;
        }
      }
    }

    /** Loads the buffer as far as the data goes; pads it with zeros if even so it holds too little. */
    method FillBitBuffer(nbits: nat)
      requires Valid() && nbits <= MIN_GET_BITS
      modifies this
      ensures Valid() && bitsLeft >= nbits
      ensures Same(Stream(), old(Stream()))
      ensures |old(Stream())| >= nbits ==> Stream() == old(Stream()) && insufficientData == old(insufficientData)
      ensures |old(Stream())| < nbits ==> insufficientData
      ensures old(insufficientData) ==> insufficientData
      ensures Ahead() == old(Ahead())
      ensures bitsLeft < MIN_GET_BITS ==> unreadMarker != 0
    {
      hide Pow2, BitsOf, AllBits, Peek, MarkerAhead;
      LoadBytes();
      if bitsLeft < nbits {
        insufficientData := true;
        PadZeros(getBuffer, bitsLeft, MIN_GET_BITS - bitsLeft);
        getBuffer := getBuffer * Pow2(MIN_GET_BITS - bitsLeft) % Pow2(64);
        bitsLeft := MIN_GET_BITS;
      }
    }

    /** Reads bytes until at least 57 bits are in the buffer or a marker is met. */
    method LoadBytes()
      requires Valid()
      modifies this
      ensures Valid() && insufficientData == old(insufficientData)
      ensures Stream() == old(Stream()) && Ahead() == old(Ahead())
      ensures bitsLeft >= old(bitsLeft)
      ensures bitsLeft < MIN_GET_BITS ==> unreadMarker != 0
      ensures unreadMarker != 0 ==> Stream() == BitsOf(getBuffer, bitsLeft)
    {
      hide Pow2, BitsOf, AllBits;
      AllBitsEmpty();
      while bitsLeft < MIN_GET_BITS && unreadMarker == 0
        invariant Valid() && insufficientData == old(insufficientData) && bitsLeft >= old(bitsLeft)
        invariant Stream() == old(Stream()) && Ahead() == old(Ahead())
        decreases MIN_GET_BITS - bitsLeft, unreadMarker == 0
      {
        ghost var before, src := BitsOf(getBuffer, bitsLeft), D.Source(input, unreadMarker);
        var c := ReadData();
        if unreadMarker == 0 {
          ghost var rest := DataOf(D.Source(input, unreadMarker));
          assert DataOf(src) == [c] + rest;
          FirstBits(c, rest);
          ShiftIn(getBuffer, bitsLeft, c);
          assert before + (BitsOf(c, 8) + AllBits(rest)) == before + BitsOf(c, 8) + AllBits(rest);
          getBuffer := (getBuffer * 256 + c) % Pow2(64);
          bitsLeft := bitsLeft + 8;
        } else {
          assert DataOf(src) == [];
        }
      }
    }

    /** CHECK_BIT_BUFFER: at least n bits in the buffer. */
    method CheckBitBuffer(n: nat)
      requires Valid() && n <= MIN_GET_BITS
      modifies this
      ensures Valid() && bitsLeft >= n
      ensures Same(Stream(), old(Stream()))
      ensures |old(Stream())| >= n ==> Stream() == old(Stream()) && insufficientData == old(insufficientData)
      ensures |old(Stream())| < n ==> insufficientData
      ensures old(insufficientData) ==> insufficientData
      ensures Ahead() == old(Ahead())
    {
      if bitsLeft < n {
        FillBitBuffer(n);
      }
    }

    /** PEEK_BITS: the next n bits, left in the buffer. */
    method PeekBits(n: nat) returns (r: nat)
      requires Valid() && n <= bitsLeft
      ensures r == Peek(Stream(), n)
    {
      hide Pow2, BitsOf, AllBits, Peek;
      r := Shr(getBuffer, bitsLeft - n) % Pow2(n);
      BitsSplit(getBuffer, bitsLeft, n);
      ghost var rest := BitsOf(getBuffer, bitsLeft - n) + AllBits(DataOf(D.Source(input, unreadMarker)));
      assert Stream() == BitsOf(Shr(getBuffer, bitsLeft - n), n) + rest;
      HuffBits.PeekBits(Shr(getBuffer, bitsLeft - n), n, rest);
    }

    /** DROP_BITS: n bits of the buffer are done with. */
    method DropBits(n: nat)
      requires Valid() && n <= bitsLeft
      modifies this`bitsLeft
      ensures Valid() && bitsLeft == old(bitsLeft) - n
      ensures n <= |old(Stream())| && Stream() == old(Stream())[n..]
    {
      hide Pow2, BitsOf, AllBits;
      BitsSplit(getBuffer, bitsLeft, n);
      bitsLeft := bitsLeft - n;
    }

    /** GET_BITS: the next n bits, removed from the buffer. */
    method GetBits(n: nat) returns (r: nat)
      requires Valid() && n <= bitsLeft
      modifies this`bitsLeft
      ensures Valid() && bitsLeft == old(bitsLeft) - n
      ensures r == Peek(old(Stream()), n) && n <= |old(Stream())| && Stream() == old(Stream())[n..]
    {
      r := PeekBits(n);
      DropBits(n);
    }

    /** Checks for and removes n bits. */
    method TakeBits(n: nat) returns (r: nat)
      requires Valid() && n <= MIN_GET_BITS
      modifies this
      ensures Valid()
      ensures r == Peek(old(Stream()), n)
      ensures Taken(old(Stream()), n, Stream(), old(insufficientData), insufficientData)
      ensures Ahead() == old(Ahead())
    {
      hide Peek;
      CheckBitBuffer(n);
      PeekSame(old(Stream()), Stream(), n);
      SameDrop(Stream(), old(Stream()), n);
      r := GetBits(n);
    }
  
    /** jpeg_huff_decode: starts with the first minBits bits and adds one bit at a time. */
    method HuffDecodeSlow(ghost t: Table, d: DecoderTable, minBits: nat) returns (sym: nat)
      requires Valid() && Decodes(d, t) && 0 < minBits <= 16
      requires CodeLength(t.bits, Stream(), minBits) == CodeLength(t.bits, Stream(), 1)
      modifies this
      ensures Valid()
      ensures sym == DecodeSymbol(t, old(Stream())).sym
      ensures Taken(old(Stream()), DecodeSymbol(t, old(Stream())).len, Stream(), old(insufficientData),
        insufficientData)
      ensures Ahead() == old(Ahead())
    {
      hide Pow2, Peek, UpTo, End, LookupOk, CodeLength, MaxCode, Taken, SymbolAt, DecodeSymbol, BitsOf, AllBits, DataOf,
        MarkerAhead;
      ghost var s, w := Stream(), insufficientData;
      var l := minBits;
      var code := TakeBits(l);
      CodeLengthStep(t.bits, s, l);
      while code > d.maxcode[l]
        invariant Valid() && 0 < l <= 17 && code == Peek(s, l)
        invariant Taken(s, l, Stream(), w, insufficientData) && Ahead() == old(Ahead())
        invariant CodeLength(t.bits, s, l) == CodeLength(t.bits, s, 1)
        decreases 17 - l
      {
        CodeLengthStep(t.bits, s, l);
        ghost var r, w1 := Stream(), insufficientData;
        var b := TakeBits(1);
        TakenPeek(s, l, r, w, w1);
        TakenTwice(s, l, r, 1, Stream(), w, w1, insufficientData);
        code := 2 * code + b;
        l := l + 1;
      }
      CodeLengthStep(t.bits, s, l);
      DecodedLength(t, s);
      if l > 16 {
        return 0;
      }
      DecodedSymbol(t, d, s, l, code);
      sym := d.huffval[code + d.valoffset[l]];
    }

    /** HUFF_DECODE: one lookup if eight bits are at hand and the code is short enough. */
    method HuffDecode(ghost t: Table, d: DecoderTable) returns (sym: nat)
      requires Valid() && Decodes(d, t)
      modifies this
      ensures Valid()
      ensures sym == DecodeSymbol(t, old(Stream())).sym
      ensures Taken(old(Stream()), DecodeSymbol(t, old(Stream())).len, Stream(), old(insufficientData),
        insufficientData)
      ensures Ahead() == old(Ahead())
    {
      hide Pow2, Peek, UpTo, End, LookupOk, DecodeSymbol, CodeLength, MarkerAhead;
      if bitsLeft < HUFF_LOOKAHEAD {
        FillBitBuffer(0);
        if bitsLeft < HUFF_LOOKAHEAD {
          sym := HuffDecodeSlow(t, d, 1);
          return;
        }
      }
      LookaheadRefines(t, d.lookup, Stream());
      DecodedLength(t, Stream());
      var look := PeekBits(HUFF_LOOKAHEAD);
      var nb := d.lookup[look] / 256;
      if nb <= HUFF_LOOKAHEAD {
        DropBits(nb);
        sym := d.lookup[look] % 256;
      } else {
        sym := HuffDecodeSlow(t, d, nb);
      }
    }

    /** process_restart: drops the rest of the buffer and starts afresh after the marker. */
    method ProcessRestart(num: nat) returns (ok: bool)
      requires Valid() && num < 8
      modifies this
      ensures ok <==> old(Ahead()).marker == RST0 + num
      ensures ok ==> Valid() && !insufficientData
      ensures ok ==> Stream() == AllBits(DataOf(D.Source(old(Ahead()).input, 0)))
      ensures ok ==> Ahead() == MarkerAhead(D.Source(old(Ahead()).input, 0))
    {
      hide MarkerAhead, DataOf, AllBits, Pow2;
      bitsLeft := 0;
      ok, input, unreadMarker := ReadRestartMarker(input, unreadMarker, RST0 + num);
      if ok {
        insufficientData := false;
      }
    }

    /** GET_BYTE of the fast path: no check for the end of the data, and a marker is only noted. */
    method GetByteFast()
      requires Valid() && |input| >= 2 && bitsLeft <= 56
      modifies this`getBuffer, this`bitsLeft, this`input, this`unreadMarker
      ensures Valid() && bitsLeft == old(bitsLeft) + 8 && |input| >= old(|input|) - 2
      ensures unreadMarker == 0 ==> old(unreadMarker) == 0 && Stream() == old(Stream())
    {
      hide Pow2, BitsOf, AllBits;
      ghost var before, src := BitsOf(getBuffer, bitsLeft), D.Source(input, unreadMarker);
      var start := input;
      var c0 := input[0];
      input := input[1..];
      var c1 := input[0];
      ghost var x, n := getBuffer, bitsLeft;
      getBuffer := (getBuffer * 256 + c0) % Pow2(64);
      bitsLeft := bitsLeft + 8;
      if c0 == 0xFF {
        input := input[1..];
        if c1 != 0 {
          unreadMarker := c1;
          input := start;
          getBuffer := getBuffer - getBuffer % 256;
        }
      }
      if unreadMarker == 0 {
        ghost var rest := DataOf(D.Source(input, unreadMarker));
        assert D.SkipFill(start[1..]) == if c1 == 0xFF then D.SkipFill(start[1..][1..]) else (c1, start[1..][1..]);
        assert DataOf(src) == [c0] + rest;
        FirstBits(c0, rest);
        ShiftIn(x, n, c0);
        assert before + (BitsOf(c0, 8) + AllBits(rest)) == before + BitsOf(c0, 8) + AllBits(rest);
      }
    }

    /** FILL_BIT_BUFFER_FAST: six bytes at once when there is room. */
    method FillBitBufferFast()
      requires Valid() && |input| >= 12
      modifies this`getBuffer, this`bitsLeft, this`input, this`unreadMarker
      ensures Valid() && bitsLeft > 16 && |input| >= old(|input|) - 12
      ensures unreadMarker == 0 ==> old(unreadMarker) == 0 && Stream() == old(Stream())
    {
      hide Pow2, BitsOf, AllBits;
      if bitsLeft <= 16 {
        GetByteFast(); GetByteFast(); GetByteFast(); GetByteFast(); GetByteFast(); GetByteFast();
      }
    }

    /** HUFF_DECODE_FAST: unless a marker turned up on the way, it decodes every stream that starts
        with a code to the same symbol; other streams give an arbitrary symbol of the table. */
    method HuffDecodeFast(ghost t: Table, d: DecoderTable) returns (sym: nat)
      requires Valid() && Decodes(d, t) && |input| >= 12
      modifies this`getBuffer, this`bitsLeft, this`input, this`unreadMarker
      ensures Valid() && |input| >= old(|input|) - 12
      ensures unreadMarker == 0 ==>
        var r := DecodeSymbol(t, old(Stream()));
        && r.len <= |old(Stream())| && Stream() == old(Stream())[r.len..]
        && sym == if r.len <= 16 then r.sym else t.vals[Peek(old(Stream()), 17) % 256]
    {
      hide Pow2, Peek, UpTo, End, LookupOk, CodeLength, MaxCode, SymbolAt, BitsOf, DecodeSymbol, AllBits, DataOf;
      FillBitBufferFast();
      ghost var s := Stream();
      LookaheadRefines(t, d.lookup, s);
      DecodedLength(t, s);
      var look := PeekBits(HUFF_LOOKAHEAD);
      var nb := d.lookup[look] / 256;
      sym := d.lookup[look] % 256;
      var code := PeekBits(nb);
      DropBits(nb);
      if nb > HUFF_LOOKAHEAD {
        ghost var left, m := bitsLeft + nb, unreadMarker;
        while code > d.maxcode[nb]
          invariant Valid() && 9 <= nb <= 17 && code == Peek(s, nb) && nb <= |s| && Stream() == s[nb..]
          invariant bitsLeft == left - nb && unreadMarker == m && |input| >= old(|input|) - 12
          invariant CodeLength(t.bits, s, nb) == CodeLength(t.bits, s, 1)
          decreases 17 - nb
        {
          CodeLengthStep(t.bits, s, nb);
          NextPeek(s, nb, s[nb..]);
          var b := GetBits(1);
          code := 2 * code + b;
          nb := nb + 1;
        }
        CodeLengthStep(t.bits, s, nb);
        if nb <= 16 {
          DecodedSymbol(t, d, s, nb, code);
        }
        sym := d.huffval[(code + d.valoffset[nb]) % 256];
      }
    }
  }

  lemma AllBitsEmpty()
    ensures AllBits([]) == []
  {
  }

  lemma ShiftIn(x: nat, n: nat, c: byte)
    requires n + 8 <= 64
    ensures BitsOf((x * 256 + c) % Pow2(64), n + 8) == BitsOf(x, n) + BitsOf(c, 8)
  {
    Pow2Eight();
    hide Pow2, BitsOf;
    BitsAppend(x, n, c, 8);
    BitsModulo(x * 256 + c, 64, n + 8);
  }

  /** Shifting zeros in does not change the bits read as a stream. */
  lemma PadZeros(x: nat, n: nat, k: nat)
    requires n + k <= 64
    ensures Same(BitsOf(x * Pow2(k) % Pow2(64), n + k), BitsOf(x, n))
  {
    BitsAppend(x, n, 0, k);
    BitsModulo(x * Pow2(k), 64, n + k);
    ZeroBits(k);
  }

  lemma {:induction false} ZeroBits(k: nat)
    ensures forall i :: 0 <= i < k ==> !BitsOf(0, k)[i]
  {
    if k > 0 { ZeroBits(k - 1); }
  }

  lemma CodeLengthStep(bits: seq<nat>, s: seq<bool>, l: nat)
    requires |bits| == 17 && 0 < l <= 17
    ensures l <= 16 && Peek(s, l) > MaxCode(bits, l) ==> CodeLength(bits, s, l) == CodeLength(bits, s, l + 1)
    ensures l <= 16 && Peek(s, l) <= MaxCode(bits, l) ==> CodeLength(bits, s, l) == l
    ensures CodeLength(bits, s, 17) == 17 && Peek(s, 17) <= 0xFFFFF
  {
    PeekBound(s, 17);
    Pow2Words();
    assert Pow2(17) == 2 * Pow2(16);
  }

  lemma NextPeek(s: seq<bool>, l: nat, r: seq<bool>)
    requires Same(r, Drop(s, l))
    ensures Peek(s, l + 1) == 2 * Peek(s, l) + Peek(r, 1)
  {
    assert Bit(r, 0) == Bit(Drop(s, l), 0) == Bit(s, l);
    assert Peek(r, 1) == 2 * Peek(r, 0) + if Bit(r, 0) then 1 else 0;
  }

  lemma TakenPeek(s: seq<bool>, l: nat, r: seq<bool>, w: bool, w1: bool)
    requires Taken(s, l, r, w, w1)
    ensures Peek(s, l + 1) == 2 * Peek(s, l) + Peek(r, 1)
  {
    NextPeek(s, l, r);
  }

  /** Where the symbol of a code is found. */
  lemma SymbolIndex(t: Table, d: DecoderTable, c: Symbol)
    requires Decodes(d, t) && HasCode(t.bits, c)
    ensures 0 <= CodeOf(t.bits, c) + d.valoffset[c.l] < 256
    ensures d.huffval[CodeOf(t.bits, c) + d.valoffset[c.l]] == SymbolAt(t, c)
  {
    hide LookupOk, UpTo, End, MaxCode;
    IndexInRange(t.bits, c, 16);
  }

  lemma DecodedSymbol(t: Table, d: DecoderTable, s: seq<bool>, l: nat, code: nat)
    requires Decodes(d, t) && l == CodeLength(t.bits, s, 1) <= 16 && code == Peek(s, l)
    ensures 0 <= code + d.valoffset[l] < 256 && d.huffval[code + d.valoffset[l]] == DecodeSymbol(t, s).sym
  {
    hide LookupOk, UpTo, End, MaxCode, Peek;
    DecodeFinds(t.bits, s);
    SymbolIndex(t, d, Symbol(l, code - First(t.bits, l)));
  }

  lemma DecodedLength(t: Table, s: seq<bool>)
    requires t.Shape() && UpTo(t.bits, 16) <= 256
    ensures DecodeSymbol(t, s).len == CodeLength(t.bits, s, 1)
    ensures DecodeSymbol(t, s).len == 17 ==> DecodeSymbol(t, s).sym == 0
  {
  }
}
