/** What an AC scan of progressive Huffman coding writes, a decoder reads back: every block refined,
    every correction bit at its coefficient, every run of finished blocks at its blocks. */
module ProgMeaning {
  import opened Bits
  import opened Coefficients
  import opened ProgItems
  import H = HuffBlock

  lemma NewFields(r: nat, v: int)
    requires r <= 15 && v != 0 && NBits(Abs(v)) <= 15
    ensures var n := NBits(Abs(v)); var s := NewItems(r, v);
      n > 0 && s == [Sym(16 * r + n), Raw(n, s[1].x)] && (16 * r + n) / 16 == r && (16 * r + n) % 16 == n &&
        H.Extend(s[1].x, n) == v
  {
    H.ExtraExtend(v, NBits(Abs(v)));
  }

  /** A symbol with a new coefficient, after a run with its correction bits. */
  lemma SymbolReads(h: Band, v: Band, d: nat, k: nat, r: nat, bits: seq<nat>, rest: seq<Item>)
    requires Refines(h, v) && Between(h, v, d, k, r, bits) && k < |v| && New(h, v, k) && r <= 15
    ensures ReadBlock(NewItems(r, v[k]) + Corrections(bits) + rest, h, v[..d]) == ReadBlock(rest, h, v[..k + 1])
  {
    hide NewItems, Between, ReadRun, Corrections;
    NewFields(r, v[k]);
    var s := NewItems(r, v[k]) + Corrections(bits) + rest;
    assert s[0] == NewItems(r, v[k])[0] && s[1] == NewItems(r, v[k])[1] && s[2..] == Corrections(bits) + rest;
    RunReads(h, v, d, k, r, bits, rest);
    BetweenBounds(h, v, d, k, r, bits);
    assert v[..k] + [v[k]] == v[..k + 1];
  }

  lemma BetweenBounds(h: Band, v: Band, d: nat, k: nat, r: nat, bits: seq<nat>)
    requires |h| == |v| && Between(h, v, d, k, r, bits)
    ensures d <= k <= |v| && (d == k <==> r == 0 && bits == [])
  {
  }

  /** Sixteen zeros, with the correction bits among them. */
  lemma ZrlReads(h: Band, v: Band, d: nat, m: nat, bits: seq<nat>, rest: seq<Item>)
    requires Refines(h, v) && Between(h, v, d, m, 15, bits) && m < |v| && v[m] == 0 && h[m] == 0
    ensures ReadBlock([Sym(0xF0)] + Corrections(bits) + rest, h, v[..d]) == ReadBlock(rest, h, v[..m + 1])
  {
    hide Between, ReadRun, Corrections;
    var s := [Sym(0xF0)] + Corrections(bits) + rest;
    assert s[0] == Sym(0xF0) && s[1..] == Corrections(bits) + rest;
    RunReads(h, v, d, m, 15, bits, rest);
    BetweenBounds(h, v, d, m, 15, bits);
    assert v[..m] + [0] == v[..m + 1];
  }

  /** Before the last new coefficient, no correction bit is held back after the sixteenth zero. */
  ghost predicate Settled(h: Band, v: Band, k: nat, r: nat)
    requires |h| == |v|
  {
    k <= LastNew(h, v, |v|) && r > 15 ==> r - 15 <= k && forall j :: 0 <= j < |v| && k - (r - 15) <= j < k ==> v[j] == 0
  }

  lemma ItemsAssoc(a: seq<Item>, b: seq<Item>, c: seq<Item>)
    ensures (a + b) + c == a + (b + c)
  {
  }

  /** Reading what was written for the coefficients from k on leads to the position e after the last
      symbol; from there on nothing is new. */
  lemma {:induction false} CodeReads(h: Band, v: Band, d: nat, k: nat, r: nat, bits: seq<nat>, rest: seq<Item>)
    returns (e: nat)
    requires Refines(h, v) && Between(h, v, d, k, r, bits) && k <= |v| && Settled(h, v, k, r)
    ensures var c := Code(h, v, k, r, bits);
      && Between(h, v, e, |v|, c.run, c.bits) && d <= e <= |v|
      && ReadBlock(c.items + rest, h, v[..d]) == ReadBlock(rest, h, v[..e])
      && (c.items == [] ==> e == d)
    decreases |v| - k, r
  {
    hide Corrections, ReadBlock, NewItems, Between, H.Extra;
    BetweenBounds(h, v, d, k, r, bits);
    if k == |v| {
      e := d;
      assert [] + rest == rest;
    } else if v[k] == 0 {
      OneMore(h, v, d, k, r, bits);
      e := CodeReads(h, v, d, k + 1, r + 1, bits, rest);
    } else if r > 15 && k <= LastNew(h, v, |v|) {
      e := ZrlStep(h, v, d, k, r, bits, rest);
    } else if h[k] != 0 {
      OneMore(h, v, d, k, r, bits);
      e := CodeReads(h, v, d, k + 1, r, bits + [Abs(v[k]) % 2], rest);
    } else {
      assert New(h, v, k);
      var c := Code(h, v, k + 1, 0, []);
      BetweenNone(h, v, k + 1);
      e := CodeReads(h, v, k + 1, k + 1, 0, [], rest);
      ItemsAssoc(NewItems(r, v[k]) + Corrections(bits), c.items, rest);
      SymbolReads(h, v, d, k, r, bits, c.items + rest);
      NewNonempty(r, v[k]);
    }
  }

  lemma NewNonempty(r: nat, v: int)
    ensures NewItems(r, v) != []
  {
  }

  lemma BetweenNone(h: Band, v: Band, k: nat)
    requires |h| == |v| && k <= |v|
    ensures Between(h, v, k, k, 0, [])
  {
  }

  lemma {:induction false} ZrlStep(h: Band, v: Band, d: nat, k: nat, r: nat, bits: seq<nat>, rest: seq<Item>)
    returns (e: nat)
    requires Refines(h, v) && Between(h, v, d, k, r, bits) && k < |v| && Settled(h, v, k, r)
    requires v[k] != 0 && r > 15 && k <= LastNew(h, v, |v|)
    ensures var c := Code(h, v, k, r, bits);
      && Between(h, v, e, |v|, c.run, c.bits) && d <= e <= |v|
      && ReadBlock(c.items + rest, h, v[..d]) == ReadBlock(rest, h, v[..e])
      && c.items != []
    decreases |v| - k, r, 0
  {
    hide Corrections, ReadBlock;
    var m := k - (r - 15);
    BetweenBounds(h, v, d, k, r, bits);
    EnoughRoom(h, v, d, m, k, r, bits);
    ZerosLast(h, v, d, m, k, r, bits);
    ZerosLast(h, v, m, m + 1, k, k - m, []);
    var c := Code(h, v, k, r - 16, []);
    e := CodeReads(h, v, m + 1, k, r - 16, [], rest);
    ItemsAssoc([Sym(0xF0)] + Corrections(bits), c.items, rest);
    ZrlReads(h, v, d, m, bits, c.items + rest);
  }

  lemma {:induction false} EnoughRoom(h: Band, v: Band, d: nat, m: nat, k: nat, r: nat, bits: seq<nat>)
    requires |h| == |v| && Between(h, v, d, k, r, bits) && m <= k && k - m <= r
    requires forall j :: m <= j < k ==> v[j] == 0
    ensures d <= m && (m < k ==> h[m] == 0)
    decreases k
  {
    if m < k { EnoughRoom(h, v, d, m, k - 1, r - 1, bits); }
  }

  // ----- One block -----

  lemma {:induction false} BetweenSize(h: Band, v: Band, d: nat, k: nat, r: nat, bits: seq<nat>)
    requires |h| == |v| && Between(h, v, d, k, r, bits)
    ensures r + |bits| == k - d
    decreases k
  {
    if d < k {
      if v[k - 1] == 0 {
        BetweenSize(h, v, d, k - 1, r - 1, bits);
      } else {
        BetweenSize(h, v, d, k - 1, r, bits[..|bits| - 1]);
      }
    }
  }

  lemma EobFields(run: nat)
    requires 1 <= run <= MAX_RUN
    ensures var n := NBits(run) - 1; var s := EobItems(run);
      && n < 15 && s[0] == Sym(16 * n) && (16 * n) / 16 == n && (16 * n) % 16 == 0
      && (n == 0 ==> run == 1 && |s| == 1) &&
        (n > 0 ==> |s| == 2 && s[1].Raw? && s[1].n == n && Pow2(n) + s[1].x == run)
  {
    NBitsBounds(run);
    RunBits(run);
    hide Pow2, NBits;
    var n := NBits(run) - 1;
    QuotientUnique(run, Pow2(n), 1, run - Pow2(n));
  }

  lemma RunBits(run: nat)
    requires 1 <= run <= MAX_RUN
    ensures 1 <= NBits(run) <= 15 && (NBits(run) == 1 ==> run == 1) && Pow2(NBits(run)) == 2 * Pow2(NBits(run) - 1)
  {
    Pow2Words();
    Pow2Add(11, 4);
    Pow2Small();
    NBitsAtMost(run, 15);
    if run > 1 { NBitsBounds(run); }
  }

  /** The end of a block: a run of run blocks, and the rest of the correction bits. */
  lemma EobReads(run: nat, h: Band, v: Band, d: nat, r: nat, bits: seq<nat>, rest: seq<Item>)
    requires 1 <= run <= MAX_RUN && Refines(h, v) && Between(h, v, d, |v|, r, bits) && d < |v|
    ensures ReadBlock(EobItems(run) + Corrections(bits) + rest, h, v[..d]) == Ending(rest, run - 1, v)
  {
    hide EobItems, Between, Corrections, ReadRest;
    EobFields(run);
    var s := EobItems(run) + Corrections(bits) + rest;
    assert s[|EobItems(run)|..] == Corrections(bits) + rest;
    RestReads(h, v, d, r, bits, rest);
  }

  /** A block read back, with the end that its run of finished blocks brings, if it needs one. */
  lemma BlockReads(h: Band, v: Band, run: nat, rest: seq<Item>)
    requires Refines(h, v) && 1 <= run <= MAX_RUN
    ensures var c := Code(h, v, 0, 0, []);
      && |c.bits| <= 63
      && (if c.run > 0 ||
        c.bits != [] then ReadBlock(c.items + (EobItems(run) + Corrections(c.bits) + rest), h, []) ==
        Ending(rest, run - 1, v)
          else c.items != [] && ReadBlock(c.items + rest, h, []) == Ending(rest, 0, v))
      && (c.items == [] ==> ReadRest(Corrections(c.bits) + rest, h, []) == Part(rest, v))
  {
    hide Code, Between, ReadBlock, ReadRest, EobItems, Corrections;
    BetweenNone(h, v, 0);
    var c := Code(h, v, 0, 0, []);
    var next := if c.run > 0 || c.bits != [] then EobItems(run) + Corrections(c.bits) + rest else rest;
    assert v[..0] == [] && v[..|v|] == v;
    var e := CodeReads(h, v, 0, 0, 0, [], next);
    BetweenSize(h, v, e, |v|, c.run, c.bits);
    BetweenBounds(h, v, e, |v|, c.run, c.bits);
    if e < |v| { EobReads(run, h, v, e, c.run, c.bits, rest); } else { WholeRead(h, v, next); }
    if c.items == [] { RestReads(h, v, 0, c.run, c.bits, rest); }
  }

  lemma WholeRead(h: Band, v: Band, items: seq<Item>)
    requires |h| == |v|
    ensures ReadBlock(items, h, v) == Ending(items, 0, v)
  {
  }

  // ----- A restart interval -----

  ghost predicate AllRefine(hs: seq<Band>, vs: seq<Band>) {
    |hs| == |vs| && forall i :: 0 <= i < |vs| ==> |hs[i]| == |vs[i]| && Refines(hs[i], vs[i])
  }

  const NONE := Pending(0, [])

  lemma DecodeFirst(items: seq<Item>, run: nat, hs: seq<Band>, vs: seq<Band>, b: Ending, z: seq<Item>)
    requires |hs| == |vs| > 0
    requires b == (if run > 0 then Ended(ReadRest(items, hs[0], []), run - 1) else ReadBlock(items, hs[0], []))
    requires b.Ending? && b.z == vs[0] && Decode(b.items, b.run, hs[1..]) == Blocks(z, 0, vs[1..])
    ensures Decode(items, run, hs) == Blocks(z, 0, vs)
  {
    assert [vs[0]] + vs[1..] == vs;
  }

  lemma RestRefine(hs: seq<Band>, vs: seq<Band>)
    requires AllRefine(hs, vs) && |vs| > 0
    ensures AllRefine(hs[1..], vs[1..]) && Refines(hs[0], vs[0])
  {
  }

  /** What is written for the blocks vs after the blocks that are pending: the end of the pending ones
      together with that of e of the vs, and then the rest. */
  lemma {:induction false} EncodeReads(hs: seq<Band>, vs: seq<Band>, p: Pending, z: seq<Item>)
    returns (e: nat, more: seq<nat>, rest: seq<Item>)
    requires AllRefine(hs, vs) && p.Ok()
    ensures p.run + e <= MAX_RUN
    ensures p.run == 0 ==> e == 0 && more == [] && rest == Encode(hs, vs, p)
    ensures p.run > 0 ==> Encode(hs, vs, p) == EobItems(p.run + e) + Corrections(p.bits + more) + rest
    ensures Decode(Corrections(more) + (rest + z), e, hs) == Blocks(z, 0, vs)
    decreases |vs|, 2
  {
    hide ReadBlock, ReadRest, EobItems, Corrections, Code, Refines, Decode;
    if |vs| > 0 && p.run > 0 && Code(hs[0], vs[0], 0, 0, []).items == [] {
      e, more, rest := Joined(hs, vs, p, z);
    } else {
      e, more, rest := 0, [], Encode(hs, vs, NONE);
      Separate(hs, vs, p);
      OwnReads(hs, vs, z);
      NoCorrections(rest + z);
      assert p.bits + more == p.bits;
    }
  }

  lemma NoCorrections(items: seq<Item>)
    ensures Corrections([]) + items == items
  {
  }

  /** The end of the pending blocks comes first, unless the next block has no symbols. */
  lemma Separate(hs: seq<Band>, vs: seq<Band>, p: Pending)
    requires AllRefine(hs, vs) && p.Ok() && (|vs| > 0 && p.run > 0 ==> Code(hs[0], vs[0], 0, 0, []).items != [])
    ensures Encode(hs, vs, p) == Flush(p) + Encode(hs, vs, NONE)
  {
    hide EobItems, Corrections, Code, Refines, AddBlock;
    if p.run == 0 {
      assert p == NONE;
      NoneFlushed(Encode(hs, vs, NONE));
    } else if |vs| == 0 {
      assert Encode(hs, vs, NONE) == [];
    } else {
      hide Flush;
      var c := Code(hs[0], vs[0], 0, 0, []);
      var s, own := AddBlock(p, c), AddBlock(NONE, c);
      SeparateItems(p, c);
      ItemsAssoc(Flush(p), own.items, Encode(hs[1..], vs[1..], s.next));
    }
  }

  lemma NoneFlushed(items: seq<Item>)
    ensures Flush(NONE) + items == items
  {
  }

  lemma SeparateItems(p: Pending, c: Coded)
    requires c.items != []
    ensures AddBlock(p, c) == Step(Flush(p) + AddBlock(NONE, c).items, AddBlock(NONE, c).next)
  {
    NoneFlushed(c.items);
    hide Flush;
    var s := EndBlock(NONE, c.bits);
    ItemsAssoc(Flush(p), c.items, s.items);
  }

  /** A block whose end joins the pending ones. */
  lemma {:induction false} Joined(hs: seq<Band>, vs: seq<Band>, p: Pending, z: seq<Item>)
    returns (e: nat, more: seq<nat>, rest: seq<Item>)
    requires AllRefine(hs, vs) && p.Ok() && |vs| > 0 && p.run > 0 && Code(hs[0], vs[0], 0, 0, []).items == []
    ensures p.run + e <= MAX_RUN
    ensures Encode(hs, vs, p) == EobItems(p.run + e) + Corrections(p.bits + more) + rest
    ensures Decode(Corrections(more) + (rest + z), e, hs) == Blocks(z, 0, vs)
    decreases |vs|, 0
  {
    hide ReadBlock, ReadRest, EobItems, Corrections, Code, Refines, Decode;
    RestRefine(hs, vs);
    var c := Code(hs[0], vs[0], 0, 0, []);
    BlockReads(hs[0], vs[0], 1, z);
    var q := Pending(p.run + 1, p.bits + c.bits);
    var s := AddBlock(p, c);
    assert [] + EndBlock(p, c.bits).items == EndBlock(p, c.bits).items;
    var e1, more1, rest1 := EncodeReads(hs[1..], vs[1..], s.next, z);
    e, more, rest := e1 + 1, c.bits + more1, rest1;
    CorrectionsConcat(c.bits, more1);
    ItemsAssoc(Corrections(c.bits), Corrections(more1), rest + z);
    var tail := Corrections(more1) + (rest + z);
    BlockReads(hs[0], vs[0], 1, tail);
    DecodeFirst(Corrections(more) + (rest + z), e, hs, vs, Ending(tail, e1, vs[0]), z);
    assert (p.bits + c.bits) + more1 == p.bits + more;
    if s.next == NONE {
      assert p.bits + more == q.bits;
    } else {
      assert [] + Encode(hs[1..], vs[1..], q) == Encode(hs[1..], vs[1..], q);
    }
  }

  /** With nothing pending, a block is read from its own symbols. */
  lemma {:induction false} OwnReads(hs: seq<Band>, vs: seq<Band>, z: seq<Item>)
    requires AllRefine(hs, vs)
    ensures Decode(Encode(hs, vs, NONE) + z, 0, hs) == Blocks(z, 0, vs)
    decreases |vs|, 1
  {
    hide ReadBlock, ReadRest, EobItems, Corrections, Code, Refines;
    if |vs| == 0 {
      assert [] + z == z;
    } else {
      hide Decode;
      RestRefine(hs, vs);
      var c := Code(hs[0], vs[0], 0, 0, []);
      BlockReads(hs[0], vs[0], 1, z);
      var s := AddBlock(NONE, c);
      OwnItems(c);
      var e1, more1, rest1 := EncodeReads(hs[1..], vs[1..], s.next, z);
      var tail := Corrections(more1) + (rest1 + z);
      BlockReads(hs[0], vs[0], if e1 < MAX_RUN then e1 + 1 else 1, tail);
      var all := Encode(hs, vs, NONE) + z;
      ItemsAssoc(c.items, Encode(hs[1..], vs[1..], s.next), z);
      if s.next.run > 0 {
        CorrectionsConcat(c.bits, more1);
        var a, b, d := EobItems(e1 + 1), Corrections(c.bits), Corrections(more1);
        ItemsAssoc(a + (b + d), rest1, z);
        ItemsAssoc(a, b, d);
        ItemsAssoc(a + b, d, rest1 + z);
      } else {
        NoCorrections(rest1 + z);
      }
      DecodeFirst(all, 0, hs, vs, Ending(tail, e1, vs[0]), z);
    }
  }

  lemma OwnItems(c: Coded)
    requires |c.bits| <= 63 && (c.items == [] ==> c.run > 0 || c.bits != [])
    ensures AddBlock(NONE, c) == Step(c.items, if c.run > 0 || c.bits != [] then Pending(1, c.bits) else NONE)
  {
    assert [] + c.items == c.items && c.items + [] == c.items && [] + c.bits == c.bits;
  }

  /** Main result: whatever the blocks and whatever is known of them, what is written for a restart
      interval is read back as these blocks, and nothing of what follows is touched. */
  lemma IntervalRoundTrip(hs: seq<Band>, vs: seq<Band>, z: seq<Item>)
    requires AllRefine(hs, vs)
    ensures Decode(Encode(hs, vs, NONE) + z, 0, hs) == Blocks(z, 0, vs)
  {
    OwnReads(hs, vs, z);
  }
}
