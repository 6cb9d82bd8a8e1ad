/** Refinement scans store the magnitudes of a band in 16 bits. That of -0x8000 does not fit, and the
    coefficient is taken for a new one: which bands are coded as they should be, and which are not. */
module ProgStored {
  import opened Coefficients
  import opened ProgItems
  import opened ProgMeaning

  /** What a decoder knows of the band before a refinement scan. */
  function Known(v: Band): (h: Band)
    ensures |h| == |v| && forall k :: 0 <= k < |h| ==> h[k] == Half(v[k])
  {
    seq(|v|, k requires 0 <= k < |v| => Half(v[k]))
  }

  /** A magnitude as stored. */
  function Stored(x: int): int { ToShort(Abs(x)) }

  /** The coefficients for which the encoder takes those of v. */
  function AsStored(v: Band): (w: Band)
    ensures |w| == |v| && forall k :: 0 <= k < |w| ==> w[k] == if v[k] == -0x8000 then -1 else v[k]
  {
    seq(|v|, k requires 0 <= k < |v| => if v[k] == -0x8000 then -1 else v[k])
  }

  /** Magnitudes over 1 are stored as such, unless there is no room. */
  lemma StoredOver(x: int)
    requires IsShort(x)
    ensures var y := if x == -0x8000 then -1 else x; if Abs(y) > 1 then Stored(x) == Abs(y) else Stored(x) <= 1
  {
  }

  /** What the encoder writes for a block: the last new coefficient is still that of v. */
  function StoredCode(v: Band): Coded {
    CodeTo(Known(AsStored(v)), AsStored(v), LastNew(Known(v), v, |v|), 0, 0, [])
  }

  ghost predicate Whole(v: Band) { forall k :: 0 <= k < |v| ==> v[k] != -0x8000 }

  /** All symbols are in the range of a table. */
  ghost predicate InTable(items: seq<Item>) { forall i :: 0 <= i < |items| && items[i].Sym? ==> items[i].s < 256 }

  lemma InTableConcat(a: seq<Item>, b: seq<Item>)
    ensures InTable(a + b) <==> InTable(a) && InTable(b)
  {
    if InTable(a + b) {
      forall i | 0 <= i < |a| && a[i].Sym? ensures a[i].s < 256 { assert (a + b)[i] == a[i]; }
      forall i | 0 <= i < |b| && b[i].Sym? ensures b[i].s < 256 { assert (a + b)[|a| + i] == b[i]; }
    }
  }

  // ----- Symbols of new coefficients -----

  function NewSymbols(items: seq<Item>): nat {
    if |items| == 0 then 0 else (if items[0].Sym? && items[0].s % 16 == 1 then 1 else 0) + NewSymbols(items[1..])
  }

  lemma {:induction false} NewSymbolsConcat(a: seq<Item>, b: seq<Item>)
    ensures NewSymbols(a + b) == NewSymbols(a) + NewSymbols(b)
    decreases |a|
  {
    if |a| == 0 {
      assert a + b == b;
    } else {
      NewSymbolsConcat(a[1..], b);
      assert (a + b)[0] == a[0] && (a + b)[1..] == a[1..] + b;
    }
  }

  lemma {:induction false} NoSymbols(items: seq<Item>)
    requires forall i :: 0 <= i < |items| ==> items[i].Raw?
    ensures NewSymbols(items) == 0
  {
    if |items| > 0 { NoSymbols(items[1..]); }
  }

  lemma OneSymbol(items: seq<Item>, s: nat)
    requires |items| > 0 && items[0] == Sym(s) && forall i :: 1 <= i < |items| ==> items[i].Raw?
    ensures NewSymbols(items) == if s % 16 == 1 then 1 else 0
  {
    NoSymbols(items[1..]);
  }

  lemma NewUnit(r: nat, x: int)
    requires Abs(x) == 1
    ensures NewSymbols(NewItems(r, x)) == 1
  {
    assert NBits(1) == 1 && (16 * r + 1) % 16 == 1;
    hide NewSymbols;
    OneSymbol(NewItems(r, x), 16 * r + 1);
  }

  lemma ZrlNotNew()
    ensures NewSymbols([Sym(0xF0)]) == 0
  {
    assert [Sym(0xF0)][1..] == [];
  }

  /** How many coefficients from k on are 1 or -1. */
  function Units(v: Band, k: nat): nat
    requires k <= |v|
    decreases |v| - k
  {
    if k == |v| then 0 else (if Abs(v[k]) == 1 then 1 else 0) + Units(v, k + 1)
  }

  /** Wherever the last new coefficient is taken to be, there is a symbol for each new one. */
  lemma {:induction false} NewInCode(v: Band, eob: nat, k: nat, r: nat, bits: seq<nat>)
    requires k <= |v|
    ensures NewSymbols(CodeTo(Known(v), v, eob, k, r, bits).items) == Units(v, k)
    decreases |v| - k, r
  {
    var h := Known(v);
    hide NewSymbols, NewItems, Known, Corrections;
    NothingNew();
    if k == |v| {
    } else if v[k] == 0 {
      NewInCode(v, eob, k + 1, r + 1, bits);
    } else if r > 15 && k <= eob {
      NewInCode(v, eob, k, r - 16, []);
      CorrectionsNotNew(bits);
      ZrlNotNew();
      NewSymbolsConcat([Sym(0xF0)], Corrections(bits));
      NewSymbolsConcat([Sym(0xF0)] + Corrections(bits), CodeTo(h, v, eob, k, r - 16, []).items);
    } else if h[k] != 0 {
      NewInCode(v, eob, k + 1, r, bits + [Abs(v[k]) % 2]);
    } else {
      NewInCode(v, eob, k + 1, 0, []);
      NewUnit(r, v[k]);
      CorrectionsNotNew(bits);
      NewSymbolsConcat(NewItems(r, v[k]), Corrections(bits));
      NewSymbolsConcat(NewItems(r, v[k]) + Corrections(bits), CodeTo(h, v, eob, k + 1, 0, []).items);
    }
  }

  lemma NothingNew()
    ensures NewSymbols([]) == 0
  {
  }

  lemma CorrectionsNotNew(bits: seq<nat>)
    ensures NewSymbols(Corrections(bits)) == 0
  {
    NoSymbols(Corrections(bits));
  }

  /** Every coefficient of -0x8000 counts as one more new coefficient. */
  lemma {:induction false} UnitsStored(v: Band, k: nat)
    requires k <= |v|
    ensures Units(AsStored(v), k) >= Units(v, k)
    ensures Units(AsStored(v), k) == Units(v, k) <==> forall j :: k <= j < |v| ==> v[j] != -0x8000
    decreases |v| - k
  {
    if k < |v| { UnitsStored(v, k + 1); }
  }

  lemma SameBand(v: Band)
    requires Whole(v)
    ensures AsStored(v) == v
  {
  }

  /** A block is coded as it should be exactly if no coefficient of the band is -0x8000. */
  lemma BlockAsSpecified(v: Band)
    ensures StoredCode(v) == Code(Known(v), v, 0, 0, []) <==> Whole(v)
  {
    hide CodeTo, NewSymbols;
    if Whole(v) {
      SameBand(v);
    } else {
      var eob := LastNew(Known(v), v, |v|);
      NewInCode(AsStored(v), eob, 0, 0, []);
      NewInCode(v, eob, 0, 0, []);
      UnitsStored(v, 0);
    }
  }

  // ----- A restart interval -----

  /** The items of blocks that have been coded. */
  function EncodeCodes(cs: seq<Coded>, p: Pending): seq<Item>
    decreases |cs|
  {
    if |cs| == 0 then Flush(p)
    else
      var s := AddBlock(p, cs[0]);
      s.items + EncodeCodes(cs[1..], s.next)
  }

  function Codes(hs: seq<Band>, vs: seq<Band>): (cs: seq<Coded>)
    requires |hs| == |vs| && forall i :: 0 <= i < |vs| ==> |hs[i]| == |vs[i]|
    ensures |cs| == |vs| && forall i :: 0 <= i < |cs| ==> cs[i] == Code(hs[i], vs[i], 0, 0, [])
  {
    seq(|vs|, i requires 0 <= i < |vs| => Code(hs[i], vs[i], 0, 0, []))
  }

  lemma {:induction false} EncodeIsCodes(hs: seq<Band>, vs: seq<Band>, p: Pending)
    requires |hs| == |vs| && forall i :: 0 <= i < |vs| ==> |hs[i]| == |vs[i]|
    ensures Encode(hs, vs, p) == EncodeCodes(Codes(hs, vs), p)
    decreases |vs|
  {
    hide AddBlock, Flush, Code;
    if |vs| > 0 {
      var s := AddBlock(p, Code(hs[0], vs[0], 0, 0, []));
      EncodeIsCodes(hs[1..], vs[1..], s.next);
      assert Codes(hs, vs)[1..] == Codes(hs[1..], vs[1..]);
    }
  }

  function StoredCodes(vs: seq<Band>): (cs: seq<Coded>)
    ensures |cs| == |vs| && forall i :: 0 <= i < |cs| ==> cs[i] == StoredCode(vs[i])
  {
    seq(|vs|, i requires 0 <= i < |vs| => StoredCode(vs[i]))
  }

  function AllKnown(vs: seq<Band>): (hs: seq<Band>)
    ensures |hs| == |vs| && forall i :: 0 <= i < |hs| ==> hs[i] == Known(vs[i])
  {
    seq(|vs|, i requires 0 <= i < |vs| => Known(vs[i]))
  }

  function AllNew(cs: seq<Coded>): nat {
    if |cs| == 0 then 0 else NewSymbols(cs[0].items) + AllNew(cs[1..])
  }

  lemma EobNotNew(run: nat)
    requires run > 0
    ensures NewSymbols(EobItems(run)) == 0
  {
    NBitsBounds(run);
    hide NewSymbols, NBits;
    OneSymbol(EobItems(run), 16 * (NBits(run) - 1));
  }

  lemma FlushNotNew(p: Pending)
    ensures NewSymbols(Flush(p)) == 0
  {
    hide NewSymbols, EobItems, Corrections;
    NothingNew();
    if p.run > 0 {
      EobNotNew(p.run);
      CorrectionsNotNew(p.bits);
      NewSymbolsConcat(EobItems(p.run), Corrections(p.bits));
    }
  }

  /** Ends of blocks add no symbols of new coefficients. */
  lemma AddBlockNew(p: Pending, c: Coded)
    ensures NewSymbols(AddBlock(p, c).items) == NewSymbols(c.items)
  {
    hide NewSymbols, Flush;
    NothingNew();
    FlushNotNew(p);
    NewSymbolsConcat(Flush(p), c.items);
    var q := if c.items == [] then p else Pending(0, []);
    var q1 := Pending(q.run + 1, q.bits + c.bits);
    FlushNotNew(q1);
    NewSymbolsConcat(if c.items == [] then [] else Flush(p) + c.items, EndBlock(q, c.bits).items);
  }

  lemma {:induction false} NewInCodes(cs: seq<Coded>, p: Pending)
    ensures NewSymbols(EncodeCodes(cs, p)) == AllNew(cs)
    decreases |cs|
  {
    hide NewSymbols, Flush, AddBlock;
    if |cs| == 0 {
      FlushNotNew(p);
    } else {
      var s := AddBlock(p, cs[0]);
      AddBlockNew(p, cs[0]);
      NewInCodes(cs[1..], s.next);
      NewSymbolsConcat(s.items, EncodeCodes(cs[1..], s.next));
    }
  }

  /** A block with -0x8000 has more of these symbols than it should have, and no block has fewer. */
  lemma {:induction false} AllNewStored(vs: seq<Band>)
    ensures AllNew(StoredCodes(vs)) >= AllNew(Codes(AllKnown(vs), vs))
    ensures (exists i :: 0 <= i < |vs| && !Whole(vs[i])) ==> AllNew(StoredCodes(vs)) > AllNew(Codes(AllKnown(vs), vs))
    decreases |vs|
  {
    hide NewSymbols, StoredCode, Code, Whole, Known;
    if |vs| > 0 {
      var more := vs[1..];
      AllNewStored(more);
      assert StoredCodes(vs)[1..] == StoredCodes(more) && AllKnown(vs)[1..] == AllKnown(more);
      assert Codes(AllKnown(vs), vs)[1..] == Codes(AllKnown(more), more);
      FirstStored(vs[0]);
      if i :| 0 <= i < |vs| && !Whole(vs[i]) {
        if i > 0 { assert more[i - 1] == vs[i]; }
      }
    }
  }

  lemma FirstStored(v: Band)
    ensures NewSymbols(StoredCode(v).items) >= NewSymbols(Code(Known(v), v, 0, 0, []).items)
    ensures !Whole(v) ==> NewSymbols(StoredCode(v).items) > NewSymbols(Code(Known(v), v, 0, 0, []).items)
  {
    hide NewSymbols, CodeTo;
    var eob := LastNew(Known(v), v, |v|);
    NewInCode(AsStored(v), eob, 0, 0, []);
    NewInCode(v, eob, 0, 0, []);
    UnitsStored(v, 0);
  }

  /** Main result: a restart interval of a refinement scan is written as it should be exactly if no
      coefficient of its bands is -0x8000. */
  lemma IntervalAsSpecified(vs: seq<Band>)
    ensures EncodeCodes(StoredCodes(vs), NONE) == Encode(AllKnown(vs), vs, NONE) <==> forall i :: 0 <= i < |vs| ==>
      Whole(vs[i])
  {
    hide StoredCode, Code, EncodeCodes, Encode, Whole, NewSymbols;
    EncodeIsCodes(AllKnown(vs), vs, NONE);
    if forall i :: 0 <= i < |vs| ==> Whole(vs[i]) {
      forall i | 0 <= i < |vs| ensures StoredCodes(vs)[i] == Codes(AllKnown(vs), vs)[i] { BlockAsSpecified(vs[i]); }
      assert StoredCodes(vs) == Codes(AllKnown(vs), vs);
    } else {
      NewInCodes(StoredCodes(vs), NONE);
      NewInCodes(Codes(AllKnown(vs), vs), NONE);
      AllNewStored(vs);
    }
  }

  // ----- Inputs that show it -----

  lemma {:induction false} ZerosSkipped(h: Band, v: Band, eob: nat, k: nat, n: nat, r: nat, bits: seq<nat>)
    requires |h| == |v| && k + n <= |v| && forall j :: k <= j < k + n ==> v[j] == 0
    ensures CodeTo(h, v, eob, k, r, bits) == CodeTo(h, v, eob, k + n, r + n, bits)
    decreases n
  {
    if n > 0 { ZerosSkipped(h, v, eob, k + 1, n - 1, r + 1, bits); }
  }

  /** A coefficient of -0x8000 that has been known to be -0x4000 takes a correction bit; it is written
      as new and negative instead. */
  lemma MinimumMiscoded()
    ensures StoredCode([-0x8000]) == Coded([Sym(1), Raw(1, 0)], 0, [])
    ensures Code(Known([-0x8000]), [-0x8000], 0, 0, []) == Coded([], 0, [0])
  {
    var v: Band := [-0x8000];
    assert AsStored(v) == [-1] && Known(v) == [-0x4000] && Known([-1]) == [0];
    assert NewItems(0, -1) == [Sym(1), Raw(1, 0)] by { assert NBits(1) == 1; }
    hide NewItems, Known, AsStored;
  }

  /** After sixteen zeros the symbol it is written with is in no table. */
  lemma MinimumBeyondTable()
    ensures var v := seq(17, k => if k < 16 then 0 else -0x8000); !InTable(StoredCode(v).items)
  {
    var v: Band := seq(17, k => if k < 16 then 0 else -0x8000);
    var h, w, eob := Known(AsStored(v)), AsStored(v), LastNew(Known(v), v, |v|);
    assert eob == 0 by { NoneNew(v, 17); }
    assert NewItems(16, -1)[0] == Sym(257) by { assert NBits(1) == 1; }
    hide NewItems, LastNew, Known;
    assert h[16] == 0 && w[16] == -1;
    ZerosSkipped(h, w, eob, 0, 16, 0, []);
    assert StoredCode(v).items == NewItems(16, -1) + Corrections([]) + CodeTo(h, w, eob, 17, 0, []).items;
    assert StoredCode(v).items[0] == Sym(257);
  }

  lemma {:induction false} NoneNew(v: Band, k: nat)
    requires k <= |v| && forall j :: 0 <= j < |v| ==> v[j] == 0 || v[j] == -0x8000
    ensures LastNew(Known(v), v, k) == 0
  {
    if k > 0 { NoneNew(v, k - 1); }
  }
}
