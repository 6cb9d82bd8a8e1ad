/** AC scans of progressive Huffman coding: symbols and raw bits, runs of finished blocks, and
    correction bits held back until the symbol that covers them. A first scan is the case in which
    no coefficient is known to be nonzero. (Sections G.1.2 and G.2 of ITU-T T.81.) */
module ProgItems {
  import opened Bits
  import opened Coefficients
  import H = HuffBlock

  /** A symbol, or the low n bits of something. */
  datatype Item = Sym(s: nat) | Raw(n: nat, x: nat)

  const MAX_RUN := 0x7FFF
  const MAX_CORR_BITS := 1000
  const FULL := 937

  /** A band of coefficients, shifted down to the bit position of the scan. */
  type Band = seq<int>

  /** What is left of a coefficient one bit position higher up. */
  function Half(v: int): int { if v < 0 then -(Abs(v) / 2) else v / 2 }

  /** The band v, when h is known of it: a coefficient known to be nonzero has one bit more. */
  ghost predicate Refines(h: Band, v: Band) {
    |h| == |v| && 0 < |v| <= 63 && forall k :: 0 <= k < |v| ==>
      if h[k] != 0 then h[k] == Half(v[k]) else NBits(Abs(v[k])) <= 15
  }

  // ----- Encoder side -----

  predicate New(h: Band, v: Band, k: nat)
    requires k < |v| == |h|
  {
    v[k] != 0 && h[k] == 0
  }

  /** The last new coefficient before k, or 0. */
  function LastNew(h: Band, v: Band, k: nat): (e: nat)
    requires k <= |v| == |h|
    ensures forall j :: 0 <= j < k && New(h, v, j) ==> j <= e
  {
    if k == 0 then 0 else if New(h, v, k - 1) then k - 1 else LastNew(h, v, k - 1)
  }

  function Corrections(bits: seq<nat>): (s: seq<Item>)
    ensures |s| == |bits|
  {
    seq(|bits|, i requires 0 <= i < |bits| => Raw(1, bits[i]))
  }

  /** Items of a block; the zeros and correction bits that no symbol of it covers. */
  datatype Coded = Coded(items: seq<Item>, run: nat, bits: seq<nat>)

  function After(items: seq<Item>, c: Coded): Coded { c.(items := items + c.items) }

  function NewItems(r: nat, v: int): seq<Item> {
    var n := NBits(Abs(v));
    [Sym(16 * r + n), Raw(n, H.Extra(v, n))]
  }

  /** The coefficients from k on, after r zeros, with these correction bits not covered yet; runs of
      sixteen zeros have symbols of their own up to position eob. */
  function CodeTo(h: Band, v: Band, eob: nat, k: nat, r: nat, bits: seq<nat>): Coded
    requires k <= |v| == |h|
    decreases |v| - k, r
  {
    if k == |v| then Coded([], r, bits)
    else if v[k] == 0 then CodeTo(h, v, eob, k + 1, r + 1, bits)
    else if r > 15 && k <= eob then After([Sym(0xF0)] + Corrections(bits), CodeTo(h, v, eob, k, r - 16, []))
    else if h[k] != 0 then CodeTo(h, v, eob, k + 1, r, bits + [Abs(v[k]) % 2])
    else After(NewItems(r, v[k]) + Corrections(bits), CodeTo(h, v, eob, k + 1, 0, []))
  }

  /** The same, as it should be: up to the last new coefficient. */
  function Code(h: Band, v: Band, k: nat, r: nat, bits: seq<nat>): Coded
    requires k <= |v| == |h|
  {
    CodeTo(h, v, LastNew(h, v, |v|), k, r, bits)
  }

  /** The blocks that have ended but whose end is not written yet, and their correction bits. */
  datatype Pending = Pending(run: nat, bits: seq<nat>) {
    ghost predicate Ok() { run < MAX_RUN && |bits| <= FULL && (run == 0 ==> bits == []) }
  }

  function EobItems(run: nat): seq<Item>
    requires run > 0
  {
    var n := NBits(run) - 1;
    [Sym(16 * n)] + if n > 0 then [Raw(n, run % Pow2(n))] else []
  }

  /** The end of a run of blocks: the symbol 16 * n says how many bits follow, and these are what the run is over
      2 ** n. */
  lemma EobIs(run: nat, n: nat)
    requires Pow2(n) <= run < Pow2(n + 1)
    ensures EobItems(run) == if n > 0 then [Sym(16 * n), Raw(n, run - Pow2(n))] else [Sym(0)]
  {
    NBitsAtMost(run, n + 1);
    NBitsBounds(run);
    if NBits(run) <= n { Pow2Monotone(NBits(run), n); }
    hide NBits;
    QuotientUnique(run, Pow2(n), 1, run - Pow2(n));
  }

  function Flush(p: Pending): seq<Item> {
    if p.run == 0 then [] else EobItems(p.run) + Corrections(p.bits)
  }

  datatype Step = Step(items: seq<Item>, next: Pending)

  /** One more block has ended. */
  function EndBlock(p: Pending, bits: seq<nat>): Step {
    var q := Pending(p.run + 1, p.bits + bits);
    if q.run == MAX_RUN || |q.bits| > FULL then Step(Flush(q), Pending(0, [])) else Step([], q)
  }

  function AddBlock(p: Pending, c: Coded): Step {
    var out := if c.items == [] then [] else Flush(p) + c.items;
    var q := if c.items == [] then p else Pending(0, []);
    if c.run > 0 || c.bits != [] then
      var s := EndBlock(q, c.bits);
      Step(out + s.items, s.next)
    else Step(out, q)
  }

  /** All blocks of a restart interval. */
  function Encode(hs: seq<Band>, vs: seq<Band>, p: Pending): seq<Item>
    requires |hs| == |vs| && forall i :: 0 <= i < |vs| ==> |hs[i]| == |vs[i]|
    decreases |vs|
  {
    if |vs| == 0 then Flush(p)
    else
      var s := AddBlock(p, Code(hs[0], vs[0], 0, 0, []));
      s.items + Encode(hs[1..], vs[1..], s.next)
  }

  // ----- What needs no symbols of its own -----

  /** Behind the last new coefficient there are no symbols: the end of the block covers the rest. */
  lemma {:induction false} NothingBehind(h: Band, v: Band, k: nat, r: nat, bits: seq<nat>)
    requires |h| == |v| && k <= |v| && LastNew(h, v, |v|) < k
    ensures Code(h, v, k, r, bits).items == []
    decreases |v| - k
  {
    if k < |v| {
      assert !New(h, v, k);
      NothingBehind(h, v, k + 1, if v[k] == 0 then r + 1 else r, if v[k] == 0 then bits else bits + [Abs(v[k]) % 2]);
    }
  }

  lemma {:induction false} LastNewNone(h: Band, v: Band, k: nat)
    requires |h| == |v| && k <= |v| && forall j :: 0 <= j < |v| ==> !New(h, v, j)
    ensures LastNew(h, v, k) == 0
  {
    if k > 0 { LastNewNone(h, v, k - 1); }
  }

  /** A block of which no coefficient is new, with its correction bits. */
  ghost predicate Quiet(h: Band, v: Band, bits: seq<nat>) {
    |h| == |v| > 0 && (forall j :: 0 <= j < |v| ==> !New(h, v, j)) && Code(h, v, 0, 0, []).bits == bits
  }

  lemma QuietBlock(h: Band, v: Band, bits: seq<nat>)
    requires Quiet(h, v, bits)
    ensures var c := Code(h, v, 0, 0, []); c.items == [] && (c.run > 0 || c.bits != [])
  {
    LastNewNone(h, v, |v|);
    assert !New(h, v, 0);
    var r, b := if v[0] == 0 then 1 else 0, if v[0] == 0 then [] else [Abs(v[0]) % 2];
    assert [] + b == b;
    assert Code(h, v, 0, 0, []) == Code(h, v, 1, r, b);
    NothingBehind(h, v, 1, r, b);
    NotForgotten(h, v, 1, r, b);
  }

  lemma {:induction false} NotForgotten(h: Band, v: Band, k: nat, r: nat, bits: seq<nat>)
    requires |h| == |v| && k <= |v| && LastNew(h, v, |v|) < k && (r > 0 || bits != [])
    ensures var c := Code(h, v, k, r, bits); c.run > 0 || c.bits != []
    decreases |v| - k
  {
    if k < |v| {
      assert !New(h, v, k);
      NotForgotten(h, v, k + 1, if v[k] == 0 then r + 1 else r, if v[k] == 0 then bits else bits + [Abs(v[k]) % 2]);
    }
  }

  function Flattened(bits: seq<seq<nat>>): seq<nat> { if |bits| == 0 then [] else bits[0] + Flattened(bits[1..]) }

  /** Fewer than 0x7FFF blocks without new coefficients, and with at most 937 correction bits, take a single end. */
  lemma {:induction false} OneEnd(hs: seq<Band>, vs: seq<Band>, bits: seq<seq<nat>>, p: Pending)
    requires |hs| == |vs| == |bits|
    requires forall i :: 0 <= i < |vs| ==> |hs[i]| == |vs[i]| && Quiet(hs[i], vs[i], bits[i])
    requires p.run + |vs| < 0x7FFF && |p.bits| + |Flattened(bits)| <= 937
    ensures Encode(hs, vs, p) == Flush(Pending(p.run + |vs|, p.bits + Flattened(bits)))
    decreases |vs|
  {
    hide Code, Quiet, Flush;
    if |vs| > 0 {
      QuietShape(hs[0], vs[0], bits[0]);
      QuietBlock(hs[0], vs[0], bits[0]);
      var q := Pending(p.run + 1, p.bits + bits[0]);
      QuietAdds(p, Code(hs[0], vs[0], 0, 0, []));
      OneEnd(hs[1..], vs[1..], bits[1..], q);
      assert Encode(hs, vs, p) == [] + Encode(hs[1..], vs[1..], q);
      assert q.bits + Flattened(bits[1..]) == p.bits + Flattened(bits);
    } else {
      assert p.bits + [] == p.bits;
    }
  }

  lemma QuietShape(h: Band, v: Band, bits: seq<nat>)
    requires Quiet(h, v, bits)
    ensures |h| == |v| && Code(h, v, 0, 0, []).bits == bits
  {
  }

  lemma QuietAdds(p: Pending, c: Coded)
    requires c.items == [] && (c.run > 0 || c.bits != []) && p.run + 1 < 0x7FFF && |p.bits| + |c.bits| <= 937
    ensures AddBlock(p, c) == Step([], Pending(p.run + 1, p.bits + c.bits))
  {
  }

  // ----- Decoder side -----

  /** A correction bit added to a coefficient. */
  function Corrected(u: int, b: nat): int { if u < 0 then 2 * u - b else 2 * u + b }

  datatype Part = Part(items: seq<Item>, z: Band) | Bad

  predicate AtBit(items: seq<Item>) { |items| > 0 && items[0].Raw? && items[0].n == 1 }

  /** Passes over r zeros, up to the next one, correcting what is nonzero on the way. */
  function ReadRun(items: seq<Item>, h: Band, z: Band, r: nat): (p: Part)
    requires |z| <= |h|
    ensures p.Part? ==> |z| <= |p.z| <= |h| && |p.items| <= |items|
    decreases |h| - |z|
  {
    if |z| == |h| then Part(items, z)
    else if h[|z|] != 0 then
      if AtBit(items) then ReadRun(items[1..], h, z + [Corrected(h[|z|], items[0].x)], r) else Bad
    else if r == 0 then Part(items, z)
    else ReadRun(items, h, z + [0], r - 1)
  }

  /** The rest of a block that has ended. */
  function ReadRest(items: seq<Item>, h: Band, z: Band): Part
    requires |z| <= |h|
    decreases |h| - |z|
  {
    if |z| == |h| then Part(items, z)
    else if h[|z|] == 0 then ReadRest(items, h, z + [0])
    else if AtBit(items) then ReadRest(items[1..], h, z + [Corrected(h[|z|], items[0].x)])
    else Bad
  }

  /** A block, and how many more have ended with it. */
  datatype Ending = Ending(items: seq<Item>, run: nat, z: Band) | Broken

  function Ended(p: Part, run: nat): Ending {
    if p.Bad? then Broken else Ending(p.items, run, p.z)
  }

  function ReadBlock(items: seq<Item>, h: Band, z: Band): Ending
    requires |z| <= |h|
    decreases |items|
  {
    if |z| == |h| then Ending(items, 0, z)
    else if |items| == 0 || !items[0].Sym? then Broken
    else
      var r, n := items[0].s / 16, items[0].s % 16;
      if n == 0 && r < 15 then
        if r == 0 then Ended(ReadRest(items[1..], h, z), 0)
        else if |items| > 1 && items[1].Raw? && items[1].n == r then
          Ended(ReadRest(items[2..], h, z), Pow2(r) + items[1].x - 1)
        else Broken
      else if n > 0 && !(|items| > 1 && items[1].Raw? && items[1].n == n) then Broken
      else
        var p := ReadRun(items[if n > 0 then 2 else 1..], h, z, r);
        if p.Bad? || |p.z| == |h| then Broken
        else ReadBlock(p.items, h, p.z + [if n > 0 then H.Extend(items[1].x, n) else 0])
  }

  datatype Blocks = Blocks(items: seq<Item>, run: nat, zs: seq<Band>) | Wrong

  function Decode(items: seq<Item>, run: nat, hs: seq<Band>): Blocks
    decreases |hs|
  {
    if |hs| == 0 then Blocks(items, run, [])
    else
      var b := if run > 0 then Ended(ReadRest(items, hs[0], []), run - 1) else ReadBlock(items, hs[0], []);
      if b.Broken? then Wrong
      else
        var rest := Decode(b.items, b.run, hs[1..]);
        if rest.Wrong? then Wrong else Blocks(rest.items, rest.run, [b.z] + rest.zs)
  }

  // ----- The coefficients between a symbol and the next -----

  /** No coefficient of [d, k) is new; r of them are zero, and the others take the correction bits. */
  ghost predicate Between(h: Band, v: Band, d: nat, k: nat, r: nat, bits: seq<nat>)
    requires |h| == |v|
    decreases k
  {
    && d <= k <= |v|
    && if d == k then r == 0 && bits == []
       else if v[k - 1] == 0 then r > 0 && h[k - 1] == 0 && Between(h, v, d, k - 1, r - 1, bits)
       else
         && |bits| > 0 && h[k - 1] != 0 && bits[|bits| - 1] == Abs(v[k - 1]) % 2
         && Between(h, v, d, k - 1, r, bits[..|bits| - 1])
  }

  lemma CorrectedHalf(v: int)
    requires Half(v) != 0
    ensures Corrected(Half(v), Abs(v) % 2) == v
  {
  }

  lemma {:induction false} OneMore(h: Band, v: Band, d: nat, k: nat, r: nat, bits: seq<nat>)
    requires Refines(h, v) && Between(h, v, d, k, r, bits) && k < |v|
    ensures v[k] == 0 ==> Between(h, v, d, k + 1, r + 1, bits)
    ensures v[k] != 0 && h[k] != 0 ==> Between(h, v, d, k + 1, r, bits + [Abs(v[k]) % 2])
  {
    assert (bits + [Abs(v[k]) % 2])[..|bits|] == bits;
  }

  /** Zeros at the end are covered by nothing else. */
  lemma {:induction false} ZerosLast(h: Band, v: Band, d: nat, m: nat, k: nat, r: nat, bits: seq<nat>)
    requires |h| == |v| && Between(h, v, d, k, r, bits) && d <= m <= k && k - m <= r
    requires forall j :: m <= j < k ==> v[j] == 0
    ensures Between(h, v, d, m, r - (k - m), bits) && Between(h, v, m, k, k - m, [])
    decreases k
  {
    if m < k { ZerosLast(h, v, d, m, k - 1, r - 1, bits); }
  }

  /** Reading over [d, k) from d on, one coefficient at a time. */
  lemma {:induction false} RunStep(h: Band, v: Band, d: nat, k: nat, r: nat, bits: seq<nat>)
    requires Refines(h, v) && Between(h, v, d, k, r, bits) && d < k
    ensures v[d] == 0 ==> h[d] == 0 && r > 0 && Between(h, v, d + 1, k, r - 1, bits)
    ensures v[d] != 0 ==> h[d] != 0 && |bits| > 0 && bits[0] == Abs(v[d]) % 2 && Between(h, v, d + 1, k, r, bits[1..])
    decreases k
  {
    if d < k - 1 {
      if v[k - 1] == 0 {
        RunStep(h, v, d, k - 1, r - 1, bits);
      } else {
        RunStep(h, v, d, k - 1, r, bits[..|bits| - 1]);
        if v[d] != 0 { assert bits[1..][..|bits| - 2] == bits[..|bits| - 1][1..]; }
      }
    }
  }

  lemma CorrectionsFirst(bits: seq<nat>, rest: seq<Item>)
    requires |bits| > 0
    ensures var s := Corrections(bits) + rest;
      |s| > 0 && s[0] == Raw(1, bits[0]) && s[1..] == Corrections(bits[1..]) + rest
  {
  }

  lemma CorrectionsConcat(a: seq<nat>, b: seq<nat>)
    ensures Corrections(a + b) == Corrections(a) + Corrections(b)
  {
  }

  /** A run with its correction bits leads to the next zero, or to the next new coefficient. */
  lemma {:induction false} RunReads(h: Band, v: Band, d: nat, k: nat, r: nat, bits: seq<nat>, rest: seq<Item>)
    requires Refines(h, v) && Between(h, v, d, k, r, bits) && k < |v| && h[k] == 0
    ensures ReadRun(Corrections(bits) + rest, h, v[..d], r) == Part(rest, v[..k])
    decreases k - d
  {
    if d < k {
      RunStep(h, v, d, k, r, bits);
      assert v[..d] + [v[d]] == v[..d + 1];
      if v[d] == 0 {
        RunReads(h, v, d + 1, k, r - 1, bits, rest);
      } else {
        CorrectedHalf(v[d]);
        CorrectionsFirst(bits, rest);
        RunReads(h, v, d + 1, k, r, bits[1..], rest);
      }
    } else {
      assert Corrections([]) + rest == rest;
    }
  }

  lemma {:induction false} RestReads(h: Band, v: Band, d: nat, r: nat, bits: seq<nat>, rest: seq<Item>)
    requires Refines(h, v) && Between(h, v, d, |v|, r, bits)
    ensures ReadRest(Corrections(bits) + rest, h, v[..d]) == Part(rest, v)
    decreases |v| - d
  {
    if d < |v| {
      RunStep(h, v, d, |v|, r, bits);
      assert v[..d] + [v[d]] == v[..d + 1];
      if v[d] == 0 {
        RestReads(h, v, d + 1, r - 1, bits, rest);
      } else {
        CorrectedHalf(v[d]);
        CorrectionsFirst(bits, rest);
        RestReads(h, v, d + 1, r, bits[1..], rest);
      }
    } else {
      assert Corrections([]) + rest == rest && v[..d] == v;
    }
  }
}
