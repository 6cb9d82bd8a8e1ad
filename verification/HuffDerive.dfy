/** The tables that coding and decoding work from, derived from a canonical Huffman table: codes and
    sizes by symbol for the encoder; largest codes, symbol offsets and an eight-bit lookahead table
    for the decoder. */
module HuffDerive {
  import opened Bits
  import opened HuffTable

  /** Position of a code in the list of symbols. */
  function Index(bits: seq<nat>, c: Symbol): nat
    requires HasCode(bits, c)
  {
    UpTo(bits, c.l - 1) + c.j
  }

  lemma IndexInRange(bits: seq<nat>, c: Symbol, m: nat)
    requires HasCode(bits, c) && c.l <= m < |bits|
    ensures Index(bits, c) < UpTo(bits, c.l) <= UpTo(bits, m)
  {
    UpToMonotone(bits, c.l, m);
  }

  /** The code at a position. */
  lemma {:induction false} IndexOnto(bits: seq<nat>, p: nat, m: nat) returns (c: Symbol)
    requires m < |bits| && p < UpTo(bits, m)
    ensures HasCode(bits, c) && c.l <= m && Index(bits, c) == p
  {
    if p >= UpTo(bits, m - 1) { c := Symbol(m, p - UpTo(bits, m - 1)); } else { c := IndexOnto(bits, p, m - 1); }
  }

  // ----- Sizes and codes in code order -----

  ghost predicate SizesListed(bits: seq<nat>, sizes: seq<nat>)
    requires |bits| == 17
  {
    |sizes| >= UpTo(bits, 16) && forall c :: HasCode(bits, c) ==>
      Index(bits, c) < |sizes| && sizes[Index(bits, c)] == c.l
  }

  method FillSizes(bits: seq<nat>) returns (ok: bool, huffsize: array<nat>, n: nat)
    requires |bits| == 17
    ensures ok <==> UpTo(bits, 16) <= 256
    ensures fresh(huffsize) && huffsize.Length == 257
    ensures ok ==> n == UpTo(bits, 16) && huffsize[n] == 0 && SizesListed(bits, huffsize[..])
  {
    huffsize := new nat[257](_ => 0);
    n := 0;
    var l := 1;
    while l <= 16
      invariant 1 <= l <= 17 && n == UpTo(bits, l - 1) <= 256
      invariant forall c :: HasCode(bits, c) && c.l < l ==> Index(bits, c) < n && huffsize[Index(bits, c)] == c.l
    {
      var i := bits[l];
      if n + i > 256 {
        UpToMonotone(bits, l, 16);
        return false, huffsize, n;
      }
      while i > 0
        invariant 0 <= i <= bits[l] && n == UpTo(bits, l) - i
        invariant forall c :: HasCode(bits, c) && c.l < l ==>
          Index(bits, c) < UpTo(bits, l - 1) && huffsize[Index(bits, c)] == c.l
        invariant forall p :: UpTo(bits, l - 1) <= p < n ==> huffsize[p] == l
      {
        huffsize[n] := l;
        n := n + 1;
        i := i - 1;
      }
      l := l + 1;
    }
    huffsize[n] := 0;
    ok := true;
  }

  ghost predicate CodesListed(bits: seq<nat>, codes: seq<nat>, m: nat)
    requires m < |bits|
  {
    forall c :: HasCode(bits, c) && c.l <= m ==> Index(bits, c) < |codes| && codes[Index(bits, c)] == CodeOf(bits, c)
  }

  lemma {:induction false} NoneShorter(bits: seq<nat>, l: nat)
    requires l < |bits| && UpTo(bits, l) == 0
    ensures End(bits, l) == 0
  {
    if l > 0 { NoneShorter(bits, l - 1); }
  }

  lemma {:induction false} NoneLonger(bits: seq<nat>, l: nat, m: nat)
    requires l <= m < |bits| && UpTo(bits, l) == UpTo(bits, m)
    ensures End(bits, m) == End(bits, l) * Pow2(m - l)
    decreases m - l
  {
    if l < m {
      UpToMonotone(bits, l, m - 1);
      NoneLonger(bits, l, m - 1);
      MulAssoc(End(bits, l), Pow2(m - 1 - l), 2);
    }
  }

  lemma LastFits(bits: seq<nat>, l: nat)
    requires |bits| == 17 && l <= 16 && UpTo(bits, l) == UpTo(bits, 16) && End(bits, l) < Pow2(l)
    ensures Fits(bits)
  {
    NoneLonger(bits, l, 16);
    Pow2Add(l, 16 - l);
    Pow2Words();
    MulStrict(End(bits, l), Pow2(l), Pow2(16 - l));
  }

  /** The codes of one length, in order from the given code. */
  method FillGroup(ghost bits: seq<nat>, huffsize: array<nat>, ghost n: nat, huffcode: array<nat>, p0: nat, code0: nat,
      si: nat)
    returns (p: nat, code: nat)
    requires |bits| == 17 && huffsize.Length == 257 && n == UpTo(bits, 16) <= 256 && 0 < si <= 16
    requires huffsize[n] == 0 && SizesListed(bits, huffsize[..])
    requires huffcode.Length == 257 && huffcode != huffsize && CodesListed(bits, huffcode[..], si - 1)
    requires p0 == UpTo(bits, si - 1) && code0 == 2 * End(bits, si - 1)
    modifies huffcode
    ensures p == UpTo(bits, si) <= n && code == End(bits, si)
    ensures CodesListed(bits, huffcode[..], si)
  {
    p, code := p0, code0;
    UpToMonotone(bits, si, 16);
    while huffsize[p] == si
      invariant p0 <= p <= UpTo(bits, si)
      invariant code == code0 + (p - p0)
      invariant forall q :: 0 <= q < p0 ==> huffcode[q] == old(huffcode[q])
      invariant forall q :: p0 <= q < p ==> huffcode[q] == code0 + (q - p0)
      decreases n - p
    {
      if p < n { SizeHere(bits, huffsize[..], n, p); }
      huffcode[p] := code;
      p := p + 1;
      code := code + 1;
    }
    GroupEnds(bits, huffsize[..], n, p, si);
    CodesGrow(bits, old(huffcode[..]), huffcode[..], si);
  }

  /** Generates the codes; fails exactly when some length has too many codes. */
  method FillCodes(bits: seq<nat>, huffsize: array<nat>, n: nat) returns (ok: bool, huffcode: array<nat>)
    requires |bits| == 17 && huffsize.Length == 257 && n == UpTo(bits, 16) <= 256
    requires huffsize[n] == 0 && SizesListed(bits, huffsize[..])
    ensures fresh(huffcode) && huffcode.Length == 257
    ensures ok <==> Fits(bits)
    ensures ok ==> CodesListed(bits, huffcode[..], 16)
  {
    hide Pow2, End, UpTo, CodesListed, SizesListed;
    huffcode := new nat[257](_ => 0);
    var code: nat, p: nat := 0, 0;
    var si := huffsize[0];
    FirstSize(bits, huffsize[..], n, huffcode[..]);
    while huffsize[p] != 0
      invariant p <= n && si <= 17 && (p < n ==> 0 < si <= 16 && huffsize[p] != 0)
      invariant n > 0 ==> 0 < si <= 17 && p == UpTo(bits, si - 1) && code == 2 * End(bits, si - 1)
      invariant p > 0 ==> End(bits, si - 1) < Pow2(si - 1)
      invariant n > 0 ==> CodesListed(bits, huffcode[..], si - 1)
      decreases 17 - si
    {
      p, code := FillGroup(bits, huffsize, n, huffcode, p, code, si);
      if code >= Pow2(si) {
        if Fits(bits) { EndBelow(bits, si); }
        return false, huffcode;
      }
      code := 2 * code;
      si := si + 1;
      if p < n {
        SizeHere(bits, huffsize[..], n, p);
        MoreToCome(bits, n, p, si);
      }
    }
    if n == 0 {
      EmptyTable(bits, huffcode[..]);
    } else {
      LastFits(bits, si - 1);
      AllListed(bits, huffcode[..], si - 1);
    }
    ok := true;
  }

  lemma EmptyTable(bits: seq<nat>, codes: seq<nat>)
    requires |bits| == 17 && UpTo(bits, 16) == 0
    ensures Fits(bits) && CodesListed(bits, codes, 16)
  {
    NoneShorter(bits, 16);
    forall c | HasCode(bits, c) ensures false { IndexInRange(bits, c, 16); }
  }

  lemma MoreToCome(bits: seq<nat>, n: nat, p: nat, si: nat)
    requires |bits| == 17 && n == UpTo(bits, 16) && 0 < si <= 17 && p == UpTo(bits, si - 1) < n
    ensures si <= 16
  {
  }

  lemma AllListed(bits: seq<nat>, codes: seq<nat>, l: nat)
    requires |bits| == 17 && l <= 16 && UpTo(bits, l) == UpTo(bits, 16) && CodesListed(bits, codes, l)
    ensures CodesListed(bits, codes, 16)
  {
    forall c | HasCode(bits, c) && c.l <= 16 ensures c.l <= l {
      IndexInRange(bits, c, 16);
      if c.l > l { UpToMonotone(bits, l, c.l - 1); }
    }
  }

  lemma SizeHere(bits: seq<nat>, sizes: seq<nat>, n: nat, p: nat)
    requires |bits| == 17 && SizesListed(bits, sizes) && p < n == UpTo(bits, 16)
    ensures var l := sizes[p]; 0 < l <= 16 && UpTo(bits, l - 1) <= p < UpTo(bits, l)
  {
    var c := IndexOnto(bits, p, 16);
    IndexInRange(bits, c, 16);
  }

  lemma SizeWithin(bits: seq<nat>, sizes: seq<nat>, n: nat, p: nat, m: nat)
    requires |bits| == 17 && SizesListed(bits, sizes) && p < n == UpTo(bits, 16)
    requires 0 < m <= 16 && UpTo(bits, m - 1) <= p < UpTo(bits, m)
    ensures sizes[p] == m
  {
    SizeHere(bits, sizes, n, p);
    var l := sizes[p];
    if l < m { UpToMonotone(bits, l, m - 1); }
    if m < l { UpToMonotone(bits, m, l - 1); }
  }

  lemma FirstSize(bits: seq<nat>, sizes: seq<nat>, n: nat, codes: seq<nat>)
    requires |bits| == 17 && SizesListed(bits, sizes) && n == UpTo(bits, 16) < |sizes|
    ensures n > 0 ==> 0 < sizes[0] <= 16 && UpTo(bits, sizes[0] - 1) == 0 && End(bits, sizes[0] - 1) == 0
    ensures n > 0 ==> CodesListed(bits, codes, sizes[0] - 1)
  {
    if n > 0 {
      SizeHere(bits, sizes, n, 0);
      var l := sizes[0];
      NoneShorter(bits, l - 1);
      forall c | HasCode(bits, c) && c.l <= l - 1 ensures false {
        IndexInRange(bits, c, l - 1);
      }
    }
  }

  lemma GroupEnds(bits: seq<nat>, sizes: seq<nat>, n: nat, p: nat, si: nat)
    requires |bits| == 17 && SizesListed(bits, sizes) && n == UpTo(bits, 16) < |sizes| && sizes[n] == 0
    requires 0 < si <= 16 && UpTo(bits, si - 1) <= p <= UpTo(bits, si) && p <= n && sizes[p] != si
    ensures p == UpTo(bits, si)
  {
    UpToMonotone(bits, si, 16);
    if p < UpTo(bits, si) { SizeWithin(bits, sizes, n, p, si); }
  }

  lemma CodesGrow(bits: seq<nat>, before: seq<nat>, after: seq<nat>, l: nat)
    requires |bits| == 17 && 0 < l <= 16 && CodesListed(bits, before, l - 1) && |before| == |after|
    requires UpTo(bits, l) <= |after|
    requires forall q :: 0 <= q < UpTo(bits, l - 1) ==> after[q] == before[q]
    requires forall q :: UpTo(bits, l - 1) <= q < UpTo(bits, l) ==>
      after[q] == 2 * End(bits, l - 1) + (q - UpTo(bits, l - 1))
    ensures CodesListed(bits, after, l)
  {
    forall c | HasCode(bits, c) && c.l <= l
      ensures Index(bits, c) < |after| && after[Index(bits, c)] == CodeOf(bits, c)
    {
      if c.l < l { IndexInRange(bits, c, l - 1); }
    }
  }

  // ----- The encoder's table -----

  /** The symbol of a code. */
  function SymbolAt(t: Table, c: Symbol): (v: nat)
    requires t.Shape() && HasCode(t.bits, c) && UpTo(t.bits, 16) <= 256
    ensures v < 256
  {
    IndexInRange(t.bits, c, 16);
    t.vals[Index(t.bits, c)]
  }

  predicate Distinct(vals: seq<nat>, n: nat)
    requires n <= |vals|
  {
    forall p, q :: 0 <= p < q < n ==> vals[p] != vals[q]
  }

  /** What the encoder demands of a table. */
  ghost predicate EncoderOk(t: Table, isDC: bool)
    requires t.Shape()
  {
    && UpTo(t.bits, 16) <= 256 && Fits(t.bits)
    && Distinct(t.vals, UpTo(t.bits, 16))
    && forall p :: 0 <= p < UpTo(t.bits, 16) ==> t.vals[p] <= if isDC then 15 else 255
  }

  /** What the encoder works from: codes and sizes by symbol. */
  datatype EncoderTable = EncoderTable(ehufco: seq<nat>, ehufsi: seq<nat>)

  /** The codes and sizes are those of t, with size zero where there is no code. */
  ghost predicate Encodes(e: EncoderTable, t: Table) {
    && t.Shape() && |e.ehufco| == 256 && |e.ehufsi| == 256 && UpTo(t.bits, 16) <= 256
    && (forall c :: HasCode(t.bits, c) ==>
      e.ehufsi[SymbolAt(t, c)] == c.l && e.ehufco[SymbolAt(t, c)] == CodeOf(t.bits, c))
    && (forall v :: 0 <= v < 256 && e.ehufsi[v] != 0 ==> v in t.vals[..UpTo(t.bits, 16)])
  }

  /** Without counts in between the code space used up only doubles from length to length. */
  lemma {:induction false} EndUnused(bits: seq<nat>, l: nat, m: nat)
    requires l <= m < |bits| && forall i :: l < i <= m ==> bits[i] == 0
    ensures End(bits, m) == End(bits, l) * Pow2(m - l)
    decreases m - l
  {
    if l < m {
      EndUnused(bits, l, m - 1);
      MulAssoc(End(bits, l), Pow2(m - 1 - l), 2);
    }
  }

  lemma {:induction false} NoneBetween(bits: seq<nat>, l: nat, m: nat)
    requires l <= m < |bits| && UpTo(bits, l) == UpTo(bits, m)
    ensures forall i :: l < i <= m ==> bits[i] == 0
    decreases m - l
  {
    if l < m {
      UpToMonotone(bits, l, m - 1);
      NoneBetween(bits, l, m - 1);
    }
  }

  /** The code after a code is one more, with zeros behind it if it is longer. */
  lemma NextCode(bits: seq<nat>, c: Symbol, d: Symbol)
    requires HasCode(bits, c) && HasCode(bits, d) && Index(bits, d) == Index(bits, c) + 1
    ensures c.l <= d.l && CodeOf(bits, d) == (CodeOf(bits, c) + 1) * Pow2(d.l - c.l)
  {
    hide UpTo, End;
    IndexInRange(bits, c, c.l);
    IndexInRange(bits, d, d.l);
    CountStep(bits, c.l);
    CountStep(bits, d.l);
    if d.l < c.l { UpToMonotone(bits, d.l, c.l - 1); }
    if c.l < d.l {
      UpToMonotone(bits, c.l, d.l - 1);
      NoneBetween(bits, c.l, d.l - 1);
      EndUnused(bits, c.l, d.l - 1);
      MulAssoc(CodeOf(bits, c) + 1, Pow2(d.l - 1 - c.l), 2);
      TwicePow(d.l - c.l);
    }
  }

  lemma CountStep(bits: seq<nat>, l: nat)
    requires 0 < l < |bits|
    ensures UpTo(bits, l) == UpTo(bits, l - 1) + bits[l] && End(bits, l) == 2 * End(bits, l - 1) + bits[l]
  {
  }

  /** The first code is all zeros. */
  lemma FirstCode(bits: seq<nat>, c: Symbol)
    requires HasCode(bits, c) && Index(bits, c) == 0
    ensures CodeOf(bits, c) == 0
  {
    NoneBetween(bits, 0, c.l - 1);
    EndUnused(bits, 0, c.l - 1);
  }

  /** Main result: the codes in a derived table are those of Annex C of ITU-T T.81. In the order in which the
      symbols are listed, the first is zero, and each one is its predecessor plus one, shifted to its length,
      which never falls. */
  lemma CodesInOrder(e: EncoderTable, t: Table, p: nat)
    requires Encodes(e, t) && p < UpTo(t.bits, 16)
    ensures 0 < e.ehufsi[t.vals[p]] <= 16
    ensures p == 0 ==> e.ehufco[t.vals[p]] == 0
    ensures p > 0 ==> var u, v := t.vals[p - 1], t.vals[p];
      e.ehufsi[u] <= e.ehufsi[v] && e.ehufco[v] == (e.ehufco[u] + 1) * Pow2(e.ehufsi[v] - e.ehufsi[u])
  {
    hide UpTo, End, Index;
    var d := IndexOnto(t.bits, p, 16);
    assert SymbolAt(t, d) == t.vals[p];
    if p == 0 {
      FirstCode(t.bits, d);
    } else {
      var c := IndexOnto(t.bits, p - 1, 16);
      assert SymbolAt(t, c) == t.vals[p - 1];
      NextCode(t.bits, c, d);
    }
  }

  /** Enters codes and sizes by symbol; fails at the first symbol that is out of range or repeated. */
  method AssignCodes(t: Table, huffsize: array<nat>, huffcode: array<nat>, lastp: nat, maxsymbol: nat,
      ehufco: array<nat>, ehufsi: array<nat>) returns (ok: bool)
    requires t.Shape() && huffsize.Length == 257 && huffcode.Length == 257 && lastp == UpTo(t.bits, 16) <= 256
    requires SizesListed(t.bits, huffsize[..]) && ehufco.Length == 256 && ehufsi.Length == 256
    requires ehufco != ehufsi && huffsize != ehufco && huffsize != ehufsi && huffcode != ehufco && huffcode != ehufsi
    requires forall v :: 0 <= v < 256 ==> ehufsi[v] == 0
    modifies ehufco, ehufsi
    ensures ok <==> Distinct(t.vals, lastp) && forall p :: 0 <= p < lastp ==> t.vals[p] <= maxsymbol
    ensures ok ==> forall q :: 0 <= q < lastp ==> ehufco[t.vals[q]] == huffcode[q] && ehufsi[t.vals[q]] == huffsize[q]
    ensures ok ==> forall v :: 0 <= v < 256 && ehufsi[v] != 0 ==> v in t.vals[..lastp]
  {
    hide UpTo, SizesListed;
    var p := 0;
    while p < lastp
      invariant p <= lastp && Distinct(t.vals, p)
      invariant forall q :: 0 <= q < p ==> t.vals[q] <= maxsymbol
      invariant forall q :: 0 <= q < p ==> ehufco[t.vals[q]] == huffcode[q] && ehufsi[t.vals[q]] == huffsize[q] != 0
      invariant forall v :: 0 <= v < 256 && ehufsi[v] != 0 ==> v in t.vals[..p]
    {
      var i := t.vals[p];
      if i > maxsymbol {
        return false;
      }
      if ehufsi[i] != 0 {
        Repeated(t.vals, p, lastp);
        return false;
      }
      SizeHere(t.bits, huffsize[..], lastp, p);
      assert t.vals[..p + 1] == t.vals[..p] + [i];
      ehufco[i] := huffcode[p];
      ehufsi[i] := huffsize[p];
      p := p + 1;
    }
    ok := true;
  }

  lemma Repeated(vals: seq<nat>, p: nat, n: nat)
    requires p < n <= |vals| && vals[p] in vals[..p]
    ensures !Distinct(vals, n)
  {
    var q :| 0 <= q < p && vals[..p][q] == vals[p];
    assert vals[q] == vals[p];
  }

  method MakeEncoderTable(t: Table, isDC: bool) returns (ok: bool, e: EncoderTable)
    requires t.Shape()
    ensures ok <==> EncoderOk(t, isDC)
    ensures ok ==> Encodes(e, t)
  {
    hide UpTo, End, Distinct;
    var ehufco, ehufsi := new nat[256](_ => 0), new nat[256](_ => 0);
    e := EncoderTable([], []);
    var huffsize, huffcode, lastp;
    ok, huffsize, lastp := FillSizes(t.bits);
    if !ok { return; }
    ok, huffcode := FillCodes(t.bits, huffsize, lastp);
    if !ok { return; }
    ok := AssignCodes(t, huffsize, huffcode, lastp, if isDC then 15 else 255, ehufco, ehufsi);
    if ok {
      forall c | HasCode(t.bits, c)
        ensures ehufsi[SymbolAt(t, c)] == c.l && ehufco[SymbolAt(t, c)] == CodeOf(t.bits, c)
      {
        IndexInRange(t.bits, c, 16);
        assert huffsize[..][Index(t.bits, c)] == c.l && huffcode[..][Index(t.bits, c)] == CodeOf(t.bits, c);
      }
      e := EncoderTable(ehufco[..], ehufsi[..]);
    }
  }

  // ----- The decoder's table -----

  /** What the decoder demands of a table. */
  ghost predicate DecoderOk(t: Table, isDC: bool)
    requires t.Shape()
  {
    && UpTo(t.bits, 16) <= 256 && Fits(t.bits)
    && (isDC ==> forall p :: 0 <= p < UpTo(t.bits, 16) ==> t.vals[p] <= 15)
  }

  /** The first eight bits of a code and anything after it. */
  predicate Covers(bits: seq<nat>, c: Symbol, w: nat)
    requires HasCode(bits, c) && c.l <= 8
  {
    w / Pow2(8 - c.l) == CodeOf(bits, c)
  }

  /** What the decoder works from: largest codes and offsets by length, the lookahead entries, and
      the symbols. */
  datatype DecoderTable = DecoderTable(maxcode: seq<int>, valoffset: seq<int>, lookup: seq<nat>, huffval: seq<nat>)

  ghost predicate Decodes(d: DecoderTable, t: Table) {
    && t.Shape() && UpTo(t.bits, 16) <= 256 && |d.maxcode| == 18 && |d.valoffset| == 18 && |d.lookup| == 256
    && (forall l :: 0 < l <= 16 ==> d.maxcode[l] == MaxCode(t.bits, l))
    && (forall l :: 0 < l <= 16 && t.bits[l] > 0 ==> d.valoffset[l] == UpTo(t.bits, l - 1) - First(t.bits, l))
    && d.maxcode[17] == 0xFFFFF && d.valoffset[17] == 0
    && LookupOk(t, d.lookup) && d.huffval == t.vals
  }

  ghost predicate LookupOk(t: Table, lookup: seq<nat>)
    requires t.Shape() && UpTo(t.bits, 16) <= 256 && |lookup| == 256
  {
    && (forall c, w :: HasCode(t.bits, c) && c.l <= 8 && 0 <= w < 256 && Covers(t.bits, c, w)
          ==> lookup[w] == 256 * c.l + SymbolAt(t, c))
    && (forall w :: 0 <= w < 256 ==>
      lookup[w] == 256 * 9 || exists c :: HasCode(t.bits, c) && c.l <= 8 && Covers(t.bits, c, w))
  }

  method FillBounds(t: Table, huffcode: array<nat>) returns (maxcode: array<int>, valoffset: array<int>)
    requires t.Shape() && UpTo(t.bits, 16) <= 256 && CodesListed(t.bits, huffcode[..], 16)
    ensures fresh(maxcode) && fresh(valoffset) && maxcode.Length == 18 && valoffset.Length == 18
    ensures forall l :: 0 < l <= 16 ==> maxcode[l] == MaxCode(t.bits, l)
    ensures forall l :: 0 < l <= 16 && t.bits[l] > 0 ==> valoffset[l] == UpTo(t.bits, l - 1) - First(t.bits, l)
    ensures maxcode[17] == 0xFFFFF && valoffset[17] == 0
  {
    hide UpTo, End, CodesListed;
    maxcode, valoffset := new int[18](_ => 0), new int[18](_ => 0);
    ghost var codes := huffcode[..];
    var p := 0;
    NoneYet(t.bits);
    for l := 1 to 17
      invariant p == UpTo(t.bits, l - 1) && huffcode[..] == codes
      invariant forall m :: 0 < m < l ==> maxcode[m] == MaxCode(t.bits, m)
      invariant forall m :: 0 < m < l && t.bits[m] > 0 ==> valoffset[m] == UpTo(t.bits, m - 1) - First(t.bits, m)
    {
      OneLength(t.bits, codes, l);
      if t.bits[l] > 0 {
        valoffset[l] := p - huffcode[p];
        p := p + t.bits[l];
        maxcode[l] := huffcode[p - 1];
      } else {
        maxcode[l] := -1;
      }
    }
    valoffset[17] := 0;
    maxcode[17] := 0xFFFFF;
  }

  lemma NoneYet(bits: seq<nat>)
    requires |bits| == 17
    ensures UpTo(bits, 0) == 0 && End(bits, 0) == 0
  {
  }

  /** The first and the last code of one length, and the position after them. */
  lemma OneLength(bits: seq<nat>, codes: seq<nat>, l: nat)
    requires |bits| == 17 && 0 < l <= 16 && CodesListed(bits, codes, 16)
    ensures UpTo(bits, l) == UpTo(bits, l - 1) + bits[l] && End(bits, l) == First(bits, l) + bits[l]
    ensures bits[l] > 0 ==> (UpTo(bits, l) <= |codes|
      && codes[UpTo(bits, l - 1)] == First(bits, l) && codes[UpTo(bits, l) - 1] == End(bits, l) - 1)
  {
    if bits[l] > 0 {
      CodeListed(bits, codes, Symbol(l, 0));
      CodeListed(bits, codes, Symbol(l, bits[l] - 1));
    }
  }

  lemma CodeListed(bits: seq<nat>, codes: seq<nat>, c: Symbol)
    requires |bits| == 17 && HasCode(bits, c) && CodesListed(bits, codes, 16)
    ensures Index(bits, c) < |codes| && codes[Index(bits, c)] == CodeOf(bits, c)
  {
  }

  // ----- The lookahead table -----

  ghost predicate Entry(t: Table, c: Symbol, w: nat, e: nat)
    requires t.Shape() && UpTo(t.bits, 16) <= 256
  {
    HasCode(t.bits, c) && c.l <= 8 && Covers(t.bits, c, w) && e == 256 * c.l + SymbolAt(t, c)
  }

  ghost predicate Filled(t: Table, w: nat, e: nat)
    requires t.Shape() && UpTo(t.bits, 16) <= 256
  {
    exists c :: Entry(t, c, w, e)
  }

  /** Entries below f are filled, the others still say that the code is too long. */
  ghost predicate FilledTo(t: Table, lookup: seq<nat>, f: nat)
    requires t.Shape() && UpTo(t.bits, 16) <= 256
  {
    && |lookup| == 256 && f <= 256
    && (forall w :: 0 <= w < f ==> Filled(t, w, lookup[w]))
    && (forall w :: f <= w < 256 ==> lookup[w] == 256 * 9)
  }

  lemma WithinCode(x: nat, w: nat, p: nat)
    requires p > 0 && x * p <= w < x * p + p
    ensures w / p == x
  {
    if w / p < x { MulMonotone(w / p + 1, x, p); }
    if w / p > x { MulMonotone(x + 1, w / p, p); }
    assert w == w / p * p + w % p;
  }

  lemma CodeRoom(bits: seq<nat>, c: Symbol)
    requires |bits| == 17 && Fits(bits) && HasCode(bits, c) && c.l <= 8
    ensures CodeOf(bits, c) * Pow2(8 - c.l) + Pow2(8 - c.l) <= 256
  {
    NoAllOnes(bits, c);
    Pow2Add(c.l, 8 - c.l);
    Pow2Small();
    MulMonotone(CodeOf(bits, c) + 1, Pow2(c.l), Pow2(8 - c.l));
  }

  /** Fills the entries of one code: all bit strings of eight bits that start with it. */
  method FillEntries(t: Table, c: Symbol, code: nat, symbol: nat, lookup: array<nat>)
    requires t.Shape() && UpTo(t.bits, 16) <= 256 && Fits(t.bits) && HasCode(t.bits, c) && c.l <= 8
    requires code == CodeOf(t.bits, c) && symbol == SymbolAt(t, c)
    requires lookup.Length == 256 && FilledTo(t, lookup[..], code * Pow2(8 - c.l))
    modifies lookup
    ensures FilledTo(t, lookup[..], (code + 1) * Pow2(8 - c.l))
  {
    hide Pow2, UpTo, SymbolAt, FilledTo, End, Fits;
    CodeRoom(t.bits, c);
    var span := Pow2(8 - c.l);
    var lookbits := code * span;
    NextTimes(code, span);
    var ctr := span;
    while ctr > 0
      invariant ctr <= span && lookbits == code * span + (span - ctr)
      invariant FilledTo(t, lookup[..], lookbits)
    {
      WithinCode(code, lookbits, span);
      ghost var before := lookup[..];
      lookup[lookbits] := 256 * c.l + symbol;
      FilledOne(t, before, lookup[..], c, lookbits);
      lookbits := lookbits + 1;
      ctr := ctr - 1;
    }
  }

  lemma NextTimes(x: nat, p: nat)
    ensures (x + 1) * p == x * p + p
  {
  }

  lemma FilledOne(t: Table, before: seq<nat>, after: seq<nat>, c: Symbol, f: nat)
    requires t.Shape() && UpTo(t.bits, 16) <= 256 && FilledTo(t, before, f) && f < 256
    requires HasCode(t.bits, c) && c.l <= 8 && Covers(t.bits, c, f)
    requires after == before[f := 256 * c.l + SymbolAt(t, c)]
    ensures FilledTo(t, after, f + 1)
  {
    hide UpTo, SymbolAt, Covers;
    assert Entry(t, c, f, after[f]);
    forall w | 0 <= w < f + 1 ensures Filled(t, w, after[w]) {
      if w == f {
        assert Entry(t, c, w, after[w]);
      } else {
        assert Filled(t, w, before[w]);
        var d :| Entry(t, d, w, before[w]);
        assert Entry(t, d, w, after[w]);
      }
    }
  }

  method FillLookup(t: Table, huffcode: array<nat>) returns (lookup: array<nat>)
    requires t.Shape() && UpTo(t.bits, 16) <= 256 && Fits(t.bits) && CodesListed(t.bits, huffcode[..], 16)
    ensures fresh(lookup) && lookup.Length == 256 && LookupOk(t, lookup[..])
  {
    hide UpTo, End, Pow2, LookupOk, FilledTo, CodesListed, Covers;
    lookup := new nat[256](_ => 256 * 9);
    ghost var codes := huffcode[..];
    NothingFilled(t, lookup[..]);
    NoneYet(t.bits);
    var p := 0;
    for l := 1 to 9
      invariant p == UpTo(t.bits, l - 1) && huffcode[..] == codes
      invariant FilledTo(t, lookup[..], End(t.bits, l - 1) * Pow2(9 - l))
    {
      FrontierStep(t.bits, l);
      OneLength(t.bits, codes, l);
      for i := 0 to t.bits[l]
        invariant p == UpTo(t.bits, l - 1) + i && huffcode[..] == codes
        invariant FilledTo(t, lookup[..], (First(t.bits, l) + i) * Pow2(8 - l))
      {
        var c := Symbol(l, i);
        CodeListed(t.bits, codes, c);
        IndexInRange(t.bits, c, 16);
        FillEntries(t, c, huffcode[p], t.vals[p], lookup);
        p := p + 1;
      }
    }
    LookupComplete(t, lookup[..]);
  }

  lemma NothingFilled(t: Table, lookup: seq<nat>)
    requires t.Shape() && UpTo(t.bits, 16) <= 256 && |lookup| == 256 && forall w :: 0 <= w < 256 ==>
      lookup[w] == 256 * 9
    ensures FilledTo(t, lookup, End(t.bits, 0) * Pow2(8))
  {
  }

  lemma FrontierStep(bits: seq<nat>, l: nat)
    requires 0 < l <= 8 && |bits| == 17
    ensures End(bits, l - 1) * Pow2(9 - l) == First(bits, l) * Pow2(8 - l)
  {
    MulAssoc(End(bits, l - 1), 2, Pow2(8 - l));
  }

  lemma {:induction false} CoversOnce(bits: seq<nat>, c: Symbol, d: Symbol, w: nat)
    requires |bits| == 17 && HasCode(bits, c) && HasCode(bits, d) && c.l <= d.l <= 8
    requires Covers(bits, c, w) && Covers(bits, d, w)
    ensures c == d
  {
    Pow2Add(8 - d.l, d.l - c.l);
    DivTwice(w, Pow2(8 - d.l), Pow2(d.l - c.l));
    if c != d { PrefixFree(bits, c, d); }
  }

  /** A full lookahead table says, for each eight bits, which short code they start with. */
  lemma LookupComplete(t: Table, lookup: seq<nat>)
    requires t.Shape() && UpTo(t.bits, 16) <= 256 && FilledTo(t, lookup, End(t.bits, 8) * Pow2(0))
    ensures LookupOk(t, lookup)
  {
    hide UpTo, SymbolAt;
    var f := End(t.bits, 8);
    assert Pow2(0) == 1;
    assert FilledTo(t, lookup, f);
    forall c, w | HasCode(t.bits, c) && c.l <= 8 && 0 <= w < 256 && Covers(t.bits, c, w)
      ensures lookup[w] == 256 * c.l + SymbolAt(t, c)
    {
      CoveredBelow(t.bits, c, w);
      assert Filled(t, w, lookup[w]);
      var d :| Entry(t, d, w, lookup[w]);
      if c.l <= d.l { CoversOnce(t.bits, c, d, w); } else { CoversOnce(t.bits, d, c, w); }
    }
    forall w | 0 <= w < 256
      ensures lookup[w] == 256 * 9 || exists c :: HasCode(t.bits, c) && c.l <= 8 && Covers(t.bits, c, w)
    {
      if w < f {
        assert Filled(t, w, lookup[w]);
        var d :| Entry(t, d, w, lookup[w]);
        assert Covers(t.bits, d, w);
      }
    }
  }

  lemma CoveredBelow(bits: seq<nat>, c: Symbol, w: nat)
    requires |bits| == 17 && HasCode(bits, c) && c.l <= 8 && Covers(bits, c, w)
    ensures w < End(bits, 8)
  {
    var p, x := Pow2(8 - c.l), CodeOf(bits, c);
    EndGrows(bits, c.l, 8);
    hide Pow2, End;
    MulMonotone(x + 1, End(bits, c.l), p);
    QuotientBelow(w, p, x);
  }

  lemma QuotientBelow(w: nat, p: nat, x: nat)
    requires p > 0 && w / p == x
    ensures w < (x + 1) * p
  {
    assert w == w / p * p + w % p;
  }

  method MakeDecoderTable(t: Table, isDC: bool) returns (ok: bool, d: DecoderTable)
    requires t.Shape()
    ensures ok <==> DecoderOk(t, isDC)
    ensures ok ==> Decodes(d, t)
  {
    hide UpTo, End, LookupOk, CodesListed;
    d := DecoderTable([], [], [], []);
    var huffsize, huffcode, numsymbols;
    ok, huffsize, numsymbols := FillSizes(t.bits);
    if !ok { return; }
    ok, huffcode := FillCodes(t.bits, huffsize, numsymbols);
    if !ok { return; }
    var maxcode, valoffset := FillBounds(t, huffcode);
    var lookup := FillLookup(t, huffcode);
    d := DecoderTable(maxcode[..], valoffset[..], lookup[..], t.vals);
    if isDC {
      for i := 0 to numsymbols
        invariant forall p :: 0 <= p < i ==> t.vals[p] <= 15
      {
        if t.vals[i] > 15 {
          return false, d;
        }
      }
    }
  }
}
