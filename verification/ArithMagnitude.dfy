/** Coding a magnitude as binary decisions: a unary category, then the bits below its leading
    one. (Figures F.8 and F.9, F.23 and F.24 of ITU-T T.81.) */
module ArithMagnitude {
  import opened Bits
  import opened Coefficients
  import opened QmCoder

  /** Addresses from which a magnitude can be coded without leaving the statistics areas. */
  type MagSite = a: nat | a <= 5091

  // ----- Encoder side: the decisions -----

  function One(st: Addr, val: bool): seq<Decision> { [Decision(st, val)] }

  /** n further categories, each with its own bin. */
  function Climb(n: nat, st: MagSite): seq<Decision>
    requires n < 16
    decreases n
  {
    if n == 0 then [] else Climb(n - 1, st) + One(st + (n - 1), true)
  }

  /** The low c bits of u, most significant first, all with one bin. */
  function Pattern(c: nat, u: nat, st: Addr): seq<Decision>
    decreases c
  {
    if c == 0 then [] else One(st, u / Pow2(c - 1) % 2 == 1) + Pattern(c - 1, u, st)
  }

  /** The rest of the category, started at c0 with the bins from st on, and the bit pattern. */
  function Rest(c0: nat, u: nat, st: MagSite): seq<Decision>
    requires 0 < u < 0x10000 && c0 < NBits(u)
  {
    CategoryBound(u);
    var n := NBits(u) - 1 - c0;
    Climb(n, st) + One(st + n, false) + Pattern(NBits(u) - 1, u, st + n + 14)
  }

  /** Sixteen categories suffice; the decoder knows fifteen. */
  lemma CategoryBound(u: nat)
    requires u < 0x10000
    ensures NBits(u) <= 16 && (NBits(u) <= 15 <==> u < 0x8000)
  {
    Pow2Words();
    NBitsAtMost(u, 16);
    if u < 0x8000 {
      NBitsAtMost(u, 15);
    } else {
      NBitsBounds(u);
      Pow2Monotone(NBits(u), if NBits(u) <= 15 then 15 else NBits(u));
    }
  }

  /** The decisions for a DC magnitude u + 1: first bin st, later ones from x on. */
  function DcMagnitude(u: nat, st: MagSite, x: MagSite): seq<Decision>
    requires u < 0x10000
  {
    if u == 0 then One(st, false) else One(st, true) + Rest(0, u, x)
  }

  /** The decisions for an AC magnitude u + 1: the first two bins are both st. */
  function AcMagnitude(u: nat, st: MagSite, x: MagSite): seq<Decision>
    requires u < 0x8000
  {
    if u == 0 then One(st, false)
    else if u == 1 then One(st, true) + One(st, false)
    else One(st, true) + One(st, true) + Rest(1, u, x)
  }

  // ----- Which bins a magnitude is coded with -----

  lemma {:induction false} ClimbBins(n: nat, st: MagSite)
    requires n < 16
    ensures |Climb(n, st)| == n && forall j :: 0 <= j < n ==> Climb(n, st)[j] == Decision(st + j, true)
  {
    if n > 0 { ClimbBins(n - 1, st); }
  }

  lemma {:induction false} PatternBins(c: nat, u: nat, st: Addr)
    ensures |Pattern(c, u, st)| == c
    ensures forall i :: 0 <= i < c ==> Pattern(c, u, st)[i] == Decision(st, u / Pow2(c - 1 - i) % 2 == 1)
  {
    hide Pow2;
    if c > 0 {
      PatternBins(c - 1, u, st);
      forall i | 0 <= i < c ensures Pattern(c, u, st)[i] == Decision(st, u / Pow2(c - 1 - i) % 2 == 1) {
        if i > 0 { assert Pattern(c, u, st)[i] == Pattern(c - 1, u, st)[i - 1]; }
      }
    }
  }

  /** Is there a bin of its own for each category from x on, n yeses and a no? */
  predicate CategoryIs(ts: seq<Decision>, n: nat, x: nat)
    requires x + n < 5121
  {
    |ts| == n + 1 && forall j :: 0 <= j <= n ==> ts[j] == Decision(x + j, j < n)
  }

  /** Do the low c bits of u share a bin, the most significant first? */
  predicate BitsAre(ts: seq<Decision>, c: nat, u: nat, st: Addr) {
    |ts| == c && forall i :: 0 <= i < c ==> ts[i] == Decision(st, u / Pow2(c - 1 - i) % 2 == 1)
  }

  /** A category of n more bits, and fourteen bins after its last one that of the bits below the leading one. */
  ghost predicate RestIs(ts: seq<Decision>, n: nat, u: nat, x: nat)
    requires x + n + 14 < 5121
  {
    |ts| > n && NBits(u) > 0 && CategoryIs(ts[..n + 1], n, x) && BitsAre(ts[n + 1..], NBits(u) - 1, u, x + n + 14)
  }

  lemma RestBins(c0: nat, u: nat, x: MagSite)
    requires 0 < u < 0x10000 && c0 < NBits(u)
    ensures NBits(u) <= 16 && RestIs(Rest(c0, u, x), NBits(u) - 1 - c0, u, x)
  {
    hide NBits, Pow2, Climb, Pattern;
    CategoryBound(u);
    var n := NBits(u) - 1 - c0;
    ClimbBins(n, x);
    PatternBins(NBits(u) - 1, u, x + n + 14);
    RestParts(Climb(n, x) + One(x + n, false), Pattern(NBits(u) - 1, u, x + n + 14));
  }

  lemma RestParts(a: seq<Decision>, b: seq<Decision>)
    ensures (a + b)[..|a|] == a && (a + b)[|a|..] == b
  {
  }

  /** A DC magnitude over one has a bin for that, and the rest starts at x. */
  lemma DcMagnitudeBins(u: nat, st: MagSite, x: MagSite)
    requires u < 0x10000
    ensures var ts := DcMagnitude(u, st, x);
      && |ts| > 0 && ts[0] == Decision(st, u > 0) && (u == 0 ==> |ts| == 1)
      && (u > 0 ==> 0 < NBits(u) <= 16 && RestIs(ts[1..], NBits(u) - 1, u, x))
  {
    hide Rest, RestIs;
    if u > 0 {
      NBitsBounds(u);
      RestBins(0, u, x);
      RestParts(One(st, true), Rest(0, u, x));
    }
  }

  /** An AC magnitude over one, and one over two, share a bin, and the rest starts at x. */
  lemma AcMagnitudeBins(u: nat, st: MagSite, x: MagSite)
    requires u < 0x8000
    ensures var ts := AcMagnitude(u, st, x);
      && |ts| > 0 && ts[0] == Decision(st, u > 0) && (u == 0 ==> |ts| == 1)
      && (u > 0 ==> |ts| > 1 && ts[1] == Decision(st, u > 1)) && (u == 1 ==> |ts| == 2)
      && (u > 1 ==> 1 < NBits(u) <= 16 && RestIs(ts[2..], NBits(u) - 2, u, x))
  {
    hide Rest, RestIs;
    if u > 1 {
      RestBins(1, u, x);
      RestParts(One(st, true) + One(st, true), Rest(1, u, x));
    }
  }

  // ----- All of them in one area -----

  /** Every decision has its bin from lo on and below hi, or the fixed bin. */
  predicate BinsIn(ts: seq<Decision>, lo: nat, hi: nat) {
    forall i :: 0 <= i < |ts| ==> lo <= ts[i].st < hi || ts[i].st == FIXED
  }

  lemma BinsInConcat(a: seq<Decision>, b: seq<Decision>, lo: nat, hi: nat)
    requires BinsIn(a, lo, hi) && BinsIn(b, lo, hi)
    ensures BinsIn(a + b, lo, hi)
  {
  }

  lemma RestBinsIn(c0: nat, u: nat, x: MagSite, lo: nat, hi: nat)
    requires 0 < u < 0x10000 && c0 < NBits(u) && lo <= x && x + 30 <= hi
    ensures BinsIn(Rest(c0, u, x), lo, hi)
  {
    hide NBits, Climb, Pattern, Pow2;
    CategoryBound(u);
    var n := NBits(u) - 1 - c0;
    ClimbBins(n, x);
    PatternBins(NBits(u) - 1, u, x + n + 14);
    BinsInConcat(Climb(n, x), One(x + n, false), lo, hi);
    BinsInConcat(Climb(n, x) + One(x + n, false), Pattern(NBits(u) - 1, u, x + n + 14), lo, hi);
  }

  lemma DcMagnitudeBinsIn(u: nat, st: MagSite, x: MagSite, lo: nat, hi: nat)
    requires u < 0x10000 && lo <= st < hi && lo <= x && x + 30 <= hi
    ensures BinsIn(DcMagnitude(u, st, x), lo, hi)
  {
    hide Rest;
    if u > 0 {
      RestBinsIn(0, u, x, lo, hi);
      BinsInConcat(One(st, true), Rest(0, u, x), lo, hi);
    }
  }

  lemma AcMagnitudeBinsIn(u: nat, st: MagSite, x: MagSite, lo: nat, hi: nat)
    requires u < 0x8000 && lo <= st < hi && lo <= x && x + 30 <= hi
    ensures BinsIn(AcMagnitude(u, st, x), lo, hi)
  {
    hide Rest;
    if u > 1 {
      RestBinsIn(1, u, x, lo, hi);
      BinsInConcat(One(st, true) + One(st, true), Rest(1, u, x), lo, hi);
    }
  }

  // ----- Decoder side: what is done with the answers -----

  /** A category and the bin it stopped at; none if the category would not fit. */
  datatype Category = Category(c: nat, st: Addr) | Overflow

  /** Climbs from category c, whose further decisions start at st. */
  function ReadCategory(d: DecCoder, c: nat, st: Addr): (r: (DecCoder, Category))
    requires c < 15 && st + (14 - c) <= 5106
    ensures r.1.Category? ==> c <= r.1.c < 15 && r.1.st == st + (r.1.c - c)
    decreases 15 - c
  {
    var (d1, b) := Decode(d, st);
    if !b then (d1, Category(c, st))
    else if c + 1 == 15 then (d1, Overflow)
    else ReadCategory(d1, c + 1, st + 1)
  }

  /** v with bit b set, where b is a power of two. */
  function OrBit(v: nat, b: nat): nat
    requires b > 0
  {
    if v / b % 2 == 1 then v else v + b
  }

  /** Reads the low c bits of a magnitude whose higher bits are v. */
  function ReadPattern(d: DecCoder, c: nat, v: nat, st: Addr): (r: (DecCoder, nat))
    decreases c
  {
    if c == 0 then (d, v)
    else
      var (d1, b) := Decode(d, st);
      ReadPattern(d1, c - 1, if b then OrBit(v, Pow2(c - 1)) else v, st)
  }

  datatype Magnitude = Magnitude(u: nat) | TooLarge

  function ReadRest(d: DecCoder, c0: nat, st: MagSite): (DecCoder, Magnitude)
    requires c0 < 15
  {
    var (d1, r) := ReadCategory(d, c0, st);
    if r.Overflow? then (d1, TooLarge)
    else
      var (d2, u) := ReadPattern(d1, r.c, Pow2(r.c), r.st + 14);
      (d2, Magnitude(u))
  }

  function ReadDcMagnitude(d: DecCoder, st: MagSite, x: MagSite): (DecCoder, Magnitude) {
    var (d1, b) := Decode(d, st);
    if !b then (d1, Magnitude(0)) else ReadRest(d1, 0, x)
  }

  function ReadAcMagnitude(d: DecCoder, st: MagSite, x: MagSite): (DecCoder, Magnitude) {
    var (d1, b) := Decode(d, st);
    if !b then (d1, Magnitude(0))
    else
      var (d2, b2) := Decode(d1, st);
      if !b2 then (d2, Magnitude(1)) else ReadRest(d2, 1, x)
  }

  // ----- A decoder that follows the encoder's decisions gets the magnitude back -----

  lemma FollowsOne(d: DecCoder, st: Addr, val: bool)
    requires Follows(d, One(st, val))
    ensures Decode(d, st) == (DecodeAll(d, One(st, val)), val)
  {
    var t := One(st, val);
    assert t[1..] == [];
    hide Decode;
    assert DecodeAll(d, t) == DecodeAll(Decode(d, st).0, t[1..]);
  }

  lemma {:induction false} ClimbFollows(d: DecCoder, c: nat, n: nat, st: MagSite)
    requires c + n < 15 && st + (14 - c) <= 5106 && Follows(d, Climb(n, st))
    ensures ReadCategory(d, c, st) == ReadCategory(DecodeAll(d, Climb(n, st)), c + n, st + n)
    decreases n
  {
    hide Decode;
    if n > 0 {
      FollowsConcat(d, Climb(n - 1, st), One(st + (n - 1), true));
      ClimbFollows(d, c, n - 1, st);
      FollowsOne(DecodeAll(d, Climb(n - 1, st)), st + (n - 1), true);
    } else {
      assert DecodeAll(d, []) == d;
    }
  }

  /** u with its low c bits cleared. */
  function Above(u: nat, c: nat): nat { Mag(u, c) * Pow2(c) }

  lemma NextBit(u: nat, c: nat)
    requires c > 0
    ensures var b := u / Pow2(c - 1) % 2 == 1;
      Above(u, c - 1) == if b then OrBit(Above(u, c), Pow2(c - 1)) else Above(u, c)
  {
    MagStep(u, c - 1);
    SetBit(Mag(u, c), Pow2(c - 1));
  }

  lemma SetBit(h: nat, p: nat)
    requires p > 0
    ensures h * (2 * p) == 2 * h * p && OrBit(h * (2 * p), p) == (2 * h + 1) * p
  {
    assert h * (2 * p) == 2 * h * p;
    QuotientUnique(h * (2 * p), p, 2 * h, 0);
  }

  lemma {:induction false} PatternFollows(d: DecCoder, c: nat, u: nat, st: Addr)
    requires Follows(d, Pattern(c, u, st))
    ensures ReadPattern(d, c, Above(u, c), st) == (DecodeAll(d, Pattern(c, u, st)), u)
    decreases c
  {
    hide Decode, Above, OrBit;
    if c == 0 {
      AboveZero(u);
    } else {
      var b := u / Pow2(c - 1) % 2 == 1;
      FollowsConcat(d, One(st, b), Pattern(c - 1, u, st));
      FollowsOne(d, st, b);
      NextBit(u, c);
      PatternFollows(DecodeAll(d, One(st, b)), c - 1, u, st);
    }
  }

  lemma AboveZero(u: nat)
    ensures Above(u, 0) == u
  {
  }

  lemma AboveLeading(u: nat)
    requires u > 0
    ensures Above(u, NBits(u) - 1) == Pow2(NBits(u) - 1)
  {
    NBitsBounds(u);
    QuotientUnique(u, Pow2(NBits(u) - 1), 1, u - Pow2(NBits(u) - 1));
  }

  /** The category, and then the bit pattern. */
  lemma RestSplit(d: DecCoder, c0: nat, u: nat, st: MagSite)
    requires 0 < u < 0x10000 && c0 < 15 && c0 < NBits(u) && Follows(d, Rest(c0, u, st))
    ensures NBits(u) <= 16
    ensures var c, n := NBits(u) - 1, NBits(u) - 1 - c0;
      var t0, t1, t2 := Climb(n, st), One(st + n, false), Pattern(c, u, st + n + 14);
      && Rest(c0, u, st) == t0 + t1 + t2 && Follows(d, t0) && Follows(DecodeAll(d, t0), t1)
      && DecodeAll(DecodeAll(d, t0), t1) == DecodeAll(d, t0 + t1)
      && Follows(DecodeAll(d, t0 + t1), t2) && DecodeAll(DecodeAll(d, t0 + t1), t2) == DecodeAll(d, Rest(c0, u, st))
  {
    hide NBits, Follows, DecodeAll, Climb, Pattern, One;
    CategoryBound(u);
    var n := NBits(u) - 1 - c0;
    var t0, t1, t2 := Climb(n, st), One(st + n, false), Pattern(NBits(u) - 1, u, st + n + 14);
    FollowsConcat(d, t0 + t1, t2);
    FollowsConcat(d, t0, t1);
  }

  lemma RestFollows(d: DecCoder, c0: nat, u: nat, st: MagSite)
    requires 0 < u < 0x8000 && c0 < 15 && c0 < NBits(u) && Follows(d, Rest(c0, u, st))
    ensures ReadRest(d, c0, st) == (DecodeAll(d, Rest(c0, u, st)), Magnitude(u))
  {
    hide NBits, Decode, Above, Pattern, Climb, Follows, DecodeAll, Rest, One;
    CategoryBound(u);
    RestSplit(d, c0, u, st);
    var n := NBits(u) - 1 - c0;
    var t0 := Climb(n, st);
    ClimbFollows(d, c0, n, st);
    FollowsOne(DecodeAll(d, t0), st + n, false);
    AboveLeading(u);
    PatternFollows(DecodeAll(d, t0 + One(st + n, false)), NBits(u) - 1, u, st + n + 14);
  }

  /** Sixteen categories are one too many for the decoder. */
  lemma RestTooLarge(d: DecCoder, u: nat, st: MagSite)
    requires 0x8000 <= u < 0x10000 && 0 < NBits(u) && Follows(d, Rest(0, u, st))
    ensures ReadRest(d, 0, st).1 == TooLarge
  {
    hide NBits, Decode, Pattern, Climb, Follows, DecodeAll, Rest, One;
    CategoryBound(u);
    RestSplit(d, 0, u, st);
    ClimbSplit(st);
    FollowsConcat(d, Climb(14, st), One(st + 14, true));
    ClimbFollows(d, 0, 14, st);
    FollowsOne(DecodeAll(d, Climb(14, st)), st + 14, true);
  }

  lemma ClimbSplit(st: MagSite)
    ensures Climb(15, st) == Climb(14, st) + One(st + 14, true)
  {
  }

  lemma DcMagnitudeTooLarge(d: DecCoder, u: nat, st: MagSite, x: MagSite)
    requires 0x8000 <= u < 0x10000 && Follows(d, DcMagnitude(u, st, x))
    ensures ReadDcMagnitude(d, st, x).1 == TooLarge
  {
    hide Decode, Rest, ReadRest;
    FollowsConcat(d, One(st, true), Rest(0, u, x));
    FollowsOne(d, st, true);
    RestTooLarge(DecodeAll(d, One(st, true)), u, x);
  }

  lemma DcMagnitudeFollows(d: DecCoder, u: nat, st: MagSite, x: MagSite)
    requires u < 0x8000 && Follows(d, DcMagnitude(u, st, x))
    ensures ReadDcMagnitude(d, st, x) == (DecodeAll(d, DcMagnitude(u, st, x)), Magnitude(u))
  {
    hide Decode, Rest, ReadRest;
    if u == 0 {
      FollowsOne(d, st, false);
    } else {
      FollowsConcat(d, One(st, true), Rest(0, u, x));
      FollowsOne(d, st, true);
      RestFollows(DecodeAll(d, One(st, true)), 0, u, x);
    }
  }

  lemma AcMagnitudeFollows(d: DecCoder, u: nat, st: MagSite, x: MagSite)
    requires u < 0x8000 && Follows(d, AcMagnitude(u, st, x))
    ensures ReadAcMagnitude(d, st, x) == (DecodeAll(d, AcMagnitude(u, st, x)), Magnitude(u))
  {
    hide Decode, Rest, ReadRest;
    if u == 0 {
      FollowsOne(d, st, false);
    } else {
      var t0, t1 := One(st, true), if u == 1 then One(st, false) else One(st, true);
      if u > 1 { FollowsConcat(d, t0 + t1, Rest(1, u, x)); }
      FollowsConcat(d, t0, t1);
      FollowsOne(d, st, true);
      FollowsOne(DecodeAll(d, t0), st, u > 1);
      if u > 1 { RestFollows(DecodeAll(d, t0 + t1), 1, u, x); }
    }
  }
}
