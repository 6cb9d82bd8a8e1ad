/** DCT coefficients: bit lengths, the point transform, zigzag order. */
module Coefficients {
  import opened Bits

  function Abs(x: int): nat { if x < 0 then -x else x }

  /** Bits needed for a magnitude. */
  function NBits(v: nat): nat {
    if v == 0 then 0 else 1 + NBits(v / 2)
  }

  lemma {:induction false} NBitsBounds(v: nat)
    requires v > 0
    ensures NBits(v) > 0 && Pow2(NBits(v) - 1) <= v < Pow2(NBits(v))
  {
    if v > 1 { NBitsBounds(v / 2); }
  }

  lemma NBitsAtMost(v: nat, n: nat)
    requires v < Pow2(n)
    ensures NBits(v) <= n
  {
    if v > 0 && NBits(v) > n {
      NBitsBounds(v);
      Pow2Monotone(n, NBits(v) - 1);
    }
  }

  /** The conversion of a wide integer to a 16-bit coefficient. */
  function ToShort(x: int): (s: int)
    ensures -0x8000 <= s < 0x8000 && (s - x) % 0x10000 == 0
  {
    (x + 0x8000) % 0x10000 - 0x8000
  }

  predicate IsShort(x: int) { -0x8000 <= x < 0x8000 }

  /** The magnitude of an AC coefficient with its al low bits dropped. */
  function Mag(x: int, al: nat): nat {
    DivMul(Abs(x), Pow2(al));
    Abs(x) / Pow2(al)
  }

  /** An AC coefficient with the al low bits of its magnitude cleared. */
  function Point(x: int, al: nat): int {
    var m: int := Mag(x, al) * Pow2(al);
    if x < 0 then -m else m
  }

  /** A DC coefficient with its al low bits cleared, in two's complement. */
  function PointDc(x: int, al: nat): int { x / Pow2(al) * Pow2(al) }

  lemma PointShort(x: int, al: nat)
    requires IsShort(x)
    ensures IsShort(Point(x, al)) && Abs(Point(x, al)) <= Abs(x)
  {
    DivMul(Abs(x), Pow2(al));
  }

  /** The point transform of an AC coefficient goes to the next multiple of 2 ** al toward zero. */
  lemma PointToZero(x: int, al: nat)
    ensures Abs(Point(x, al)) % Pow2(al) == 0 && Abs(Point(x, al)) <= Abs(x) < Abs(Point(x, al)) + Pow2(al)
    ensures x < 0 ==> Point(x, al) <= 0
    ensures x >= 0 ==> Point(x, al) >= 0
  {
    var m, p := Mag(x, al), Pow2(al);
    DivMul(Abs(x), p);
    QuotientUnique(m * p, p, m, 0);
  }

  lemma DivMul(v: nat, p: nat)
    requires p > 0
    ensures 0 <= v / p * p <= v < v / p * p + p && v / p >= 0
  {
    assert v == v / p * p + v % p;
  }

  /** Dropping one bit more is halving. */
  lemma MagStep(x: int, al: nat)
    ensures Mag(x, al + 1) == Mag(x, al) / 2
  {
    DivDiv(Abs(x), Pow2(al));
  }

  lemma PointZero(x: int, al: nat)
    ensures Point(x, al) != 0 <==> Mag(x, al) != 0
  {
    if Mag(x, al) > 0 { MulMonotone(1, Mag(x, al), Pow2(al)); }
  }

  // ----- Zigzag order -----

  type Index = k: nat | k < 64

  function Natural0(k: Index): (p: Index) {
    match k
    case 0 => 0 case 1 => 1 case 2 => 8 case 3 => 16 case 4 => 9 case 5 => 2 case 6 => 3 case 7 => 10
    case 8 => 17 case 9 => 24 case 10 => 32 case 11 => 25 case 12 => 18 case 13 => 11 case 14 => 4 case _ => 5
  }

  function Natural16(k: Index): (p: Index) {
    match k
    case 16 => 12 case 17 => 19 case 18 => 26 case 19 => 33 case 20 => 40 case 21 => 48 case 22 => 41 case 23 => 34
    case 24 => 27 case 25 => 20 case 26 => 13 case 27 => 6 case 28 => 7 case 29 => 14 case 30 => 21 case _ => 28
  }

  function Natural32(k: Index): (p: Index) {
    match k
    case 32 => 35 case 33 => 42 case 34 => 49 case 35 => 56 case 36 => 57 case 37 => 50 case 38 => 43 case 39 => 36
    case 40 => 29 case 41 => 22 case 42 => 15 case 43 => 23 case 44 => 30 case 45 => 37 case 46 => 44 case _ => 51
  }

  function Natural48(k: Index): (p: Index) {
    match k
    case 48 => 58 case 49 => 59 case 50 => 52 case 51 => 45 case 52 => 38 case 53 => 31 case 54 => 39 case 55 => 46
    case 56 => 53 case 57 => 60 case 58 => 61 case 59 => 54 case 60 => 47 case 61 => 55 case 62 => 62 case _ => 63
  }

  /** The position in a block of the k-th coefficient in zigzag order. */
  function Natural(k: Index): (p: Index) {
    if k < 32 then if k < 16 then Natural0(k) else Natural16(k)
    else if k < 48 then Natural32(k) else Natural48(k)
  }

  function Zigzag0(p: Index): (k: Index) {
    match p
    case 0 => 0 case 1 => 1 case 2 => 5 case 3 => 6 case 4 => 14 case 5 => 15 case 6 => 27 case 7 => 28
    case 8 => 2 case 9 => 4 case 10 => 7 case 11 => 13 case 12 => 16 case 13 => 26 case 14 => 29 case _ => 42
  }

  function Zigzag16(p: Index): (k: Index) {
    match p
    case 16 => 3 case 17 => 8 case 18 => 12 case 19 => 17 case 20 => 25 case 21 => 30 case 22 => 41 case 23 => 43
    case 24 => 9 case 25 => 11 case 26 => 18 case 27 => 24 case 28 => 31 case 29 => 40 case 30 => 44 case _ => 53
  }

  function Zigzag32(p: Index): (k: Index) {
    match p
    case 32 => 10 case 33 => 19 case 34 => 23 case 35 => 32 case 36 => 39 case 37 => 45 case 38 => 52 case 39 => 54
    case 40 => 20 case 41 => 22 case 42 => 33 case 43 => 38 case 44 => 46 case 45 => 51 case 46 => 55 case _ => 60
  }

  function Zigzag48(p: Index): (k: Index) {
    match p
    case 48 => 21 case 49 => 34 case 50 => 37 case 51 => 47 case 52 => 50 case 53 => 56 case 54 => 59 case 55 => 61
    case 56 => 35 case 57 => 36 case 58 => 48 case 59 => 49 case 60 => 57 case 61 => 58 case 62 => 62 case _ => 63
  }

  /** The inverse permutation. */
  function Zigzag(p: Index): (k: Index) {
    if p < 32 then if p < 16 then Zigzag0(p) else Zigzag16(p)
    else if p < 48 then Zigzag32(p) else Zigzag48(p)
  }

  /** No two coefficients share a position. */
  lemma OrdersInverse(k: Index)
    ensures Zigzag(Natural(k)) == k
  {
    if k < 32 { } else { }
  }

  /** The position after row r and column c on the zigzag path: up the even diagonals and down the odd ones,
      and along the edge of the block from each diagonal to the next. */
  function AfterPosition(r: nat, c: nat): (p: (nat, nat))
    requires r < 8 && c < 8
  {
    if (r + c) % 2 == 0 then
      if c == 7 then (r + 1, c) else if r == 0 then (r, c + 1) else (r - 1, c + 1)
    else
      if r == 7 then (r, c + 1) else if c == 0 then (r + 1, c) else (r + 1, c - 1)
  }

  predicate FollowsPath(k: Index)
    requires k < 63
  {
    var p, q := Natural(k), Natural(k + 1);
    (q / 8, q % 8) == AfterPosition(p / 8, p % 8)
  }

  lemma PathTo16()
    ensures FollowsPath(0) && FollowsPath(1) && FollowsPath(2) && FollowsPath(3) && FollowsPath(4)
    ensures FollowsPath(5) && FollowsPath(6) && FollowsPath(7) && FollowsPath(8) && FollowsPath(9)
    ensures FollowsPath(10) && FollowsPath(11) && FollowsPath(12) && FollowsPath(13) && FollowsPath(14)
    ensures FollowsPath(15)
  {
  }

  lemma PathTo32()
    ensures FollowsPath(16) && FollowsPath(17) && FollowsPath(18) && FollowsPath(19) && FollowsPath(20)
    ensures FollowsPath(21) && FollowsPath(22) && FollowsPath(23) && FollowsPath(24) && FollowsPath(25)
    ensures FollowsPath(26) && FollowsPath(27) && FollowsPath(28) && FollowsPath(29) && FollowsPath(30)
    ensures FollowsPath(31)
  {
  }

  lemma PathTo48()
    ensures FollowsPath(32) && FollowsPath(33) && FollowsPath(34) && FollowsPath(35) && FollowsPath(36)
    ensures FollowsPath(37) && FollowsPath(38) && FollowsPath(39) && FollowsPath(40) && FollowsPath(41)
    ensures FollowsPath(42) && FollowsPath(43) && FollowsPath(44) && FollowsPath(45) && FollowsPath(46)
    ensures FollowsPath(47)
  {
  }

  lemma PathTo63()
    ensures FollowsPath(48) && FollowsPath(49) && FollowsPath(50) && FollowsPath(51) && FollowsPath(52)
    ensures FollowsPath(53) && FollowsPath(54) && FollowsPath(55) && FollowsPath(56) && FollowsPath(57)
    ensures FollowsPath(58) && FollowsPath(59) && FollowsPath(60) && FollowsPath(61) && FollowsPath(62)
  {
  }

  lemma PathAll(k: Index)
    requires k < 63
    ensures FollowsPath(k)
  {
    hide FollowsPath;
    if k < 16 { PathTo16(); } else if k < 32 { PathTo32(); } else if k < 48 { PathTo48(); } else { PathTo63(); }
  }

  /** The order is the zigzag path from the first position to the last, and each step of the path stays on
      its diagonal, where the row rises on odd diagonals and falls on even ones, or goes on along the edge
      to the next diagonal. */
  lemma ZigzagPath(k: Index)
    requires k < 63
    ensures Natural(0) == 0 && FollowsPath(k)
    ensures var p, q := Natural(k), Natural(k + 1);
      var d, r := p / 8 + p % 8, p / 8;
      && d <= q / 8 + q % 8 <= d + 1
      && (q / 8 + q % 8 == d ==> q / 8 - r == if d % 2 == 1 then 1 else -1)
      && (q / 8 + q % 8 == d + 1 ==> (r == q / 8 && r in {0, 7}) || (p % 8 == q % 8 && p % 8 in {0, 7}))
  {
    PathAll(k);
    assert Natural(0) == 0;
    hide Natural;
  }

  type Block = b: seq<int> | |b| == 64 witness seq(64, i => 0)

  predicate Shorts(z: Block) { forall k :: 0 <= k < 64 ==> IsShort(z[k]) }

  /** The coefficients of a block in zigzag order. */
  function Zig(b: Block): (z: Block) {
    seq(64, k requires 0 <= k < 64 => b[Natural(k)])
  }

  lemma OntoOrders(p: Index)
    ensures Natural(Zigzag(p)) == p
  {
    if p < 32 { } else { }
  }

  /** Zigzag order loses nothing. */
  lemma ZigInjective(a: Block, b: Block)
    requires Zig(a) == Zig(b)
    ensures a == b
  {
    forall p | 0 <= p < 64 ensures a[p] == b[p] {
      OntoOrders(p);
      hide Natural, Zigzag;
      assert Zig(a)[Zigzag(p)] == Zig(b)[Zigzag(p)];
    }
  }

  lemma ZigUpdate(b: Block, k: Index, v: int)
    ensures Zig(b[Natural(k) := v]) == Zig(b)[k := v]
  {
    forall j: Index ensures j != k ==> Natural(j) != Natural(k) {
      OrdersInverse(j);
      OrdersInverse(k);
    }
    hide Natural;
  }
}
