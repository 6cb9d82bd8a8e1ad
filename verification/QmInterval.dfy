/** Which code strings lie in a coding interval. */
module QmInterval {
  import opened Bits
  import opened QmEncoder

  /** The number of bytes that reach the interval's resolution. */
  function Bytes(i: Interval): nat { (16 + i.n + 7) / 8 }

  /** Spare bits below the interval's resolution in its last byte. */
  function Spare(i: Interval): nat { 8 * Bytes(i) - 16 - i.n }

  ghost predicate Contains(i: Interval, x: seq<byte>) {
    i.lo * Pow2(Spare(i)) <= Val(x, Bytes(i)) < (i.lo + i.a) * Pow2(Spare(i))
  }

  function Double(i: Interval): Interval {
    Interval(2 * i.lo, 2 * i.a, i.n + 1)
  }

  /** A string lies in an interval exactly when it lies in it at twice the resolution. */
  lemma DoubleContains(i: Interval, x: seq<byte>)
    ensures Contains(Double(i), x) <==> Contains(i, x)
  {
    var d, hi := Double(i), i.lo + i.a;
    if Spare(i) == 0 {
      assert Bytes(d) == Bytes(i) + 1 && Spare(d) == 7;
      assert Pow2(7) == 128 by { Pow2Small(); }
    } else {
      assert Bytes(d) == Bytes(i) && Spare(i) == Spare(d) + 1;
      var p := Pow2(Spare(d));
      assert (2 * i.lo) * p == i.lo * (2 * p);
      assert (2 * hi) * p == hi * (2 * p);
    }
  }

  lemma NarrowContains(i: Interval, j: Interval, x: seq<byte>)
    requires i.n == j.n && i.lo <= j.lo && j.lo + j.a <= i.lo + i.a
    requires Contains(j, x)
    ensures Contains(i, x)
  {
    MulMonotone(i.lo, j.lo, Pow2(Spare(i)));
    MulMonotone(j.lo + j.a, i.lo + i.a, Pow2(Spare(i)));
  }
}
