/** Counting MCUs up to the next restart marker. All entropy coders and decoders do it in the same way, so
    they agree about where a restart interval ends. */
module RestartCounter {
  import opened Bits

  /** The counters of a coder, for an interval of so many MCUs; 0 means that there are no markers. */
  class Counter {
    const interval: nat
    var restartsToGo: nat
    var nextRestartNum: nat
    ghost var coded: nat

    /** After so many MCUs. */
    ghost predicate Valid()
      reads this
    {
      && nextRestartNum == Number(coded, interval)
      && (interval > 0 ==> restartsToGo == Left(coded, interval))
    }

    constructor (restartInterval: nat)
      ensures Valid() && interval == restartInterval && coded == 0
    {
      interval := restartInterval;
      restartsToGo := restartInterval;
      nextRestartNum := 0;
      coded := 0;
      new;
      hide Left, Number;
      CounterStart(restartInterval);
    }

    /** One more MCU: does a restart marker come before it, and which one? */
    method NextMcu() returns (marker: bool, num: nat)
      requires Valid()
      modifies this
      ensures Valid() && coded == old(coded) + 1
      ensures marker <==> interval > 0 && old(coded) > 0 && old(coded) % interval == 0
      ensures marker ==> num == (old(coded) / interval - 1) % 8
    {
      hide Left, Number;
      marker, num := false, 0;
      CounterStep(coded, interval);
      if interval > 0 {
        if restartsToGo == 0 {
          marker, num := true, nextRestartNum;
          restartsToGo := interval;
          nextRestartNum := (nextRestartNum + 1) % 8;
        }
        restartsToGo := restartsToGo - 1;
      }
      coded := coded + 1;
    }
  }

  /** The MCUs left in the interval after n. */
  ghost function Left(n: nat, interval: nat): nat
    requires interval > 0
  {
    if n > 0 && n % interval == 0 then 0 else interval - n % interval
  }

  /** The number of the next marker after n MCUs: as many have been written as intervals were full when
      another MCU came. */
  ghost function Number(n: nat, interval: nat): nat {
    if n == 0 || interval == 0 then 0 else (n - 1) / interval % 8
  }

  lemma CounterStart(interval: nat)
    ensures Number(0, interval) == 0 && (interval > 0 ==> Left(0, interval) == interval)
  {
    if interval > 0 { SmallDivided(0, interval); }
  }

  lemma SmallDivided(x: nat, p: nat)
    requires x < p
    ensures x / p == 0 && x % p == x
  {
    QuotientUnique(x, p, 0, x);
  }

  /** Quotients and remainders of neighbours. */
  lemma Neighbours(n: nat, p: nat)
    requires p > 0
    ensures if n % p + 1 < p then (n + 1) / p == n / p && (n + 1) % p == n % p + 1
            else (n + 1) / p == n / p + 1 && (n + 1) % p == 0
  {
    QuotientRemainder(n, p);
    var q, r := n / p, n % p;
    if r + 1 < p {
      QuotientUnique(n + 1, p, q, r + 1);
    } else {
      assert q * p + p == (q + 1) * p;
      QuotientUnique(n + 1, p, q + 1, 0);
    }
  }

  lemma CounterLeft(n: nat, p: nat)
    requires p > 0
    ensures Left(n, p) == 0 <==> n > 0 && n % p == 0
    ensures Left(n + 1, p) == (if Left(n, p) == 0 then p else Left(n, p)) - 1
  {
    Neighbours(n, p);
    if n == 0 { SmallDivided(0, p); }
  }

  lemma NumberIs(n: nat, p: nat)
    requires p > 0 && n > 0
    ensures Number(n, p) == (n - 1) / p % 8
  {
  }

  lemma NextNumber(q: nat)
    ensures (q + 1) % 8 == (q % 8 + 1) % 8
  {
  }

  lemma CounterNumber(n: nat, p: nat)
    requires p > 0 && n > 0
    ensures n % p == 0 ==> n / p > 0 && Number(n, p) == (n / p - 1) % 8 && Number(n + 1, p) == (Number(n, p) + 1) % 8
    ensures n % p != 0 ==> Number(n + 1, p) == Number(n, p)
  {
    hide Number;
    QuotientRemainder(n - 1, p);
    Neighbours(n - 1, p);
    NumberIs(n, p);
    NumberIs(n + 1, p);
    NextNumber((n - 1) / p);
  }

  lemma CounterStep(n: nat, interval: nat)
    ensures interval == 0 ==> Number(n, interval) == Number(n + 1, interval) == 0
    ensures interval > 0 ==> (Left(n, interval) == 0 <==> n > 0 && n % interval == 0)
    ensures interval > 0 ==>
      Left(n + 1, interval) == (if Left(n, interval) == 0 then interval else Left(n, interval)) - 1
    ensures interval > 0 && Left(n, interval) == 0 ==> n / interval > 0
    ensures interval > 0 && Left(n, interval) == 0 ==> Number(n, interval) == (n / interval - 1) % 8
    ensures interval > 0 ==>
      Number(n + 1, interval) == (if Left(n, interval) == 0 then (Number(n, interval) + 1) % 8 else Number(n, interval))
  {
    if interval > 0 {
      hide Left;
      CounterLeft(n, interval);
      if n > 0 { CounterNumber(n, interval); } else { SmallDivided(0, interval); }
    }
  }

  // ----- The intervals of a scan -----

  /** All MCUs of some intervals. */
  function Flat<T>(o: seq<seq<T>>): seq<T> { if |o| == 0 then [] else Flat(o[..|o| - 1]) + o[|o| - 1] }

  /** The MCUs divided into intervals: all are full but perhaps the last, which is not empty unless there are no
      MCUs; without an interval there is only one. */
  ghost predicate Divided<T>(o: seq<seq<T>>, mcus: seq<T>, interval: nat) {
    && |o| > 0 && Flat(o) == mcus
    && (forall i :: 0 <= i < |o| - 1 ==> interval > 0 && |o[i]| == interval)
    && (interval > 0 ==> |o[|o| - 1]| <= interval) && (mcus != [] ==> o[|o| - 1] != [])
  }

  /** The counters divide the MCUs of a scan; the marker behind interval i has number i modulo 8. */
  method Divide<T>(mcus: seq<T>, interval: nat) returns (o: seq<seq<T>>, nums: seq<nat>)
    ensures Divided(o, mcus, interval)
    ensures |nums| == |o| - 1 && forall i :: 0 <= i < |nums| ==> nums[i] == i % 8
  {
    hide Flat;
    var c := new Counter(interval);
    var current: seq<T> := [];
    o, nums := [], [];
    FlatNone<T>();
    for j := 0 to |mcus|
      invariant c.Valid() && c.interval == interval && c.coded == j && fresh(c)
      invariant Flat(o) + current == mcus[..j] && |nums| == |o| && AllFull(o, interval)
      invariant forall i :: 0 <= i < |nums| ==> nums[i] == i % 8
      invariant Place(j, |o|, |current|, interval)
    {
      PlaceNext(j, |o|, |current|, interval);
      var marker, num := c.NextMcu();
      if marker {
        FlatAppend(o, current);
        o, nums, current := o + [current], nums + [num], [];
      }
      assert Flat(o) + (current + [mcus[j]]) == mcus[..j + 1];
      current := current + [mcus[j]];
    }
    FlatAppend(o, current);
    assert mcus[..|mcus|] == mcus;
    o := o + [current];
  }

  lemma FlatNone<T>()
    ensures Flat<T>([]) == []
  {
  }

  lemma FlatAppend<T>(o: seq<seq<T>>, s: seq<T>)
    ensures Flat(o + [s]) == Flat(o) + s
  {
    assert (o + [s])[..|o|] == o;
  }

  ghost predicate AllFull<T>(o: seq<seq<T>>, interval: nat) {
    forall i :: 0 <= i < |o| ==> interval > 0 && |o[i]| == interval
  }

  /** MCU j comes after k full intervals and n more MCUs. */
  ghost predicate Place(j: nat, k: nat, n: nat, interval: nat) {
    j == k * interval + n && (j > 0 ==> n > 0) && if interval > 0 then n <= interval else k == 0
  }

  /** A marker is due exactly if these n fill another one. */
  lemma PlaceNext(j: nat, k: nat, n: nat, interval: nat)
    requires Place(j, k, n, interval)
    ensures interval > 0 ==> (j > 0 && j % interval == 0 <==> n == interval)
    ensures interval > 0 && n == interval ==> j / interval - 1 == k && Place(j + 1, k + 1, 1, interval)
    ensures interval == 0 || n < interval ==> Place(j + 1, k, n + 1, interval)
  {
    if interval > 0 {
      if n < interval {
        QuotientUnique(j, interval, k, n);
      } else {
        assert (k + 1) * interval == k * interval + interval;
        QuotientUnique(j, interval, k + 1, 0);
      }
    }
  }

  /** Main result: MCU j is in interval j / interval, so coder and decoder, and every component, agree. */
  lemma {:induction false} McuInInterval<T>(o: seq<seq<T>>, mcus: seq<T>, interval: nat, j: nat)
    requires interval > 0 && Divided(o, mcus, interval) && j < |mcus|
    ensures j / interval < |o| && j % interval < |o[j / interval]| && o[j / interval][j % interval] == mcus[j]
    ensures |o| == (|mcus| + interval - 1) / interval
  {
    FlatSize(o, interval, |o| - 1);
    var k := |o| - 1;
    Rounded(|mcus|, k, |o[k]|, interval);
    Earlier(j, k, |o[k]|, interval);
    FlatAt(o, interval, |o|, j / interval, j % interval);
  }

  lemma Rounded(size: nat, k: nat, n: nat, p: nat)
    requires size == k * p + n && 0 < n <= p
    ensures (size + p - 1) / p == k + 1
  {
    assert (k + 1) * p == k * p + p;
    QuotientUnique(size + p - 1, p, k + 1, n - 1);
  }

  lemma Earlier(j: nat, k: nat, n: nat, p: nat)
    requires j < k * p + n && n <= p && p > 0
    ensures 0 <= j / p <= k && 0 <= j % p < p && j == j / p * p + j % p && (j / p == k ==> j % p < n)
  {
    QuotientRemainder(j, p);
    if j / p > k {
      MulMonotone(k + 1, j / p, p);
      assert (k + 1) * p == k * p + p;
    }
  }

  lemma {:induction false} FlatSize<T>(o: seq<seq<T>>, interval: nat, n: nat)
    requires |o| > 0 && n < |o| && forall i :: 0 <= i < |o| - 1 ==> |o[i]| == interval
    ensures |Flat(o[..n])| == n * interval
    ensures n == |o| - 1 ==> |Flat(o)| == n * interval + |o[n]|
  {
    if n > 0 {
      FlatSize(o, interval, n - 1);
      assert o[..n][..n - 1] == o[..n - 1];
      assert n * interval == (n - 1) * interval + interval;
    }
  }

  lemma {:induction false} FlatAt<T>(o: seq<seq<T>>, interval: nat, n: nat, q: nat, r: nat)
    requires q < n <= |o| && r < |o[q]| && forall i :: 0 <= i < |o| - 1 ==> |o[i]| == interval
    ensures q * interval + r < |Flat(o[..n])| && Flat(o[..n])[q * interval + r] == o[q][r]
    ensures n == |o| ==> o[..n] == o
    decreases n
  {
    assert o[..n][..n - 1] == o[..n - 1];
    FlatSize(o, interval, n - 1);
    if q < n - 1 { FlatAt(o, interval, n - 1, q, r); }
  }
}
