/** Scan scripts: the compressor's validation, the decompressor's progression checks, and the
    script that the library itself proposes. */
module ScanScript {

  const MAX_COMPS_IN_SCAN: nat := 4
  const MAX_AH_AL: int := 10
  const DCTSIZE2: int := 64

  /** One scan: the components it carries, its band, and its bit positions. */
  datatype Scan = Scan(comps: seq<int>, ss: int, se: int, ah: int, al: int)

  /** For each component and coefficient, the last bit position sent, or -1. */
  type Progress = seq<seq<int>>

  ghost predicate Shaped(p: Progress, n: nat) {
    |p| == n && forall c :: 0 <= c < n ==> |p[c]| == 64
  }

  function Unsent(n: nat): Progress {
    seq(n, c => seq(64, k => -1))
  }

  // ----- Compression: what is checked before any scan is written -----

  predicate CompsOk(s: Scan, n: nat) {
    && 0 < |s.comps| <= MAX_COMPS_IN_SCAN
    && (forall i :: 0 <= i < |s.comps| ==> 0 <= s.comps[i] < n)
    && (forall i :: 0 < i < |s.comps| ==> s.comps[i - 1] < s.comps[i])
  }

  predicate BandOk(s: Scan) {
    && 0 <= s.ss < DCTSIZE2 && s.ss <= s.se < DCTSIZE2
    && 0 <= s.ah <= MAX_AH_AL && 0 <= s.al <= MAX_AH_AL
    && (if s.ss == 0 then s.se == 0 else |s.comps| == 1)
  }

  /** Coefficient k, last sent at bit position last, may be sent at al after ah. */
  predicate StepOk(last: int, s: Scan) {
    if last < 0 then s.ah == 0 else s.ah == last && s.al == s.ah - 1
  }

  predicate ComponentOk(row: seq<int>, s: Scan)
    requires |row| == 64 && BandOk(s)
  {
    (s.ss != 0 ==> row[0] >= 0) && forall k :: s.ss <= k <= s.se ==> StepOk(row[k], s)
  }

  ghost predicate ScanOk(p: Progress, s: Scan, n: nat)
    requires Shaped(p, n)
  {
    CompsOk(s, n) && BandOk(s) && forall i :: 0 <= i < |s.comps| ==> ComponentOk(p[s.comps[i]], s)
  }

  function SentRow(row: seq<int>, s: Scan): (r: seq<int>)
    requires |row| == 64
    ensures |r| == 64
  {
    seq(64, k requires 0 <= k < 64 => if s.ss <= k <= s.se then s.al else row[k])
  }

  /** The progress after scan s. */
  function Sent(p: Progress, s: Scan, n: nat): (q: Progress)
    requires Shaped(p, n)
    ensures Shaped(q, n)
  {
    seq(n, c requires 0 <= c < n => if c in s.comps then SentRow(p[c], s) else p[c])
  }

  /** Every scan is acceptable after the ones before it. */
  ghost predicate ScansOk(p: Progress, script: seq<Scan>, n: nat)
    requires Shaped(p, n)
    decreases |script|
  {
    |script| == 0 || (ScanOk(p, script[0], n) && ScansOk(Sent(p, script[0], n), script[1..], n))
  }

  function AllSent(p: Progress, script: seq<Scan>, n: nat): (q: Progress)
    requires Shaped(p, n)
    ensures Shaped(q, n)
    decreases |script|
  {
    if |script| == 0 then p else AllSent(Sent(p, script[0], n), script[1..], n)
  }

  /** A script that is accepted as progressive: in addition, some DC data of every component. */
  ghost predicate Accepted(script: seq<Scan>, n: nat) {
    && |script| > 0
    && ScansOk(Unsent(n), script, n)
    && forall c :: 0 <= c < n ==> AllSent(Unsent(n), script, n)[c][0] >= 0
  }

  // ----- Decompression: what is checked when a scan starts -----

  datatype ScanCheck = Error | Started(warned: bool, progress: Progress)

  /** The decoder's view of one scan of a progressive file. */
  ghost function StartPass(p: Progress, s: Scan, n: nat): ScanCheck
    requires Shaped(p, n) && forall i :: 0 <= i < |s.comps| ==> 0 <= s.comps[i] < n
  {
    if (if s.ss == 0 then s.se != 0 else s.se < s.ss || s.se > DCTSIZE2 - 1 || |s.comps| != 1)
       || (s.ah != 0 && s.ah - 1 != s.al) || s.al > 13
    then Error
    else Started(exists i :: 0 <= i < |s.comps| && Warns(p[s.comps[i]], s), Sent(p, s, n))
  }

  ghost predicate Warns(row: seq<int>, s: Scan)
    requires |row| == 64
  {
    (s.ss != 0 && row[0] < 0) || exists k :: s.ss <= k <= s.se && 0 <= k < 64 && Unexpected(row[k], s)
  }

  predicate Unexpected(last: int, s: Scan) {
    s.ah != (if last < 0 then 0 else last)
  }

  // ----- Agreement -----

  /** A scan the compressor accepts never disturbs the decompressor, and both record the same. */
  lemma ScanAgreement(p: Progress, s: Scan, n: nat)
    requires Shaped(p, n) && ScanOk(p, s, n)
    ensures StartPass(p, s, n) == Started(false, Sent(p, s, n))
  {
    var c := s.comps[0];
    assert ComponentOk(p[c], s);
    assert s.ah != 0 ==> StepOk(p[c][s.ss], s);
    forall i | 0 <= i < |s.comps| ensures !Warns(p[s.comps[i]], s) {
      assert ComponentOk(p[s.comps[i]], s);
    }
  }

  ghost function StartPasses(p: Progress, script: seq<Scan>, n: nat): ScanCheck
    requires Shaped(p, n)
    requires forall j, i :: 0 <= j < |script| && 0 <= i < |script[j].comps| ==> 0 <= script[j].comps[i] < n
    decreases |script|
  {
    if |script| == 0 then Started(false, p)
    else
      match StartPass(p, script[0], n)
      case Error => Error
      case Started(w, q) =>
        match StartPasses(Sent(p, script[0], n), script[1..], n)
        case Error => Error
        case Started(v, r) => Started(w || v, r)
  }

  lemma {:induction false} ComponentsInRange(p: Progress, script: seq<Scan>, n: nat)
    requires Shaped(p, n) && ScansOk(p, script, n)
    ensures forall j, i :: 0 <= j < |script| && 0 <= i < |script[j].comps| ==> 0 <= script[j].comps[i] < n
    decreases |script|
  {
    if |script| > 0 {
      ComponentsInRange(Sent(p, script[0], n), script[1..], n);
      forall j, i | 0 <= j < |script| && 0 <= i < |script[j].comps|
        ensures 0 <= script[j].comps[i] < n
      {
        if j > 0 { assert script[j] == script[1..][j - 1]; }
      }
    }
  }

  /** Every accepted script takes the decoder through all scans without an error or a warning. */
  lemma {:induction false} ScriptAgreement(p: Progress, script: seq<Scan>, n: nat)
    requires Shaped(p, n) && ScansOk(p, script, n)
    ensures forall j, i :: 0 <= j < |script| && 0 <= i < |script[j].comps| ==> 0 <= script[j].comps[i] < n
    ensures StartPasses(p, script, n) == Started(false, AllSent(p, script, n))
    decreases |script|
  {
    ComponentsInRange(p, script, n);
    if |script| > 0 {
      ScanAgreement(p, script[0], n);
      ScriptAgreement(Sent(p, script[0], n), script[1..], n);
    }
  }

  // ----- The bit positions of one coefficient -----

  /** The bit positions at which coefficient k of component c is sent, in order. */
  function Positions(script: seq<Scan>, c: int, k: int): seq<int>
    decreases |script|
  {
    if |script| == 0 then []
    else (if c in script[0].comps && script[0].ss <= k <= script[0].se then [script[0].al] else [])
         + Positions(script[1..], c, k)
  }

  ghost predicate Descending(last: int, als: seq<int>) {
    && (|als| > 0 && last >= 0 ==> als[0] == last - 1)
    && (forall i :: 0 < i < |als| ==> als[i] == als[i - 1] - 1)
    && (forall i :: 0 <= i < |als| ==> 0 <= als[i] <= MAX_AH_AL)
  }

  function LastOr(last: int, als: seq<int>): int {
    if |als| == 0 then last else als[|als| - 1]
  }

  /** In an accepted script the bit positions of every coefficient go down one at a time, and the
      last one is what the progress table ends with. */
  lemma {:induction false} PositionsDescend(p: Progress, script: seq<Scan>, n: nat, c: nat, k: nat)
    requires Shaped(p, n) && ScansOk(p, script, n) && c < n && k < 64
    ensures Descending(p[c][k], Positions(script, c, k))
    ensures AllSent(p, script, n)[c][k] == LastOr(p[c][k], Positions(script, c, k))
    decreases |script|
  {
    hide ScansOk, AllSent, Positions, Descending, Sent, ScanOk, StepOk;
    FirstScan(p, script, n, c, k);
    if |script| > 0 {
      var s := script[0];
      var q, rest := Sent(p, s, n), Positions(script[1..], c, k);
      PositionsDescend(q, script[1..], n, c, k);
      if c in s.comps && s.ss <= k <= s.se {
        StepAccepted(p, s, n, c, k);
        DescendingCons(p[c][k], s.al, rest);
      } else {
        NotSent(p, s, n, c, k);
      }
    }
  }

  lemma FirstScan(p: Progress, script: seq<Scan>, n: nat, c: nat, k: nat)
    requires Shaped(p, n) && ScansOk(p, script, n) && c < n && k < 64
    ensures |script| == 0 ==> Positions(script, c, k) == [] && Descending(p[c][k], []) && AllSent(p, script, n) == p
    ensures |script| > 0 ==>
      var s, q := script[0], Sent(p, script[0], n);
      && ScanOk(p, s, n) && ScansOk(q, script[1..], n) && AllSent(p, script, n) == AllSent(q, script[1..], n)
      && Positions(script, c, k)
         == (if c in s.comps && s.ss <= k <= s.se then [s.al] + Positions(script[1..], c, k)
             else Positions(script[1..], c, k))
  {
  }

  lemma NotSent(p: Progress, s: Scan, n: nat, c: nat, k: nat)
    requires Shaped(p, n) && c < n && k < 64 && !(c in s.comps && s.ss <= k <= s.se)
    ensures Sent(p, s, n)[c][k] == p[c][k]
  {
  }

  lemma StepAccepted(p: Progress, s: Scan, n: nat, c: nat, k: nat)
    requires Shaped(p, n) && ScanOk(p, s, n) && c in s.comps && c < n && s.ss <= k <= s.se
    ensures StepOk(p[c][k], s) && (p[c][k] >= 0 ==> s.al == p[c][k] - 1)
    ensures Sent(p, s, n)[c][k] == s.al && 0 <= s.al <= MAX_AH_AL
  {
    var i :| 0 <= i < |s.comps| && s.comps[i] == c;
    assert ComponentOk(p[s.comps[i]], s);
  }

  lemma DescendingCons(last: int, al: int, rest: seq<int>)
    requires Descending(al, rest) && 0 <= al <= MAX_AH_AL && (last >= 0 ==> al == last - 1)
    ensures Descending(last, [al] + rest)
    ensures LastOr(last, [al] + rest) == LastOr(al, rest)
  {
  }
}
