/** Validating a scan script, and the progressive script that the library proposes. */
module ScriptBuilder {
  import opened ScanScript

  // ----- Validation -----

  ghost function Rows(bits: array2<int>): (p: Progress)
    requires bits.Length1 == 64
    reads bits
    ensures Shaped(p, bits.Length0)
  {
    seq(bits.Length0, c requires 0 <= c < bits.Length0 reads bits =>
      seq(64, k requires 0 <= k < 64 reads bits => bits[c, k]))
  }

  datatype Verdict = Progressive | Sequential | Rejected

  predicate IsSequential(s: Scan) {
    s.ss == 0 && s.se == DCTSIZE2 - 1 && s.ah == 0 && s.al == 0
  }

  ghost predicate Carried(script: seq<Scan>, c: int) {
    exists j :: 0 <= j < |script| && c in script[j].comps
  }

  /** A script of full-band scans in which every component appears exactly once. */
  ghost predicate SequentialOk(script: seq<Scan>, n: nat) {
    && |script| > 0
    && (forall j :: 0 <= j < |script| ==> CompsOk(script[j], n) && IsSequential(script[j]))
    && (forall i, j, c :: 0 <= i < j < |script| && c in script[i].comps ==> c !in script[j].comps)
    && (forall c :: 0 <= c < n ==> Carried(script, c))
  }

  method CheckComps(s: Scan, n: nat) returns (ok: bool)
    ensures ok == CompsOk(s, n)
  {
    if |s.comps| <= 0 || |s.comps| > MAX_COMPS_IN_SCAN {
      return false;
    }
    var ci := 0;
    while ci < |s.comps|
      invariant ci <= |s.comps|
      invariant forall i :: 0 <= i < ci ==> 0 <= s.comps[i] < n
      invariant forall i :: 0 < i < ci ==> s.comps[i - 1] < s.comps[i]
    {
      var thisi := s.comps[ci];
      if thisi < 0 || thisi >= n {
        return false;
      }
      if ci > 0 && thisi <= s.comps[ci - 1] {
        return false;
      }
      ci := ci + 1;
    }
    ok := true;
  }

  /** Checks the band of one component against what has been sent, and records it. */
  method CheckComponent(bits: array2<int>, c: nat, s: Scan) returns (ok: bool)
    requires bits.Length1 == 64 && c < bits.Length0 && BandOk(s)
    modifies bits
    ensures ok == ComponentOk(old(Rows(bits))[c], s)
    ensures ok ==> Rows(bits) == old(Rows(bits))[c := SentRow(old(Rows(bits))[c], s)]
  {
    ghost var row := Rows(bits)[c];
    if s.ss != 0 && bits[c, 0] < 0 {
      return false;
    }
    var k := s.ss;
    while k <= s.se
      invariant s.ss <= k <= s.se + 1
      invariant forall i :: s.ss <= i < k ==> StepOk(row[i], s)
      invariant forall d, i :: 0 <= d < bits.Length0 && 0 <= i < 64 ==>
        bits[d, i] == if d == c && s.ss <= i < k then s.al else old(bits[d, i])
    {
      if bits[c, k] < 0 {
        if s.ah != 0 {
          assert !StepOk(row[k], s);
          return false;
        }
      } else {
        if s.ah != bits[c, k] || s.al != s.ah - 1 {
          assert !StepOk(row[k], s);
          return false;
        }
      }
      bits[c, k] := s.al;
      k := k + 1;
    }
    assert Rows(bits)[c] == SentRow(row, s);
    forall d | 0 <= d < bits.Length0 && d != c ensures Rows(bits)[d] == old(Rows(bits))[d] {
      assert forall i :: 0 <= i < 64 ==> Rows(bits)[d][i] == bits[d, i];
    }
    ok := true;
  }

  /** Progress when the first i components of a scan have been recorded. */
  ghost function SentTo(p: Progress, s: Scan, n: nat, i: nat): (q: Progress)
    requires Shaped(p, n) && i <= |s.comps|
    ensures Shaped(q, n)
  {
    seq(n, c requires 0 <= c < n => if c in s.comps[..i] then SentRow(p[c], s) else p[c])
  }

  lemma NextComponent(p: Progress, s: Scan, n: nat, i: nat)
    requires Shaped(p, n) && CompsOk(s, n) && i < |s.comps|
    ensures var c := s.comps[i];
      SentTo(p, s, n, i)[c] == p[c] && SentTo(p, s, n, i + 1) == SentTo(p, s, n, i)[c := SentRow(p[c], s)]
  {
    Increasing(s, n, i);
    assert s.comps[..i + 1] == s.comps[..i] + [s.comps[i]];
  }

  lemma {:induction false} Increasing(s: Scan, n: nat, i: nat)
    requires CompsOk(s, n) && i < |s.comps|
    ensures s.comps[i] !in s.comps[..i]
    ensures forall j :: 0 <= j < i ==> s.comps[j] < s.comps[i]
  {
    if i > 0 { Increasing(s, n, i - 1); }
  }

  /** Checks one scan of a progressive script, and records it. */
  method CheckScan(bits: array2<int>, s: Scan, n: nat) returns (ok: bool)
    requires bits.Length0 == n && bits.Length1 == 64 && CompsOk(s, n)
    modifies bits
    ensures ok == ScanOk(old(Rows(bits)), s, n)
    ensures ok ==> Rows(bits) == Sent(old(Rows(bits)), s, n)
  {
    if s.ss < 0 || s.ss >= DCTSIZE2 || s.se < s.ss || s.se >= DCTSIZE2 ||
       s.ah < 0 || s.ah > MAX_AH_AL || s.al < 0 || s.al > MAX_AH_AL {
      return false;
    }
    if s.ss == 0 {
      if s.se != 0 {
        return false;
      }
    } else {
      if |s.comps| != 1 {
        return false;
      }
    }
    ghost var p := Rows(bits);
    var ci := 0;
    while ci < |s.comps|
      invariant ci <= |s.comps|
      invariant forall i :: 0 <= i < ci ==> ComponentOk(p[s.comps[i]], s)
      invariant Rows(bits) == SentTo(p, s, n, ci)
    {
      NextComponent(p, s, n, ci);
      ok := CheckComponent(bits, s.comps[ci], s);
      if !ok {
        return;
      }
      ci := ci + 1;
    }
    assert s.comps[..ci] == s.comps;
    assert Rows(bits) == Sent(p, s, n);
    ok := true;
  }

  lemma {:induction false} PrefixOk(p: Progress, script: seq<Scan>, n: nat, j: nat)
    requires Shaped(p, n) && j < |script|
    ensures AllSent(p, script[..j + 1], n) == Sent(AllSent(p, script[..j], n), script[j], n)
    ensures ScansOk(p, script[..j + 1], n) <==>
      ScansOk(p, script[..j], n) && ScanOk(AllSent(p, script[..j], n), script[j], n)
    decreases j
  {
    if j > 0 {
      PrefixOk(Sent(p, script[0], n), script[1..], n, j - 1);
      assert script[1..][..j] == script[..j + 1][1..];
      assert script[1..][..j - 1] == script[..j][1..];
    } else {
      assert script[..1][1..] == [] && script[..0] == [];
    }
  }

  lemma PrefixNeeded(p: Progress, script: seq<Scan>, n: nat, j: nat)
    requires Shaped(p, n) && j <= |script| && ScansOk(p, script, n)
    ensures ScansOk(p, script[..j], n)
    decreases |script| - j
  {
    if j == |script| {
      assert script[..j] == script;
    } else {
      PrefixNeeded(p, script, n, j + 1);
      PrefixOk(p, script, n, j);
    }
  }

  /** The progressive half: every scan in turn, then the check that DC data was sent. */
  method ValidateProgressive(script: seq<Scan>, n: nat) returns (ok: bool)
    requires |script| > 0
    ensures ok <==> Accepted(script, n)
  {
    var bits := new int[n, 64];
    for c := 0 to n
      invariant forall d, i :: 0 <= d < c && 0 <= i < 64 ==> bits[d, i] == -1
    {
      for k := 0 to 64
        invariant forall d, i :: 0 <= d < c && 0 <= i < 64 ==> bits[d, i] == -1
        invariant forall i :: 0 <= i < k ==> bits[c, i] == -1
      {
        bits[c, k] := -1;
      }
    }
    assert forall d :: 0 <= d < n ==> Rows(bits)[d] == Unsent(n)[d];
    assert Rows(bits) == Unsent(n);
    var j := 0;
    while j < |script|
      invariant j <= |script|
      invariant ScansOk(Unsent(n), script[..j], n)
      invariant Rows(bits) == AllSent(Unsent(n), script[..j], n)
    {
      PrefixOk(Unsent(n), script, n, j);
      ok := CheckComps(script[j], n);
      if ok {
        ok := CheckScan(bits, script[j], n);
      }
      if !ok {
        NotAccepted(script, n, j);
        return;
      }
      j := j + 1;
    }
    assert script[..j] == script;
    for c := 0 to n
      invariant forall d :: 0 <= d < c ==> Rows(bits)[d][0] >= 0
    {
      if bits[c, 0] < 0 {
        assert Rows(bits)[c][0] < 0;
        return false;
      }
    }
    ok := true;
  }

  lemma NotAccepted(script: seq<Scan>, n: nat, j: nat)
    requires j < |script| && !ScansOk(Unsent(n), script[..j + 1], n)
    ensures !Accepted(script, n)
  {
    if ScansOk(Unsent(n), script, n) {
      PrefixNeeded(Unsent(n), script, n, j + 1);
    }
  }

  /** The sequential half: full-band scans in which no component is sent twice. */
  method ValidateSequential(script: seq<Scan>, n: nat) returns (ok: bool)
    requires |script| > 0
    ensures ok <==> SequentialOk(script, n)
  {
    var sent := new bool[n](_ => false);
    var j := 0;
    while j < |script|
      invariant j <= |script|
      invariant forall i :: 0 <= i < j ==> CompsOk(script[i], n) && IsSequential(script[i])
      invariant forall i, k, c :: 0 <= i < k < j && c in script[i].comps ==> c !in script[k].comps
      invariant forall c :: 0 <= c < n ==> (sent[c] <==> Carried(script[..j], c))
    {
      var s := script[j];
      ok := CheckComps(s, n);
      if !ok || s.ss != 0 || s.se != DCTSIZE2 - 1 || s.ah != 0 || s.al != 0 {
        return false;
      }
      var ci := 0;
      while ci < |s.comps|
        invariant ci <= |s.comps|
        invariant forall i, k :: 0 <= i < j && 0 <= k < ci ==> s.comps[k] !in script[i].comps
        invariant forall c :: 0 <= c < n ==> (sent[c] <==> Carried(script[..j], c) || c in s.comps[..ci])
      {
        var thisi := s.comps[ci];
        Increasing(s, n, ci);
        if sent[thisi] {
          var i :| 0 <= i < |script[..j]| && thisi in script[..j][i].comps;
          assert thisi in script[i].comps && thisi in script[j].comps;
          return false;
        }
        forall i | 0 <= i < j ensures thisi !in script[i].comps {
          assert script[..j][i] == script[i];
        }
        sent[thisi] := true;
        assert s.comps[..ci + 1] == s.comps[..ci] + [thisi];
        ci := ci + 1;
      }
      assert s.comps[..ci] == s.comps;
      forall c | 0 <= c < n ensures Carried(script[..j + 1], c) <==> Carried(script[..j], c) || c in s.comps {
        CarriedNext(script, j, c);
      }
      j := j + 1;
    }
    assert script[..j] == script;
    for c := 0 to n
      invariant forall d :: 0 <= d < c ==> Carried(script, d)
    {
      if !sent[c] {
        return false;
      }
    }
    ok := true;
  }

  lemma CarriedNext(script: seq<Scan>, j: nat, c: int)
    requires j < |script|
    ensures Carried(script[..j + 1], c) <==> Carried(script[..j], c) || c in script[j].comps
  {
    var a, b := script[..j], script[..j + 1];
    if Carried(a, c) {
      var i :| 0 <= i < |a| && c in a[i].comps;
      assert c in b[i].comps;
    }
    if c in script[j].comps { assert c in b[j].comps; }
    if Carried(b, c) {
      var i :| 0 <= i < |b| && c in b[i].comps;
      if i < j { assert c in a[i].comps; }
    }
  }

  /** Validation of a whole script: the first scan decides the mode, and the verdict is exact. */
  method ValidateScript(script: seq<Scan>, n: nat) returns (v: Verdict)
    ensures v == Progressive <==> Accepted(script, n)
    ensures v == Sequential <==> SequentialOk(script, n)
  {
    if |script| == 0 {
      return Rejected;
    }
    if script[0].ss != 0 || script[0].se != DCTSIZE2 - 1 {
      var ok := ValidateProgressive(script, n);
      v := if ok then Progressive else Rejected;
    } else {
      var ok := ValidateSequential(script, n);
      v := if ok then Sequential else Rejected;
    }
  }

  // ----- The proposed progressive script -----

  /** One scan for each component from c on. */
  function ScansFrom(c: nat, n: nat, ss: int, se: int, ah: int, al: int): (r: seq<Scan>)
    requires c <= n
    ensures |r| == n - c
    decreases n - c
  {
    if c == n then [] else [Scan([c], ss, se, ah, al)] + ScansFrom(c + 1, n, ss, se, ah, al)
  }

  /** An interleaved DC scan if the components fit in one, otherwise one scan for each. */
  function DcScans(n: nat, ah: int, al: int): (r: seq<Scan>)
    ensures |r| == if n <= MAX_COMPS_IN_SCAN then 1 else n
  {
    if n <= MAX_COMPS_IN_SCAN then [Scan(seq(n, c => c), 0, 0, ah, al)] else ScansFrom(0, n, 0, 0, ah, al)
  }

  function Middle(): (r: seq<Scan>)
    ensures |r| == 5
  {
    [Scan([0], 1, 5, 0, 2), Scan([2], 1, 63, 0, 1), Scan([1], 1, 63, 0, 1),
     Scan([0], 6, 63, 0, 2), Scan([0], 1, 63, 2, 1)]
  }

  function Last(): (r: seq<Scan>)
    ensures |r| == 3
  {
    [Scan([2], 1, 63, 1, 0), Scan([1], 1, 63, 1, 0), Scan([0], 1, 63, 1, 0)]
  }

  /** The script for YCbCr images. */
  function ColorScript(): (r: seq<Scan>)
    ensures |r| == 10
  {
    DcScans(3, 0, 1) + (Middle() + (DcScans(3, 1, 0) + Last()))
  }

  /** The script for all other images. */
  function PlainScript(n: nat): (r: seq<Scan>)
    ensures |r| == NumScans(n, false)
  {
    DcScans(n, 0, 1) + (ScansFrom(0, n, 1, 5, 0, 2) + (ScansFrom(0, n, 6, 63, 0, 2) +
      (ScansFrom(0, n, 1, 63, 2, 1) + (DcScans(n, 1, 0) + ScansFrom(0, n, 1, 63, 1, 0)))))
  }

  function NumScans(n: nat, ycc: bool): nat {
    if n == 3 && ycc then 10 else if n > MAX_COMPS_IN_SCAN then 6 * n else 2 + 4 * n
  }

  function SimpleScript(n: nat, ycc: bool): (r: seq<Scan>)
    ensures |r| == NumScans(n, ycc)
  {
    if n == 3 && ycc then ColorScript() else PlainScript(n)
  }

  /** One scan for each component, in order, stands at places p, p + 1 and so on. */
  ghost predicate PhaseAt(r: seq<Scan>, p: nat, n: nat, ss: int, se: int, ah: int, al: int) {
    p + n <= |r| && forall c :: 0 <= c < n ==> r[p + c] == Scan([c], ss, se, ah, al)
  }

  /** At place p stands a DC scan of all components, or if they are too many, one for each. */
  ghost predicate DcPhaseAt(r: seq<Scan>, p: nat, n: nat, ah: int, al: int) {
    if n > 4 then PhaseAt(r, p, n, 0, 0, ah, al)
    else p < |r| && r[p] == Scan(seq(n, c => c), 0, 0, ah, al)
  }

  lemma {:induction false} ScansFromAt(c: nat, n: nat, ss: int, se: int, ah: int, al: int)
    requires c <= n
    ensures forall d :: c <= d < n ==> ScansFrom(c, n, ss, se, ah, al)[d - c] == Scan([d], ss, se, ah, al)
    decreases n - c
  {
    if c < n { ScansFromAt(c + 1, n, ss, se, ah, al); }
  }

  lemma PhaseFrom(a: seq<Scan>, b: seq<Scan>, n: nat, ss: int, se: int, ah: int, al: int)
    ensures PhaseAt(a + (ScansFrom(0, n, ss, se, ah, al) + b), |a|, n, ss, se, ah, al)
  {
    ScansFromAt(0, n, ss, se, ah, al);
    var r, m := a + (ScansFrom(0, n, ss, se, ah, al) + b), ScansFrom(0, n, ss, se, ah, al);
    forall c | 0 <= c < n ensures r[|a| + c] == Scan([c], ss, se, ah, al) {
      assert m[c - 0] == Scan([c], ss, se, ah, al);
    }
  }

  lemma DcPhaseFrom(a: seq<Scan>, b: seq<Scan>, n: nat, ah: int, al: int)
    ensures DcPhaseAt(a + (DcScans(n, ah, al) + b), |a|, n, ah, al)
  {
    if n > MAX_COMPS_IN_SCAN { PhaseFrom(a, b, n, 0, 0, ah, al); }
  }

  /** The order of the scans for other images than color: first DC, the low band and the high band, each without
      its low bits; then the next bit of AC; then the last bit of DC and of AC. */
  lemma PlainOrder(n: nat)
    ensures var r, d := PlainScript(n), if n > 4 then n else 1;
      && |r| == 2 * d + 4 * n
      && DcPhaseAt(r, 0, n, 0, 1) && PhaseAt(r, d, n, 1, 5, 0, 2) && PhaseAt(r, d + n, n, 6, 63, 0, 2)
      && PhaseAt(r, d + 2 * n, n, 1, 63, 2, 1) && DcPhaseAt(r, d + 3 * n, n, 1, 0)
      && PhaseAt(r, 2 * d + 3 * n, n, 1, 63, 1, 0)
  {
    hide DcScans, ScansFrom, PhaseAt, DcPhaseAt;
    var s1, s2 := DcScans(n, 0, 1), ScansFrom(0, n, 1, 5, 0, 2);
    var s3, s4 := ScansFrom(0, n, 6, 63, 0, 2), ScansFrom(0, n, 1, 63, 2, 1);
    var s5, s6 := DcScans(n, 1, 0), ScansFrom(0, n, 1, 63, 1, 0);
    var r := PlainScript(n);
    DcPhaseFrom([], s2 + (s3 + (s4 + (s5 + s6))), n, 0, 1);
    assert [] + (s1 + (s2 + (s3 + (s4 + (s5 + s6))))) == r;
    PhaseFrom(s1, s3 + (s4 + (s5 + s6)), n, 1, 5, 0, 2);
    PhaseFrom(s1 + s2, s4 + (s5 + s6), n, 6, 63, 0, 2);
    assert s1 + s2 + (s3 + (s4 + (s5 + s6))) == r;
    PhaseFrom(s1 + s2 + s3, s5 + s6, n, 1, 63, 2, 1);
    assert s1 + s2 + s3 + (s4 + (s5 + s6)) == r;
    DcPhaseFrom(s1 + s2 + s3 + s4, s6, n, 1, 0);
    assert s1 + s2 + s3 + s4 + (s5 + s6) == r;
    PhaseFrom(s1 + s2 + s3 + s4 + s5, [], n, 1, 63, 1, 0);
    assert s1 + s2 + s3 + s4 + s5 + (s6 + []) == r;
  }

  /** The scans for color images: some luma early, the last bit of luma at the end. */
  lemma ColorOrder()
    ensures SimpleScript(3, true) ==
      [Scan([0, 1, 2], 0, 0, 0, 1), Scan([0], 1, 5, 0, 2), Scan([2], 1, 63, 0, 1), Scan([1], 1, 63, 0, 1),
       Scan([0], 6, 63, 0, 2), Scan([0], 1, 63, 2, 1), Scan([0, 1, 2], 0, 0, 1, 0), Scan([2], 1, 63, 1, 0),
       Scan([1], 1, 63, 1, 0), Scan([0], 1, 63, 1, 0)]
  {
    assert seq(3, c => c) == [0, 1, 2];
  }

  method FillAScan(a: array<Scan>, p: nat, ci: int, ss: int, se: int, ah: int, al: int) returns (q: nat)
    requires p < a.Length
    modifies a
    ensures q == p + 1
    ensures a[..q] == old(a[..p]) + [Scan([ci], ss, se, ah, al)]
  {
    a[p] := Scan([ci], ss, se, ah, al);
    q := p + 1;
  }

  method FillScans(a: array<Scan>, p: nat, n: nat, ss: int, se: int, ah: int, al: int) returns (q: nat)
    requires p + n <= a.Length
    modifies a
    ensures q == p + n
    ensures a[..q] == old(a[..p]) + ScansFrom(0, n, ss, se, ah, al)
  {
    q := p;
    var ci := 0;
    assert a[..q] + ScansFrom(ci, n, ss, se, ah, al) == old(a[..p]) + ScansFrom(0, n, ss, se, ah, al);
    while ci < n
      invariant ci <= n && q == p + ci
      invariant a[..q] + ScansFrom(ci, n, ss, se, ah, al) == old(a[..p]) + ScansFrom(0, n, ss, se, ah, al)
    {
      ghost var done, rest := a[..q], ScansFrom(ci + 1, n, ss, se, ah, al);
      a[q] := Scan([ci], ss, se, ah, al);
      assert a[..q + 1] + rest == done + ([a[q]] + rest);
      q := q + 1;
      ci := ci + 1;
    }
  }

  method FillDcScans(a: array<Scan>, p: nat, n: nat, ah: int, al: int) returns (q: nat)
    requires p + |DcScans(n, ah, al)| <= a.Length
    modifies a
    ensures q == p + |DcScans(n, ah, al)|
    ensures a[..q] == old(a[..p]) + DcScans(n, ah, al)
  {
    if n <= MAX_COMPS_IN_SCAN {
      var comps := [];
      for ci := 0 to n
        invariant comps == seq(ci, c => c)
      {
        comps := comps + [ci];
      }
      a[p] := Scan(comps, 0, 0, ah, al);
      q := p + 1;
    } else {
      q := FillScans(a, p, n, 0, 0, ah, al);
    }
  }

  /** Writes the proposed script into the given space, or into new space if that is too small;
      exactly the announced number of entries is filled. */
  method SimpleProgression(space: array<Scan>, n: nat, ycc: bool) returns (a: array<Scan>, nscans: nat)
    modifies space
    ensures nscans == NumScans(n, ycc) <= a.Length
    ensures a == space || (fresh(a) && a.Length >= 10)
    ensures a[..nscans] == SimpleScript(n, ycc)
  {
    if n == 3 && ycc {
      nscans := 10;
    } else {
      nscans := if n > MAX_COMPS_IN_SCAN then 6 * n else 2 + 4 * n;
    }
    a := space;
    if space.Length < nscans {
      a := new Scan[if nscans > 10 then nscans else 10](_ => Scan([], 0, 0, 0, 0));
    }
    if n == 3 && ycc {
      FillColor(a);
    } else {
      FillPlain(a, n);
    }
  }

  method FillColor(a: array<Scan>)
    requires a.Length >= 10
    modifies a
    ensures a[..10] == ColorScript()
  {
    hide DcScans;
    assert a[..0] == [];
    var q := FillDcScans(a, 0, 3, 0, 1);
    q := FillAScan(a, q, 0, 1, 5, 0, 2);
    q := FillAScan(a, q, 2, 1, 63, 0, 1);
    q := FillAScan(a, q, 1, 1, 63, 0, 1);
    q := FillAScan(a, q, 0, 6, 63, 0, 2);
    q := FillAScan(a, q, 0, 1, 63, 2, 1);
    assert a[..q] == DcScans(3, 0, 1) + Middle();
    q := FillDcScans(a, q, 3, 1, 0);
    ghost var done := a[..q];
    q := FillAScan(a, q, 2, 1, 63, 1, 0);
    q := FillAScan(a, q, 1, 1, 63, 1, 0);
    q := FillAScan(a, q, 0, 1, 63, 1, 0);
    assert a[..q] == done + Last();
  }

  method FillPlain(a: array<Scan>, n: nat)
    requires a.Length >= NumScans(n, false)
    modifies a
    ensures a[..NumScans(n, false)] == PlainScript(n)
  {
    hide DcScans, ScansFrom;
    assert a[..0] == [];
    var q := FillDcScans(a, 0, n, 0, 1);
    q := FillScans(a, q, n, 1, 5, 0, 2);
    q := FillScans(a, q, n, 6, 63, 0, 2);
    q := FillScans(a, q, n, 1, 63, 2, 1);
    q := FillDcScans(a, q, n, 1, 0);
    q := FillScans(a, q, n, 1, 63, 1, 0);
  }

  // ----- The proposed script is accepted and sends every bit -----

  /** A row whose DC position, low AC positions and high AC positions each agree. */
  function Row(dc: int, low: int, high: int): (r: seq<int>)
    ensures |r| == 64
  {
    seq(64, k => if k == 0 then dc else if k <= 5 then low else high)
  }

  function Uniform(n: nat, row: seq<int>): (p: Progress)
    ensures |p| == n && forall c :: 0 <= c < n ==> p[c] == row
  {
    seq(n, c => row)
  }

  lemma {:induction false} ScansOkConcat(p: Progress, a: seq<Scan>, b: seq<Scan>, n: nat)
    requires Shaped(p, n) && ScansOk(p, a, n)
    ensures AllSent(p, a + b, n) == AllSent(AllSent(p, a, n), b, n)
    ensures ScansOk(p, a + b, n) <==> ScansOk(AllSent(p, a, n), b, n)
    decreases |a|
  {
    if |a| == 0 {
      assert a + b == b;
    } else {
      ScansOkConcat(Sent(p, a[0], n), a[1..], b, n);
      assert (a + b)[1..] == a[1..] + b;
    }
  }

  /** Progress when the components below c are at row new and the others at row old. */
  function Mixed(c: nat, n: nat, after: seq<int>, before: seq<int>): (p: Progress)
    requires c <= n
    ensures |p| == n
  {
    seq(n, d => if d < c then after else before)
  }

  lemma {:induction false} ScansFromOk(c: nat, n: nat, row: seq<int>, s: Scan)
    requires c <= n && |row| == 64 && |s.comps| == 1 && BandOk(s) && ComponentOk(row, s)
    ensures ScansOk(Mixed(c, n, SentRow(row, s), row), ScansFrom(c, n, s.ss, s.se, s.ah, s.al), n)
    ensures AllSent(Mixed(c, n, SentRow(row, s), row), ScansFrom(c, n, s.ss, s.se, s.ah, s.al), n)
            == Uniform(n, SentRow(row, s))
    decreases n - c
  {
    var after := SentRow(row, s);
    var p, scans := Mixed(c, n, after, row), ScansFrom(c, n, s.ss, s.se, s.ah, s.al);
    if c == n {
      assert p == Uniform(n, after);
    } else {
      var t := Scan([c], s.ss, s.se, s.ah, s.al);
      assert scans[0] == t && scans[1..] == ScansFrom(c + 1, n, s.ss, s.se, s.ah, s.al);
      assert ComponentOk(row, t) && SentRow(row, t) == after;
      assert Sent(p, t, n) == Mixed(c + 1, n, after, row);
      ScansFromOk(c + 1, n, row, s);
    }
  }

  /** One scan for each component takes every component one step further. */
  lemma PhaseOk(n: nat, row: seq<int>, s: Scan)
    requires |row| == 64 && |s.comps| == 1 && BandOk(s) && ComponentOk(row, s)
    ensures ScansOk(Uniform(n, row), ScansFrom(0, n, s.ss, s.se, s.ah, s.al), n)
    ensures AllSent(Uniform(n, row), ScansFrom(0, n, s.ss, s.se, s.ah, s.al), n) == Uniform(n, SentRow(row, s))
  {
    ScansFromOk(0, n, row, s);
    assert Mixed(0, n, SentRow(row, s), row) == Uniform(n, row);
  }

  lemma DcPhaseOk(n: nat, row: seq<int>, ah: int, al: int)
    requires n > 0 && |row| == 64
    requires var s := Scan([0], 0, 0, ah, al); BandOk(s) && StepOk(row[0], s)
    ensures ScansOk(Uniform(n, row), DcScans(n, ah, al), n)
    ensures AllSent(Uniform(n, row), DcScans(n, ah, al), n) == Uniform(n, SentRow(row, Scan([0], 0, 0, ah, al)))
  {
    var s := Scan([0], 0, 0, ah, al);
    assert ComponentOk(row, s);
    if n <= MAX_COMPS_IN_SCAN {
      var t := Scan(seq(n, c => c), 0, 0, ah, al);
      var p := Uniform(n, row);
      assert ComponentOk(row, t) && SentRow(row, t) == SentRow(row, s);
      assert ScanOk(p, t, n);
      assert forall c :: 0 <= c < n ==> t.comps[c] == c;
      forall c | 0 <= c < n ensures Sent(p, t, n)[c] == SentRow(row, s) {
        assert t.comps[c] in t.comps;
      }
      assert Sent(p, t, n) == Uniform(n, SentRow(row, s));
      assert DcScans(n, ah, al)[1..] == [];
    } else {
      PhaseOk(n, row, s);
    }
  }

  lemma PlainScriptOk(n: nat)
    requires n > 0
    ensures ScansOk(Unsent(n), PlainScript(n), n)
    ensures AllSent(Unsent(n), PlainScript(n), n) == Uniform(n, Row(0, 0, 0))
  {
    hide ScansOk, AllSent, ScansFrom, DcScans, Uniform, Unsent;
    var a1, a2 := DcScans(n, 0, 1), ScansFrom(0, n, 1, 5, 0, 2);
    var a3, a4 := ScansFrom(0, n, 6, 63, 0, 2), ScansFrom(0, n, 1, 63, 2, 1);
    var a5, a6 := DcScans(n, 1, 0), ScansFrom(0, n, 1, 63, 1, 0);
    UnsentRow(n);
    RowSteps();
    DcPhaseOk(n, Row(-1, -1, -1), 0, 1);
    PhaseOk(n, Row(1, -1, -1), Scan([0], 1, 5, 0, 2));
    PhaseOk(n, Row(1, 2, -1), Scan([0], 6, 63, 0, 2));
    PhaseOk(n, Row(1, 2, 2), Scan([0], 1, 63, 2, 1));
    DcPhaseOk(n, Row(1, 1, 1), 1, 0);
    PhaseOk(n, Row(0, 1, 1), Scan([0], 1, 63, 1, 0));
    ScansOkConcat(Uniform(n, Row(-1, -1, -1)), a1, a2 + (a3 + (a4 + (a5 + a6))), n);
    ScansOkConcat(Uniform(n, Row(1, -1, -1)), a2, a3 + (a4 + (a5 + a6)), n);
    ScansOkConcat(Uniform(n, Row(1, 2, -1)), a3, a4 + (a5 + a6), n);
    ScansOkConcat(Uniform(n, Row(1, 2, 2)), a4, a5 + a6, n);
    ScansOkConcat(Uniform(n, Row(1, 1, 1)), a5, a6, n);
  }

  lemma UnsentRow(n: nat)
    ensures Unsent(n) == Uniform(n, Row(-1, -1, -1))
  {
    assert forall c :: 0 <= c < n ==> Unsent(n)[c] == Row(-1, -1, -1);
  }

  /** The effect of each band and bit position of the proposed scripts on a row. */
  lemma RowSteps()
    ensures forall s: Scan, x, y, z :: s.ss == 0 && s.se == 0 ==> SentRow(Row(x, y, z), s) == Row(s.al, y, z)
    ensures forall s: Scan, x, y, z :: s.ss == 1 && s.se == 5 ==> SentRow(Row(x, y, z), s) == Row(x, s.al, z)
    ensures forall s: Scan, x, y, z :: s.ss == 6 && s.se == 63 ==> SentRow(Row(x, y, z), s) == Row(x, y, s.al)
    ensures forall s: Scan, x, y, z :: s.ss == 1 && s.se == 63 ==> SentRow(Row(x, y, z), s) == Row(x, s.al, s.al)
  {
  }

  lemma OneScan(p: Progress, q: Progress, c: nat, s: Scan, tail: seq<Scan>)
    requires Shaped(p, 3) && c < 3 && s.comps == [c] && BandOk(s) && ComponentOk(p[c], s)
    requires |q| == 3 && q[c] == SentRow(p[c], s) && forall d :: 0 <= d < 3 && d != c ==> q[d] == p[d]
    ensures AllSent(p, [s] + tail, 3) == AllSent(q, tail, 3)
    ensures ScansOk(p, [s] + tail, 3) <==> ScansOk(q, tail, 3)
  {
    assert ([s] + tail)[1..] == tail;
    assert Sent(p, s, 3) == q;
  }

  /** The color script between its two DC scans. */
  lemma MiddleScans(tail: seq<Scan>)
    ensures var p, q := Uniform(3, Row(1, -1, -1)), Uniform(3, Row(1, 1, 1));
      (ScansOk(p, Middle() + tail, 3) <==> ScansOk(q, tail, 3)) && AllSent(p, Middle() + tail, 3) == AllSent(q, tail, 3)
  {
    hide ScansOk, AllSent, SentRow;
    RowSteps();
    var m := Middle();
    var u, v, w := Row(1, -1, -1), Row(1, 1, 1), Row(1, 2, -1);
    var p0, p1, p2, p3, p4 := Uniform(3, u), [w, u, u], [w, u, v], [w, v, v], [Row(1, 2, 2), v, v];
    OneScan(p0, p1, 0, m[0], m[1..] + tail);
    OneScan(p1, p2, 2, m[1], m[2..] + tail);
    OneScan(p2, p3, 1, m[2], m[3..] + tail);
    OneScan(p3, p4, 0, m[3], m[4..] + tail);
    OneScan(p4, Uniform(3, v), 0, m[4], tail);
    Split(m, 0, tail); Split(m, 1, tail); Split(m, 2, tail); Split(m, 3, tail); Split(m, 4, tail);
    assert m[0..] == m && m[5..] + tail == tail;
  }

  lemma Split(m: seq<Scan>, i: nat, tail: seq<Scan>)
    requires i < |m|
    ensures m[i..] + tail == [m[i]] + (m[i + 1..] + tail)
  {
  }

  /** The color script after its second DC scan. */
  lemma LastScans()
    ensures var p := Uniform(3, Row(0, 1, 1));
      ScansOk(p, Last(), 3) && AllSent(p, Last(), 3) == Uniform(3, Row(0, 0, 0))
  {
    hide ScansOk, AllSent, SentRow;
    RowSteps();
    var m := Last();
    var u, v := Row(0, 1, 1), Row(0, 0, 0);
    var p0, p1, p2, p3 := Uniform(3, u), [u, u, v], [u, v, v], Uniform(3, v);
    OneScan(p0, p1, 2, m[0], m[1..] + []);
    OneScan(p1, p2, 1, m[1], m[2..] + []);
    OneScan(p2, p3, 0, m[2], []);
    Split(m, 0, []); Split(m, 1, []); Split(m, 2, []);
    assert m[0..] + [] == m && m[3..] + [] == [];
    NoScans(p3);
  }

  lemma NoScans(p: Progress)
    requires Shaped(p, 3)
    ensures ScansOk(p, [], 3) && AllSent(p, [], 3) == p
  {
  }

  lemma ColorScriptOk()
    ensures ScansOk(Unsent(3), ColorScript(), 3)
    ensures AllSent(Unsent(3), ColorScript(), 3) == Uniform(3, Row(0, 0, 0))
  {
    hide ScansOk, AllSent, DcScans, Unsent, SentRow, Uniform, Middle, Last;
    var first, second := DcScans(3, 0, 1), DcScans(3, 1, 0);
    UnsentRow(3);
    RowSteps();
    DcPhaseOk(3, Row(-1, -1, -1), 0, 1);
    ScansOkConcat(Unsent(3), first, Middle() + (second + Last()), 3);
    MiddleScans(second + Last());
    DcPhaseOk(3, Row(1, 1, 1), 1, 0);
    ScansOkConcat(Uniform(3, Row(1, 1, 1)), second, Last(), 3);
    LastScans();
  }

  /** The proposed script, for any number of components, passes validation, announces exactly the
      scans it holds, and leaves every coefficient of every component sent down to bit 0. */
  lemma SimpleScriptComplete(n: nat, ycc: bool)
    requires n > 0
    ensures Accepted(SimpleScript(n, ycc), n)
    ensures forall c, k :: 0 <= c < n && 0 <= k < 64 ==> AllSent(Unsent(n), SimpleScript(n, ycc), n)[c][k] == 0
  {
    hide ScansOk, AllSent, PlainScript, ColorScript, Unsent;
    if n == 3 && ycc { ColorScriptOk(); } else { PlainScriptOk(n); }
  }
}
