/** The arithmetic coder with its statistics areas: each binary decision names the bin whose
    estimate it is coded with, and adapts it. */
module QmCoder {
  import opened Bits
  import opened ArithTable
  import E = QmEncoder
  import D = QmDecoder

  // Sixteen DC areas of 64 bins, sixteen AC areas of 256 bins, and the fixed bin, side by side.
  const FIXED: Addr := 5120
  const ALL_BINS: nat := 5121

  /** The address of a statistics bin. */
  type Addr = a: nat | a < 5121

  type Table = t: nat | t < 16

  /** One binary decision: the address of its statistics bin, and its outcome. */
  datatype Decision = Decision(st: Addr, val: bool)

  predicate StatsOk(stats: seq<byte>) {
    |stats| == ALL_BINS && forall i :: 0 <= i < ALL_BINS ==> ValidBin(stats[i])
  }

  datatype EncCoder = EncCoder(reg: E.Enc, stats: seq<byte>) {
    predicate Ok() { E.Ready(reg) && StatsOk(stats) }
  }

  datatype DecCoder = DecCoder(reg: D.Dec, stats: seq<byte>) {
    predicate Ok() { D.Valid(reg) && StatsOk(stats) }
  }

  /** Codes one decision. (A coder that is not Ok never arises; it would stay as it is.) */
  function Encode(c: EncCoder, t: Decision): (r: EncCoder)
    ensures c.Ok() ==> r.Ok()
  {
    if c.Ok() then
      var (reg, sv) := E.Encode(c.reg, c.stats[t.st], t.val);
      EncCoder(reg, c.stats[t.st := sv])
    else c
  }

  function EncodeAll(c: EncCoder, ts: seq<Decision>): (r: EncCoder)
    ensures c.Ok() ==> r.Ok()
    decreases |ts|
  {
    if |ts| == 0 then c else EncodeAll(Encode(c, ts[0]), ts[1..])
  }

  /** Decodes one decision. (A coder that is not Ok never arises; it would stay as it is.) */
  function Decode(c: DecCoder, st: Addr): (r: (DecCoder, bool))
    ensures c.Ok() ==> r.0.Ok()
  {
    if c.Ok() then
      var (reg, sv, val) := D.Decode(c.reg, c.stats[st]);
      (DecCoder(reg, c.stats[st := sv]), val)
    else (c, false)
  }

  /** The decoder after it has been asked for the decisions ts, whatever it answered. */
  function DecodeAll(c: DecCoder, ts: seq<Decision>): (r: DecCoder)
    ensures c.Ok() ==> r.Ok()
    decreases |ts|
  {
    if |ts| == 0 then c else DecodeAll(Decode(c, ts[0].st).0, ts[1..])
  }

  /** Asked for the bins of ts in turn, the decoder answers with exactly the outcomes in ts. */
  predicate Follows(c: DecCoder, ts: seq<Decision>)
    decreases |ts|
  {
    |ts| == 0 || (Decode(c, ts[0].st).1 == ts[0].val && Follows(Decode(c, ts[0].st).0, ts[1..]))
  }

  lemma {:induction false} EncodeAllConcat(c: EncCoder, s: seq<Decision>, t: seq<Decision>)
    ensures EncodeAll(c, s + t) == EncodeAll(EncodeAll(c, s), t)
    decreases |s|
  {
    hide Encode;
    if |s| == 0 {
      assert s + t == t;
    } else {
      EncodeAllConcat(Encode(c, s[0]), s[1..], t);
      assert (s + t)[1..] == s[1..] + t;
    }
  }

  lemma {:induction false} FollowsConcat(c: DecCoder, s: seq<Decision>, t: seq<Decision>)
    ensures Follows(c, s + t) <==> Follows(c, s) && Follows(DecodeAll(c, s), t)
    ensures DecodeAll(c, s + t) == DecodeAll(DecodeAll(c, s), t)
    decreases |s|
  {
    hide Decode;
    if |s| == 0 {
      assert s + t == t;
    } else {
      FollowsConcat(Decode(c, s[0].st).0, s[1..], t);
      assert (s + t)[1..] == s[1..] + t;
    }
  }

  // ----- Bins chosen from what has been coded so far -----

  /** Codes the outcomes vals, each with the bin that choose picks from the outcomes before it. */
  function Chosen(choose: seq<bool> -> Addr, vals: seq<bool>): (ts: seq<Decision>)
    ensures |ts| == |vals|
  {
    seq(|vals|, i requires 0 <= i < |vals| => Decision(choose(vals[..i]), vals[i]))
  }

  /** Decodes n more outcomes, each with the bin that choose picks from the outcomes before it. */
  function DecodeChosen(c: DecCoder, choose: seq<bool> -> Addr, past: seq<bool>, n: nat): (r: (DecCoder, seq<bool>))
    decreases n
  {
    if n == 0 then (c, past)
    else
      var (c1, b) := Decode(c, choose(past));
      DecodeChosen(c1, choose, past + [b], n - 1)
  }

  /** A decoder that makes the same choices asks for the right bins, so it follows as well. */
  lemma {:induction false} FollowsChosen(c: DecCoder, choose: seq<bool> -> Addr, vals: seq<bool>, k: nat)
    requires k <= |vals| && Follows(c, Chosen(choose, vals)[k..])
    ensures DecodeChosen(c, choose, vals[..k], |vals| - k)
            == (DecodeAll(c, Chosen(choose, vals)[k..]), vals)
    decreases |vals| - k
  {
    hide Decode;
    var ts := Chosen(choose, vals);
    if k < |vals| {
      assert ts[k..][1..] == ts[k + 1..];
      assert vals[..k] + [vals[k]] == vals[..k + 1];
      FollowsChosen(Decode(c, ts[k].st).0, choose, vals, k + 1);
    } else {
      assert vals[..k] == vals;
    }
  }
}
