/** The arithmetic (QM) decoder: its byte source, its registers, and one binary decision. */
module QmDecoder {
  import opened Bits
  import opened ArithTable

  /** The bytes still to be read, and the marker code met so far (0: none). */
  datatype Source = Source(input: seq<byte>, marker: byte)

  /** Next byte of the data source; at the end of the data the source inserts an EOI marker. */
  function GetByte(s: seq<byte>): (r: (byte, seq<byte>)) {
    if |s| > 0 then (s[0], s[1..]) else (0xFF, [0xD9])
  }

  /** The first byte that is not 0xFF. */
  function SkipFill(s: seq<byte>): (r: (byte, seq<byte>))
    ensures r.0 != 0xFF
    decreases if |s| > 0 && s[0] != 0xFF then 0 else |s| + 1
  {
    var (b, t) := GetByte(s);
    if b == 0xFF then SkipFill(t) else (b, t)
  }

  /** Next data byte: stuffed zeros are dropped, and from the first marker on all data is zero. */
  function NextData(s: Source): (r: (byte, Source)) {
    if s.marker != 0 then (0, s)
    else
      var (b, t) := GetByte(s.input);
      if b != 0xFF then (b, Source(t, 0))
      else
        var (m, u) := SkipFill(t);
        if m == 0 then (0xFF, Source(u, 0)) else (0, Source(u, m))
  }

  /** c: code value minus base of the coding interval; a: size of the interval;
      ct: bits in c below the resolution of a, -16 before the first byte has been read. */
  datatype Dec = Dec(c: nat, a: nat, ct: int, src: Source)

  function Start(input: seq<byte>): Dec { Dec(0, 0, -16, Source(input, 0)) }

  predicate Valid(d: Dec) {
    if d.a == 0 then d.ct == -16 || d.ct == -8 else d.a <= 0x10000 && 0 <= d.ct <= 7
  }

  /** One turn of the renormalization loop. */
  function Fetch(d: Dec): (f: Dec)
    requires Valid(d) && d.a < 0x8000
    ensures Valid(f)
  {
    if d.ct - 1 >= 0 then
      d.(ct := d.ct - 1, a := 2 * d.a)
    else
      var (b, src) := NextData(d.src);
      var ct := d.ct - 1 + 8;
      var ct1 := if ct < 0 then ct + 1 else ct;
      var a := if ct < 0 && ct1 == 0 then 0x8000 else d.a;
      Dec(d.c * 256 + b, 2 * a, ct1, src)
  }

  /** Renormalization before a decision. */
  function Fill(d: Dec): (f: Dec)
    requires Valid(d)
    ensures Valid(f) && f.a >= 0x8000
    decreases if d.a == 0 then 0x10000 - d.ct else 0x10000 - d.a
  {
    if d.a < 0x8000 then Fill(Fetch(d)) else d
  }

  /** Decodes one decision: the new registers, the new value of the bin, and the decision. */
  function Decode(d: Dec, sv: byte): (r: (Dec, byte, bool))
    requires Valid(d) && ValidBin(sv)
    ensures Valid(r.0) && r.0.a > 0 && ValidBin(r.1)
  {
    var f, qe := Fill(d), Qe(sv);
    var a := f.a - qe;
    var temp := a * Pow2(f.ct);
    if f.c >= temp then
      var g := f.(c := f.c - temp, a := qe);
      if a < qe then (g, AfterMps(sv), Mps(sv)) else (g, AfterLps(sv), !Mps(sv))
    else
      var g := f.(a := a);
      if a >= 0x8000 then (g, sv, Mps(sv))
      else if a < qe then (g, AfterLps(sv), !Mps(sv))
      else (g, AfterMps(sv), Mps(sv))
  }

  /** Decoding a decision leaves the bin that the table asks for. */
  lemma DecodeAdapts(d: Dec, sv: byte)
    requires Valid(d) && ValidBin(sv)
    ensures var (_, r, val) := Decode(d, sv); Adapted(sv, val, Fill(d).a - RowAt(sv % 128).qe >= 0x8000, r)
  {
    EstimateOfRow(sv);
    LpsAdapts(sv);
    MpsAdapts(sv);
    hide Fill, AfterLps, AfterMps, RowAt, Pow2;
  }
}
