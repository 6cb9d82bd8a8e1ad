/** The probability estimation state machine that the arithmetic encoder and decoder both walk. */
module ArithTable {
  import opened Bits

  /** One row of Table D.2 of ITU-T T.81. */
  datatype Row = Row(qe: nat, nextLps: nat, nextMps: nat, switchMps: nat) {
    predicate Good() { 0 < qe <= 0x5b12 && nextLps < 114 && nextMps < 114 && switchMps <= 1 }

    /** The row packed into one machine word. */
    function Packed(): nat { qe * 0x10000 + nextMps * 0x100 + switchMps * 0x80 + nextLps }
  }

  const ROWS_0: seq<Row> := [
    Row(0x5a1d, 1, 1, 1), Row(0x2586, 14, 2, 0), Row(0x1114, 16, 3, 0),
    Row(0x080b, 18, 4, 0), Row(0x03d8, 20, 5, 0), Row(0x01da, 23, 6, 0),
    Row(0x00e5, 25, 7, 0), Row(0x006f, 28, 8, 0), Row(0x0036, 30, 9, 0),
    Row(0x001a, 33, 10, 0), Row(0x000d, 35, 11, 0), Row(0x0006, 9, 12, 0),
    Row(0x0003, 10, 13, 0), Row(0x0001, 12, 13, 0), Row(0x5a7f, 15, 15, 1),
    Row(0x3f25, 36, 16, 0), Row(0x2cf2, 38, 17, 0), Row(0x207c, 39, 18, 0),
    Row(0x17b9, 40, 19, 0), Row(0x1182, 42, 20, 0), Row(0x0cef, 43, 21, 0),
    Row(0x09a1, 45, 22, 0), Row(0x072f, 46, 23, 0), Row(0x055c, 48, 24, 0),
    Row(0x0406, 49, 25, 0), Row(0x0303, 51, 26, 0), Row(0x0240, 52, 27, 0),
    Row(0x01b1, 54, 28, 0), Row(0x0144, 56, 29, 0), Row(0x00f5, 57, 30, 0),
    Row(0x00b7, 59, 31, 0), Row(0x008a, 60, 32, 0), Row(0x0068, 62, 33, 0),
    Row(0x004e, 63, 34, 0), Row(0x003b, 32, 35, 0), Row(0x002c, 33, 9, 0),
    Row(0x5ae1, 37, 37, 1), Row(0x484c, 64, 38, 0)
  ]

  const ROWS_38: seq<Row> := [
    Row(0x3a0d, 65, 39, 0), Row(0x2ef1, 67, 40, 0), Row(0x261f, 68, 41, 0),
    Row(0x1f33, 69, 42, 0), Row(0x19a8, 70, 43, 0), Row(0x1518, 72, 44, 0),
    Row(0x1177, 73, 45, 0), Row(0x0e74, 74, 46, 0), Row(0x0bfb, 75, 47, 0),
    Row(0x09f8, 77, 48, 0), Row(0x0861, 78, 49, 0), Row(0x0706, 79, 50, 0),
    Row(0x05cd, 48, 51, 0), Row(0x04de, 50, 52, 0), Row(0x040f, 50, 53, 0),
    Row(0x0363, 51, 54, 0), Row(0x02d4, 52, 55, 0), Row(0x025c, 53, 56, 0),
    Row(0x01f8, 54, 57, 0), Row(0x01a4, 55, 58, 0), Row(0x0160, 56, 59, 0),
    Row(0x0125, 57, 60, 0), Row(0x00f6, 58, 61, 0), Row(0x00cb, 59, 62, 0),
    Row(0x00ab, 61, 63, 0), Row(0x008f, 61, 32, 0), Row(0x5b12, 65, 65, 1),
    Row(0x4d04, 80, 66, 0), Row(0x412c, 81, 67, 0), Row(0x37d8, 82, 68, 0),
    Row(0x2fe8, 83, 69, 0), Row(0x293c, 84, 70, 0), Row(0x2379, 86, 71, 0),
    Row(0x1edf, 87, 72, 0), Row(0x1aa9, 87, 73, 0), Row(0x174e, 72, 74, 0),
    Row(0x1424, 72, 75, 0), Row(0x119c, 74, 76, 0)
  ]

  const ROWS_76: seq<Row> := [
    Row(0x0f6b, 74, 77, 0), Row(0x0d51, 75, 78, 0), Row(0x0bb6, 77, 79, 0),
    Row(0x0a40, 77, 48, 0), Row(0x5832, 80, 81, 1), Row(0x4d1c, 88, 82, 0),
    Row(0x438e, 89, 83, 0), Row(0x3bdd, 90, 84, 0), Row(0x34ee, 91, 85, 0),
    Row(0x2eae, 92, 86, 0), Row(0x299a, 93, 87, 0), Row(0x2516, 86, 71, 0),
    Row(0x5570, 88, 89, 1), Row(0x4ca9, 95, 90, 0), Row(0x44d9, 96, 91, 0),
    Row(0x3e22, 97, 92, 0), Row(0x3824, 99, 93, 0), Row(0x32b4, 99, 94, 0),
    Row(0x2e17, 93, 86, 0), Row(0x56a8, 95, 96, 1), Row(0x4f46, 101, 97, 0),
    Row(0x47e5, 102, 98, 0), Row(0x41cf, 103, 99, 0), Row(0x3c3d, 104, 100, 0),
    Row(0x375e, 99, 93, 0), Row(0x5231, 105, 102, 0), Row(0x4c0f, 106, 103, 0),
    Row(0x4639, 107, 104, 0), Row(0x415e, 103, 99, 0), Row(0x5627, 105, 106, 1),
    Row(0x50e7, 108, 107, 0), Row(0x4b85, 109, 103, 0), Row(0x5597, 110, 109, 0),
    Row(0x504f, 111, 107, 0), Row(0x5a10, 110, 111, 1), Row(0x5522, 112, 109, 0),
    Row(0x59eb, 112, 111, 1), Row(0x5a1d, 113, 113, 0)
  ]

  function RowAt(i: nat): Row
    requires i < 114
  {
    if i < 38 then ROWS_0[i] else if i < 76 then ROWS_38[i - 38] else ROWS_76[i - 76]
  }

  /** Entry i of the packed table. The last entry is the fixed estimate of one half. */
  function Aritab(i: nat): nat
    requires i < 114
  {
    RowAt(i).Packed()
  }

  // A statistics bin is a byte: the top bit is the more probable symbol (MPS), the low seven
  // bits index the table.

  predicate ValidBin(sv: byte) { sv % 128 < 114 }

  function Mps(sv: byte): bool { sv / 128 == 1 }

  lemma RowsGood()
    ensures |ROWS_0| == 38 && forall k :: 0 <= k < 38 ==> ROWS_0[k].Good()
  {
  }

  lemma RowsGood38()
    ensures |ROWS_38| == 38 && forall k :: 0 <= k < 38 ==> ROWS_38[k].Good()
  {
  }

  lemma RowsGood76()
    ensures |ROWS_76| == 38 && forall k :: 0 <= k < 38 ==> ROWS_76[k].Good()
  {
  }

  lemma RowGood(i: nat)
    requires i < 114
    ensures RowAt(i).Good()
  {
    RowsGood();
    RowsGood38();
    RowsGood76();
    hide ROWS_0, ROWS_38, ROWS_76;
  }

  lemma AritabFields(i: nat)
    requires i < 114
    ensures 0 < Aritab(i) / 0x10000 <= 0x5b12
    ensures Aritab(i) % 256 % 128 < 114 && Aritab(i) / 256 % 256 < 114
  {
    RowGood(i);
    hide RowAt;
    PackedFields(RowAt(i));
  }

  lemma PackedFields(r: Row)
    requires r.Good()
    ensures r.Packed() / 0x10000 == r.qe
    ensures r.Packed() % 256 == r.switchMps * 0x80 + r.nextLps
    ensures r.Packed() / 256 % 256 == r.nextMps
  {
    var low := r.switchMps * 0x80 + r.nextLps;
    assert r.Packed() == 256 * (256 * r.qe + r.nextMps) + low && low < 256;
    assert r.Packed() / 256 == 256 * r.qe + r.nextMps;
  }

  /** The size of the less probable sub-interval. */
  function Qe(sv: byte): (qe: nat)
    requires ValidBin(sv)
    ensures 0 < qe <= 0x5b12
  {
    AritabFields(sv % 128);
    Aritab(sv % 128) / 0x10000
  }

  /** sv with its MPS bit kept and the rest exclusive-or'ed with a table field. */
  function Xor(sv: byte, field: byte): (r: byte)
    ensures r % 128 == field % 128
    ensures r / 128 == (sv / 128 + field / 128) % 2
  {
    field % 128 + 128 * ((sv / 128 + field / 128) % 2)
  }

  /** The bin after a less probable symbol; the field's top bit switches the MPS. */
  function AfterLps(sv: byte): (r: byte)
    requires ValidBin(sv)
    ensures ValidBin(r)
  {
    AritabFields(sv % 128);
    Xor(sv, Aritab(sv % 128) % 256)
  }

  function AfterMps(sv: byte): (r: byte)
    requires ValidBin(sv)
    ensures ValidBin(r)
  {
    AritabFields(sv % 128);
    Xor(sv, Aritab(sv % 128) / 256 % 256)
  }

  // ----- What the bins are adapted to -----

  /** The bin after a decision, from the rows of the table. After a less probable symbol it goes to the
      row for that, and its MPS changes exactly if the row says so; after a more probable one it stays as
      it is while the interval is large, and otherwise goes to the row for that with the same MPS. */
  predicate Adapted(sv: byte, val: bool, large: bool, r: byte)
    requires ValidBin(sv)
  {
    var row := RowAt(sv % 128);
    if val != Mps(sv) then r % 128 == row.nextLps && (Mps(r) != Mps(sv) <==> row.switchMps == 1)
    else if large then r == sv
    else r % 128 == row.nextMps && Mps(r) == Mps(sv)
  }

  lemma LpsAdapts(sv: byte)
    requires ValidBin(sv)
    ensures Adapted(sv, !Mps(sv), false, AfterLps(sv)) && Adapted(sv, !Mps(sv), true, AfterLps(sv))
  {
    hide RowAt, ROWS_0, ROWS_38, ROWS_76, Row.Packed;
    RowGood(sv % 128);
    PackedFields(RowAt(sv % 128));
  }

  lemma MpsAdapts(sv: byte)
    requires ValidBin(sv)
    ensures Adapted(sv, Mps(sv), false, AfterMps(sv))
  {
    hide RowAt, ROWS_0, ROWS_38, ROWS_76, Row.Packed;
    RowGood(sv % 128);
    PackedFields(RowAt(sv % 128));
  }

  lemma EstimateOfRow(sv: byte)
    requires ValidBin(sv)
    ensures Qe(sv) == RowAt(sv % 128).qe
  {
    hide RowAt, ROWS_0, ROWS_38, ROWS_76, Row.Packed;
    RowGood(sv % 128);
    PackedFields(RowAt(sv % 128));
  }
}
