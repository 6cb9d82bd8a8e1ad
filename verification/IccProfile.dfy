/** Splitting an ICC profile over APP2 markers and putting it together again. (Annex B of ICC.1:2010.) */
module IccProfile {
  import opened Bits

  const ICC_MARKER: byte := 0xE2
  const ICC_OVERHEAD_LEN: nat := 14
  const MAX_DATA_BYTES_IN_MARKER: nat := 65519
  const MAX_SEQ_NO: nat := 255

  datatype Marker = Marker(code: byte, data: seq<byte>)

  /** The identifying string, with its terminating zero. */
  const NAME: seq<byte> := [0x49, 0x43, 0x43, 0x5F, 0x50, 0x52, 0x4F, 0x46, 0x49, 0x4C, 0x45, 0]

  predicate MarkerIsIcc(m: Marker) {
    m.code == ICC_MARKER && |m.data| >= ICC_OVERHEAD_LEN && m.data[..12] == NAME
  }

  function SeqNo(m: Marker): byte
    requires MarkerIsIcc(m)
  {
    m.data[12]
  }

  function NumMarkers(m: Marker): byte
    requires MarkerIsIcc(m)
  {
    m.data[13]
  }

  function Payload(m: Marker): seq<byte>
    requires MarkerIsIcc(m)
  {
    m.data[ICC_OVERHEAD_LEN..]
  }

  predicate AllIcc(f: seq<Marker>) { forall i :: 0 <= i < |f| ==> MarkerIsIcc(f[i]) }

  /** The ICC markers among all saved markers. */
  function IccMarkers(markers: seq<Marker>): (f: seq<Marker>)
    ensures AllIcc(f)
  {
    if |markers| == 0 then []
    else
      var rest := IccMarkers(markers[..|markers| - 1]);
      if MarkerIsIcc(markers[|markers| - 1]) then rest + [markers[|markers| - 1]] else rest
  }

  // ----- What the reader accepts -----

  /** The markers agree on their number, and no sequence number is out of range or repeated. */
  predicate Consistent(f: seq<Marker>)
    requires AllIcc(f)
  {
    && (forall i :: 0 <= i < |f| ==> NumMarkers(f[i]) == NumMarkers(f[0]) && 1 <= SeqNo(f[i]) <= NumMarkers(f[i]))
    && (forall i, j :: 0 <= i < j < |f| ==> SeqNo(f[i]) != SeqNo(f[j]))
  }

  predicate Present(f: seq<Marker>, s: nat)
    requires AllIcc(f)
  {
    exists i :: 0 <= i < |f| && SeqNo(f[i]) == s
  }

  /** The data of the marker with sequence number s. */
  function PieceOf(f: seq<Marker>, s: nat): seq<byte>
    requires AllIcc(f)
  {
    if |f| == 0 then [] else if SeqNo(f[0]) == s then Payload(f[0]) else PieceOf(f[1..], s)
  }

  /** The data of the markers 1 to n in order of their sequence numbers. */
  function Assembled(f: seq<Marker>, n: nat): seq<byte>
    requires AllIcc(f)
  {
    if n == 0 then [] else Assembled(f, n - 1) + PieceOf(f, n)
  }

  /** A profile can be read: markers 1 to n are there, each exactly once, and not all are empty. */
  predicate Readable(f: seq<Marker>)
    requires AllIcc(f)
  {
    && |f| > 0 && Consistent(f)
    && (forall s :: 1 <= s <= NumMarkers(f[0]) ==> Present(f, s))
    && |Assembled(f, NumMarkers(f[0]))| > 0
  }

  lemma {:induction false} PieceAt(f: seq<Marker>, i: nat)
    requires AllIcc(f) && Consistent(f) && i < |f|
    ensures PieceOf(f, SeqNo(f[i])) == Payload(f[i])
    decreases |f|
  {
    if i > 0 {
      ConsistentTail(f);
      PieceAt(f[1..], i - 1);
    }
  }

  lemma ConsistentTail(f: seq<Marker>)
    requires AllIcc(f) && Consistent(f) && |f| > 0
    ensures AllIcc(f[1..]) && Consistent(f[1..])
  {
  }

  // ----- Writing -----

  function Min(a: nat, b: nat): nat { if a < b then a else b }

  /** How many markers the profile takes. */
  function Pieces(n: nat): nat {
    n / MAX_DATA_BYTES_IN_MARKER + if n % MAX_DATA_BYTES_IN_MARKER != 0 then 1 else 0
  }

  /** Marker k, counted from 1, of num markers; both numbers are written as bytes. */
  function PieceMarker(profile: seq<byte>, k: nat, num: nat): (m: Marker)
    requires k >= 1 && (k - 1) * MAX_DATA_BYTES_IN_MARKER <= |profile|
    ensures MarkerIsIcc(m)
  {
    var from := (k - 1) * MAX_DATA_BYTES_IN_MARKER;
    var m := Marker(ICC_MARKER, NAME + [k % 256, num % 256] +
      profile[from..Min(from + MAX_DATA_BYTES_IN_MARKER, |profile|)]);
    assert m.data[..12] == NAME;
    m
  }

  lemma PieceFields(profile: seq<byte>, k: nat, num: nat)
    requires k >= 1 && (k - 1) * MAX_DATA_BYTES_IN_MARKER <= |profile|
    ensures var m := PieceMarker(profile, k, num); var from := (k - 1) * MAX_DATA_BYTES_IN_MARKER;
      && SeqNo(m) == k % 256 && NumMarkers(m) == num % 256
      && Payload(m) == profile[from..Min(from + MAX_DATA_BYTES_IN_MARKER, |profile|)]
  {
  }

  /** All markers of a profile, in the order they are written. */
  function Written(profile: seq<byte>): (w: seq<Marker>)
    ensures |w| == Pieces(|profile|) && AllIcc(w)
  {
    seq(Pieces(|profile|), i requires 0 <= i < Pieces(|profile|) => PieceMarker(profile, i + 1, Pieces(|profile|)))
  }

  lemma WrittenAt(profile: seq<byte>, i: nat)
    requires i < Pieces(|profile|)
    ensures i * MAX_DATA_BYTES_IN_MARKER < |profile|
    ensures Written(profile)[i] == PieceMarker(profile, i + 1, Pieces(|profile|))
  {
  }

  /** The bytes of marker i, counted from 0. */
  lemma WrittenBytes(profile: seq<byte>, i: nat)
    requires i < Pieces(|profile|)
    ensures var m := Written(profile)[i];
      && m.code == 0xE2 && |m.data| == 14 + Min(65519, |profile| - 65519 * i)
      && m.data[..12] == [0x49, 0x43, 0x43, 0x5F, 0x50, 0x52, 0x4F, 0x46, 0x49, 0x4C, 0x45, 0]
      && m.data[12] == (i + 1) % 256 && m.data[13] == (|profile| + 65518) / 65519 % 256
      && forall j :: 0 <= j < |m.data| - 14 ==> m.data[14..][j] == profile[65519 * i + j]
  {
    WrittenAt(profile, i);
    PieceFields(profile, i + 1, Pieces(|profile|));
  }

  method WriteIccProfile(profile: seq<byte>) returns (ok: bool, written: seq<Marker>)
    ensures ok <==> |profile| > 0
    ensures ok ==> written == Written(profile)
  {
    written := [];
    if |profile| == 0 {
      return false, written;
    }
    var left := |profile|;
    var numMarkers := left / MAX_DATA_BYTES_IN_MARKER;
    if numMarkers * MAX_DATA_BYTES_IN_MARKER != left {
      numMarkers := numMarkers + 1;
    }
    var curMarker := 1;
    var at := 0;
    while left > 0
      invariant at + left == |profile| && curMarker >= 1
      invariant at == Min((curMarker - 1) * MAX_DATA_BYTES_IN_MARKER, |profile|) && numMarkers == Pieces(|profile|)
      invariant curMarker - 1 <= numMarkers && (left == 0 ==> curMarker - 1 == numMarkers)
      invariant written == Written(profile)[..curMarker - 1]
      decreases left
    {
      var length := left;
      if length > MAX_DATA_BYTES_IN_MARKER {
        length := MAX_DATA_BYTES_IN_MARKER;
      }
      left := left - length;
      WrittenAt(profile, curMarker - 1);
      written := written + [Marker(ICC_MARKER, NAME + [curMarker % 256, numMarkers % 256] + profile[at..at + length])];
      at := at + length;
      curMarker := curMarker + 1;
    }
    ok := true;
  }

  // ----- Reading -----

  lemma IccStep(markers: seq<Marker>, i: nat)
    requires i < |markers|
    ensures IccMarkers(markers[..i + 1]) ==
      IccMarkers(markers[..i]) + if MarkerIsIcc(markers[i]) then [markers[i]] else []
  {
    assert markers[..i + 1][..i] == markers[..i];
  }

  lemma {:induction false} IccPrefix(markers: seq<Marker>, i: nat, j: nat)
    requires i <= j <= |markers|
    ensures IccMarkers(markers[..i]) <= IccMarkers(markers[..j])
    decreases j - i
  {
    if i < j {
      IccPrefix(markers, i, j - 1);
      IccStep(markers, j - 1);
    }
  }

  lemma ConsistentPrefix(f: seq<Marker>, g: seq<Marker>)
    requires f <= g && AllIcc(g) && AllIcc(f) && !Consistent(f)
    ensures !Consistent(g)
  {
  }

  /** What the first pass over the markers has found. */
  ghost predicate Noted(f: seq<Marker>, present: seq<bool>, length: seq<nat>, num: nat)
    requires AllIcc(f) && |present| == |length| == MAX_SEQ_NO + 1
  {
    && Consistent(f) && num == (if |f| == 0 then 0 else NumMarkers(f[0]))
    && (forall s :: 1 <= s <= MAX_SEQ_NO ==> (present[s] <==> Present(f, s)))
    && (forall i :: 0 <= i < |f| ==> length[SeqNo(f[i])] == |Payload(f[i])|)
  }

  lemma NotedMore(f: seq<Marker>, present: seq<bool>, length: seq<nat>, num: nat, m: Marker)
    requires AllIcc(f) && |present| == |length| == MAX_SEQ_NO + 1 && Noted(f, present, length, num)
    requires MarkerIsIcc(m) && (num == 0 || num == NumMarkers(m)) && 1 <= SeqNo(m) <= NumMarkers(m)
    requires !present[SeqNo(m)]
    ensures Noted(f + [m], present[SeqNo(m) := true], length[SeqNo(m) := |Payload(m)|], NumMarkers(m))
  {
    var g := f + [m];
    forall i | 0 <= i < |f| ensures SeqNo(f[i]) != SeqNo(m) { assert Present(f, SeqNo(f[i])); }
    forall s | 1 <= s <= MAX_SEQ_NO ensures present[SeqNo(m) := true][s] <==> Present(g, s) {
      if Present(f, s) {
        var i :| 0 <= i < |f| && SeqNo(f[i]) == s;
        assert SeqNo(g[i]) == s;
      }
      if s == SeqNo(m) { assert SeqNo(g[|f|]) == s; }
      if Present(g, s) {
        var i :| 0 <= i < |g| && SeqNo(g[i]) == s;
        if i < |f| { assert SeqNo(f[i]) == s; }
      }
    }
  }

  lemma NotedLess(f: seq<Marker>, present: seq<bool>, length: seq<nat>, num: nat, m: Marker)
    requires AllIcc(f) && |present| == |length| == MAX_SEQ_NO + 1 && Noted(f, present, length, num)
    requires MarkerIsIcc(m)
    requires (num != 0 && num != NumMarkers(m)) || !(1 <= SeqNo(m) <= NumMarkers(m)) || present[SeqNo(m)]
    ensures AllIcc(f + [m]) && !Consistent(f + [m])
  {
    var g := f + [m];
    assert g[|f|] == m;
    if |f| > 0 { assert g[0] == f[0]; }
    if 1 <= SeqNo(m) && present[SeqNo(m)] {
      var i :| 0 <= i < |f| && SeqNo(f[i]) == SeqNo(m);
      assert g[i] == f[i];
    }
  }

  /** The first pass: checks the numbering. */
  method FirstPass(markers: seq<Marker>) returns (ok: bool, present: array<bool>, length: array<nat>, num: nat)
    ensures fresh(present) && fresh(length) && present.Length == MAX_SEQ_NO + 1 == length.Length
    ensures ok <==> Consistent(IccMarkers(markers))
    ensures ok ==> Noted(IccMarkers(markers), present[..], length[..], num)
  {
    hide IccMarkers, Noted, Consistent, MarkerIsIcc, SeqNo, NumMarkers, Payload;
    present := new bool[MAX_SEQ_NO + 1](_ => false);
    length := new nat[MAX_SEQ_NO + 1](_ => 0);
    num := 0;
    NothingNoted(present[..], length[..]);
    assert markers[..0] == [];
    var i := 0;
    while i < |markers|
      invariant i <= |markers| && Noted(IccMarkers(markers[..i]), present[..], length[..], num)
    {
      var m := markers[i];
      IccStep(markers, i);
      ghost var f, p := IccMarkers(markers[..i]), present[..];
      ghost var l: seq<nat> := length[..];
      assert f + [] == f;
      if MarkerIsIcc(m) {
        if (num != 0 && num != NumMarkers(m)) || SeqNo(m) <= 0 || SeqNo(m) > NumMarkers(m) || present[SeqNo(m)] {
          NotedLess(f, p, l, num, m);
          IccPrefix(markers, i + 1, |markers|);
          assert markers[..|markers|] == markers;
          ConsistentPrefix(f + [m], IccMarkers(markers));
          return false, present, length, num;
        }
        NotedMore(f, p, l, num, m);
        num := NumMarkers(m);
        present[SeqNo(m)] := true;
        length[SeqNo(m)] := |Payload(m)|;
        assert present[..] == p[SeqNo(m) := true] && length[..] == l[SeqNo(m) := |Payload(m)|];
      }
      i := i + 1;
    }
    assert markers[..i] == markers;
    NotedConsistent(IccMarkers(markers), present[..], length[..], num);
    ok := true;
  }

  lemma NothingNoted(present: seq<bool>, length: seq<nat>)
    requires |present| == |length| == MAX_SEQ_NO + 1 && forall s :: 0 <= s <= MAX_SEQ_NO ==> !present[s]
    ensures Noted(IccMarkers([]), present, length, 0)
  {
  }

  lemma NotedConsistent(f: seq<Marker>, present: seq<bool>, length: seq<nat>, num: nat)
    requires AllIcc(f) && |present| == |length| == MAX_SEQ_NO + 1 && Noted(f, present, length, num)
    ensures Consistent(f)
  {
  }

  lemma {:induction false} PieceLength(f: seq<Marker>, present: seq<bool>, length: seq<nat>, num: nat, s: nat)
    requires AllIcc(f) && |present| == |length| == MAX_SEQ_NO + 1 && Noted(f, present, length, num)
    requires 1 <= s <= MAX_SEQ_NO && present[s]
    ensures |PieceOf(f, s)| == length[s]
  {
    var i :| 0 <= i < |f| && SeqNo(f[i]) == s;
    PieceAt(f, i);
  }

  /** Places the pieces; false if one is missing or all are empty. */
  method PlacePieces(ghost f: seq<Marker>, present: array<bool>, length: array<nat>, num: nat)
    returns (ok: bool, offset: array<nat>, total: nat)
    requires present.Length == MAX_SEQ_NO + 1 == length.Length && AllIcc(f) && 0 < num <= MAX_SEQ_NO
    requires Noted(f, present[..], length[..], num)
    ensures fresh(offset) && offset.Length == MAX_SEQ_NO + 1
    ensures ok <==> Readable(f)
    ensures ok ==> total == |Assembled(f, num)| && forall s :: 1 <= s <= num ==> offset[s] == |Assembled(f, s - 1)|
  {
    offset := new nat[MAX_SEQ_NO + 1](_ => 0);
    total := 0;
    var s := 1;
    while s <= num
      invariant 1 <= s <= num + 1 && total == |Assembled(f, s - 1)|
      invariant present[..] == old(present[..]) && length[..] == old(length[..])
      invariant forall u :: 1 <= u < s ==> offset[u] == |Assembled(f, u - 1)| && Present(f, u)
    {
      if !present[s] {
        assert !Present(f, s);
        return false, offset, total;
      }
      PieceLength(f, present[..], length[..], num, s);
      offset[s] := total;
      total := total + length[s];
      s := s + 1;
    }
    ok := total > 0;
  }

  lemma {:induction false} AssembledPart(f: seq<Marker>, n: nat, s: nat)
    requires AllIcc(f) && 1 <= s <= n
    ensures var a := Assembled(f, n); var o := |Assembled(f, s - 1)|; var p := PieceOf(f, s);
      o + |p| <= |a| && a[o..o + |p|] == p
    decreases n
  {
    if s < n { AssembledPart(f, n - 1, s); }
  }

  /** Every position of the profile belongs to one of the pieces. */
  lemma {:induction false} PositionPiece(f: seq<Marker>, n: nat, p: nat) returns (s: nat)
    requires AllIcc(f) && p < |Assembled(f, n)|
    ensures 1 <= s <= n && |Assembled(f, s - 1)| <= p < |Assembled(f, s - 1)| + |PieceOf(f, s)|
    decreases n
  {
    if p < |Assembled(f, n - 1)| { s := PositionPiece(f, n - 1, p); } else { s := n; }
  }

  /** The piece of marker m is in its place in data. */
  predicate InPlace(f: seq<Marker>, m: Marker, data: seq<byte>)
    requires AllIcc(f) && MarkerIsIcc(m) && SeqNo(m) >= 1
  {
    var o := |Assembled(f, SeqNo(m) - 1)|;
    o + |Payload(m)| <= |data| && data[o..o + |Payload(m)|] == Payload(m)
  }

  ghost predicate Filled(f: seq<Marker>, g: seq<Marker>, data: seq<byte>)
    requires AllIcc(f) && AllIcc(g)
  {
    forall i :: 0 <= i < |g| ==> SeqNo(g[i]) >= 1 && InPlace(f, g[i], data)
  }

  lemma FilledPosition(f: seq<Marker>, data: seq<byte>, n: nat, p: nat)
    requires AllIcc(f) && Consistent(f) && Filled(f, f, data) && |data| == |Assembled(f, n)| && p < |data|
    requires forall s :: 1 <= s <= n ==> Present(f, s)
    ensures data[p] == Assembled(f, n)[p]
  {
    hide Assembled, PieceOf, MarkerIsIcc, Payload, Consistent;
    var s := PositionPiece(f, n, p);
    assert Present(f, s);
    var i :| 0 <= i < |f| && SeqNo(f[i]) == s;
    PieceAt(f, i);
    AssembledPart(f, n, s);
    assert InPlace(f, f[i], data);
    SameSlice(data, Assembled(f, n), |Assembled(f, s - 1)|, |Payload(f[i])|, p);
  }

  /** When all pieces are in place, the profile is complete. */
  lemma FilledAll(f: seq<Marker>, data: seq<byte>)
    requires AllIcc(f) && Readable(f) && |data| == |Assembled(f, NumMarkers(f[0]))| && Filled(f, f, data)
    ensures data == Assembled(f, NumMarkers(f[0]))
  {
    hide Assembled, PieceOf, MarkerIsIcc, Payload, Consistent, Filled, Present;
    forall p | 0 <= p < |data| ensures data[p] == Assembled(f, NumMarkers(f[0]))[p] {
      FilledPosition(f, data, NumMarkers(f[0]), p);
    }
  }

  lemma SameSlice(a: seq<byte>, b: seq<byte>, o: nat, n: nat, p: nat)
    requires o + n <= |a| && o + n <= |b| && a[o..o + n] == b[o..o + n] && o <= p < o + n
    ensures a[p] == b[p]
  {
    assert a[o..o + n][p - o] == b[o..o + n][p - o];
  }

  /** Copies one piece into place, disturbing no other. */
  method CopyPiece(data: array<byte>, at: nat, src: seq<byte>)
    requires at + |src| <= data.Length
    modifies data
    ensures forall p :: 0 <= p < data.Length ==> data[p] == if at <= p < at + |src| then src[p - at] else old(data[p])
  {
    var i := 0;
    while i < |src|
      invariant 0 <= i <= |src|
      invariant forall p :: 0 <= p < data.Length ==> data[p] == if at <= p < at + i then src[p - at] else old(data[p])
    {
      data[at + i] := src[i];
      i := i + 1;
    }
  }

  lemma {:induction false} AssembledMonotone(f: seq<Marker>, a: nat, b: nat)
    requires AllIcc(f) && a <= b
    ensures |Assembled(f, a)| <= |Assembled(f, b)|
    decreases b - a
  {
    if a < b { AssembledMonotone(f, a, b - 1); }
  }

  /** The pieces of two sequence numbers do not overlap. */
  lemma Apart(f: seq<Marker>, s: nat, t: nat)
    requires AllIcc(f) && 1 <= s < t
    ensures |Assembled(f, s - 1)| + |PieceOf(f, s)| <= |Assembled(f, t - 1)|
  {
    AssembledMonotone(f, s, t - 1);
  }

  /** Copying the piece of one marker leaves those already there as they are. */
  lemma FilledMore(f: seq<Marker>, g: seq<Marker>, data: seq<byte>, data1: seq<byte>, m: Marker)
    requires AllIcc(f) && AllIcc(g) && Consistent(f) && Filled(f, g, data) && g + [m] <= f && |data| == |data1|
    requires MarkerIsIcc(m) && SeqNo(m) >= 1
    requires |Assembled(f, SeqNo(m) - 1)| + |Payload(m)| <= |data|
    requires var o := |Assembled(f, SeqNo(m) - 1)|;
      (forall p :: 0 <= p < |data| ==> data1[p] == if o <= p < o + |Payload(m)| then Payload(m)[p - o] else data[p])
    ensures Filled(f, g + [m], data1)
  {
    hide Assembled, PieceOf, MarkerIsIcc, Payload;
    var k := |g|;
    assert f[k] == m && SeqNo(f[k]) == SeqNo(m);
    PieceAt(f, k);
    var o := |Assembled(f, SeqNo(m) - 1)|;
    forall i | 0 <= i < |g + [m]| ensures SeqNo((g + [m])[i]) >= 1 && InPlace(f, (g + [m])[i], data1) {
      if i < k {
        assert f[i] == g[i] && InPlace(f, g[i], data);
        PieceAt(f, i);
        PiecesApart(f, i, k);
        Undisturbed(data, data1, |Assembled(f, SeqNo(g[i]) - 1)|, |Payload(g[i])|, o, |Payload(m)|);
      }
    }
  }

  lemma PiecesApart(f: seq<Marker>, i: nat, k: nat)
    requires AllIcc(f) && Consistent(f) && i < |f| && k < |f| && i != k
    ensures var oi, ok := |Assembled(f, SeqNo(f[i]) - 1)|, |Assembled(f, SeqNo(f[k]) - 1)|;
      oi + |Payload(f[i])| <= ok || ok + |Payload(f[k])| <= oi
  {
    hide Assembled, PieceOf, Payload;
    PieceAt(f, i);
    PieceAt(f, k);
    if SeqNo(f[i]) < SeqNo(f[k]) { Apart(f, SeqNo(f[i]), SeqNo(f[k])); } else { Apart(f, SeqNo(f[k]), SeqNo(f[i])); }
  }

  lemma Undisturbed(a: seq<byte>, b: seq<byte>, o: nat, n: nat, at: nat, k: nat)
    requires |a| == |b| && o + n <= |a| && (o + n <= at || at + k <= o)
    requires forall p :: 0 <= p < |a| && !(at <= p < at + k) ==> b[p] == a[p]
    ensures b[o..o + n] == a[o..o + n]
  {
  }

  lemma PieceFits(f: seq<Marker>, k: nat)
    requires AllIcc(f) && Readable(f) && k < |f|
    ensures 1 <= SeqNo(f[k]) <= NumMarkers(f[0])
    ensures |Assembled(f, SeqNo(f[k]) - 1)| + |Payload(f[k])| <= |Assembled(f, NumMarkers(f[0]))|
  {
    PieceAt(f, k);
    AssembledPart(f, NumMarkers(f[0]), SeqNo(f[k]));
  }

  /** The profile in the saved markers, if there is one. */
  method ReadIccProfile(markers: seq<Marker>) returns (ok: bool, profile: seq<byte>)
    ensures ok <==> Readable(IccMarkers(markers))
    ensures ok ==> profile == Assembled(IccMarkers(markers), NumMarkers(IccMarkers(markers)[0]))
  {
    hide IccMarkers, Noted, Consistent, MarkerIsIcc, SeqNo, NumMarkers, Payload, Assembled, PieceOf, Filled, Present;
    ghost var f := IccMarkers(markers);
    profile := [];
    var present, length, num, offset, total;
    ok, present, length, num := FirstPass(markers);
    if !ok {
      return;
    }
    NotedNum(f, present[..], length[..], num);
    if num == 0 {
      return false, profile;
    }
    ok, offset, total := PlacePieces(f, present, length, num);
    if !ok {
      return;
    }
    var data := new byte[total](_ => 0);
    assert markers[..0] == [];
    NothingFilled(f, data[..]);
    var i := 0;
    while i < |markers|
      invariant i <= |markers| && Filled(f, IccMarkers(markers[..i]), data[..])
      invariant forall s :: 1 <= s <= num ==> offset[s] == |Assembled(f, s - 1)|
    {
      var m := markers[i];
      IccStep(markers, i);
      IccPrefix(markers, i + 1, |markers|);
      assert markers[..|markers|] == markers;
      ghost var g, before := IccMarkers(markers[..i]), data[..];
      assert g + [] == g;
      if MarkerIsIcc(m) {
        assert f[|g|] == (g + [m])[|g|];
        PieceFits(f, |g|);
        CopyPiece(data, offset[SeqNo(m)], Payload(m));
        FilledMore(f, g, before, data[..], m);
      }
      i := i + 1;
    }
    assert markers[..i] == markers;
    FilledAll(f, data[..]);
    profile := data[..];
  }

  lemma NotedNum(f: seq<Marker>, present: seq<bool>, length: seq<nat>, num: nat)
    requires AllIcc(f) && |present| == |length| == MAX_SEQ_NO + 1 && Noted(f, present, length, num)
    ensures num <= MAX_SEQ_NO && (num == 0 <==> |f| == 0) && (|f| > 0 ==> num == NumMarkers(f[0]))
  {
  }

  lemma NothingFilled(f: seq<Marker>, data: seq<byte>)
    requires AllIcc(f)
    ensures Filled(f, IccMarkers([]), data)
  {
  }

  // ----- What is written is read back -----

  lemma TwiceInList(f: seq<Marker>, i: nat, j: nat)
    requires i < j < |f| && f[i] == f[j]
    ensures multiset(f)[f[i]] >= 2
  {
    assert f == f[..j] + f[j..];
    assert f[i] == f[..j][i] && f[j] == f[j..][0];
  }

  lemma {:induction false} OnceInList(w: seq<Marker>, x: Marker)
    requires forall i, j :: 0 <= i < j < |w| ==> w[i] != w[j]
    ensures multiset(w)[x] <= 1
    decreases |w|
  {
    if |w| > 0 {
      var front, last := w[..|w| - 1], w[|w| - 1];
      assert w == front + [last];
      OnceInList(front, x);
      if x == last { assert x !in front; }
    }
  }

  lemma PieceCount(n: nat)
    ensures n <= Pieces(n) * MAX_DATA_BYTES_IN_MARKER
    ensures (Pieces(n) <= MAX_SEQ_NO <==> n <= MAX_SEQ_NO * MAX_DATA_BYTES_IN_MARKER)
    ensures Pieces(n) > 0 <==> n > 0
  {
  }

  /** Every saved ICC marker is one of those written. */
  lemma FromWritten(profile: seq<byte>, f: seq<Marker>, i: nat) returns (k: nat)
    requires AllIcc(f) && multiset(f) == multiset(Written(profile)) && i < |f|
    ensures k < Pieces(|profile|) && f[i] == Written(profile)[k]
  {
    assert f[i] in multiset(Written(profile));
    k :| 0 <= k < |Written(profile)| && f[i] == Written(profile)[k];
  }

  lemma WrittenPresent(profile: seq<byte>, f: seq<Marker>, k: nat) returns (i: nat)
    requires AllIcc(f) && multiset(f) == multiset(Written(profile)) && k < Pieces(|profile|)
    ensures i < |f| && f[i] == Written(profile)[k]
  {
    assert Written(profile)[k] in multiset(f);
    i :| 0 <= i < |f| && f[i] == Written(profile)[k];
  }

  lemma WrittenFields(profile: seq<byte>, k: nat)
    requires k < Pieces(|profile|)
    ensures var m := Written(profile)[k]; var from := k * MAX_DATA_BYTES_IN_MARKER;
      && MarkerIsIcc(m) && SeqNo(m) == (k + 1) % 256 && NumMarkers(m) == Pieces(|profile|) % 256
      && from <= |profile| && Payload(m) == profile[from..Min(from + MAX_DATA_BYTES_IN_MARKER, |profile|)]
  {
    hide Payload, SeqNo, NumMarkers, MarkerIsIcc, Pieces;
    WrittenAt(profile, k);
    PieceFields(profile, k + 1, Pieces(|profile|));
  }

  lemma WrittenDistinct(profile: seq<byte>, x: Marker)
    requires Pieces(|profile|) <= MAX_SEQ_NO
    ensures multiset(Written(profile))[x] <= 1
  {
    hide Payload, MarkerIsIcc, Written, Pieces, SeqNo, NumMarkers;
    var w := Written(profile);
    forall i, j | 0 <= i < j < |w| ensures w[i] != w[j] { WrittenFields(profile, i); WrittenFields(profile, j); }
    OnceInList(w, x);
  }

  lemma PermutedFields(profile: seq<byte>, f: seq<Marker>, i: nat)
    requires AllIcc(f) && multiset(f) == multiset(Written(profile)) && Pieces(|profile|) <= MAX_SEQ_NO && i < |f|
    ensures NumMarkers(f[i]) == Pieces(|profile|) && 1 <= SeqNo(f[i]) <= Pieces(|profile|)
    ensures f[i] == Written(profile)[SeqNo(f[i]) - 1]
  {
    hide Payload, MarkerIsIcc, Written, Pieces, SeqNo, NumMarkers;
    var k := FromWritten(profile, f, i);
    WrittenFields(profile, k);
  }

  lemma PermutedDistinct(profile: seq<byte>, f: seq<Marker>, i: nat, j: nat)
    requires AllIcc(f) && multiset(f) == multiset(Written(profile)) && Pieces(|profile|) <= MAX_SEQ_NO && i < j < |f|
    ensures SeqNo(f[i]) != SeqNo(f[j])
  {
    hide Payload, MarkerIsIcc, Written, Pieces, SeqNo, NumMarkers;
    PermutedFields(profile, f, i);
    PermutedFields(profile, f, j);
    if f[i] == f[j] {
      TwiceInList(f, i, j);
      WrittenDistinct(profile, f[i]);
    }
  }

  lemma PermutedConsistent(profile: seq<byte>, f: seq<Marker>)
    requires AllIcc(f) && multiset(f) == multiset(Written(profile)) && 0 < Pieces(|profile|) <= MAX_SEQ_NO
    ensures Consistent(f) && |f| > 0 && forall s :: 1 <= s <= Pieces(|profile|) ==> Present(f, s)
    ensures NumMarkers(f[0]) == Pieces(|profile|)
  {
    hide Payload, MarkerIsIcc, Written, Pieces, SeqNo, NumMarkers;
    forall s | 1 <= s <= Pieces(|profile|) ensures Present(f, s) {
      var i := WrittenPresent(profile, f, s - 1);
      WrittenFields(profile, s - 1);
    }
    assert Present(f, 1);
    forall i | 0 <= i < |f| ensures NumMarkers(f[i]) == Pieces(|profile|) && 1 <= SeqNo(f[i]) <= Pieces(|profile|) {
      PermutedFields(profile, f, i);
    }
    forall i, j | 0 <= i < j < |f| ensures SeqNo(f[i]) != SeqNo(f[j]) {
      PermutedDistinct(profile, f, i, j);
    }
  }

  lemma {:induction false} AssembledIsFront(profile: seq<byte>, f: seq<Marker>, n: nat)
    requires AllIcc(f) && multiset(f) == multiset(Written(profile)) && n <= Pieces(|profile|) <= MAX_SEQ_NO
    ensures Assembled(f, n) == profile[..Min(n * MAX_DATA_BYTES_IN_MARKER, |profile|)]
    decreases n
  {
    if n > 0 {
      AssembledIsFront(profile, f, n - 1);
      NthPiece(profile, f, n);
      FrontSplit(profile, (n - 1) * MAX_DATA_BYTES_IN_MARKER, Min(n * MAX_DATA_BYTES_IN_MARKER, |profile|));
    }
  }

  lemma NthPiece(profile: seq<byte>, f: seq<Marker>, n: nat)
    requires AllIcc(f) && multiset(f) == multiset(Written(profile)) && 0 < n <= Pieces(|profile|) <= MAX_SEQ_NO
    ensures var from := (n - 1) * MAX_DATA_BYTES_IN_MARKER;
      from <= |profile| && PieceOf(f, n) == profile[from..Min(from + MAX_DATA_BYTES_IN_MARKER, |profile|)]
  {
    hide Payload, MarkerIsIcc, Written, Pieces, SeqNo, NumMarkers, Consistent, Present, PieceOf;
    PermutedConsistent(profile, f);
    var i := WrittenPresent(profile, f, n - 1);
    WrittenFields(profile, n - 1);
    PieceAt(f, i);
  }

  lemma FrontSplit(s: seq<byte>, a: nat, b: nat)
    requires a <= b <= |s|
    ensures s[..b] == s[..a] + s[a..b]
  {
  }

  /** Main result: from the markers written for a profile, in any order and among any others, the
      profile is read back byte for byte exactly if it has at most 255 * 65519 bytes; the markers of a
      longer profile are refused. */
  lemma IccRoundTrip(profile: seq<byte>, markers: seq<Marker>)
    requires |profile| > 0 && multiset(IccMarkers(markers)) == multiset(Written(profile))
    ensures Readable(IccMarkers(markers)) <==> |profile| <= MAX_SEQ_NO * MAX_DATA_BYTES_IN_MARKER
    ensures Readable(IccMarkers(markers)) ==>
      Assembled(IccMarkers(markers), NumMarkers(IccMarkers(markers)[0])) == profile
  {
    var f := IccMarkers(markers);
    PieceCount(|profile|);
    hide IccMarkers, Payload, MarkerIsIcc, Written, Pieces, SeqNo, NumMarkers;
    if Pieces(|profile|) <= MAX_SEQ_NO {
      PermutedConsistent(profile, f);
      AssembledIsFront(profile, f, Pieces(|profile|));
    } else {
      var i := WrittenPresent(profile, f, MAX_SEQ_NO);
      WrittenFields(profile, MAX_SEQ_NO);
      assert SeqNo(f[i]) == 0;
    }
  }

  lemma {:induction false} AllAreIcc(f: seq<Marker>)
    requires AllIcc(f)
    ensures IccMarkers(f) == f
  {
    hide MarkerIsIcc;
    if |f| > 0 {
      AllAreIcc(f[..|f| - 1]);
      assert f[..|f| - 1] + [f[|f| - 1]] == f;
    }
  }

  /** One byte more than fits: what is written for a profile of 16707346 bytes is not read back. */
  lemma LongProfileRefused()
    ensures var profile := seq(16707346, i => 0 as byte); !Readable(IccMarkers(Written(profile)))
  {
    hide MarkerIsIcc, Written, Readable, IccMarkers;
    var profile := seq(16707346, i => 0 as byte);
    AllAreIcc(Written(profile));
    IccRoundTrip(profile, Written(profile));
  }
}
