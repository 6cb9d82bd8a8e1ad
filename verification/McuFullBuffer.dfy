/** The coefficient controller with a buffer for the whole image: the first pass loads the blocks, and
    the blocks beyond the edges, and every pass hands MCUs over from the buffer. */
module McuFullBuffer {
  import Bits
  import opened McuLayout

  // ----- What the buffer should hold -----

  /** The first n groups of a block row, with the blocks beyond the right edge. */
  function PaddedRow(c: Component, z: Plane, row: nat, across: nat, n: nat): (s: seq<Block>)
    requires PlaneOk(c, z) && Covers(across, c.h, c.width) && c.height > 0 && n <= across
    ensures |s| == Start(n, c.h)
  {
    if n == 0 then []
    else
      Whole(across, c.h, c.width, n - 1);
      PaddedRow(c, z, row, across, n - 1) + RowBlocks(c, z, row, Start(n - 1, c.h), c.h)
  }

  lemma NoGroups(c: Component, z: Plane, row: nat, across: nat)
    requires PlaneOk(c, z) && Covers(across, c.h, c.width) && c.height > 0
    ensures Start(0, c.h) == 0 && PaddedRow(c, z, row, across, 0) == []
  {
  }

  lemma PaddedStep(c: Component, z: Plane, row: nat, across: nat, m: nat)
    requires PlaneOk(c, z) && Covers(across, c.h, c.width) && c.height > 0 && m < across
    ensures Start(m, c.h) < c.width && Start(m + 1, c.h) == Start(m, c.h) + c.h <= Start(across, c.h)
    ensures PaddedRow(c, z, row, across, m + 1) == PaddedRow(c, z, row, across, m) +
      RowBlocks(c, z, row, Start(m, c.h), c.h)
  {
    hide RowBlocks;
    Whole(across, c.h, c.width, m);
    Bits.MulMonotone(m + 1, across, c.h);
  }

  lemma {:induction false} PaddedAt(c: Component, z: Plane, row: nat, across: nat, n: nat, m: nat, x: nat)
    requires PlaneOk(c, z) && Covers(across, c.h, c.width) && c.height > 0 && m < n <= across && x < c.h
    ensures Start(m, c.h) < c.width && Start(m, c.h) + x < Start(n, c.h)
    ensures PaddedRow(c, z, row, across, n)[Start(m, c.h) + x]
      == BlockAt(c, z, row, Start(m, c.h) + x, LastColumn(c, Start(m, c.h), c.h))
    decreases n
  {
    hide BlockAt, LastColumn, Start;
    Whole(across, c.h, c.width, m);
    Whole(across, c.h, c.width, n - 1);
    if m < n - 1 { PaddedAt(c, z, row, across, n - 1, m, x); }
  }

  /** Within the image the padded row is the image; to the right of it, blocks with the last DC. */
  lemma PaddedReal(c: Component, z: Plane, row: nat, across: nat, col: nat)
    requires PlaneOk(c, z) && Covers(across, c.h, c.width) && row < c.height && col < Start(across, c.h)
    ensures PaddedRow(c, z, row, across, across)[col]
      == if col < c.width then z[row][col] else Dummy(z[row][c.width - 1].dc)
  {
    var m := col / c.h;
    Split(col, c.h);
    GroupOf(across, c.h, Start(across, c.h), col) by { CoversItself(across, c.h, c.width); }
    PaddedAt(c, z, row, across, across, m, col % c.h);
    Whole(across, c.h, c.width, m);
  }

  lemma CoversItself(n: nat, k: nat, size: nat)
    requires Covers(n, k, size)
    ensures Covers(n, k, Start(n, k))
  {
  }

  /** Block rows below n of a component are loaded. */
  ghost predicate Loaded(f: Frame, c: Component, z: Plane, whole: Plane, n: nat)
    requires PlaneOk(c, z) && Covers(f.across, c.h, c.width) && c.height > 0
  {
    |whole| == Start(f.down, c.v) && forall row :: 0 <= row < n && row < |whole| ==>
      whole[row] == PaddedRow(c, z, row, f.across, f.across)
  }

  lemma LoadedSize(f: Frame, c: Component, z: Plane, whole: Plane, n: nat, i: nat)
    requires PlaneOk(c, z) && Covers(f.across, c.h, c.width) && Covers(f.down, c.v, c.height) && i < f.down
    requires Loaded(f, c, z, whole, n)
    ensures Start(i, c.v) < c.height && Start(i, c.v) + c.v == Start(i + 1, c.v) <= |whole|
    ensures 0 < n <= |whole| ==> whole[n - 1] == PaddedRow(c, z, n - 1, f.across, f.across)
  {
    Whole(f.down, c.v, c.height, i);
    Bits.MulMonotone(i + 1, f.down, c.v);
  }

  lemma LoadedMore(f: Frame, c: Component, z: Plane, whole: Plane, n: nat, r: seq<Block>)
    requires PlaneOk(c, z) && Covers(f.across, c.h, c.width) && c.height > 0 && n < |whole|
    requires Loaded(f, c, z, whole, n) && r == PaddedRow(c, z, n, f.across, f.across)
    ensures Loaded(f, c, z, whole[n := r], n + 1)
  {
    hide PaddedRow;
  }

  ghost predicate AllLoaded(f: Frame, img: seq<Plane>, whole: seq<Plane>, i: nat)
    requires f.Ok() && ImageOk(f, img)
  {
    |whole| == |img| && forall ci :: 0 <= ci < |img| ==>
      (Tall(f, ci); Loaded(f, f.comps[ci], img[ci], whole[ci], Start(i, f.comps[ci].v)))
  }

  lemma Tall(f: Frame, ci: nat)
    requires f.Ok() && ci < |f.comps|
    ensures Covers(f.across, f.comps[ci].h, f.comps[ci].width) && Covers(f.down, f.comps[ci].v, f.comps[ci].height)
    ensures f.comps[ci].height > 0
  {
  }

  /** What an MCU takes from a block row of the buffer is what it should hold. */
  lemma BufferBlocks(s: Scan, img: seq<Plane>, k: nat, row: nat, m: nat, x: nat)
    requires s.Ok() && ImageOk(s.f, img) && k < |s.cs| && m < s.McusPerRow() && x < s.McuWidth(k)
    requires s.Single() ==> row < s.Comp(k).height
    ensures var c, w, left := s.Comp(k), s.McuWidth(k), Start(m, s.McuWidth(k));
      && Covers(s.f.across, c.h, c.width) && c.height > 0 && left < c.width && left + x < Start(s.f.across, c.h)
      && PaddedRow(c, img[s.cs[k]], row, s.f.across, s.f.across)[left + x] ==
        BlockAt(c, img[s.cs[k]], row, left + x, LastColumn(c, left, w))
  {
    Tall(s.f, s.cs[k]);
    var c := s.Comp(k);
    if s.Single() {
      Last(s.f.across, c.h, c.width);
      PaddedReal(c, img[s.cs[k]], row, s.f.across, m);
    } else {
      PaddedAt(c, img[s.cs[k]], row, s.f.across, s.f.across, m, x);
    }
  }

  lemma Last(n: nat, k: nat, size: nat)
    requires Covers(n, k, size)
    ensures size <= Start(n, k)
  {
  }

  /** Blocks to add at the right edge. */
  lemma Padding(n: nat, k: nat, size: nat)
    requires Covers(n, k, size)
    ensures size + (if size % k == 0 then 0 else k - size % k) == Start(n, k) && Start(n, k) / k == n
  {
    LastPartIs(n, k, size);
    Bits.QuotientUnique(Start(n, k), k, n, 0);
  }

  /** How many block rows of an iMCU row are in the image. */
  lemma RowsInside(f: Frame, c: Component, i: nat)
    requires Covers(f.down, c.v, c.height) && i < f.down
    ensures var n := if i < f.down - 1 then c.v else LastPart(c.height, c.v);
      0 < n <= c.v && Start(i, c.v) + n <= c.height && (n < c.v ==> i == f.down - 1) &&
        (i == f.down - 1 ==> Start(i, c.v) + n == c.height)
  {
    Whole(f.down, c.v, c.height, i);
    LastPartIs(f.down, c.v, c.height);
  }

  class FullBufferController {
    const f: Frame
    /** The blocks that the forward DCT yields. */
    const img: seq<Plane>
    const mcuBuffer: array<Block>

    /** The scan of the current pass. */
    var s: Scan
    var whole: seq<Plane>
    var imcuRowNum: nat
    var mcuCtr: nat
    var mcuVertOffset: nat
    var mcuRowsPerImcuRow: nat

    /** The MCUs that the entropy coder has accepted in this pass, and the iMCU rows loaded so far. */
    ghost var sent: seq<seq<Block>>
    ghost var loaded: nat

    ghost function Now(): Progress
      reads this
    {
      Progress(imcuRowNum, |sent|)
    }

    ghost predicate Valid()
      reads this
    {
      && mcuBuffer.Length == MAX_BLOCKS && s.f == f && imcuRowNum <= loaded <= f.down
      && At(s, img, imcuRowNum, mcuVertOffset, mcuCtr, mcuRowsPerImcuRow, sent)
      && AllLoaded(f, img, whole, loaded)
    }

    constructor (s0: Scan, img0: seq<Plane>)
      requires s0.Ok() && ImageOk(s0.f, img0)
      ensures Valid() && s == s0 && f == s0.f && img == img0 && imcuRowNum == 0 && loaded == 0 && sent == []
      ensures fresh(mcuBuffer)
    {
      f, s, img := s0.f, s0, img0;
      mcuBuffer := new Block[MAX_BLOCKS](_ => Dummy(0));
      imcuRowNum, mcuCtr, mcuVertOffset, sent, loaded := 0, 0, 0, [], 0;
      Begin(s0, img0);
      mcuRowsPerImcuRow := s0.RowsIn(0);
      whole := seq(|img0|, ci requires 0 <= ci < |img0| =>
        var plane: Plane := seq(Start(s0.f.down, s0.f.comps[ci].v), _ => []); plane);
    }

    /** start_pass: another scan of the same image. */
    method StartPass(s1: Scan)
      requires Valid() && s1.Ok() && s1.f == f
      modifies this
      ensures Valid() && s == s1 && sent == [] && imcuRowNum == 0
      ensures whole == old(whole) && loaded == old(loaded)
    {
      s := s1;
      imcuRowNum := 0;
      sent := [];
      Begin(s1, img);
      mcuRowsPerImcuRow := CountMcuRows(s, imcuRowNum);
      mcuCtr, mcuVertOffset := 0, 0;
    }

    // ----- Loading -----

    /** A block row of the image, and ndummy blocks to the right of it. */
    method LoadRow(c: Component, z: Plane, row: nat, ndummy: nat) returns (r: array<Block>)
      requires PlaneOk(c, z) && Covers(f.across, c.h, c.width) && row < c.height
      requires c.width + ndummy == Start(f.across, c.h)
      ensures fresh(r) && r[..] == PaddedRow(c, z, row, f.across, f.across)
    {
      hide PaddedRow;
      r := new Block[c.width + ndummy](_ => Dummy(0));
      for col := 0 to c.width
        invariant forall p :: 0 <= p < col ==> r[p] == z[row][p]
      {
        r[col] := z[row][col];
      }
      if ndummy > 0 {
        var lastDc := r[c.width - 1].dc;
        for bi := 0 to ndummy
          invariant forall p :: 0 <= p < c.width ==> r[p] == z[row][p]
          invariant forall p :: c.width <= p < c.width + bi ==> r[p] == Dummy(lastDc)
        {
          r[c.width + bi] := Dummy(lastDc);
        }
      }
      forall p | 0 <= p < r.Length ensures r[p] == PaddedRow(c, z, row, f.across, f.across)[p] {
        PaddedReal(c, z, row, f.across, p);
      }
    }

    /** A block row below the image, from the one above it. */
    method LoadDummyRow(c: Component, z: Plane, row: nat, last: seq<Block>, mcusAcross: nat) returns (r: array<Block>)
      requires PlaneOk(c, z) && Covers(f.across, c.h, c.width) && row >= c.height > 0 && mcusAcross == f.across
      requires last == PaddedRow(c, z, row - 1, f.across, f.across)
      ensures fresh(r) && r[..] == PaddedRow(c, z, row, f.across, f.across)
    {
      hide LastColumn, PaddedRow, RowBlocks, Covers;
      Last(f.across, c.h, c.width);
      NoGroups(c, z, row, f.across);
      r := new Block[Start(mcusAcross, c.h)](_ => Dummy(0));
      for m := 0 to mcusAcross
        invariant Start(m, c.h) <= r.Length && r[..Start(m, c.h)] == PaddedRow(c, z, row, f.across, m)
      {
        var left := Start(m, c.h);
        Whole(f.across, c.h, c.width, m);
        PaddedAt(c, z, row - 1, f.across, f.across, m, c.h - 1);
        var lastDc := last[left + (c.h - 1)].dc;
        FillDummies(r, left, c.h, lastDc);
        DummyRowIs(c, z, row, left, lastDc);
        PaddedStep(c, z, row, f.across, m);
        assert r[..left + c.h] == r[..left] + r[left..left + c.h];
      }
    }

    method FillDummies(r: array<Block>, left: nat, w: nat, dc: int)
      requires left + w <= r.Length
      modifies r
      ensures r[..left] == old(r[..left]) && r[left..left + w] == seq(w, x => Dummy(dc))
    {
      for bi := 0 to w
        invariant r[..left] == old(r[..left])
        invariant forall p :: left <= p < left + bi ==> r[p] == Dummy(dc)
      {
        r[left + bi] := Dummy(dc);
      }
    }

    /** The n block rows from first on, which are in the image. */
    method LoadReal(c: Component, z: Plane, whole0: Plane, first: nat, n: nat) returns (plane: Plane)
      requires PlaneOk(c, z) && Covers(f.across, c.h, c.width) && first + n <= c.height && first + n <= |whole0|
      requires c.height > 0 && Loaded(f, c, z, whole0, first)
      ensures Loaded(f, c, z, plane, first + n)
    {
      hide PaddedRow, Loaded, Start, PlaneOk;
      Padding(f.across, c.h, c.width);
      plane := whole0;
      var ndummy := if c.width % c.h == 0 then 0 else c.h - c.width % c.h;
      for blockRow := 0 to n
        invariant Loaded(f, c, z, plane, first + blockRow) && |plane| == |whole0|
      {
        var r := LoadRow(c, z, first + blockRow, ndummy);
        LoadedMore(f, c, z, plane, first + blockRow, r[..]);
        plane := plane[first + blockRow := r[..]];
      }
    }

    /** The n block rows from first on, which are below the image. */
    method LoadBottom(c: Component, z: Plane, whole0: Plane, first: nat, n: nat) returns (plane: Plane)
      requires PlaneOk(c, z) && Covers(f.across, c.h, c.width) && Covers(f.down, c.v, c.height)
      requires first >= c.height > 0 && first + n <= |whole0| && Loaded(f, c, z, whole0, first)
      ensures Loaded(f, c, z, plane, first + n)
    {
      hide PaddedRow, Loaded, Start, PlaneOk;
      Padding(f.across, c.h, c.width);
      plane := whole0;
      var blocksAcross := c.width + if c.width % c.h == 0 then 0 else c.h - c.width % c.h;
      for blockRow := 0 to n
        invariant Loaded(f, c, z, plane, first + blockRow) && |plane| == |whole0|
      {
        LoadedSize(f, c, z, plane, first + blockRow, 0);
        var r := LoadDummyRow(c, z, first + blockRow, plane[first + blockRow - 1], blocksAcross / c.h);
        LoadedMore(f, c, z, plane, first + blockRow, r[..]);
        plane := plane[first + blockRow := r[..]];
      }
    }

    /** The block rows of one component in the current iMCU row. */
    method LoadStrip(ci: nat)
      requires f.Ok() && ImageOk(f, img) && ci < |img| && imcuRowNum < f.down
      requires |whole| == |img| && f.comps[ci].height > 0 && Covers(f.across, f.comps[ci].h, f.comps[ci].width)
      requires Loaded(f, f.comps[ci], img[ci], whole[ci], Start(imcuRowNum, f.comps[ci].v))
      modifies `whole
      ensures |whole| == |img| && Loaded(f, f.comps[ci], img[ci], whole[ci], Start(imcuRowNum + 1, f.comps[ci].v))
      ensures forall k :: 0 <= k < |img| && k != ci ==> whole[k] == old(whole[k])
    {
      hide PaddedRow, Loaded, Start, LastPart;
      var c, first := f.comps[ci], Start(imcuRowNum, f.comps[ci].v);
      Tall(f, ci);
      LoadedSize(f, c, img[ci], whole[ci], first, imcuRowNum);
      RowsInside(f, c, imcuRowNum);
      var blockRows := if imcuRowNum < f.down - 1 then c.v else LastPart(c.height, c.v);
      var plane := LoadReal(c, img[ci], whole[ci], first, blockRows);
      if imcuRowNum == f.down - 1 {
        LoadedSize(f, c, img[ci], plane, first + blockRows, imcuRowNum);
        plane := LoadBottom(c, img[ci], plane, first + blockRows, c.v - blockRows);
      }
      whole := whole[ci := plane];
    }
  
    // ----- Handing over -----

    /** The current iMCU row can be handed over. */
    ghost predicate Ready()
      reads this
    {
      && mcuBuffer.Length == MAX_BLOCKS && s.f == f && s.Ok() && ImageOk(f, img) && s.Comp(0).v > 0
      && imcuRowNum < loaded <= f.down && AllLoaded(f, img, whole, loaded)
    }

    /** The blocks of component ci in an MCU. */
    method CollectComponent(ci: nat, yoffset: nat, col: nat, blkn0: nat, ghost r: nat) returns (blkn: nat)
      requires Ready() && ci < |s.cs|
      requires yoffset < s.RowsIn(imcuRowNum) && col < s.McusPerRow()
      requires r == RowIndex(s, imcuRowNum, yoffset) < s.McuRows() && blkn0 == s.Blocks(ci) <= MAX_BLOCKS
      modifies mcuBuffer
      ensures blkn == s.Blocks(ci + 1) <= mcuBuffer.Length
      ensures mcuBuffer[..blkn] == old(mcuBuffer[..blkn0]) + ComponentBlocks(s, img, r, col, ci)
    {
      hide GridBlocks, LastPart, LastColumn, Start, AllLoaded, RowIndex;
      var c := s.Comp(ci);
      var w, h := s.McuWidth(ci), s.McuHeight(ci);
      Tall(f, s.cs[ci]);
      Inside(s, ci, r, col);
      TopRow(s, imcuRowNum, yoffset, ci);
      BlocksGrow(s, ci, |s.cs|);
      LoadedStrip(s, img, whole, ci, imcuRowNum, loaded);
      blkn := CollectGrid(ci, Start(imcuRowNum, c.v) + yoffset, col, blkn0);
    }

    /** The blocks of component ci from block row top on, MCU column col. */
    method CollectGrid(ci: nat, top: nat, col: nat, blkn0: nat) returns (blkn: nat)
      requires s.Ok() && ImageOk(s.f, img) && ci < |s.cs| && col < s.McusPerRow() && |whole| == |img|
      requires s.Comp(ci).height > 0 && s.McuWidth(ci) > 0 && Start(col, s.McuWidth(ci)) < s.Comp(ci).width
      requires s.Single() ==> top < s.Comp(ci).height
      requires StripRight(s, img, whole, ci, top, top + s.McuHeight(ci))
      requires blkn0 + s.McuHeight(ci) * s.McuWidth(ci) <= mcuBuffer.Length
      modifies mcuBuffer
      ensures blkn == blkn0 + s.McuHeight(ci) * s.McuWidth(ci)
      ensures mcuBuffer[..blkn] == old(mcuBuffer[..blkn0])
        + GridBlocks(s.Comp(ci), img[s.cs[ci]], top, s.McuHeight(ci), Start(col, s.McuWidth(ci)), s.McuWidth(ci))
    {
      hide Start, RowBlocks, PaddedRow, LastColumn, BlockAt;
      var w, h, startCol := s.McuWidth(ci), s.McuHeight(ci), Start(col, s.McuWidth(ci));
      ghost var c, z := s.Comp(ci), img[s.cs[ci]];
      var plane := whole[s.cs[ci]];
      ghost var pre := mcuBuffer[..blkn0];
      blkn := blkn0;
      for yindex := 0 to h
        invariant blkn == blkn0 + |GridBlocks(c, z, top, yindex, startCol, w)| <= mcuBuffer.Length
        invariant mcuBuffer[..blkn] == pre + GridBlocks(c, z, top, yindex, startCol, w)
      {
        MulRows(yindex, h, w);
        ghost var was := mcuBuffer[..];
        ghost var first := blkn;
        for xindex := 0 to w
          invariant blkn == first + xindex && mcuBuffer[..first] == was[..first]
          invariant forall p :: first <= p < blkn ==>
            mcuBuffer[p] == RowBlocks(c, z, top + yindex, startCol, w)[p - first]
        {
          BufferBlocks(s, img, ci, top + yindex, col, xindex);
          BlockInRow(c, z, top + yindex, startCol, w, xindex);
          mcuBuffer[blkn] := plane[top + yindex][startCol + xindex];
          blkn := blkn + 1;
        }
        RowPut(was, mcuBuffer[..], first, RowBlocks(c, z, top + yindex, startCol, w));
        assert mcuBuffer[..blkn] == mcuBuffer[..][..blkn];
        GridStep(c, z, top, yindex, startCol, w, pre);
      }
    }

    /** The MCU at column col of row yoffset. */
    method CollectMcu(yoffset: nat, col: nat, ghost r: nat) returns (blkn: nat)
      requires Ready() && yoffset < s.RowsIn(imcuRowNum) && col < s.McusPerRow()
      requires r == RowIndex(s, imcuRowNum, yoffset) < s.McuRows()
      modifies mcuBuffer
      ensures blkn == s.Blocks(|s.cs|) <= mcuBuffer.Length && mcuBuffer[..blkn] == Mcu(s, img, r, col)
    {
      blkn := 0;
      for ci := 0 to |s.cs|
        invariant blkn == s.Blocks(ci) <= mcuBuffer.Length && mcuBuffer[..blkn] == McuPart(s, img, r, col, ci)
      {
        blkn := CollectComponent(ci, yoffset, col, blkn, r);
      }
    }

    lemma BeforeStart()
      requires Valid() && imcuRowNum < loaded
      ensures Ready() && InRow(s, img, imcuRowNum, mcuVertOffset, mcuCtr, sent)
      ensures mcuRowsPerImcuRow == s.RowsIn(imcuRowNum) && mcuVertOffset < mcuRowsPerImcuRow
    {
      hide AllLoaded;
      Resume(s, img, imcuRowNum, mcuVertOffset, mcuCtr, mcuRowsPerImcuRow, sent);
    }

    /** compress_output: hands over what is left of an iMCU row, as long as the entropy coder, which has
        room for so many MCUs, does not suspend. */
    method CompressOutput(room0: nat) returns (done: bool)
      requires Valid() && imcuRowNum < loaded
      modifies this, mcuBuffer
      ensures Valid() && s == old(s) && whole == old(whole) && loaded == old(loaded)
      ensures Now() == Call(s, old(Now()), room0) && (done <==> imcuRowNum == old(imcuRowNum) + 1)
      ensures old(sent) <= sent
    {
      hide Mcu, FirstRows, RowIndex, AllLoaded, At, Before;
      var room, yoffset := room0, mcuVertOffset;
      BeforeStart();
      while yoffset < mcuRowsPerImcuRow
        invariant s == old(s) && whole == old(whole) && loaded == old(loaded) && Ready()
        invariant imcuRowNum == old(imcuRowNum) && mcuRowsPerImcuRow == s.RowsIn(imcuRowNum)
        invariant InRow(s, img, imcuRowNum, yoffset, mcuCtr, sent) && (yoffset == mcuRowsPerImcuRow ==> mcuCtr == 0)
        invariant old(sent) <= sent && |sent| + room == |old(sent)| + room0
      {
        var col := mcuCtr;
        while col < s.McusPerRow()
          invariant s == old(s) && whole == old(whole) && loaded == old(loaded) && Ready()
          invariant imcuRowNum == old(imcuRowNum) && mcuRowsPerImcuRow == s.RowsIn(imcuRowNum)
          invariant col <= s.McusPerRow() && sent == Before(s, img, imcuRowNum, yoffset, col)
          invariant old(sent) <= sent && |sent| + room == |old(sent)| + room0
        {
          BeforeNext(s, img, imcuRowNum, yoffset, col);
          var blkn := CollectMcu(yoffset, col, RowIndex(s, imcuRowNum, yoffset));
          if room == 0 {
            mcuVertOffset := yoffset;
            mcuCtr := col;
            BeforeEnd(s, img, imcuRowNum, yoffset, col);
            Suspend(s, img, imcuRowNum, yoffset, col, sent);
            return false;
          }
          room := room - 1;
          sent := sent + [mcuBuffer[..blkn]];
          col := col + 1;
        }
        NextRow(s, img, imcuRowNum, yoffset, sent);
        mcuCtr := 0;
        yoffset := yoffset + 1;
      }
      AtEnd(s, img, imcuRowNum, sent);
      imcuRowNum := imcuRowNum + 1;
      mcuRowsPerImcuRow := CountMcuRows(s, imcuRowNum);
      mcuCtr, mcuVertOffset := 0, 0;
      NextImcuRow(s, img, imcuRowNum - 1, mcuRowsPerImcuRow, sent);
      return true;
    }
  
    /** Loads an iMCU row of all components. */
    method LoadImcuRow()
      requires f.Ok() && ImageOk(f, img) && imcuRowNum < f.down && AllLoaded(f, img, whole, imcuRowNum)
      modifies `whole
      ensures AllLoaded(f, img, whole, imcuRowNum + 1)
    {
      hide Loaded, Start;
      for ci := 0 to |f.comps|
        invariant PartLoaded(f, img, whole, imcuRowNum, ci)
      {
        Tall(f, ci);
        LoadStrip(ci);
      }
    }

    /** compress_first_pass: loads an iMCU row of all components, then hands over the scan's part. After
        a suspension the row is loaded once more. */
    method CompressFirstPass(room: nat) returns (done: bool)
      requires Valid() && imcuRowNum < f.down && loaded <= imcuRowNum + 1
      modifies this, mcuBuffer
      ensures Valid() && s == old(s) && loaded == old(imcuRowNum) + 1
      ensures Now() == Call(s, old(Now()), room) && (done <==> imcuRowNum == old(imcuRowNum) + 1)
      ensures old(sent) <= sent
    {
      hide AllLoaded;
      assert f.Ok() && ImageOk(f, img);
      hide At;
      LoadedLess(f, img, whole, loaded, imcuRowNum);
      LoadImcuRow();
      loaded := imcuRowNum + 1;
      done := CompressOutput(room);
    }

    /** The first pass over the image, whatever room the entropy coder has from call to call. */
    method RunFirstPass(rooms: seq<nat>)
      requires Valid() && loaded <= imcuRowNum + 1
      modifies this, mcuBuffer
      ensures Valid() && s == old(s) && loaded <= imcuRowNum + 1
      ensures old(sent) <= sent && (imcuRowNum == f.down ==> sent == AllMcus(s, img) && loaded == f.down)
      ensures Now() == Calls(s, old(Now()), rooms)
    {
      hide AllMcus, AllLoaded, EndOf;
      for j := 0 to |rooms|
        invariant Valid() && s == old(s) && loaded <= imcuRowNum + 1 && old(sent) <= sent
        invariant Now() == Calls(s, old(Now()), rooms[..j])
      {
        CallsStep(s, old(Now()), rooms, j);
        if imcuRowNum < f.down {
          var done := CompressFirstPass(rooms[j]);
        }
      }
      assert rooms[..|rooms|] == rooms;
    }

    /** A later pass, for any scan of the image. */
    method RunPass(s1: Scan, rooms: seq<nat>)
      requires Valid() && loaded == f.down && s1.Ok() && s1.f == f
      modifies this, mcuBuffer
      ensures Valid() && s == s1 && loaded == f.down && (imcuRowNum == f.down ==> sent == AllMcus(s1, img))
      ensures Now() == Calls(s1, Progress(0, 0), rooms)
    {
      hide AllMcus, AllLoaded, EndOf;
      StartPass(s1);
      for j := 0 to |rooms|
        invariant Valid() && s == s1 && loaded == f.down && Now() == Calls(s1, Progress(0, 0), rooms[..j])
      {
        CallsStep(s1, Progress(0, 0), rooms, j);
        if imcuRowNum < f.down {
          var done := CompressOutput(rooms[j]);
        }
      }
      assert rooms[..|rooms|] == rooms;
    }
  }

  lemma LoadedLess(f: Frame, img: seq<Plane>, whole: seq<Plane>, n: nat, i: nat)
    requires f.Ok() && ImageOk(f, img) && AllLoaded(f, img, whole, n) && i <= n
    ensures AllLoaded(f, img, whole, i)
  {
    hide PaddedRow;
    forall ci | 0 <= ci < |img| ensures Start(i, f.comps[ci].v) <= Start(n, f.comps[ci].v) {
      Bits.MulMonotone(i, n, f.comps[ci].v);
    }
  }

  /** The first n components are loaded one iMCU row further than the others. */
  ghost predicate PartLoaded(f: Frame, img: seq<Plane>, whole: seq<Plane>, i: nat, n: nat)
    requires f.Ok() && ImageOk(f, img)
  {
    |whole| == |img| && forall ci :: 0 <= ci < |img| ==>
      (Tall(f, ci); Loaded(f, f.comps[ci], img[ci], whole[ci], Start(if ci < n then i + 1 else i, f.comps[ci].v)))
  }

  /** The block rows [top, end) that component k of the scan needs are as they should be. */
  ghost predicate StripRight(s: Scan, img: seq<Plane>, whole: seq<Plane>, k: nat, top: nat, end: nat)
    requires s.Ok() && ImageOk(s.f, img) && k < |s.cs| && |whole| == |img| && s.Comp(k).height > 0
  {
    Sizes(s, k);
    end <= |whole[s.cs[k]]| && forall row :: top <= row < end ==>
      whole[s.cs[k]][row] == PaddedRow(s.Comp(k), img[s.cs[k]], row, s.f.across, s.f.across)
  }

  lemma LoadedStrip(s: Scan, img: seq<Plane>, whole: seq<Plane>, k: nat, i: nat, n: nat)
    requires s.Ok() && ImageOk(s.f, img) && k < |s.cs| && AllLoaded(s.f, img, whole, n) && i < n <= s.f.down
    ensures |whole| == |img| && s.Comp(k).height > 0
    ensures StripRight(s, img, whole, k, Start(i, s.Comp(k).v), Start(i, s.Comp(k).v) + s.Comp(k).v)
  {
    hide PaddedRow;
    Tall(s.f, s.cs[k]);
    var c := s.Comp(k);
    assert Loaded(s.f, c, img[s.cs[k]], whole[s.cs[k]], Start(n, c.v));
    Whole(s.f.down, c.v, c.height, i);
    Bits.MulMonotone(i + 1, n, c.v);
    Bits.MulMonotone(n, s.f.down, c.v);
  }

  lemma DummyRowIs(c: Component, z: Plane, row: nat, left: nat, dc: int)
    requires PlaneOk(c, z) && left < c.width && row >= c.height > 0 && c.h > 0
    requires dc == z[c.height - 1][LastColumn(c, left, c.h)].dc
    ensures RowBlocks(c, z, row, left, c.h) == seq(c.h, x => Dummy(dc))
  {
    hide RowBlocks;
    forall x | 0 <= x < c.h ensures RowBlocks(c, z, row, left, c.h)[x] == Dummy(dc) {
      BlockInRow(c, z, row, left, c.h, x);
    }
  }
}
