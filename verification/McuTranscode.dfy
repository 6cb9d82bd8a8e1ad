/** The transcoder's coefficient controller: the blocks of the image are in arrays that hold no others,
    and the MCU is a list of references, to blocks there or to a workspace of dummy blocks of which
    only the DC coefficients are ever written. */
module McuTranscode {
  import opened McuLayout

  /** A reference to a block of the image, or to a block of the workspace. */
  datatype Ref = InImage(c: nat, row: nat, col: nat) | InWorkspace(n: nat)

  predicate RefOk(img: seq<Plane>, work: seq<Block>, r: Ref) {
    match r
    case InImage(c, row, col) => c < |img| && row < |img[c]| && col < |img[c][row]|
    case InWorkspace(n) => n < |work|
  }

  function Deref(img: seq<Plane>, work: seq<Block>, r: Ref): Block
    requires RefOk(img, work, r)
  {
    match r
    case InImage(c, row, col) => img[c][row][col]
    case InWorkspace(n) => work[n]
  }

  /** The first n references of the MCU lead to the blocks b; entry k uses no workspace block but k. */
  ghost predicate Shows(img: seq<Plane>, work: seq<Block>, mcu: seq<Ref>, n: nat, b: seq<Block>) {
    n == |b| <= |mcu| && forall k :: 0 <= k < n ==>
      RefOk(img, work, mcu[k]) && Deref(img, work, mcu[k]) == b[k] && (mcu[k].InWorkspace? ==> mcu[k].n == k)
  }

  /** The workspace blocks are zero but for the DC. */
  ghost predicate Clean(work: seq<Block>) {
    |work| == MAX_BLOCKS && forall k :: 0 <= k < |work| ==> work[k] == Dummy(work[k].dc)
  }

  lemma AddReal(img: seq<Plane>, work: seq<Block>, mcu: seq<Ref>, n: nat, b: seq<Block>, c: nat, row: nat, col: nat)
    requires Shows(img, work, mcu, n, b) && n < |mcu| && RefOk(img, work, InImage(c, row, col))
    ensures Shows(img, work, mcu[n := InImage(c, row, col)], n + 1, b + [img[c][row][col]])
  {
  }

  /** Writing the DC of its own workspace block does not disturb the entries before. */
  lemma AddDummy(img: seq<Plane>, work: seq<Block>, mcu: seq<Ref>, n: nat, b: seq<Block>, dc: int)
    requires Shows(img, work, mcu, n, b) && n < |mcu| <= |work| && Clean(work)
    ensures var work1 := work[n := work[n].(dc := dc)];
      Clean(work1) && Shows(img, work1, mcu[n := InWorkspace(n)], n + 1, b + [Dummy(dc)])
  {
  }

  lemma Shown(img: seq<Plane>, work: seq<Block>, mcu: seq<Ref>, n: nat, b: seq<Block>)
    requires Shows(img, work, mcu, n, b)
    ensures n == |b|
    ensures n > 0 ==> n <= |mcu| && RefOk(img, work, mcu[n - 1]) && Deref(img, work, mcu[n - 1]) == b[n - 1]
  {
  }

  /** The DC that blocks beyond the image take over from the row, or from the row above. */
  lemma LastDc(c: Component, z: Plane, row: nat, left: nat, w: nat, x: nat, count: nat, pre: seq<Block>)
    requires PlaneOk(c, z) && left < c.width && c.height > 0 && 0 < w && count <= x <= w
    requires if row < c.height then left + count == LastColumn(c, left, w) + 1
             else count == 0 && |pre| > 0 && pre[|pre| - 1].dc == z[c.height - 1][LastColumn(c, left, w)].dc
    ensures var b := pre + RowBlocks(c, z, row, left, w)[..x];
      var dc := z[if row < c.height then row else c.height - 1][LastColumn(c, left, w)].dc;
      |b| > 0 && b[|b| - 1].dc == dc && (x < w ==> BlockAt(c, z, row, left + x, LastColumn(c, left, w)) == Dummy(dc))
  {
    if x > 0 { BlockInRow(c, z, row, left, w, x - 1); }
  }

  /** The last of x blocks of a row that ends in blocks beyond the image. */
  lemma NextInRow(c: Component, z: Plane, row: nat, left: nat, w: nat, x: nat, pre: seq<Block>)
    requires PlaneOk(c, z) && left < c.width && c.height > 0 && x < w
    ensures pre + RowBlocks(c, z, row, left, w)[..x] + [BlockAt(c, z, row, left + x, LastColumn(c, left, w))]
      == pre + RowBlocks(c, z, row, left, w)[..x + 1]
  {
    BlockInRow(c, z, row, left, w, x);
  }

  class TransController {
    const s: Scan
    /** The coefficient arrays. */
    const img: seq<Plane>

    const dummyBuffer: array<Block>
    var imcuRowNum: nat
    var mcuCtr: nat
    var mcuVertOffset: nat
    var mcuRowsPerImcuRow: nat

    /** The MCUs that the entropy coder has accepted. */
    ghost var sent: seq<seq<Block>>

    ghost function Now(): Progress
      reads this
    {
      Progress(imcuRowNum, |sent|)
    }

    ghost predicate Valid()
      reads this, dummyBuffer
    {
      && Clean(dummyBuffer[..])
      && At(s, img, imcuRowNum, mcuVertOffset, mcuCtr, mcuRowsPerImcuRow, sent)
    }

    constructor (s0: Scan, img0: seq<Plane>)
      requires s0.Ok() && ImageOk(s0.f, img0)
      ensures Valid() && s == s0 && img == img0 && imcuRowNum == 0 && sent == [] && fresh(dummyBuffer)
    {
      s, img := s0, img0;
      dummyBuffer := new Block[MAX_BLOCKS](_ => Dummy(0));
      imcuRowNum, mcuCtr, mcuVertOffset, sent := 0, 0, 0, [];
      Begin(s0, img0);
      mcuRowsPerImcuRow := s0.RowsIn(0);
    }

    /** One row of an MCU: count blocks of the image, and dummy blocks that repeat the DC before them. */
    method FillRow(mcu: array<Ref>, cidx: nat, ghost c: Component, row: nat, left: nat, w: nat, count: nat, blkn0: nat,
        ghost pre: seq<Block>)
      returns (blkn: nat)
      requires cidx < |img| && PlaneOk(c, img[cidx]) && left < c.width && c.height > 0 && w > 0
      requires blkn0 + w <= mcu.Length == MAX_BLOCKS && Clean(dummyBuffer[..]) && dummyBuffer.Length == MAX_BLOCKS
      requires if row < c.height then left + count == LastColumn(c, left, w) + 1
               else count == 0 && |pre| > 0 && pre[|pre| - 1].dc == img[cidx][c.height - 1][LastColumn(c, left, w)].dc
      requires Shows(img, dummyBuffer[..], mcu[..], blkn0, pre)
      modifies mcu, dummyBuffer
      ensures blkn == blkn0 + w && Clean(dummyBuffer[..])
      ensures Shows(img, dummyBuffer[..], mcu[..], blkn, pre + RowBlocks(c, img[cidx], row, left, w))
    {
      hide RowBlocks, Shows, Clean;
      ghost var z := img[cidx];
      ghost var blocks := RowBlocks(c, z, row, left, w);
      blkn := blkn0;
      var xindex := 0;
      Shown(img, dummyBuffer[..], mcu[..], blkn, pre);
      assert pre + blocks[..0] == pre;
      while xindex < count
        invariant xindex <= count && blkn == blkn0 + xindex
        invariant Clean(dummyBuffer[..]) && Shows(img, dummyBuffer[..], mcu[..], blkn, pre + blocks[..xindex])
      {
        AddReal(img, dummyBuffer[..], mcu[..], blkn, pre + blocks[..xindex], cidx, row, left + xindex);
        NextInRow(c, z, row, left, w, xindex, pre);
        mcu[blkn] := InImage(cidx, row, left + xindex);
        blkn := blkn + 1;
        xindex := xindex + 1;
      }
      while xindex < w
        invariant count <= xindex <= w && blkn == blkn0 + xindex && dummyBuffer.Length == MAX_BLOCKS
        invariant Clean(dummyBuffer[..]) && Shows(img, dummyBuffer[..], mcu[..], blkn, pre + blocks[..xindex])
      {
        ghost var b := pre + blocks[..xindex];
        LastDc(c, z, row, left, w, xindex, count, pre);
        Shown(img, dummyBuffer[..], mcu[..], blkn, b);
        AddDummy(img, dummyBuffer[..], mcu[..], blkn, b, b[blkn - 1].dc);
        NextInRow(c, z, row, left, w, xindex, pre);
        mcu[blkn] := InWorkspace(blkn);
        dummyBuffer[blkn] := dummyBuffer[blkn].(dc := Deref(img, dummyBuffer[..], mcu[blkn - 1]).dc);
        blkn := blkn + 1;
        xindex := xindex + 1;
      }
      assert blocks[..w] == blocks;
    }
  
    /** The blocks of component ci in an MCU. */
    method FillComponent(mcu: array<Ref>, ci: nat, yoffset: nat, col: nat, blkn0: nat, ghost r: nat,
        ghost pre: seq<Block>) returns (blkn: nat)
      requires s.Ok() && ImageOk(s.f, img) && ci < |s.cs| && imcuRowNum < s.f.down && s.Comp(0).v > 0
      requires yoffset < s.RowsIn(imcuRowNum) && col < s.McusPerRow()
      requires r == RowIndex(s, imcuRowNum, yoffset) < s.McuRows() && blkn0 == s.Blocks(ci) <= MAX_BLOCKS
      requires mcu.Length == dummyBuffer.Length == MAX_BLOCKS && Clean(dummyBuffer[..])
      requires Shows(img, dummyBuffer[..], mcu[..], blkn0, pre)
      modifies mcu, dummyBuffer
      ensures blkn == s.Blocks(ci + 1) <= MAX_BLOCKS && Clean(dummyBuffer[..])
      ensures Shows(img, dummyBuffer[..], mcu[..], blkn, pre + ComponentBlocks(s, img, r, col, ci))
    {
      hide GridBlocks, LastPart, LastColumn, Start, Shows, Clean, RowIndex;
      var c := s.Comp(ci);
      var w, h := s.McuWidth(ci), s.McuHeight(ci);
      Sizes(s, ci);
      Inside(s, ci, r, col);
      RealColumns(s, ci, col);
      TopRow(s, imcuRowNum, yoffset, ci);
      BlocksGrow(s, ci, |s.cs|);
      var blockcnt := if col < s.McusPerRow() - 1 then w else if s.Single() then 1 else LastPart(c.width, c.h);
      blkn := FillGrid(mcu, s.cs[ci], c, yoffset, Start(col, w), w, h, blockcnt, blkn0, pre);
    }

    /** h rows of blocks, the first of them row yoffset of the iMCU row. */
    method FillGrid(mcu: array<Ref>, cidx: nat, c: Component, yoffset: nat, left: nat, w: nat, h: nat, count: nat,
        blkn0: nat, ghost pre: seq<Block>)
      returns (blkn: nat)
      requires cidx < |img| && PlaneOk(c, img[cidx]) && Covers(s.f.down, c.v, c.height) && imcuRowNum < s.f.down
      requires yoffset + h <= c.v
      requires left < c.width && w > 0 && left + count == LastColumn(c, left, w) + 1
      requires Start(imcuRowNum, c.v) + yoffset < c.height && blkn0 + h * w <= MAX_BLOCKS
      requires mcu.Length == dummyBuffer.Length == MAX_BLOCKS && Clean(dummyBuffer[..])
      requires Shows(img, dummyBuffer[..], mcu[..], blkn0, pre)
      modifies mcu, dummyBuffer
      ensures blkn == blkn0 + h * w && Clean(dummyBuffer[..])
      ensures Shows(img, dummyBuffer[..], mcu[..], blkn, pre +
        GridBlocks(c, img[cidx], Start(imcuRowNum, c.v) + yoffset, h, left, w))
    {
      hide Start, RowBlocks, LastColumn, LastPart, Shows, Clean;
      ghost var z := img[cidx];
      var top := Start(imcuRowNum, c.v) + yoffset;
      blkn := blkn0;
      assert pre + GridBlocks(c, z, top, 0, left, w) == pre;
      for yindex := 0 to h
        invariant blkn == blkn0 + |GridBlocks(c, z, top, yindex, left, w)| <= MAX_BLOCKS
        invariant Clean(dummyBuffer[..])
        invariant Shows(img, dummyBuffer[..], mcu[..], blkn, pre + GridBlocks(c, z, top, yindex, left, w))
      {
        MulRows(yindex, h, w);
        RealRow(s.f, c, imcuRowNum, yoffset + yindex);
        if yindex > 0 { GridEnd(c, z, top, yindex, left, w); }
        var inImage := imcuRowNum < s.f.down - 1 || yindex + yoffset < LastPart(c.height, c.v);
        GridStep(c, z, top, yindex, left, w, pre);
        blkn := FillRow(mcu, cidx, c, top + yindex, left, w, if inImage then count else 0, blkn, pre +
          GridBlocks(c, z, top, yindex, left, w));
      }
    }

    /** The MCU at column col of row yoffset, and what the entropy coder finds behind its references. */
    method BuildMcu(yoffset: nat, col: nat, ghost r: nat) returns (mcu: array<Ref>, blkn: nat)
      requires s.Ok() && ImageOk(s.f, img) && imcuRowNum < s.f.down && s.Comp(0).v > 0
      requires yoffset < s.RowsIn(imcuRowNum) && col < s.McusPerRow()
      requires r == RowIndex(s, imcuRowNum, yoffset) < s.McuRows() && dummyBuffer.Length == MAX_BLOCKS
      requires Clean(dummyBuffer[..])
      modifies dummyBuffer
      ensures fresh(mcu) && Clean(dummyBuffer[..]) && blkn == s.Blocks(|s.cs|)
      ensures Shows(img, dummyBuffer[..], mcu[..], blkn, Mcu(s, img, r, col))
    {
      mcu := new Ref[MAX_BLOCKS](_ => InWorkspace(0));
      blkn := 0;
      for ci := 0 to |s.cs|
        invariant mcu.Length == MAX_BLOCKS && fresh(mcu) && blkn == s.Blocks(ci) && Clean(dummyBuffer[..])
        invariant Shows(img, dummyBuffer[..], mcu[..], blkn, McuPart(s, img, r, col, ci))
      {
        hide Shows, Clean, ComponentBlocks, RowIndex;
        blkn := FillComponent(mcu, ci, yoffset, col, blkn, r, McuPart(s, img, r, col, ci));
      }
    }

    /** compress_output: hands over what is left of an iMCU row, as long as the entropy coder, which has
        room for so many MCUs, does not suspend. */
    method CompressOutput(room0: nat) returns (done: bool)
      requires Valid() && imcuRowNum < s.f.down
      modifies this, dummyBuffer
      ensures Valid()
      ensures Now() == Call(s, old(Now()), room0) && (done <==> imcuRowNum == old(imcuRowNum) + 1)
      ensures old(sent) <= sent
    {
      hide Mcu, FirstRows, RowIndex, At, Before, Shows;
      var room, yoffset := room0, mcuVertOffset;
      ReadyFor();
      while yoffset < mcuRowsPerImcuRow
        invariant s.Ok() && ImageOk(s.f, img) && s.Comp(0).v > 0 && Clean(dummyBuffer[..])
        invariant dummyBuffer.Length == MAX_BLOCKS
        invariant imcuRowNum == old(imcuRowNum) && mcuRowsPerImcuRow == s.RowsIn(imcuRowNum)
        invariant InRow(s, img, imcuRowNum, yoffset, mcuCtr, sent) && (yoffset == mcuRowsPerImcuRow ==> mcuCtr == 0)
        invariant old(sent) <= sent && |sent| + room == |old(sent)| + room0
      {
        var col := mcuCtr;
        while col < s.McusPerRow()
          invariant Clean(dummyBuffer[..]) && dummyBuffer.Length == MAX_BLOCKS
          invariant imcuRowNum == old(imcuRowNum) && mcuRowsPerImcuRow == s.RowsIn(imcuRowNum)
          invariant col <= s.McusPerRow() && sent == Before(s, img, imcuRowNum, yoffset, col)
          invariant old(sent) <= sent && |sent| + room == |old(sent)| + room0
        {
          BeforeNext(s, img, imcuRowNum, yoffset, col);
          ghost var r := RowIndex(s, imcuRowNum, yoffset);
          var mcu, blkn := BuildMcu(yoffset, col, r);
          if room == 0 {
            mcuVertOffset := yoffset;
            mcuCtr := col;
            BeforeEnd(s, img, imcuRowNum, yoffset, col);
            Suspend(s, img, imcuRowNum, yoffset, col, sent);
            return false;
          }
          room := room - 1;
          SeenIs(img, dummyBuffer[..], mcu[..], blkn, Mcu(s, img, r, col));
          sent := sent + [Seen(img, dummyBuffer[..], mcu[..], blkn)];
          col := col + 1;
        }
        NextRow(s, img, imcuRowNum, yoffset, sent);
        mcuCtr := 0;
        yoffset := yoffset + 1;
      }
      AtEnd(s, img, imcuRowNum, sent);
      imcuRowNum := imcuRowNum + 1;
      mcuRowsPerImcuRow := CountMcuRows(s, imcuRowNum);
      mcuCtr, mcuVertOffset := 0, 0;
      NextImcuRow(s, img, imcuRowNum - 1, mcuRowsPerImcuRow, sent);
      return true;
    }

    lemma ReadyFor()
      requires Valid() && imcuRowNum < s.f.down
      ensures s.Ok() && ImageOk(s.f, img) && s.Comp(0).v > 0 && dummyBuffer.Length == MAX_BLOCKS
      ensures InRow(s, img, imcuRowNum, mcuVertOffset, mcuCtr, sent)
      ensures mcuRowsPerImcuRow == s.RowsIn(imcuRowNum) && mcuVertOffset < mcuRowsPerImcuRow
    {
      Resume(s, img, imcuRowNum, mcuVertOffset, mcuCtr, mcuRowsPerImcuRow, sent);
      assert dummyBuffer.Length == |dummyBuffer[..]|;
    }

    /** A pass over the image, whatever room the entropy coder has from call to call. */
    method RunPass(rooms: seq<nat>)
      requires Valid()
      modifies this, dummyBuffer
      ensures Valid() && (imcuRowNum == s.f.down ==> sent == AllMcus(s, img))
      ensures old(sent) <= sent && Now() == Calls(s, old(Now()), rooms)
    {
      hide AllMcus, EndOf;
      for j := 0 to |rooms|
        invariant Valid() && old(sent) <= sent && Now() == Calls(s, old(Now()), rooms[..j])
      {
        CallsStep(s, old(Now()), rooms, j);
        if imcuRowNum < s.f.down {
          var done := CompressOutput(rooms[j]);
        }
      }
      assert rooms[..|rooms|] == rooms;
    }
  }

  /** The blocks behind the first n references. */
  ghost function Seen(img: seq<Plane>, work: seq<Block>, mcu: seq<Ref>, n: nat): seq<Block>
    requires n <= |mcu| && forall k :: 0 <= k < n ==> RefOk(img, work, mcu[k])
  {
    seq(n, k requires 0 <= k < n => Deref(img, work, mcu[k]))
  }

  lemma SeenIs(img: seq<Plane>, work: seq<Block>, mcu: seq<Ref>, n: nat, b: seq<Block>)
    requires Shows(img, work, mcu, n, b)
    ensures n <= |mcu| && (forall k :: 0 <= k < n ==> RefOk(img, work, mcu[k])) && Seen(img, work, mcu, n) == b
  {
  }
}
