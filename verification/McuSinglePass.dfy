/** The single-pass coefficient controller: blocks come from the forward DCT, MCU by MCU, and blocks
    beyond the edges of the image are made up on the way. The entropy coder may suspend. */
module McuSinglePass {
  import opened McuLayout

  class CoefController {
    /** The scan, and the blocks that the forward DCT yields. */
    const s: Scan
    const img: seq<Plane>

    const mcuBuffer: array<Block>
    var imcuRowNum: nat
    var mcuCtr: nat
    var mcuVertOffset: nat
    var mcuRowsPerImcuRow: nat

    /** The MCUs that the entropy coder has accepted. */
    ghost var sent: seq<seq<Block>>

    ghost function Now(): Progress
      reads this
    {
      Progress(imcuRowNum, |sent|)
    }

    ghost predicate Valid()
      reads this
    {
      && mcuBuffer.Length == MAX_BLOCKS
      && At(s, img, imcuRowNum, mcuVertOffset, mcuCtr, mcuRowsPerImcuRow, sent)
    }

    constructor (s0: Scan, img0: seq<Plane>)
      requires s0.Ok() && ImageOk(s0.f, img0)
      ensures Valid() && s == s0 && img == img0 && imcuRowNum == 0 && sent == [] && fresh(mcuBuffer)
    {
      s, img := s0, img0;
      mcuBuffer := new Block[MAX_BLOCKS](_ => Dummy(0));
      imcuRowNum, mcuCtr, mcuVertOffset, sent := 0, 0, 0, [];
      Begin(s0, img0);
      mcuRowsPerImcuRow := s0.RowsIn(0);
    }

    /** A row of blocks inside the image: the DCT of count blocks, then blocks with the DC before them. */
    method PutRealRow(c: Component, z: Plane, row: nat, left: nat, w: nat, count: nat, blkn: nat)
      requires PlaneOk(c, z) && row < c.height && left < c.width && w > 0 && blkn + w <= mcuBuffer.Length
      requires left + count == LastColumn(c, left, w) + 1
      modifies mcuBuffer
      ensures mcuBuffer[..blkn + w] == old(mcuBuffer[..blkn]) + RowBlocks(c, z, row, left, w)
    {
      for bi := 0 to count
        invariant mcuBuffer[..blkn] == old(mcuBuffer[..blkn])
        invariant forall p :: blkn <= p < blkn + bi ==> mcuBuffer[p] == z[row][left + (p - blkn)]
      {
        mcuBuffer[blkn + bi] := z[row][left + bi];
      }
      for bi := count to w
        invariant mcuBuffer[..blkn] == old(mcuBuffer[..blkn])
        invariant forall p :: blkn <= p < blkn + count ==> mcuBuffer[p] == z[row][left + (p - blkn)]
        invariant forall p :: blkn + count <= p < blkn + bi ==> mcuBuffer[p] == Dummy(z[row][left + count - 1].dc)
      {
        mcuBuffer[blkn + bi] := Dummy(mcuBuffer[blkn + bi - 1].dc);
      }
      assert mcuBuffer[..][..blkn] == mcuBuffer[..blkn] && old(mcuBuffer[..])[..blkn] == old(mcuBuffer[..blkn]);
      assert mcuBuffer[..blkn + w] == mcuBuffer[..][..blkn + w];
      forall p | blkn <= p < blkn + w ensures mcuBuffer[p] == RowBlocks(c, z, row, left, w)[p - blkn] {
        BlockInRow(c, z, row, left, w, p - blkn);
      }
      RowPut(old(mcuBuffer[..]), mcuBuffer[..], blkn, RowBlocks(c, z, row, left, w));
    }

    /** A row of blocks below the image. */
    method PutDummyRow(c: Component, z: Plane, row: nat, left: nat, w: nat, blkn: nat)
      requires PlaneOk(c, z) && row >= c.height > 0 && left < c.width && w > 0 && 0 < blkn
      requires blkn + w <= mcuBuffer.Length
      requires mcuBuffer[blkn - 1].dc == z[c.height - 1][LastColumn(c, left, w)].dc
      modifies mcuBuffer
      ensures mcuBuffer[..blkn + w] == old(mcuBuffer[..blkn]) + RowBlocks(c, z, row, left, w)
    {
      ghost var dc := mcuBuffer[blkn - 1].dc;
      for bi := 0 to w
        invariant mcuBuffer[..blkn] == old(mcuBuffer[..blkn]) && mcuBuffer[blkn - 1].dc == dc
        invariant forall p :: blkn <= p < blkn + bi ==> mcuBuffer[p] == Dummy(dc)
      {
        mcuBuffer[blkn + bi] := Dummy(mcuBuffer[blkn - 1].dc);
      }
      assert mcuBuffer[..][..blkn] == mcuBuffer[..blkn] && old(mcuBuffer[..])[..blkn] == old(mcuBuffer[..blkn]);
      assert mcuBuffer[..blkn + w] == mcuBuffer[..][..blkn + w];
      forall p | blkn <= p < blkn + w ensures mcuBuffer[p] == RowBlocks(c, z, row, left, w)[p - blkn] {
        BlockInRow(c, z, row, left, w, p - blkn);
      }
      RowPut(old(mcuBuffer[..]), mcuBuffer[..], blkn, RowBlocks(c, z, row, left, w));
    }

    /** h rows of blocks, the first of them row yoffset of the iMCU row. */
    method FillGrid(c: Component, z: Plane, yoffset: nat, left: nat, w: nat, h: nat, count: nat, blkn0: nat)
      returns (blkn: nat)
      requires PlaneOk(c, z) && Covers(s.f.down, c.v, c.height) && imcuRowNum < s.f.down && yoffset + h <= c.v
      requires left < c.width && w > 0 && left + count == LastColumn(c, left, w) + 1
      requires Start(imcuRowNum, c.v) + yoffset < c.height && blkn0 + h * w <= mcuBuffer.Length
      modifies mcuBuffer
      ensures blkn == blkn0 + h * w
      ensures mcuBuffer[..blkn] == old(mcuBuffer[..blkn0]) +
        GridBlocks(c, z, Start(imcuRowNum, c.v) + yoffset, h, left, w)
    {
      hide Start, RowBlocks, LastColumn, LastPart;
      var top := Start(imcuRowNum, c.v) + yoffset;
      ghost var pre := mcuBuffer[..blkn0];
      blkn := blkn0;
      for yindex := 0 to h
        invariant blkn == blkn0 + |GridBlocks(c, z, top, yindex, left, w)| <= mcuBuffer.Length
        invariant mcuBuffer[..blkn] == pre + GridBlocks(c, z, top, yindex, left, w)
      {
        MulRows(yindex, h, w);
        RealRow(s.f, c, imcuRowNum, yoffset + yindex);
        if imcuRowNum < s.f.down - 1 || yoffset + yindex < LastPart(c.height, c.v) {
          PutRealRow(c, z, top + yindex, left, w, count, blkn);
        } else {
          GridEnd(c, z, top, yindex, left, w);
          assert mcuBuffer[blkn - 1] == mcuBuffer[..blkn][blkn - 1];
          PutDummyRow(c, z, top + yindex, left, w, blkn);
        }
        GridStep(c, z, top, yindex, left, w, pre);
        blkn := blkn + w;
      }
    }

    /** The blocks of component ci. */
    method FillComponent(ci: nat, yoffset: nat, col: nat, blkn0: nat, ghost r: nat) returns (blkn: nat)
      requires s.Ok() && ImageOk(s.f, img) && ci < |s.cs| && imcuRowNum < s.f.down && s.Comp(0).v > 0
      requires yoffset < s.RowsIn(imcuRowNum) && col < s.McusPerRow() && mcuBuffer.Length == MAX_BLOCKS
      requires r == RowIndex(s, imcuRowNum, yoffset) < s.McuRows() && blkn0 == s.Blocks(ci) <= MAX_BLOCKS
      modifies mcuBuffer
      ensures blkn == s.Blocks(ci + 1) <= mcuBuffer.Length
      ensures mcuBuffer[..blkn] == old(mcuBuffer[..blkn0]) + ComponentBlocks(s, img, r, col, ci)
    {
      hide GridBlocks, LastPart, LastColumn, Start;
      var c := s.Comp(ci);
      var w, h := s.McuWidth(ci), s.McuHeight(ci);
      Sizes(s, ci);
      Inside(s, ci, r, col);
      RealColumns(s, ci, col);
      TopRow(s, imcuRowNum, yoffset, ci);
      BlocksGrow(s, ci, |s.cs|);
      var blockcnt := if col < s.McusPerRow() - 1 then w else if s.Single() then 1 else LastPart(c.width, c.h);
      blkn := FillGrid(c, img[s.cs[ci]], yoffset, Start(col, w), w, h, blockcnt, blkn0);
    }

    /** The MCU at column col of row yoffset. */
    method BuildMcu(yoffset: nat, col: nat, ghost r: nat) returns (blkn: nat)
      requires s.Ok() && ImageOk(s.f, img) && imcuRowNum < s.f.down && s.Comp(0).v > 0
      requires yoffset < s.RowsIn(imcuRowNum) && col < s.McusPerRow() && mcuBuffer.Length == MAX_BLOCKS
      requires r == RowIndex(s, imcuRowNum, yoffset) < s.McuRows()
      modifies mcuBuffer
      ensures blkn == s.Blocks(|s.cs|) <= mcuBuffer.Length && mcuBuffer[..blkn] == Mcu(s, img, r, col)
    {
      blkn := 0;
      for ci := 0 to |s.cs|
        invariant blkn == s.Blocks(ci) <= mcuBuffer.Length && mcuBuffer[..blkn] == McuPart(s, img, r, col, ci)
      {
        blkn := FillComponent(ci, yoffset, col, blkn, r);
      }
    }

    /** compress_data: hands over what is left of an iMCU row, as long as the entropy coder, which has
        room for so many MCUs, does not suspend. */
    method CompressData(room0: nat) returns (done: bool)
      requires Valid() && imcuRowNum < s.f.down
      modifies this, mcuBuffer
      ensures Valid()
      ensures Now() == Call(s, old(Now()), room0) && (done <==> imcuRowNum == old(imcuRowNum) + 1)
      ensures old(sent) <= sent
    {
      hide Mcu, FirstRows, RowIndex;
      var room, yoffset := room0, mcuVertOffset;
      var perRow := s.McusPerRow();
      Sizes(s, 0);
      while yoffset < mcuRowsPerImcuRow
        invariant imcuRowNum == old(imcuRowNum) && mcuRowsPerImcuRow == s.RowsIn(imcuRowNum)
        invariant InRow(s, img, imcuRowNum, yoffset, mcuCtr, sent) && (yoffset == mcuRowsPerImcuRow ==> mcuCtr == 0)
        invariant old(sent) <= sent && |sent| + room == |old(sent)| + room0
      {
        var col := mcuCtr;
        while col <= perRow - 1
          invariant imcuRowNum == old(imcuRowNum) && mcuRowsPerImcuRow == s.RowsIn(imcuRowNum)
          invariant col <= perRow && sent == Before(s, img, imcuRowNum, yoffset, col)
          invariant old(sent) <= sent && |sent| + room == |old(sent)| + room0
        {
          BeforeNext(s, img, imcuRowNum, yoffset, col);
          var blkn := BuildMcu(yoffset, col, RowIndex(s, imcuRowNum, yoffset));
          if room == 0 {
            mcuVertOffset := yoffset;
            mcuCtr := col;
            BeforeEnd(s, img, imcuRowNum, yoffset, col);
            return false;
          }
          room := room - 1;
          sent := sent + [mcuBuffer[..blkn]];
          col := col + 1;
        }
        NextRow(s, img, imcuRowNum, yoffset, sent);
        mcuCtr := 0;
        yoffset := yoffset + 1;
      }
      AtEnd(s, img, imcuRowNum, sent);
      imcuRowNum := imcuRowNum + 1;
      mcuRowsPerImcuRow := CountMcuRows(s, imcuRowNum);
      mcuCtr, mcuVertOffset := 0, 0;
      NextImcuRow(s, img, imcuRowNum - 1, mcuRowsPerImcuRow, sent);
      return true;
    }

    /** A pass over the image, whatever room the entropy coder has from call to call: what it accepted
        are the MCUs of the scan in order, and at the end all of them. */
    method RunPass(rooms: seq<nat>)
      requires Valid()
      modifies this, mcuBuffer
      ensures Valid() && (imcuRowNum == s.f.down ==> sent == AllMcus(s, img))
      ensures old(sent) <= sent && Now() == Calls(s, old(Now()), rooms)
    {
      hide AllMcus, EndOf;
      for j := 0 to |rooms|
        invariant Valid() && old(sent) <= sent && Now() == Calls(s, old(Now()), rooms[..j])
      {
        CallsStep(s, old(Now()), rooms, j);
        if imcuRowNum < s.f.down {
          var done := CompressData(rooms[j]);
        }
      }
      assert rooms[..|rooms|] == rooms;
    }
  }
}
