/** How the blocks of an image are grouped into MCUs for the entropy coder: which blocks an MCU holds,
    what stands in for the blocks beyond the edges of the image, and in what order the MCUs of a scan
    come. (Section A.2 of ITU-T T.81.) */
module McuLayout {
  import opened Bits
  import Rows = ContextRows

  /** A block: its DC coefficient and the others. */
  datatype Block = Block(dc: int, ac: seq<int>)

  /** A block that is not part of the image. */
  function Dummy(dc: int): Block { Block(dc, seq(63, i => 0)) }

  /** n groups of k cover size, and none is without use. */
  predicate Covers(n: nat, k: nat, size: nat) { n >= 1 && k >= 1 && Start(n - 1, k) < size <= Start(n, k) }

  function Start(n: nat, k: nat): nat { n * k }

  /** Sampling factors, and the size in blocks. */
  datatype Component = Component(h: nat, v: nat, width: nat, height: nat)

  /** The components, and the size of the image in MCUs that hold all of them. */
  datatype Frame = Frame(comps: seq<Component>, across: nat, down: nat) {
    predicate Ok() {
      forall c :: 0 <= c < |comps| ==>
        Covers(across, comps[c].h, comps[c].width) && Covers(down, comps[c].v, comps[c].height)
    }
  }

  /** Sizes computed from those of the image fit together: size samples, n largest sampling factor. */
  lemma SizesCover(size: nat, n: nat, k: nat)
    requires size > 0 && n >= k >= 1
    ensures Covers(Rows.DivRoundUp(size, n * 8), k, Rows.DivRoundUp(size * k, n * 8))
  {
    Rows.RowGroupsAgree(size, n * 8, k);
    MulMonotone(1, size, k);
    Rows.RoundUpMoreThan(size, n * 8, 0);
    Rows.RoundUpMoreThan(size * k, n * 8, 0);
    hide Rows.DivRoundUp;
  }

  /** The blocks of one component, row by row. */
  type Plane = seq<seq<Block>>

  predicate PlaneOk(c: Component, z: Plane) {
    |z| == c.height && forall y :: 0 <= y < c.height ==> |z[y]| == c.width
  }

  predicate ImageOk(f: Frame, img: seq<Plane>) {
    |img| == |f.comps| && forall c :: 0 <= c < |img| ==> PlaneOk(f.comps[c], img[c])
  }

  // ----- One MCU -----

  /** Block (row, col) of an MCU whose last column in the image is last: beyond the image a block of
      zeros with the DC of the last block of the MCU before it that is in the image. */
  function BlockAt(c: Component, z: Plane, row: nat, col: nat, last: nat): Block
    requires PlaneOk(c, z) && last < c.width && c.height > 0
  {
    if row < c.height && col <= last then z[row][col]
    else Dummy(z[if row < c.height then row else c.height - 1][last].dc)
  }

  /** The last column in the image, of w columns from left on. */
  function LastColumn(c: Component, left: nat, w: nat): (l: nat)
    requires left < c.width && w > 0
    ensures left <= l < c.width && l < left + w && (l == c.width - 1 || l == left + w - 1)
  {
    if left + w < c.width then left + w - 1 else c.width - 1
  }

  /** One row of blocks of an MCU. */
  function RowBlocks(c: Component, z: Plane, row: nat, left: nat, w: nat): (s: seq<Block>)
    requires PlaneOk(c, z) && left < c.width && c.height > 0 && w > 0
    ensures |s| == w
  {
    seq(w, x requires 0 <= x < w => BlockAt(c, z, row, left + x, LastColumn(c, left, w)))
  }

  lemma BlockInRow(c: Component, z: Plane, row: nat, left: nat, w: nat, x: nat)
    requires PlaneOk(c, z) && left < c.width && c.height > 0 && x < w
    ensures RowBlocks(c, z, row, left, w)[x] == BlockAt(c, z, row, left + x, LastColumn(c, left, w))
  {
  }

  /** n rows of blocks of an MCU. */
  function GridBlocks(c: Component, z: Plane, top: nat, n: nat, left: nat, w: nat): (s: seq<Block>)
    requires PlaneOk(c, z) && left < c.width && c.height > 0 && w > 0
    ensures |s| == n * w
  {
    if n == 0 then []
    else
      assert n * w == (n - 1) * w + w;
      GridBlocks(c, z, top, n - 1, left, w) + RowBlocks(c, z, top + n - 1, left, w)
  }

  /** The number of cell (y, x) of a grid w cells wide. */
  function Cell(w: nat, y: nat, x: nat): nat { y * w + x }

  lemma {:induction false} GridAt(c: Component, z: Plane, top: nat, n: nat, left: nat, w: nat, y: nat, x: nat)
    requires PlaneOk(c, z) && left < c.width && c.height > 0 && w > 0 && y < n && x < w
    ensures Cell(w, y, x) < n * w
    ensures GridBlocks(c, z, top, n, left, w)[Cell(w, y, x)] == BlockAt(c, z, top + y, left + x, LastColumn(c, left, w))
    decreases n
  {
    assert n * w == (n - 1) * w + w;
    if y < n - 1 { GridAt(c, z, top, n - 1, left, w, y, x); }
  }

  /** What buffer position p holds after a row of blocks was put at position n. */
  lemma RowPut(a: seq<Block>, b: seq<Block>, n: nat, row: seq<Block>)
    requires n + |row| <= |a| == |b| && b[..n] == a[..n]
    requires forall p :: n <= p < n + |row| ==> b[p] == row[p - n]
    ensures b[..n + |row|] == a[..n] + row
  {
    forall p | 0 <= p < n + |row| ensures b[p] == (a[..n] + row)[p] {
      if p < n { assert b[p] == b[..n][p]; }
    }
  }

  /** Rows of blocks on top of each other. */
  lemma GridStep(c: Component, z: Plane, top: nat, n: nat, left: nat, w: nat, pre: seq<Block>)
    requires PlaneOk(c, z) && left < c.width && c.height > 0 && w > 0
    ensures |GridBlocks(c, z, top, n + 1, left, w)| == |GridBlocks(c, z, top, n, left, w)| + w
    ensures pre + GridBlocks(c, z, top, n, left, w) + RowBlocks(c, z, top + n, left, w) == pre +
      GridBlocks(c, z, top, n + 1, left, w)
  {
    hide RowBlocks;
    assert GridBlocks(c, z, top, n + 1, left, w) == GridBlocks(c, z, top, n, left, w) +
      RowBlocks(c, z, top + n, left, w);
  }

  lemma MulRows(n: nat, h: nat, w: nat)
    requires n < h
    ensures n * w + w <= h * w
  {
    var k := h - n - 1;
    assert h * w == n * w + w + k * w;
  }

  /** The last block of a row has the DC that blocks beyond the bottom of the image take. */
  lemma RowEnd(c: Component, z: Plane, row: nat, left: nat, w: nat)
    requires PlaneOk(c, z) && left < c.width && c.height > 0 && w > 0
    ensures RowBlocks(c, z, row, left, w)[w - 1].dc
      == z[if row < c.height then row else c.height - 1][LastColumn(c, left, w)].dc
  {
    BlockInRow(c, z, row, left, w, w - 1);
  }

  lemma GridEnd(c: Component, z: Plane, top: nat, n: nat, left: nat, w: nat)
    requires PlaneOk(c, z) && left < c.width && c.height > 0 && w > 0 && n > 0
    ensures var g := GridBlocks(c, z, top, n, left, w); var row := top + n - 1;
      |g| > 0 && g[|g| - 1].dc == z[if row < c.height then row else c.height - 1][LastColumn(c, left, w)].dc
  {
    RowEnd(c, z, top + n - 1, left, w);
  }

  // ----- A scan -----

  const MAX_BLOCKS := 10

  /** The components in a scan; a scan of one component has one block to an MCU. */
  datatype Scan = Scan(f: Frame, cs: seq<nat>) {
    predicate Ok() {
      f.Ok() && 1 <= |cs| <= 4 && (forall i :: 0 <= i < |cs| ==> cs[i] < |f.comps|) && Blocks(|cs|) <= MAX_BLOCKS
    }

    predicate Single() { |cs| == 1 }

    function Comp(i: nat): Component
      requires i < |cs| && cs[i] < |f.comps|
    {
      f.comps[cs[i]]
    }

    /** Columns and rows of component i in an MCU. */
    function McuWidth(i: nat): nat
      requires i < |cs| && cs[i] < |f.comps|
    {
      if Single() then 1 else Comp(i).h
    }

    function McuHeight(i: nat): nat
      requires i < |cs| && cs[i] < |f.comps|
    {
      if Single() then 1 else Comp(i).v
    }

    /** Blocks of the first n components in an MCU. */
    function Blocks(n: nat): nat
      requires n <= |cs| && forall i :: 0 <= i < |cs| ==> cs[i] < |f.comps|
    {
      if n == 0 then 0 else Blocks(n - 1) + McuHeight(n - 1) * McuWidth(n - 1)
    }

    function McusPerRow(): nat
      requires |cs| >= 1 && cs[0] < |f.comps|
    {
      if Single() then Comp(0).width else f.across
    }

    function McuRows(): nat
      requires |cs| >= 1 && cs[0] < |f.comps|
    {
      if Single() then Comp(0).height else f.down
    }

    /** MCU rows in every iMCU row but the last. */
    function Step(): nat
      requires |cs| >= 1 && cs[0] < |f.comps|
    {
      if Single() then Comp(0).v else 1
    }

    /** MCU rows in iMCU row i. */
    function RowsIn(i: nat): nat
      requires |cs| >= 1 && cs[0] < |f.comps| && Comp(0).v > 0
    {
      if !Single() then 1 else if i + 1 < f.down then Comp(0).v else LastPart(Comp(0).height, Comp(0).v)
    }
  }

  /** What the last group of k holds, when size are grouped by k. */
  function LastPart(size: nat, k: nat): nat
    requires k > 0
  {
    if size % k == 0 then k else size % k
  }

  lemma LastPartIs(n: nat, k: nat, size: nat)
    requires Covers(n, k, size)
    ensures LastPart(size, k) == size - Start(n - 1, k) && Start(n, k) == Start(n - 1, k) + k
  {
    var p := size - (n - 1) * k;
    assert n * k == (n - 1) * k + k;
    if p == k { QuotientUnique(size, k, n, 0); } else { QuotientUnique(size, k, n - 1, p); }
  }

  /** Groups before the last are whole. */
  lemma Whole(n: nat, k: nat, size: nat, g: nat)
    requires Covers(n, k, size) && g < n
    ensures Start(g, k) < size && Start(g + 1, k) == Start(g, k) + k
    ensures g + 1 < n ==> Start(g, k) + k < size
  {
    assert (g + 1) * k == g * k + k;
    MulMonotone(g, n - 1, k);
    if g + 1 < n { MulMonotone(g + 1, n - 1, k); }
  }

  /** MCU (r, m) starts inside the image in every component. */
  lemma Inside(s: Scan, i: nat, r: nat, m: nat)
    requires s.Ok() && i < |s.cs| && r < s.McuRows() && m < s.McusPerRow()
    ensures s.Comp(i).v > 0 && s.Comp(i).h > 0 && s.McuWidth(i) > 0 && s.McuHeight(i) > 0
    ensures Start(m, s.McuWidth(i)) < s.Comp(i).width && Start(r, s.McuHeight(i)) < s.Comp(i).height
  {
    var c := s.Comp(i);
    assert Covers(s.f.across, c.h, c.width) && Covers(s.f.down, c.v, c.height);
    if !s.Single() {
      Whole(s.f.across, c.h, c.width, m);
      Whole(s.f.down, c.v, c.height, r);
    }
  }

  /** The blocks of component i in MCU (r, m). */
  function ComponentBlocks(s: Scan, img: seq<Plane>, r: nat, m: nat, i: nat): (b: seq<Block>)
    requires s.Ok() && ImageOk(s.f, img) && r < s.McuRows() && m < s.McusPerRow() && i < |s.cs|
    ensures |b| == s.McuHeight(i) * s.McuWidth(i)
  {
    Inside(s, i, r, m);
    GridBlocks(s.Comp(i), img[s.cs[i]], Start(r, s.McuHeight(i)), s.McuHeight(i), Start(m, s.McuWidth(i)),
      s.McuWidth(i))
  }

  /** The blocks of the first n components in MCU (r, m). */
  function McuPart(s: Scan, img: seq<Plane>, r: nat, m: nat, n: nat): (b: seq<Block>)
    requires s.Ok() && ImageOk(s.f, img) && r < s.McuRows() && m < s.McusPerRow() && n <= |s.cs|
    ensures |b| == s.Blocks(n)
  {
    if n == 0 then [] else McuPart(s, img, r, m, n - 1) + ComponentBlocks(s, img, r, m, n - 1)
  }

  function Mcu(s: Scan, img: seq<Plane>, r: nat, m: nat): (b: seq<Block>)
    requires s.Ok() && ImageOk(s.f, img) && r < s.McuRows() && m < s.McusPerRow()
    ensures |b| == s.Blocks(|s.cs|)
  {
    McuPart(s, img, r, m, |s.cs|)
  }

  lemma {:induction false} BlocksGrow(s: Scan, i: nat, n: nat)
    requires s.Ok() && i < n <= |s.cs|
    ensures s.Blocks(i) + s.McuHeight(i) * s.McuWidth(i) <= s.Blocks(n)
    decreases n
  {
    if i < n - 1 { BlocksGrow(s, i, n - 1); }
  }

  lemma {:induction false} PartAt(s: Scan, img: seq<Plane>, r: nat, m: nat, n: nat, i: nat, p: nat)
    requires s.Ok() && ImageOk(s.f, img) && r < s.McuRows() && m < s.McusPerRow() && i < n <= |s.cs|
    requires p < |ComponentBlocks(s, img, r, m, i)|
    ensures s.Blocks(i) + p < s.Blocks(n)
    ensures McuPart(s, img, r, m, n)[s.Blocks(i) + p] == ComponentBlocks(s, img, r, m, i)[p]
    decreases n
  {
    hide ComponentBlocks;
    BlocksGrow(s, i, n);
    if i < n - 1 {
      PartAt(s, img, r, m, n - 1, i, p);
    }
  }

  /** A block's MCU and its place there. */
  datatype Place = Place(r: nat, m: nat, p: nat)

  function PlaceOf(s: Scan, i: nat, y: nat, x: nat): (q: Place)
    requires s.Ok() && i < |s.cs| && y < s.Comp(i).height && x < s.Comp(i).width
    ensures q.r < s.McuRows() && q.m < s.McusPerRow() && q.p < s.Blocks(|s.cs|)
  {
    PlaceBounds(s, i, y, x);
    var h, w := s.McuHeight(i), s.McuWidth(i);
    Place(y / h, x / w, s.Blocks(i) + Cell(w, y % h, x % w))
  }

  lemma PlaceBounds(s: Scan, i: nat, y: nat, x: nat)
    requires s.Ok() && i < |s.cs| && y < s.Comp(i).height && x < s.Comp(i).width
    ensures var h, w := s.McuHeight(i), s.McuWidth(i);
      && h > 0 && w > 0 && y / h < s.McuRows() && x / w < s.McusPerRow()
      && 0 <= y / h && 0 <= x / w
      && s.Blocks(i) + Cell(w, y % h, x % w) < s.Blocks(|s.cs|)
  {
    hide Scan.Blocks, Scan.McuHeight, Scan.McuWidth, Scan.McuRows, Scan.McusPerRow, Frame.Ok, Cell;
    InGroups(s, i, y, x);
    var h, w := s.McuHeight(i), s.McuWidth(i);
    BlocksGrow(s, i, |s.cs|);
    QuotientRemainder(y, h);
    QuotientRemainder(x, w);
    CellBelow(h, w, y % h, x % w);
  }

  lemma CellBelow(h: nat, w: nat, y: nat, x: nat)
    requires y < h && x < w
    ensures Cell(w, y, x) < h * w
  {
    MulMonotone(y + 1, h, w);
    assert (y + 1) * w == y * w + w;
  }

  lemma InGroups(s: Scan, i: nat, y: nat, x: nat)
    requires s.Ok() && i < |s.cs| && y < s.Comp(i).height && x < s.Comp(i).width
    ensures s.McuHeight(i) > 0 && s.McuWidth(i) > 0
    ensures y / s.McuHeight(i) < s.McuRows() && x / s.McuWidth(i) < s.McusPerRow()
  {
    Sizes(s, i);
    if !s.Single() {
      GroupOf(s.f.down, s.McuHeight(i), s.Comp(i).height, y);
      GroupOf(s.f.across, s.McuWidth(i), s.Comp(i).width, x);
    }
  }

  lemma Split(x: nat, k: nat)
    requires k > 0
    ensures Start(x / k, k) + x % k == x
  {
    QuotientRemainder(x, k);
  }

  /** Every block of the image is in the MCU, and at the place in it, that its position determines. */
  lemma BlockDelivered(s: Scan, img: seq<Plane>, i: nat, y: nat, x: nat)
    requires s.Ok() && ImageOk(s.f, img) && i < |s.cs| && y < s.Comp(i).height && x < s.Comp(i).width
    ensures var q := PlaceOf(s, i, y, x); Mcu(s, img, q.r, q.m)[q.p] == img[s.cs[i]][y][x]
  {
    hide Start, GridBlocks, RowBlocks, LastColumn, McuPart, ComponentBlocks;
    var h, w := s.McuHeight(i), s.McuWidth(i);
    InGroups(s, i, y, x);
    var r, m := y / h, x / w;
    Inside(s, i, r, m);
    Split(y, h);
    Split(x, w);
    CellBelow(h, w, y % h, x % w);
    ComponentCell(s, img, r, m, i, y % h, x % w);
    LastHolds(s.Comp(i), Start(m, w), w, x % w);
    PartAt(s, img, r, m, |s.cs|, i, Cell(w, y % h, x % w));
  }

  /** No two blocks share a place. */
  lemma PlacesDiffer(s: Scan, i: nat, y: nat, x: nat, j: nat, v: nat, u: nat)
    requires s.Ok() && i < |s.cs| && y < s.Comp(i).height && x < s.Comp(i).width
    requires j < |s.cs| && v < s.Comp(j).height && u < s.Comp(j).width
    requires PlaceOf(s, i, y, x) == PlaceOf(s, j, v, u)
    ensures i == j && y == v && x == u
  {
    hide Start, Cell;
    InGroups(s, i, y, x);
    InGroups(s, j, v, u);
    var h, w := s.McuHeight(i), s.McuWidth(i);
    CellBelow(h, w, y % h, x % w);
    CellBelow(s.McuHeight(j), s.McuWidth(j), v % s.McuHeight(j), u % s.McuWidth(j));
    if i < j { BlocksGrow(s, i, j); }
    if j < i { BlocksGrow(s, j, i); }
    CellsDiffer(w, y % h, x % w, v % h, u % w);
    Split(y, h);
    Split(v, h);
    Split(x, w);
    Split(u, w);
  }

  lemma CellsDiffer(w: nat, y: nat, x: nat, v: nat, u: nat)
    requires x < w && u < w && Cell(w, y, x) == Cell(w, v, u)
    ensures y == v && x == u
  {
    QuotientUnique(Cell(w, y, x), w, y, x);
    QuotientUnique(Cell(w, v, u), w, v, u);
  }

  lemma LastHolds(c: Component, left: nat, w: nat, x: nat)
    requires x < w && left + x < c.width
    ensures left + x <= LastColumn(c, left, w)
  {
  }

  lemma ComponentCell(s: Scan, img: seq<Plane>, r: nat, m: nat, i: nat, y: nat, x: nat)
    requires s.Ok() && ImageOk(s.f, img) && r < s.McuRows() && m < s.McusPerRow() && i < |s.cs|
    requires y < s.McuHeight(i) && x < s.McuWidth(i)
    ensures s.Comp(i).height > 0 && Start(m, s.McuWidth(i)) < s.Comp(i).width
    ensures Cell(s.McuWidth(i), y, x) < |ComponentBlocks(s, img, r, m, i)|
    ensures ComponentBlocks(s, img, r, m, i)[Cell(s.McuWidth(i), y, x)]
      == BlockAt(s.Comp(i), img[s.cs[i]], Start(r, s.McuHeight(i)) + y, Start(m, s.McuWidth(i)) + x,
                 LastColumn(s.Comp(i), Start(m, s.McuWidth(i)), s.McuWidth(i)))
  {
    Inside(s, i, r, m);
    GridAt(s.Comp(i), img[s.cs[i]], Start(r, s.McuHeight(i)), s.McuHeight(i), Start(m, s.McuWidth(i)), s.McuWidth(i), y,
      x);
  }

  /** A block beyond the edges of the image costs next to nothing: its AC coefficients are zero, and its DC
      coefficient is that of the block before it in the MCU. */
  lemma DummyLikeBefore(s: Scan, img: seq<Plane>, r: nat, m: nat, i: nat, y: nat, x: nat)
    requires s.Ok() && ImageOk(s.f, img) && r < s.McuRows() && m < s.McusPerRow() && i < |s.cs|
    requires y < s.McuHeight(i) && x < s.McuWidth(i)
    requires r * s.McuHeight(i) + y >= s.Comp(i).height || m * s.McuWidth(i) + x >= s.Comp(i).width
    ensures var b, p := ComponentBlocks(s, img, r, m, i), y * s.McuWidth(i) + x;
      && 0 < p < |b| && b[p].dc == b[p - 1].dc
      && |b[p].ac| == 63 && forall k :: 0 <= k < 63 ==> b[p].ac[k] == 0
  {
    hide Scan.Ok, ImageOk, ComponentBlocks, Scan.McuHeight, Scan.McuWidth, Scan.McuRows, Scan.McusPerRow, BlockAt,
      Scan.Comp;
    Inside(s, i, r, m);
    ComponentCell(s, img, r, m, i, y, x);
    PlaneShape(s, img, i);
    var c, z, h, w := s.Comp(i), img[s.cs[i]], s.McuHeight(i), s.McuWidth(i);
    var top, left := Start(r, h), Start(m, w);
    var last := LastColumn(c, left, w);
    if x > 0 {
      ComponentCell(s, img, r, m, i, y, x - 1);
      DummyInRow(c, z, top + y, left, w, x);
    } else {
      ComponentCell(s, img, r, m, i, y - 1, w - 1);
      assert Cell(w, y - 1, w - 1) == Cell(w, y, 0) - 1 by { CellBefore(w, y); }
      DummyBelow(c, z, top + y, left, w);
    }
  }

  lemma PlaneShape(s: Scan, img: seq<Plane>, i: nat)
    requires s.Ok() && ImageOk(s.f, img) && i < |s.cs|
    ensures s.cs[i] < |img| == |s.f.comps| && PlaneOk(s.Comp(i), img[s.cs[i]])
  {
  }

  lemma CellBefore(w: nat, y: nat)
    requires w > 0 && y > 0
    ensures (y - 1) * w + (w - 1) == y * w - 1
  {
  }

  lemma DummyInRow(c: Component, z: Plane, row: nat, left: nat, w: nat, x: nat)
    requires PlaneOk(c, z) && left < c.width && c.height > 0 && 0 < x < w
    requires row >= c.height || left + x >= c.width
    ensures var last := LastColumn(c, left, w);
      var b := BlockAt(c, z, row, left + x, last);
      && b.dc == BlockAt(c, z, row, left + x - 1, last).dc
      && |b.ac| == 63 && forall k :: 0 <= k < 63 ==> b.ac[k] == 0
  {
  }

  lemma DummyBelow(c: Component, z: Plane, row: nat, left: nat, w: nat)
    requires PlaneOk(c, z) && left < c.width && c.height > 0 && w > 0 && row > 0 && row >= c.height
    ensures var last := LastColumn(c, left, w);
      var b := BlockAt(c, z, row, left, last);
      && b.dc == BlockAt(c, z, row - 1, left + (w - 1), last).dc
      && |b.ac| == 63 && forall k :: 0 <= k < 63 ==> b.ac[k] == 0
  {
  }

  lemma GroupOf(n: nat, k: nat, size: nat, x: nat)
    requires Covers(n, k, size) && x < size
    ensures x / k < n
  {
    QuotientRemainder(x, k);
    if x / k >= n { MulMonotone(n, x / k, k); }
  }

  // ----- The MCUs of a scan, in order -----

  function McuRow(s: Scan, img: seq<Plane>, r: nat, n: nat): (b: seq<seq<Block>>)
    requires s.Ok() && ImageOk(s.f, img) && r < s.McuRows() && n <= s.McusPerRow()
    ensures |b| == n
  {
    seq(n, m requires 0 <= m < n => Mcu(s, img, r, m))
  }

  /** All MCUs of the first n rows. */
  function FirstRows(s: Scan, img: seq<Plane>, n: nat): (b: seq<seq<Block>>)
    requires s.Ok() && ImageOk(s.f, img) && n <= s.McuRows()
    ensures |b| == n * s.McusPerRow()
  {
    if n == 0 then []
    else
      assert n * s.McusPerRow() == (n - 1) * s.McusPerRow() + s.McusPerRow();
      FirstRows(s, img, n - 1) + McuRow(s, img, n - 1, s.McusPerRow())
  }

  function AllMcus(s: Scan, img: seq<Plane>): seq<seq<Block>>
    requires s.Ok() && ImageOk(s.f, img)
  {
    FirstRows(s, img, s.McuRows())
  }

  /** The MCU row that is row y of iMCU row i. */
  function RowIndex(s: Scan, i: nat, y: nat): nat
    requires s.Ok()
  {
    Start(i, s.Step()) + y
  }

  lemma Sizes(s: Scan, i: nat)
    requires s.Ok() && i < |s.cs|
    ensures Covers(s.f.across, s.Comp(i).h, s.Comp(i).width) && Covers(s.f.down, s.Comp(i).v, s.Comp(i).height)
  {
  }

  /** The rows of the iMCU rows are the MCU rows of the scan. */
  lemma RowInScan(s: Scan, i: nat, y: nat)
    requires s.Ok() && i < s.f.down
    ensures s.Comp(0).v > 0
    ensures y < s.RowsIn(i) ==> RowIndex(s, i, y) < s.McuRows()
    ensures y == s.RowsIn(i) ==> RowIndex(s, i, y) == if i + 1 < s.f.down then RowIndex(s, i + 1, 0) else s.McuRows()
  {
    Sizes(s, 0);
    var c := s.Comp(0);
    Whole(s.f.down, c.v, c.height, i);
    LastPartIs(s.f.down, c.v, c.height);
  }

  /** Where the blocks of component k start in that MCU row, and how many block rows are in the image. */
  lemma TopRow(s: Scan, i: nat, y: nat, k: nat)
    requires s.Ok() && i < s.f.down && k < |s.cs| && s.Comp(0).v > 0 && y < s.RowsIn(i)
    ensures Start(RowIndex(s, i, y), s.McuHeight(k)) == Start(i, s.Comp(k).v) + y
    ensures y + s.McuHeight(k) <= s.Comp(k).v
  {
    Sizes(s, k);
    LastPartIs(s.f.down, s.Comp(k).v, s.Comp(k).height);
  }

  /** The test for block rows below the image. */
  lemma RealRow(f: Frame, c: Component, i: nat, y: nat)
    requires Covers(f.down, c.v, c.height) && i < f.down && y < c.v
    ensures (i + 1 < f.down || y < LastPart(c.height, c.v)) <==> Start(i, c.v) + y < c.height
  {
    Whole(f.down, c.v, c.height, i);
    LastPartIs(f.down, c.v, c.height);
  }

  /** The number of columns of an MCU in the image. */
  lemma RealColumns(s: Scan, k: nat, m: nat)
    requires s.Ok() && k < |s.cs| && m < s.McusPerRow()
    ensures s.Comp(k).h > 0 && s.McuWidth(k) > 0 && Start(m, s.McuWidth(k)) < s.Comp(k).width
    ensures var w := s.McuWidth(k);
      LastColumn(s.Comp(k), Start(m, w), w) + 1 - Start(m, w)
        == if m + 1 < s.McusPerRow() then w else if s.Single() then 1 else LastPart(s.Comp(k).width, s.Comp(k).h)
  {
    Sizes(s, k);
    var c := s.Comp(k);
    if !s.Single() {
      Whole(s.f.across, c.h, c.width, m);
      LastPartIs(s.f.across, c.h, c.width);
    }
  }

  // ----- How far a scan has come -----

  /** The MCUs before MCU number m of row y of iMCU row i. */
  function Before(s: Scan, img: seq<Plane>, i: nat, y: nat, m: nat): seq<seq<Block>>
    requires s.Ok() && ImageOk(s.f, img) && s.Comp(0).v > 0 && m <= s.McusPerRow()
    requires i < s.f.down && y < s.RowsIn(i)
  {
    RowInScan(s, i, y);
    FirstRows(s, img, RowIndex(s, i, y)) + McuRow(s, img, RowIndex(s, i, y), m)
  }

  lemma BeforeNext(s: Scan, img: seq<Plane>, i: nat, y: nat, m: nat)
    requires s.Ok() && ImageOk(s.f, img) && s.Comp(0).v > 0 && m < s.McusPerRow()
    requires i < s.f.down && y < s.RowsIn(i)
    ensures RowIndex(s, i, y) < s.McuRows()
    ensures Before(s, img, i, y, m + 1) == Before(s, img, i, y, m) + [Mcu(s, img, RowIndex(s, i, y), m)]
  {
    hide Mcu;
    RowInScan(s, i, y);
    var r := RowIndex(s, i, y);
    assert McuRow(s, img, r, m + 1) == McuRow(s, img, r, m) + [Mcu(s, img, r, m)];
  }

  /** The same position, at the end of one row and at the start of the next. */
  lemma BeforeRow(s: Scan, img: seq<Plane>, i: nat, y: nat)
    requires s.Ok() && ImageOk(s.f, img) && s.Comp(0).v > 0 && i < s.f.down && y < s.RowsIn(i)
    ensures RowIndex(s, i, y + 1) <= s.McuRows()
    ensures Before(s, img, i, y, s.McusPerRow()) == FirstRows(s, img, RowIndex(s, i, y + 1))
  {
    hide Mcu;
    RowInScan(s, i, y);
    RowInScan(s, i, y + 1);
  }

  /** A coefficient controller at MCU m of row y of iMCU row i, with rows MCU rows in it, has handed
      over the MCUs before that; at the end, all. */
  ghost predicate At(s: Scan, img: seq<Plane>, i: nat, y: nat, m: nat, rows: nat, sent: seq<seq<Block>>) {
    && s.Ok() && ImageOk(s.f, img) && s.Comp(0).v > 0 && i <= s.f.down
    && if i == s.f.down then sent == AllMcus(s, img)
       else rows == s.RowsIn(i) && y < rows && m < s.McusPerRow() && sent == Before(s, img, i, y, m)
  }

  /** Within iMCU row i: before row y, at MCU m unless the rows are used up. */
  ghost predicate InRow(s: Scan, img: seq<Plane>, i: nat, y: nat, m: nat, sent: seq<seq<Block>>) {
    && s.Ok() && ImageOk(s.f, img) && s.Comp(0).v > 0 && i < s.f.down && y <= s.RowsIn(i) && m < s.McusPerRow()
    && if y < s.RowsIn(i) then sent == Before(s, img, i, y, m)
       else RowIndex(s, i, y) <= s.McuRows() && sent == FirstRows(s, img, RowIndex(s, i, y))
  }

  lemma Resume(s: Scan, img: seq<Plane>, i: nat, y: nat, m: nat, rows: nat, sent: seq<seq<Block>>)
    requires s.Ok() && i < s.f.down && At(s, img, i, y, m, rows, sent)
    ensures InRow(s, img, i, y, m, sent) && rows == s.RowsIn(i) && y < rows
  {
  }

  lemma Suspend(s: Scan, img: seq<Plane>, i: nat, y: nat, m: nat, sent: seq<seq<Block>>)
    requires s.Ok() && ImageOk(s.f, img) && i < s.f.down && s.Comp(0).v > 0 && y < s.RowsIn(i) && m < s.McusPerRow()
    requires sent == Before(s, img, i, y, m)
    ensures At(s, img, i, y, m, s.RowsIn(i), sent)
  {
  }

  lemma NextRow(s: Scan, img: seq<Plane>, i: nat, y: nat, sent: seq<seq<Block>>)
    requires s.Ok() && ImageOk(s.f, img) && s.Comp(0).v > 0 && i < s.f.down && y < s.RowsIn(i)
    requires sent == Before(s, img, i, y, s.McusPerRow())
    ensures InRow(s, img, i, y + 1, 0, sent)
  {
    hide Mcu;
    Sizes(s, 0);
    BeforeRow(s, img, i, y);
    RowInScan(s, i, y);
    RowInScan(s, i, y + 1);
    if y + 1 < s.RowsIn(i) { AtStart(s, img, i, y + 1); }
  }

  lemma AtStart(s: Scan, img: seq<Plane>, i: nat, y: nat)
    requires s.Ok() && ImageOk(s.f, img) && s.Comp(0).v > 0 && i < s.f.down && y < s.RowsIn(i)
    ensures RowIndex(s, i, y) < s.McuRows()
    ensures Before(s, img, i, y, 0) == FirstRows(s, img, RowIndex(s, i, y))
  {
    hide Mcu;
    RowInScan(s, i, y);
    assert McuRow(s, img, RowIndex(s, i, y), 0) == [];
  }

  /** The end of one iMCU row is the start of the next. */
  lemma NextImcuRow(s: Scan, img: seq<Plane>, i: nat, rows: nat, sent: seq<seq<Block>>)
    requires s.Ok() && s.Comp(0).v > 0 && i < s.f.down && InRow(s, img, i, s.RowsIn(i), 0, sent)
    requires i + 1 < s.f.down ==> rows == s.RowsIn(i + 1)
    ensures At(s, img, i + 1, 0, 0, rows, sent)
  {
    hide Mcu;
    Sizes(s, 0);
    RowInScan(s, i, s.RowsIn(i));
    if i + 1 < s.f.down {
      RowsPositive(s, i + 1);
      AtStart(s, img, i + 1, 0);
    }
  }

  lemma RowsPositive(s: Scan, i: nat)
    requires s.Ok() && s.Comp(0).v > 0 && i < s.f.down
    ensures s.RowsIn(i) > 0 && s.McusPerRow() > 0
  {
    Sizes(s, 0);
    LastPartIs(s.f.down, s.Comp(0).v, s.Comp(0).height);
  }

  lemma Begin(s: Scan, img: seq<Plane>)
    requires s.Ok() && ImageOk(s.f, img)
    ensures s.Comp(0).v > 0 && s.f.down > 0 && At(s, img, 0, 0, 0, s.RowsIn(0), [])
  {
    Sizes(s, 0);
    RowsPositive(s, 0);
    AtStart(s, img, 0, 0);
  }

  // ----- The steps of a pass -----

  /** MCU rows in iMCU row i: one in an interleaved scan, otherwise as many as there are block rows. */
  method CountMcuRows(s: Scan, i: nat) returns (rows: nat)
    requires s.Ok() && s.Comp(0).v > 0
    ensures i < s.f.down ==> rows == s.RowsIn(i)
  {
    if |s.cs| > 1 {
      rows := 1;
    } else if i < s.f.down - 1 {
      rows := s.Comp(0).v;
    } else {
      rows := LastPart(s.Comp(0).height, s.Comp(0).v);
    }
  }

  /** MCUs up to the end of iMCU row i. */
  function EndOf(s: Scan, i: nat): nat
    requires s.Ok() && i < s.f.down
  {
    RowInScan(s, i, 0);
    RowIndex(s, i, s.RowsIn(i)) * s.McusPerRow()
  }

  /** How far a pass has come: iMCU rows finished and MCUs handed over. */
  datatype Progress = Progress(rows: nat, sent: nat)

  /** A call of a coefficient controller, when the entropy coder has room for so many MCUs: it goes on to
      the end of the iMCU row, and no further even if there is room. */
  function Call(s: Scan, p: Progress, room: nat): Progress
    requires s.Ok()
  {
    if p.rows >= s.f.down then p
    else if p.sent + room < EndOf(s, p.rows) then Progress(p.rows, p.sent + room)
    else Progress(p.rows + 1, EndOf(s, p.rows))
  }

  /** A series of calls. */
  function Calls(s: Scan, p: Progress, rooms: seq<nat>): Progress
    requires s.Ok()
  {
    if rooms == [] then p else Call(s, Calls(s, p, rooms[..|rooms| - 1]), rooms[|rooms| - 1])
  }

  lemma CallsStep(s: Scan, p: Progress, rooms: seq<nat>, j: nat)
    requires s.Ok() && j < |rooms|
    ensures Calls(s, p, rooms[..j + 1]) == Call(s, Calls(s, p, rooms[..j]), rooms[j])
  {
    assert rooms[..j + 1][..j] == rooms[..j];
  }

  /** Within an iMCU row its end has not been reached. */
  lemma BeforeEnd(s: Scan, img: seq<Plane>, i: nat, y: nat, m: nat)
    requires s.Ok() && ImageOk(s.f, img) && s.Comp(0).v > 0 && i < s.f.down && y < s.RowsIn(i) && m < s.McusPerRow()
    ensures |Before(s, img, i, y, m)| < EndOf(s, i)
  {
    hide Mcu, RowIndex, Scan.RowsIn, Scan.McusPerRow, Scan.McuRows, Frame.Ok, FirstRows;
    RowInScan(s, i, y);
    RowsOrdered(s, i, y);
    MulRows(RowIndex(s, i, y), RowIndex(s, i, s.RowsIn(i)), s.McusPerRow());
  }

  lemma AtEnd(s: Scan, img: seq<Plane>, i: nat, sent: seq<seq<Block>>)
    requires s.Ok() && s.Comp(0).v > 0 && i < s.f.down && InRow(s, img, i, s.RowsIn(i), 0, sent)
    ensures |sent| == EndOf(s, i)
  {
    hide Mcu;
  }

  lemma RowsOrdered(s: Scan, i: nat, y: nat)
    requires s.Ok() && s.Comp(0).v > 0 && y < s.RowsIn(i)
    ensures RowIndex(s, i, y) < RowIndex(s, i, s.RowsIn(i))
  {
  }

  lemma EndsBelow(s: Scan, i: nat)
    requires s.Ok() && i < s.f.down
    ensures EndOf(s, i) <= s.McuRows() * s.McusPerRow()
    ensures if i + 1 < s.f.down then EndOf(s, i) < EndOf(s, i + 1) else EndOf(s, i) == s.McuRows() * s.McusPerRow()
  {
    Sizes(s, 0);
    RowInScan(s, i, s.RowsIn(i));
    RowsPositive(s, i);
    if i + 1 < s.f.down {
      RowInScan(s, i + 1, 0);
      RowsPositive(s, i + 1);
      hide Start;
      MulMonotone(RowIndex(s, i + 1, 0), s.McuRows(), s.McusPerRow());
      MulStrict(RowIndex(s, i + 1, 0), RowIndex(s, i + 1, s.RowsIn(i + 1)), s.McusPerRow());
    }
  }

  /** What holds of the progress of a pass. */
  ghost predicate Reached(s: Scan, p: Progress)
    requires s.Ok()
  {
    p.rows <= s.f.down &&
      if p.rows < s.f.down then p.sent < EndOf(s, p.rows) else p.sent == s.McuRows() * s.McusPerRow()
  }

  lemma ReachedNext(s: Scan, p: Progress, room: nat)
    requires s.Ok() && Reached(s, p)
    ensures var q := Call(s, p, room); Reached(s, q) && p.sent <= q.sent <= p.sent + room
    ensures room > 0 && p.rows < s.f.down ==> Call(s, p, room).sent > p.sent
  {
    hide EndOf;
    if p.rows < s.f.down { EndsBelow(s, p.rows); }
  }

  function Sum(rooms: seq<nat>): nat {
    if rooms == [] then 0 else Sum(rooms[..|rooms| - 1]) + rooms[|rooms| - 1]
  }

  /** Calls with room for at least one MCU. */
  function NotEmpty(rooms: seq<nat>): nat {
    if rooms == [] then 0 else NotEmpty(rooms[..|rooms| - 1]) + if rooms[|rooms| - 1] > 0 then 1 else 0
  }

  /** The progress p after calls with these rooms. */
  ghost predicate Fits(s: Scan, p: Progress, rooms: seq<nat>)
    requires s.Ok()
  {
    Reached(s, p) && p.sent <= Sum(rooms) && (p.rows == s.f.down || NotEmpty(rooms) <= p.sent)
  }

  lemma FitsNext(s: Scan, p: Progress, rooms: seq<nat>)
    requires s.Ok() && |rooms| > 0 && Fits(s, p, rooms[..|rooms| - 1])
    ensures Fits(s, Call(s, p, rooms[|rooms| - 1]), rooms)
  {
    hide EndOf;
    ReachedNext(s, p, rooms[|rooms| - 1]);
  }

  lemma {:induction false} CallsReach(s: Scan, rooms: seq<nat>)
    requires s.Ok() && Reached(s, Progress(0, 0))
    ensures Fits(s, Calls(s, Progress(0, 0), rooms), rooms)
  {
    hide Call, Reached;
    if rooms != [] {
      hide Fits;
      CallsReach(s, rooms[..|rooms| - 1]);
      FitsNext(s, Calls(s, Progress(0, 0), rooms[..|rooms| - 1]), rooms);
    }
  }

  /** A pass comes to its end if as many calls as there are MCUs have room for one or more, and not
      before there was room for all MCUs. */
  lemma PassEnds(s: Scan, rooms: seq<nat>)
    requires s.Ok()
    ensures NotEmpty(rooms) >= s.McuRows() * s.McusPerRow() ==> Calls(s, Progress(0, 0), rooms).rows == s.f.down
    ensures Calls(s, Progress(0, 0), rooms).rows == s.f.down ==> Sum(rooms) >= s.McuRows() * s.McusPerRow()
  {
    hide EndOf;
    StartReached(s);
    CallsReach(s, rooms);
    var p := Calls(s, Progress(0, 0), rooms);
    if p.rows < s.f.down { EndsBelow(s, p.rows); }
  }

  lemma StartReached(s: Scan)
    requires s.Ok()
    ensures Reached(s, Progress(0, 0))
  {
    Sizes(s, 0);
    RowsPositive(s, 0);
    RowInScan(s, 0, s.RowsIn(0));
    hide Start;
    MulStrict(0, RowIndex(s, 0, s.RowsIn(0)), s.McusPerRow());
  }
}
