/** The compressor's preprocessing controller with context rows: a buffer of three row groups, used
    in rotation through pointers that wrap around, in which the downsampler finds every row group
    between its neighbours. One component is modeled; a row is represented by its number in the
    image. */
module PrepContext {
  import Rows = ContextRows

  /** v rows to a row group; height rows in the image. */
  datatype Image = Image(v: nat, height: nat) {
    predicate Ok() { v >= 1 && height >= 1 }
  }

  /** The rows around row group k: row by row the nearest row of the image. */
  function Context(m: Image, first: nat): (s: seq<int>)
    requires m.Ok()
    ensures |s| == 3 * m.v && forall i :: 0 <= i < 3 * m.v ==> s[i] == Rows.Clamp(first - m.v + i, m.height)
  {
    seq(3 * m.v, i requires 0 <= i < 3 * m.v => Rows.Clamp(first - m.v + i, m.height))
  }

  /** First row of row group k. */
  function First(m: Image, k: nat): nat { m.v * k }

  lemma NextFirst(m: Image, k: nat)
    ensures First(m, k + 1) == First(m, k) + m.v && First(m, 0) == 0
  {
  }

  /** The row of the buffer behind pointer p; pointers run from one row group before the buffer to
      one after it. */
  function Wrap(m: Image, p: int): int {
    if p < 0 then p + 3 * m.v else if p >= 3 * m.v then p - 3 * m.v else p
  }

  /** Where the row r rows after the start of the row group at g stands. */
  function Pos(m: Image, g: nat, r: int): int { Wrap(m, g + r) }

  /** The three places of a row group. */
  predicate Place(m: Image, g: nat) { g == 0 || g == m.v || g == 2 * m.v }

  /** The buffer holds, from one row group before the one at g on, the nearest image rows, up to n
      rows past its start. */
  ghost predicate Holds(m: Image, buf: seq<int>, g: nat, first: nat, n: int)
    requires m.Ok()
  {
    && |buf| == 3 * m.v && Place(m, g) && n <= 2 * m.v
    && forall r :: -1 * m.v <= r < n ==>
      0 <= Pos(m, g, r) < 3 * m.v && buf[Pos(m, g, r)] == Rows.Clamp(first + r, m.height)
  }

  lemma HoldsPlace(m: Image, buf: seq<int>, g: nat, first: nat, n: int)
    requires m.Ok() && Holds(m, buf, g, first, n)
    ensures |buf| == 3 * m.v && Place(m, g)
  {
  }

  lemma HoldsLast(m: Image, buf: seq<int>, g: nat, first: nat, n: int)
    requires m.Ok() && Holds(m, buf, g, first, n) && n > -1 * m.v
    ensures 0 <= Pos(m, g, n - 1) < |buf| && buf[Pos(m, g, n - 1)] == Rows.Clamp(first + n - 1, m.height)
  {
  }

  /** Storing the next rows. */
  lemma HoldsMore(m: Image, buf: seq<int>, g: nat, first: nat, n: int, buf1: seq<int>, k: nat, at: nat)
    requires m.Ok() && Holds(m, buf, g, first, n) && 0 <= n && n + k <= 2 * m.v && (g == 2 * m.v ==> n >= m.v)
    requires at == (if g == 2 * m.v then n - m.v else g + n) && |buf1| == 3 * m.v
    requires forall p :: 0 <= p < at || at + k <= p < 3 * m.v ==> buf1[p] == buf[p]
    requires forall i :: n <= i < n + k ==> buf1[Pos(m, g, i)] == Rows.Clamp(first + i, m.height)
    ensures Holds(m, buf1, g, first, n + k)
  {
  }

  /** Further image rows stored in their place. */
  lemma RowsStored(m: Image, buf: seq<int>, g: nat, first: nat, n: nat, buf1: seq<int>, k: nat, at: nat)
    requires m.Ok() && Holds(m, buf, g, first, n) && n + k <= 2 * m.v && (g == 2 * m.v ==> n >= m.v)
    requires at == (if g == 2 * m.v then n - m.v else g + n) && |buf1| == 3 * m.v && first + n + k <= m.height
    requires forall p :: 0 <= p < 3 * m.v ==> buf1[p] == if at <= p < at + k then first + n + (p - at) else buf[p]
    ensures Holds(m, buf1, g, first, n + k)
  {
    HoldsPlace(m, buf, g, first, n);
    hide Holds;
    HoldsMore(m, buf, g, first, n, buf1, k, at);
  }

  /** The last image row repeated up to the end of the row group. */
  lemma RowsRepeated(m: Image, buf: seq<int>, g: nat, first: nat, n: nat, buf1: seq<int>, at: nat, stop: nat)
    requires m.Ok() && Holds(m, buf, g, first, n) && 1 <= n < 2 * m.v && (g == 2 * m.v ==> n >= m.v)
    requires first + n >= m.height
    requires at == (if g == 2 * m.v then n - m.v else g + n) && stop == at + (2 * m.v - n) && |buf1| == 3 * m.v
    requires 0 <= Wrap(m, at - 1) < 3 * m.v
    requires forall p :: 0 <= p < 3 * m.v ==> buf1[p] == if at <= p < stop then buf[Wrap(m, at - 1)] else buf[p]
    ensures Holds(m, buf1, g, first, 2 * m.v)
  {
    HoldsPlace(m, buf, g, first, n);
    HoldsLast(m, buf, g, first, n);
    hide Holds;
    assert Wrap(m, at - 1) == Pos(m, g, n - 1);
    HoldsMore(m, buf, g, first, n, buf1, 2 * m.v - n, at);
  }

  /** Reading the first rows of the image, and the copies of its first row above them. */
  lemma HoldsFirst(m: Image, buf: seq<int>, k: nat)
    requires m.Ok() && |buf| == 3 * m.v && 0 < k <= 2 * m.v && k <= m.height
    requires forall p :: 0 <= p < k ==> buf[p] == p
    requires forall p :: 2 * m.v <= p < 3 * m.v ==> buf[p] == 0
    ensures Holds(m, buf, 0, 0, k)
  {
  }

  /** Once a row group and the next are complete, the buffer is as full for the next row group. */
  lemma HoldsNext(m: Image, buf: seq<int>, g: nat, first: nat)
    requires m.Ok() && Holds(m, buf, g, first, 2 * m.v)
    ensures var g1 := if g == 2 * m.v then 0 else g + m.v; Holds(m, buf, g1, first + m.v, m.v)
  {
    var g1 := if g == 2 * m.v then 0 else g + m.v;
    forall r | -1 * m.v <= r < m.v
      ensures 0 <= Pos(m, g1, r) < 3 * m.v && buf[Pos(m, g1, r)] == Rows.Clamp(first + m.v + r, m.height)
    {
      assert Pos(m, g1, r) == Pos(m, g, r + m.v);
    }
  }

  /** Everything around the row group at g, as the downsampler reads it through the pointers. */
  function View(m: Image, buf: seq<int>, fake: seq<int>, g: nat): (s: seq<int>)
    requires m.Ok() && |buf| == 3 * m.v && Place(m, g) && Wrapped(m, fake)
    ensures |s| == 3 * m.v
  {
    seq(3 * m.v, i requires 0 <= i < 3 * m.v => buf[fake[g + i]])
  }

  /** Pointers to the buffer between pointers to its last and to its first row group. */
  predicate Wrapped(m: Image, fake: seq<int>) {
    |fake| == 5 * m.v && forall p :: 0 <= p < 5 * m.v ==> fake[p] == Wrap(m, p - m.v)
  }

  /** The downsampler finds the true neighbours. */
  lemma ViewRight(m: Image, buf: seq<int>, fake: seq<int>, g: nat, first: nat)
    requires m.Ok() && Wrapped(m, fake) && Holds(m, buf, g, first, 2 * m.v)
    ensures View(m, buf, fake, g) == Context(m, first)
  {
    forall i | 0 <= i < 3 * m.v ensures View(m, buf, fake, g)[i] == Context(m, first)[i] {
      assert fake[g + i] == Pos(m, g, i - m.v);
    }
  }

  class PrepController {
    const m: Image
    const trueBuffer: array<int>
    /** Pointers into the buffer; the first v of them stand at negative positions. */
    const fakeBuffer: array<int>
    var rowsToGo: nat
    var nextBufRow: nat
    var thisRowGroup: nat
    var nextBufStop: nat

    /** What the downsampler was given, call by call. */
    ghost var seen: seq<seq<int>>

    ghost predicate Allocated()
      reads fakeBuffer
    {
      m.Ok() && trueBuffer.Length == 3 * m.v && trueBuffer != fakeBuffer && Wrapped(m, fakeBuffer[..])
    }

    /** Rows of the image that have been read. */
    function Read(): int
      reads this`rowsToGo
    {
      m.height - rowsToGo
    }

    /** How many rows from the start of the current row group on are in the buffer. */
    ghost function Ahead(): int
      reads this`nextBufRow, this`nextBufStop
    {
      2 * m.v - (nextBufStop - nextBufRow)
    }

    /** All but the last clause holds also when a row group is complete and about to be downsampled. */
    ghost predicate Filled()
      reads this, trueBuffer, fakeBuffer
    {
      var first := First(m, |seen|);
      && Allocated() && rowsToGo <= m.height && Place(m, thisRowGroup)
      && nextBufStop == (if thisRowGroup == 2 * m.v then m.v else thisRowGroup + 2 * m.v)
      && nextBufRow <= nextBufStop
      && (if Read() == 0 then |seen| == 0 && thisRowGroup == 0 && nextBufRow == 0
          else
            && (if |seen| == 0 then Ahead() >= 1 else Ahead() >= m.v)
            && Holds(m, trueBuffer[..], thisRowGroup, first, Ahead())
            && (if rowsToGo > 0 then first + Ahead() == Read() else first + Ahead() >= m.height))
      && forall k :: 0 <= k < |seen| ==> seen[k] == Context(m, First(m, k))
    }

    /** What holds between calls, however the input is split: every downsampling so far, one row group
        after the other, found exactly the nearest image rows around the row group. */
    ghost predicate Valid()
      reads this, trueBuffer, fakeBuffer
    {
      Filled() && nextBufRow < nextBufStop
    }

    constructor (image: Image)
      requires image.Ok()
      ensures Valid() && m == image && seen == [] && rowsToGo == image.height
    {
      m := image;
      trueBuffer := new int[3 * image.v];
      fakeBuffer := new int[5 * image.v];
      rowsToGo, nextBufRow, thisRowGroup, nextBufStop := image.height, 0, 0, 2 * image.v;
      seen := [];
      new;
      CreateContextBuffer();
    }

    /** Makes the buffer appear between copies of its last and first row groups. */
    method CreateContextBuffer()
      requires m.Ok() && fakeBuffer.Length == 5 * m.v
      modifies fakeBuffer
      ensures Wrapped(m, fakeBuffer[..])
    {
      var v := m.v;
      var i := 0;
      while i < 3 * v
        invariant 0 <= i <= 3 * v
        invariant forall p :: v <= p < v + i ==> fakeBuffer[p] == p - v
      {
        fakeBuffer[v + i] := i;
        i := i + 1;
      }
      i := 0;
      while i < v
        invariant 0 <= i <= v
        invariant forall p :: v <= p < 4 * v ==> fakeBuffer[p] == p - v
        invariant forall p :: 0 <= p < i ==> fakeBuffer[p] == 2 * v + p
        invariant forall p :: 4 * v <= p < 4 * v + i ==> fakeBuffer[p] == p - 4 * v
      {
        fakeBuffer[i] := 2 * v + i;
        fakeBuffer[4 * v + i] := i;
        i := i + 1;
      }
    }

    /** color_convert: stores numrows image rows from position at on. */
    method ColorConvert(at: nat, numrows: nat)
      requires Allocated() && at + numrows <= 3 * m.v
      modifies trueBuffer
      ensures forall p :: 0 <= p < 3 * m.v ==>
        trueBuffer[p] == if at <= p < at + numrows then Read() + (p - at) else old(trueBuffer[p])
    {
      ghost var fake := fakeBuffer[..];
      var i := 0;
      while i < numrows
        invariant 0 <= i <= numrows && fakeBuffer[..] == fake
        invariant forall p :: 0 <= p < 3 * m.v ==>
          trueBuffer[p] == if at <= p < at + i then Read() + (p - at) else old(trueBuffer[p])
      {
        assert fake[m.v + at + i] == at + i;
        trueBuffer[fakeBuffer[m.v + at + i]] := Read() + i;
        i := i + 1;
      }
    }

    /** Repeats the first row above the image. */
    method PadTop()
      requires Allocated()
      modifies trueBuffer
      ensures forall p :: 0 <= p < 3 * m.v ==>
        trueBuffer[p] == if 2 * m.v <= p then old(trueBuffer[0]) else old(trueBuffer[p])
    {
      ghost var fake := fakeBuffer[..];
      var row := 1;
      while row <= m.v
        invariant 1 <= row <= m.v + 1 && fakeBuffer[..] == fake
        invariant forall p :: 0 <= p < 3 * m.v ==>
          trueBuffer[p] == if 3 * m.v - row < p then old(trueBuffer[0]) else old(trueBuffer[p])
      {
        assert fake[m.v - row] == 3 * m.v - row && fake[m.v] == 0;
        trueBuffer[fakeBuffer[m.v - row]] := trueBuffer[fakeBuffer[m.v]];
        row := row + 1;
      }
    }

    /** expand_bottom_edge: repeats the row before inputRows up to outputRows. */
    method ExpandBottomEdge(inputRows: nat, outputRows: nat)
      requires Allocated() && inputRows < outputRows <= 3 * m.v
      modifies trueBuffer
      ensures forall p :: 0 <= p < 3 * m.v ==>
        trueBuffer[p] ==
          if inputRows <= p < outputRows then old(trueBuffer[Wrap(m, inputRows - 1)]) else old(trueBuffer[p])
    {
      ghost var fake := fakeBuffer[..];
      ghost var last := trueBuffer[Wrap(m, inputRows - 1)];
      assert fake[m.v + inputRows - 1] == Wrap(m, inputRows - 1);
      var row := inputRows;
      while row < outputRows
        invariant inputRows <= row <= outputRows && fakeBuffer[..] == fake && trueBuffer[Wrap(m, inputRows - 1)] == last
        invariant forall p :: 0 <= p < 3 * m.v ==>
          trueBuffer[p] == if inputRows <= p < row then last else old(trueBuffer[p])
      {
        assert fake[m.v + row] == row;
        trueBuffer[fakeBuffer[m.v + row]] := trueBuffer[fakeBuffer[m.v + inputRows - 1]];
        row := row + 1;
      }
    }

    /** Reads up to inrows rows, and pads the top when they are the first. */
    method ReadRows(inrows: nat) returns (numrows: nat)
      requires Valid() && 0 < inrows <= rowsToGo
      modifies trueBuffer, this`nextBufRow, this`rowsToGo
      ensures Filled() && 0 < numrows <= inrows && rowsToGo == old(rowsToGo) - numrows
    {
      hide First, Holds, Context, Wrapped, Pos, Wrap;
      numrows := nextBufStop - nextBufRow;
      if inrows < numrows { numrows := inrows; }
      ghost var buf, g, first, n := trueBuffer[..], thisRowGroup, First(m, |seen|), Ahead();
      ColorConvert(nextBufRow, numrows);
      if rowsToGo == m.height {
        PadTop();
        HoldsFirst(m, trueBuffer[..], numrows);
        NextFirst(m, 0);
      } else {
        RowsStored(m, buf, g, first, n, trueBuffer[..], numrows, nextBufRow);
      }
      nextBufRow := nextBufRow + numrows;
      rowsToGo := rowsToGo - numrows;
    }

    /** Completes the row group by repeating the last row of the image. */
    method PadBottom()
      requires Valid() && rowsToGo == 0
      modifies trueBuffer, this`nextBufRow
      ensures Filled() && nextBufRow == nextBufStop
    {
      hide First, Holds, Context, Wrapped;
      ghost var buf, g, first, n := trueBuffer[..], thisRowGroup, First(m, |seen|), Ahead();
      ExpandBottomEdge(nextBufRow, nextBufStop);
      RowsRepeated(m, buf, g, first, n, trueBuffer[..], nextBufRow, nextBufStop);
      nextBufRow := nextBufStop;
    }

    /** Downsamples a complete row group and moves on to the next. */
    method Downsample()
      requires Filled() && Read() > 0 && nextBufRow == nextBufStop
      modifies this`seen, this`thisRowGroup, this`nextBufRow, this`nextBufStop
      ensures Valid() && |seen| == old(|seen|) + 1 && old(seen) <= seen
    {
      hide First, Holds, Context, Wrapped, View;
      var v, bufHeight := m.v, 3 * m.v;
      HoldsPlace(m, trueBuffer[..], thisRowGroup, First(m, |seen|), 2 * m.v);
      ViewRight(m, trueBuffer[..], fakeBuffer[..], thisRowGroup, First(m, |seen|));
      HoldsNext(m, trueBuffer[..], thisRowGroup, First(m, |seen|));
      NextFirst(m, |seen|);
      seen := seen + [View(m, trueBuffer[..], fakeBuffer[..], thisRowGroup)];
      thisRowGroup := thisRowGroup + v;
      if thisRowGroup >= bufHeight { thisRowGroup := 0; }
      if nextBufRow >= bufHeight { nextBufRow := 0; }
      nextBufStop := nextBufRow + v;
    }

    /** One call: inAvail further rows of the image are at hand, and room for outAvail row groups.
        All input is used unless the output is full; at the bottom of the image all output is filled. */
    method PreProcessContext(inAvail: nat, outAvail: nat) returns (inCtr: nat, outCtr: nat)
      requires Valid() && inAvail <= rowsToGo
      modifies this, trueBuffer
      ensures Valid() && old(seen) <= seen && |seen| == old(|seen|) + outCtr && rowsToGo == old(rowsToGo) - inCtr
      ensures inCtr <= inAvail && outCtr <= outAvail && (outCtr == outAvail || (inCtr == inAvail && rowsToGo > 0))
    {
      hide Holds, Context, Wrapped, First, Image.Ok;
      inCtr, outCtr := 0, 0;
      while outCtr < outAvail
        invariant inCtr <= inAvail && outCtr <= outAvail && Valid()
        invariant old(seen) <= seen && |seen| == old(|seen|) + outCtr && rowsToGo == old(rowsToGo) - inCtr
        decreases outAvail - outCtr, inAvail - inCtr
      {
        if inCtr < inAvail {
          var numrows := ReadRows(inAvail - inCtr);
          inCtr := inCtr + numrows;
        } else {
          if rowsToGo != 0 {
            break;
          }
          if nextBufRow < nextBufStop {
            PadBottom();
          }
        }
        if nextBufRow == nextBufStop {
          Downsample();
          outCtr := outCtr + 1;
        }
      }
    }
  }
}
