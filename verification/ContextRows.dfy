/** The decompressor's main buffer controller: two lists of pointers into one workspace give every
    row group its neighbours above and below without copying any samples. One component is modeled;
    a sample row is represented by its number in the image. */
module ContextRows {
  import opened Bits

  /** m row groups to an iMCU row, rgroup rows to a row group, height rows in the image; of the last
      iMCU row, the decoder writes the first bottom rows, which are those of the blocks that exist. */
  datatype Layout = Layout(m: nat, rgroup: nat, height: nat, total: nat, bottom: nat) {
    /** Rows in n row groups. */
    function Lines(n: nat): nat { rgroup * n }

    /** Rows of an iMCU row. */
    function Span(): nat { Lines(m) }

    /** First row of iMCU row t. */
    function RowStart(t: nat): nat { t * Span() }

    /** First row of the last iMCU row. */
    function LastStart(): nat
      requires total > 0
    {
      RowStart(total - 1)
    }

    /** First row that the decoder does not write; there may be a few more than the image has. */
    function Written(): nat
      requires total > 0
    {
      LastStart() + bottom
    }

    predicate Ok() {
      m >= 2 && rgroup >= 1 && height >= 1 && total >= 1 && LastStart() < height <= Written() && bottom <= Span()
    }

    /** Rows of the workspace: two row groups more than an iMCU row. */
    function Rows(): nat { Span() + 2 * rgroup }
  }

  lemma Products(l: Layout)
    requires l.Ok()
    ensures l.Span() >= 2 * l.rgroup
    ensures l.Lines(l.m + 2) == l.Rows() && l.Lines(l.m - 2) == l.Span() - 2 * l.rgroup
    ensures l.Lines(l.m + 1) == l.Rows() - l.rgroup && l.Lines(l.m - 1) == l.Span() - l.rgroup
  {
    var m: int := l.m;
    Times(l.rgroup, m, 2); Times(l.rgroup, m, -2); Times(l.rgroup, m, 1); Times(l.rgroup, m, -1);
    MulMonotone(2, l.m, l.rgroup);
  }

  lemma Times(r: int, m: int, k: int)
    ensures r * (m + k) == r * m + r * k
  {
  }

  lemma LinesStep(l: Layout, n: nat)
    ensures l.Lines(n + 1) == l.Lines(n) + l.rgroup && l.Lines(0) == 0
  {
    Times(l.rgroup, n, 1);
  }

  lemma LinesMonotone(l: Layout, a: nat, b: nat)
    requires a <= b
    ensures l.Lines(a) <= l.Lines(b)
  {
    MulMonotone(a, b, l.rgroup);
  }

  /** The iMCU rows follow each other, and all but the last lie within the image. */
  lemma RowStarts(l: Layout, t: nat)
    requires l.Ok() && t < l.total
    ensures l.RowStart(t + 1) == l.RowStart(t) + l.Span() && l.RowStart(0) == 0
    ensures t + 1 < l.total ==> l.RowStart(t + 1) <= l.LastStart()
    ensures t >= 1 ==> l.RowStart(t) >= l.Span()
  {
    hide Layout.Lines;
    Times(l.Span(), t, 1);
    if t + 1 < l.total { MulMonotone(t + 1, l.total - 1, l.Span()); }
    if t >= 1 { MulMonotone(1, t, l.Span()); }
  }

  // ----- The components agree on the number of row groups -----

  /** Division rounded up. */
  function DivRoundUp(a: nat, b: nat): (q: nat)
    requires b > 0
    ensures a <= q * b && (q == 0 || (q - 1) * b < a)
  {
    RoundUp(a, b);
    (a + b - 1) / b
  }

  lemma RoundUp(a: nat, b: nat)
    requires b > 0
    ensures var q := (a + b - 1) / b; q >= 0 && a <= q * b && (q == 0 || (q - 1) * b < a)
  {
    var q := (a + b - 1) / b;
    QuotientRemainder(a + b - 1, b);
    if q > 0 { Times(b, q, -1); }
  }

  lemma RoundUpUnique(a: nat, b: nat, q: nat)
    requires b > 0 && a <= q * b && (q == 0 || (q - 1) * b < a)
    ensures DivRoundUp(a, b) == q
  {
    var p := DivRoundUp(a, b);
    hide DivRoundUp;
    if p < q { MulMonotone(p, q - 1, b); }
    if q < p { MulMonotone(q, p - 1, b); }
  }

  /** A component with r rows to a row group has DivRoundUp(a * r, b) rows when the image has a / b
      row groups: every component has the same number of row groups. */
  lemma RowGroupsAgree(a: nat, b: nat, r: nat)
    requires b > 0 && r > 0
    ensures DivRoundUp(DivRoundUp(a * r, b), r) == DivRoundUp(a, b)
  {
    hide DivRoundUp;
    var n, h := DivRoundUp(a, b), DivRoundUp(a * r, b);
    MulMonotone(a, n * b, r);
    Rearranged(n, b, r);
    RoundUpAtMost(a * r, b, n * r);
    if n > 0 {
      MulStrict((n - 1) * b, a, r);
      Rearranged(n - 1, b, r);
      RoundUpMoreThan(a * r, b, (n - 1) * r);
    }
    RoundUpUnique(h, r, n);
  }

  lemma Rearranged(n: nat, b: nat, r: nat)
    ensures n * b * r == n * r * b
  {
    MulAssoc(n, b, r);
    MulAssoc(n, r, b);
  }

  lemma RoundUpAtMost(a: nat, b: nat, k: nat)
    requires b > 0 && a <= k * b
    ensures DivRoundUp(a, b) <= k
  {
    var q := DivRoundUp(a, b);
    if q > k { MulMonotone(k, q - 1, b); }
  }

  lemma RoundUpMoreThan(a: nat, b: nat, k: nat)
    requires b > 0 && k * b < a
    ensures DivRoundUp(a, b) > k
  {
    var q := DivRoundUp(a, b);
    if q <= k { MulMonotone(q, k, b); }
  }

  // ----- Where a list position points -----

  /** The workspace row behind position i of list w in its normal state; positions run from one row
      group before the list to one after it and wrap around. */
  function Slot(l: Layout, w: nat, i: int): int {
    var p := if i < 0 then i + l.Rows() else if i >= l.Rows() then i - l.Rows() else i;
    if w == 0 || p < l.Span() - 2 * l.rgroup then p
    else if p < l.Span() then p + 2 * l.rgroup
    else p - 2 * l.rgroup
  }

  /** Switching lists turns the last two row groups of an iMCU row into the rows above the next. */
  lemma SlotSwitch(l: Layout, w: nat, q: int)
    requires l.Ok() && w < 2 && -2 * l.rgroup <= q < 0
    ensures Slot(l, 1 - w, q) == Slot(l, w, q + l.Span())
  {
    Products(l);
  }

  /** Within one list, different positions of the workspace are different rows. */
  lemma SlotInjective(l: Layout, w: nat, i: int, j: int)
    requires l.Ok() && w < 2 && -2 * l.rgroup <= i < j < l.Span()
    ensures Slot(l, w, i) != Slot(l, w, j)
  {
    Products(l);
  }

  lemma SlotRange(l: Layout, w: nat, i: int)
    requires l.Ok() && w < 2 && -2 * l.rgroup <= i < l.Rows() + l.rgroup
    ensures 0 <= Slot(l, w, i) < l.Rows()
  {
    Products(l);
  }

  lemma FirstSlot(l: Layout)
    requires l.Ok()
    ensures Slot(l, 0, 0) == 0
  {
    Products(l);
  }

  /** Past the end of the list come the rows of its start again. */
  lemma SlotWraps(l: Layout, w: nat, q: int)
    requires l.Ok() && w < 2 && -2 * l.rgroup <= q < l.rgroup
    ensures Slot(l, w, l.Rows() + q) == Slot(l, w, q)
  {
    Products(l);
  }

  // ----- What a row group should be seen with -----

  /** The row that stands at position k when the row group that starts at row b is processed: the
      nearest real row. Below the last row group of the next-to-last iMCU row, though, the rows of
      the last iMCU row are taken as they are: below the image come what other rows the decoder has
      written, and below those anything may stand. */
  function Neighbour(l: Layout, b: int, k: int): int
    requires l.Ok()
  {
    if k < 0 then 0
    else if k < l.height then k
    else if b + l.rgroup != l.LastStart() then l.height - 1
    else if k < l.Written() then k
    else ANY
  }

  /** A row that is no row of the image, and what may stand where a row is expected. */
  const ANY: int := -1

  ghost predicate Shows(got: int, want: int) { want == ANY || got == want }

  /** The rows from one row group above to one row group below the one that starts at row b. */
  function Context(l: Layout, b: int): (s: seq<int>)
    requires l.Ok()
    ensures |s| == 3 * l.rgroup
  {
    seq(3 * l.rgroup, r requires 0 <= r => Neighbour(l, b, b - l.rgroup + r))
  }

  function Clamp(k: int, n: nat): int
    requires n > 0
  {
    if k < 0 then 0 else if k >= n then n - 1 else k
  }

  lemma ContextAt(l: Layout, b: int, r: nat)
    requires l.Ok() && r < 3 * l.rgroup
    ensures Context(l, b)[r] == Neighbour(l, b, b - l.rgroup + r)
  {
    hide Neighbour;
  }

  /** The row just above and the row just below are always the true neighbours, clamped to the image. */
  lemma NearestRows(l: Layout, b: nat)
    requires l.Ok() && b < l.height
    ensures Context(l, b)[l.rgroup - 1] == Clamp(b - 1, l.height)
    ensures Context(l, b)[2 * l.rgroup] == Clamp(b + l.rgroup, l.height)
  {
    hide Context;
    ContextAt(l, b, l.rgroup - 1);
    ContextAt(l, b, 2 * l.rgroup);
  }

  /** A whole row group of true neighbours on both sides is what a row group gets, except the one
      before a last iMCU row that is shorter than a row group. That one gets at least one row from
      below the image. */
  lemma WholeContext(l: Layout, b: nat)
    requires l.Ok() && b < l.height
    ensures (forall r :: 0 <= r < 3 * l.rgroup ==> Context(l, b)[r] == Clamp(b - l.rgroup + r, l.height))
      <==> !(b + l.rgroup == l.LastStart() && l.height - l.LastStart() < l.rgroup)
  {
    hide Context, Layout.LastStart;
    forall r | 0 <= r < 3 * l.rgroup
      ensures Context(l, b)[r] == Neighbour(l, b, b - l.rgroup + r)
    {
      ContextAt(l, b, r);
    }
    assert Context(l, b)[3 * l.rgroup - 1] == Neighbour(l, b, b + 2 * l.rgroup - 1);
  }

  /** It happens: five rows, two to a row group and four to an iMCU row. The row group before the last
      row is handed over with row 5, which is below the image, where it should see row 4 again. */
  lemma ShortLastRow()
    ensures var l := Layout(2, 2, 5, 2, 2); l.Ok() && Context(l, 2)[5] == 5 && Clamp(2 - 2 + 5, l.height) == 4
  {
    var l := Layout(2, 2, 5, 2, 2);
    assert l.Span() == 4 && l.LastStart() == 4;
    ContextAt(l, 2, 5);
  }

  // ----- Lists of row addresses, and the workspace -----

  /** A list in its normal state; it starts one row group before its position 0. */
  ghost predicate NormalList(l: Layout, w: nat, x: seq<int>) {
    |x| == l.Rows() + 2 * l.rgroup && forall p :: 0 <= p < |x| ==> x[p] == Slot(l, w, p - l.rgroup)
  }

  /** The positions of a list that stand for the workspace itself. */
  ghost predicate PlainList(l: Layout, w: nat, x: seq<int>) {
    |x| == l.Rows() + 2 * l.rgroup && forall p :: l.rgroup <= p < l.Rows() + l.rgroup ==>
      x[p] == Slot(l, w, p - l.rgroup)
  }

  /** At the top of the image everything above the first row is the first row. */
  ghost predicate TopList(l: Layout, x: seq<int>) {
    PlainList(l, 0, x) && forall p :: 0 <= p < l.rgroup ==> x[p] == 0
  }

  /** The list w as it is for the iMCU row that starts at row first. */
  ghost predicate ListFor(l: Layout, w: nat, x: seq<int>, first: int) {
    if first == 0 then w == 0 && TopList(l, x) else NormalList(l, w, x)
  }

  /** x with all rows past the last one, for up to two row groups, replaced by the last one. */
  ghost predicate BottomList(l: Layout, x0: seq<int>, x: seq<int>)
    requires l.Ok()
  {
    var n := l.height - l.LastStart() + l.rgroup;
    && n <= |x0| == |x| == l.Rows() + 2 * l.rgroup
    && (forall p :: 0 <= p < n ==> x[p] == x0[p])
    && (forall p :: n <= p < n + 2 * l.rgroup ==> x[p] == x0[n - 1])
  }

  /** The workspace holds the iMCU row that starts at row first, in the order of list w, and the
      last two row groups of the one before it; below what is written it may hold anything. */
  ghost predicate Holds(l: Layout, ws: seq<int>, w: nat, first: int)
    requires l.Ok()
  {
    && |ws| == l.Rows() && w < 2
    && forall q :: -2 * l.rgroup <= q < l.Span() && first + q >= 0 ==>
         0 <= Slot(l, w, q) < l.Rows() && (first + q < l.Written() ==> ws[Slot(l, w, q)] == first + q)
  }

  /** The rows around the row group at position b of list x, as the postprocessor sees them. */
  function View(l: Layout, ws: seq<int>, x: seq<int>, b: nat): (v: seq<int>)
    requires b + 3 * l.rgroup <= |x| && forall p :: b <= p < b + 3 * l.rgroup ==> 0 <= x[p] < |ws|
    ensures |v| == 3 * l.rgroup && forall r :: 0 <= r < 3 * l.rgroup ==> v[r] == ws[x[b + r]]
  {
    seq(3 * l.rgroup, r requires 0 <= r < 3 * l.rgroup => ws[x[b + r]])
  }

  /** The postprocessor may take the row group at position b, and sees it as the one at row image. */
  ghost predicate Right(l: Layout, ws: seq<int>, x: seq<int>, b: nat, image: int)
    requires l.Ok()
  {
    && b + 3 * l.rgroup <= |x| && (forall p :: b <= p < b + 3 * l.rgroup ==> 0 <= x[p] < |ws|)
    && forall r :: 0 <= r < 3 * l.rgroup ==> Shows(View(l, ws, x, b)[r], Context(l, image)[r])
  }

  /** Row by row. */
  lemma RightRows(l: Layout, ws: seq<int>, x: seq<int>, b: nat, image: int)
    requires l.Ok() && b + 3 * l.rgroup <= |x|
    requires forall p :: b <= p < b + 3 * l.rgroup ==>
      0 <= x[p] < |ws| && Shows(ws[x[p]], Neighbour(l, image, image - l.rgroup + (p - b)))
    ensures Right(l, ws, x, b, image)
  {
    hide Neighbour;
    forall r | 0 <= r < 3 * l.rgroup ensures Shows(View(l, ws, x, b)[r], Context(l, image)[r]) {
      ContextAt(l, image, r);
      assert Shows(ws[x[b + r]], Neighbour(l, image, image - l.rgroup + (b + r - b)));
    }
  }

  lemma HoldsAt(l: Layout, ws: seq<int>, w: nat, first: int, q: int)
    requires l.Ok() && Holds(l, ws, w, first) && -2 * l.rgroup <= q < l.Span() && first + q >= 0
    ensures 0 <= Slot(l, w, q) < |ws| && (first + q < l.Written() ==> ws[Slot(l, w, q)] == first + q)
  {
    hide Slot;
  }

  /** The row groups of an iMCU row, all but the last of them. */
  lemma MiddleRight(l: Layout, ws: seq<int>, w: nat, x: seq<int>, t: nat, g: nat)
    requires l.Ok() && t + 1 < l.total && Holds(l, ws, w, l.RowStart(t)) && ListFor(l, w, x, l.RowStart(t))
    requires g < l.m - 1
    ensures Right(l, ws, x, l.Lines(g), l.RowStart(t) + l.Lines(g))
  {
    hide Layout.Lines, Layout.RowStart, Slot, Holds, Right, Neighbour, ListFor;
    Products(l);
    LinesMonotone(l, g, l.m - 2);
    var b, first := l.Lines(g), l.RowStart(t);
    ListForLength(l, w, x, first);
    forall p | b <= p < b + 3 * l.rgroup
      ensures 0 <= x[p] < |ws| && Shows(ws[x[p]], Neighbour(l, first + b, first + b - l.rgroup + (p - b)))
    {
      MiddleRow(l, ws, w, x, t, b, p - b);
    }
    RightRows(l, ws, x, b, first + b);
  }

  lemma MiddleRow(l: Layout, ws: seq<int>, w: nat, x: seq<int>, t: nat, b: nat, r: nat)
    requires l.Ok() && t + 1 < l.total && Holds(l, ws, w, l.RowStart(t)) && ListFor(l, w, x, l.RowStart(t))
    requires r < 3 * l.rgroup && b <= l.Span() - 2 * l.rgroup
    ensures b + r < |x| && 0 <= x[b + r] < |ws|
    ensures Shows(ws[x[b + r]], Neighbour(l, l.RowStart(t) + b, l.RowStart(t) + b - l.rgroup + r))
  {
    Products(l);
    RowStarts(l, t);
    hide Layout.Lines, Layout.RowStart, Holds, Slot;
    FirstSlot(l);
    StartZero(l, t);
    var q, first := b + r - l.rgroup, l.RowStart(t);
    HoldsAt(l, ws, w, first, if first + q < 0 then 0 else q);
  }

  lemma StartZero(l: Layout, t: nat)
    requires l.Ok() && t < l.total
    ensures l.RowStart(t) == 0 || l.RowStart(t) >= l.Span()
  {
    if t > 0 { RowStarts(l, t); }
    RowStarts(l, 0);
  }

  /** The real row groups of the last iMCU row. */
  lemma BottomRight(l: Layout, ws: seq<int>, w: nat, x0: seq<int>, x: seq<int>, g: nat)
    requires l.Ok() && Holds(l, ws, w, l.LastStart()) && ListFor(l, w, x0, l.LastStart()) && BottomList(l, x0, x)
    requires l.Lines(g) < l.height - l.LastStart()
    ensures Right(l, ws, x, l.Lines(g), l.LastStart() + l.Lines(g))
  {
    Products(l);
    hide Layout.Lines, Layout.RowStart, Slot, Holds, Right, Neighbour;
    var b, first := l.Lines(g), l.LastStart();
    forall p | b <= p < b + 3 * l.rgroup
      ensures 0 <= x[p] < |ws| && Shows(ws[x[p]], Neighbour(l, first + b, first + b - l.rgroup + (p - b)))
    {
      BottomRow(l, ws, w, x0, x, b, p - b);
    }
    RightRows(l, ws, x, b, first + b);
  }

  lemma BottomRow(l: Layout, ws: seq<int>, w: nat, x0: seq<int>, x: seq<int>, b: nat, r: nat)
    requires l.Ok() && Holds(l, ws, w, l.LastStart()) && ListFor(l, w, x0, l.LastStart()) && BottomList(l, x0, x)
    requires b < l.height - l.LastStart() && r < 3 * l.rgroup
    ensures b + r < |x| && 0 <= x[b + r] < |ws|
    ensures Shows(ws[x[b + r]], Neighbour(l, l.LastStart() + b, l.LastStart() + b - l.rgroup + r))
  {
    Products(l);
    StartZero(l, l.total - 1);
    hide Layout.Lines, Layout.RowStart, Holds, Slot;
    FirstSlot(l);
    var first := l.LastStart();
    var q, n := b + r - l.rgroup, l.height - first;
    HoldsAt(l, ws, w, first, if first + q < 0 then 0 else if q < n then q else n - 1);
  }

  /** The last row group of the iMCU row before, once the next one has come. */
  lemma PostponedRight(l: Layout, ws: seq<int>, w: nat, x: seq<int>, t: nat)
    requires l.Ok() && 1 <= t < l.total && Holds(l, ws, w, l.RowStart(t)) && NormalList(l, w, x)
    ensures Right(l, ws, x, l.Lines(l.m + 1), l.RowStart(t) - l.Rows() + l.Lines(l.m + 1))
  {
    Products(l);
    hide Layout.Lines, Layout.RowStart, Slot, Holds, Right, NormalList, Neighbour;
    var b, image := l.Lines(l.m + 1), l.RowStart(t) - l.rgroup;
    ListLength(l, w, x);
    forall p | b <= p < b + 3 * l.rgroup
      ensures 0 <= x[p] < |ws| && Shows(ws[x[p]], Neighbour(l, image, image - l.rgroup + (p - b)))
    {
      RowPostponed(l, ws, w, x, t, b, p - b);
    }
    RightRows(l, ws, x, b, image);
  }

  lemma ListForLength(l: Layout, w: nat, x: seq<int>, first: int)
    requires ListFor(l, w, x, first)
    ensures |x| == l.Rows() + 2 * l.rgroup
  {
  }

  lemma ListLength(l: Layout, w: nat, x: seq<int>)
    requires NormalList(l, w, x)
    ensures |x| == l.Rows() + 2 * l.rgroup
  {
  }

  lemma RowPostponed(l: Layout, ws: seq<int>, w: nat, x: seq<int>, t: nat, b: nat, r: nat)
    requires l.Ok() && 1 <= t < l.total && Holds(l, ws, w, l.RowStart(t)) && NormalList(l, w, x)
    requires b == l.Rows() - l.rgroup && r < 3 * l.rgroup
    ensures b + r < |x| && 0 <= x[b + r] < |ws|
    ensures Shows(ws[x[b + r]], Neighbour(l, l.RowStart(t) - l.rgroup, l.RowStart(t) - 2 * l.rgroup + r))
  {
    Products(l);
    RowStarts(l, t);
    hide Layout.Lines, Layout.RowStart, Holds, Slot;
    SlotWraps(l, w, r - 2 * l.rgroup);
    HoldsAt(l, ws, w, l.RowStart(t), r - 2 * l.rgroup);
  }

  // ----- States of the controller -----

  datatype ContextState = PrepareForImcu | ProcessImcu | PostponedRow

  /** The controller between two steps; n counts the row groups processed so far. */
  datatype State = State(full: bool, ctr: nat, which: nat, context: ContextState, avail: nat, received: nat,
    ws: seq<int>, x0: seq<int>, x1: seq<int>, n: nat)
  {
    /** List w. */
    function List(w: nat): seq<int> { if w == 0 then x0 else x1 }
  }

  /** The iMCU row received last is in the workspace, in the order of list w. */
  ghost predicate Received(l: Layout, s: State, w: nat)
    requires l.Ok()
  {
    w < 2 && 1 <= s.received <= l.total && Holds(l, s.ws, w, l.RowStart(s.received - 1))
  }

  ghost predicate NormalLists(l: Layout, s: State) { NormalList(l, 0, s.x0) && NormalList(l, 1, s.x1) }

  /** Both lists wrap around; while the first iMCU row is in, they are as at the top instead. */
  ghost predicate Pointers(l: Layout, s: State) {
    if s.received <= 1 then s.which == 0 && TopList(l, s.x0) && PlainList(l, 1, s.x1) else NormalLists(l, s)
  }

  /** About to process the first row groups of the iMCU row received. */
  ghost predicate Preparing(l: Layout, s: State)
    requires l.Ok()
  {
    Received(l, s, s.which) && Pointers(l, s) && l.Lines(s.n) == l.RowStart(s.received - 1)
  }

  ghost predicate Processing(l: Layout, s: State)
    requires l.Ok()
  {
    && Received(l, s, s.which) && s.ctr <= s.avail && l.Lines(s.n) == l.RowStart(s.received - 1) + l.Lines(s.ctr)
    && if s.received < l.total then Pointers(l, s) && s.avail == l.m - 1
       else
         && AtBottom(l, s.which, s.List(s.which)) && s.avail >= 1
         && l.Lines(s.avail - 1) < l.height - l.LastStart() <= l.Lines(s.avail)
  }

  ghost predicate AtBottom(l: Layout, w: nat, x: seq<int>)
    requires l.Ok()
  {
    exists x0 :: ListFor(l, w, x0, l.LastStart()) && BottomList(l, x0, x)
  }

  /** The last row group of the iMCU row before is still to be processed. */
  ghost predicate Postponed(l: Layout, s: State)
    requires l.Ok()
  {
    && Received(l, s, s.which) && s.received >= 2 && NormalLists(l, s)
    && s.avail == l.m + 2 && l.m + 1 <= s.ctr <= l.m + 2
    && l.Lines(s.n) == l.RowStart(s.received - 1) - l.Rows() + l.Lines(s.ctr)
  }

  /** Nothing can be done before the next iMCU row has come. */
  ghost predicate Waiting(l: Layout, s: State)
    requires l.Ok()
  {
    && !s.full && s.which < 2 && s.received < l.total
    && if s.received == 0 then s.context == PrepareForImcu && Pointers(l, s) && s.n == 0
       else
         && s.context == PostponedRow && NormalLists(l, s) && Received(l, s, 1 - s.which)
         && s.ctr == l.m + 1 && s.avail == l.m + 2 && l.Lines(s.n) == l.RowStart(s.received) - l.rgroup
  }

  /** All row groups of the image have been processed, and no other. */
  ghost predicate Done(l: Layout, s: State) {
    !s.full && s.received == l.total && s.n >= 1 && l.Lines(s.n - 1) < l.height <= l.Lines(s.n)
  }

  /** What holds between calls, whatever the pattern of suspension and partial output was. */
  ghost predicate Reachable(l: Layout, s: State)
    requires l.Ok()
  {
    if !s.full then Waiting(l, s) || Done(l, s)
    else
      match s.context
      case PrepareForImcu => Preparing(l, s)
      case ProcessImcu => Processing(l, s)
      case PostponedRow => Postponed(l, s)
  }

  // ----- What the steps need, and where they lead -----

  /** Receiving may overwrite everything but the last two row groups. */
  lemma BeforeReceiving(l: Layout, s: State)
    requires l.Ok() && Waiting(l, s)
    ensures PlainList(l, s.which, s.List(s.which))
    ensures var first := l.RowStart(s.received);
      first == 0 || (first >= l.Span() && Holds(l, s.ws, 1 - s.which, first - l.Span()))
  {
    RowStarts(l, s.received);
    if s.received > 0 { RowStarts(l, s.received - 1); }
    hide Layout.Lines, Layout.RowStart, Slot, Holds;
  }

  /** The rows that the decoder writes of the last iMCU row. */
  lemma BottomRows(l: Layout, s: State)
    requires l.Ok() && Waiting(l, s)
    ensures s.received < l.total && l.Lines(l.m) == l.Span()
    ensures s.received + 1 == l.total ==> l.RowStart(s.received) + l.bottom == l.Written()
  {
  }

  lemma AfterReceiving(l: Layout, s: State, ws: seq<int>)
    requires l.Ok() && Waiting(l, s) && Holds(l, ws, s.which, l.RowStart(s.received))
    ensures Reachable(l, s.(full := true, received := s.received + 1, ws := ws))
  {
    RowStarts(l, s.received);
    LinesStep(l, 0);
    Products(l);
    hide Layout.Lines, Layout.RowStart, Slot, Holds, NormalList, TopList, PlainList;
  }

  lemma PostponedViews(l: Layout, s: State)
    requires l.Ok() && Postponed(l, s)
    ensures forall g :: s.ctr <= g < s.avail ==>
      Right(l, s.ws, s.List(s.which), l.Lines(g), l.RowStart(s.received - 1) - l.Rows() + l.Lines(g))
  {
    hide Layout.Lines, Layout.RowStart, Slot, Holds, Right, NormalList;
    if s.ctr == l.m + 1 { PostponedRight(l, s.ws, s.which, s.List(s.which), s.received - 1); }
  }

  lemma AfterPostponed(l: Layout, s: State, ctr: nat, n: nat)
    requires l.Ok() && Postponed(l, s) && s.ctr <= ctr <= s.avail
    requires l.Lines(n) == l.RowStart(s.received - 1) - l.Rows() + l.Lines(ctr)
    ensures Postponed(l, s.(ctr := ctr, n := n))
    ensures ctr == s.avail ==> Preparing(l, s.(ctr := ctr, n := n))
  {
    Products(l);
    hide Layout.Lines, Layout.RowStart, Slot, Holds, NormalList;
  }

  lemma AfterPreparing(l: Layout, s: State)
    requires l.Ok() && Preparing(l, s) && s.received < l.total
    ensures Processing(l, s.(ctr := 0, avail := l.m - 1))
  {
    LinesStep(l, 0);
    hide Layout.Lines, Layout.RowStart, Slot, Holds, NormalList, TopList, PlainList;
  }

  lemma AfterBottom(l: Layout, s: State, avail: nat, x0: seq<int>, x1: seq<int>)
    requires l.Ok() && Preparing(l, s) && s.received == l.total
    requires avail >= 1 && l.Lines(avail - 1) < l.height - l.LastStart() <= l.Lines(avail)
    requires BottomList(l, s.List(s.which), if s.which == 0 then x0 else x1)
    ensures Processing(l, s.(ctr := 0, avail := avail, x0 := x0, x1 := x1)) && avail <= l.m
  {
    hide Layout.Lines, Layout.RowStart, Slot, Holds, NormalList, TopList, PlainList, BottomList;
    LinesStep(l, 0);
    PositiveStart(l, l.total - 1);
    GroupsFit(l, avail);
    assert ListFor(l, s.which, s.List(s.which), l.LastStart());
  }

  lemma GroupsFit(l: Layout, avail: nat)
    requires l.Ok() && avail >= 1 && l.Lines(avail - 1) < l.height - l.LastStart()
    ensures avail <= l.m
  {
    hide Layout.RowStart;
    if avail > l.m { LinesMonotone(l, l.m, avail - 1); }
  }

  lemma ProcessingViews(l: Layout, s: State)
    requires l.Ok() && Processing(l, s)
    ensures s.received >= 1
    ensures forall g :: s.ctr <= g < s.avail ==>
      Right(l, s.ws, s.List(s.which), l.Lines(g), l.RowStart(s.received - 1) + l.Lines(g))
  {
    forall g | s.ctr <= g < s.avail
      ensures Right(l, s.ws, s.List(s.which), l.Lines(g), l.RowStart(s.received - 1) + l.Lines(g))
    {
      ProcessingView(l, s, g);
    }
  }

  lemma ProcessingView(l: Layout, s: State, g: nat)
    requires l.Ok() && Processing(l, s) && s.ctr <= g < s.avail
    ensures Right(l, s.ws, s.List(s.which), l.Lines(g), l.RowStart(s.received - 1) + l.Lines(g))
  {
    hide Layout.Lines, Layout.RowStart, Layout.Rows, Slot, Holds, Right, NormalList, TopList, PlainList, BottomList;
    var x, t := s.List(s.which), s.received - 1;
    PositiveStart(l, t);
    if s.received < l.total {
      MiddleRight(l, s.ws, s.which, x, t, g);
    } else {
      LinesMonotone(l, g, s.avail - 1);
      var x0 :| ListFor(l, s.which, x0, l.LastStart()) && BottomList(l, x0, x);
      BottomRight(l, s.ws, s.which, x0, x, g);
    }
  }

  lemma PositiveStart(l: Layout, t: nat)
    requires l.Ok() && t < l.total
    ensures l.RowStart(t) == 0 <==> t == 0
  {
    if t > 0 { RowStarts(l, t); Products(l); }
    RowStarts(l, 0);
  }

  lemma StillProcessing(l: Layout, s: State, ctr: nat, n: nat)
    requires l.Ok() && Processing(l, s) && s.ctr <= ctr <= s.avail
    requires l.Lines(n) == l.RowStart(s.received - 1) + l.Lines(ctr)
    ensures Processing(l, s.(ctr := ctr, n := n))
  {
    hide Layout.Lines, Layout.RowStart, Slot, Holds, NormalList, TopList, PlainList, AtBottom;
  }

  /** After the last row group that can be processed the controller waits for more, or is done. */
  lemma AfterProcessing(l: Layout, s: State, x0: seq<int>, x1: seq<int>)
    requires l.Ok() && Processing(l, s) && s.ctr == s.avail
    requires if s.received == 1 then PlainList(l, 0, s.x0) && PlainList(l, 1, s.x1) ==>
      NormalList(l, 0, x0) && NormalList(l, 1, x1)
      else x0 == s.x0 && x1 == s.x1
    ensures Reachable(l,
      s.(full := false, which := 1 - s.which, ctr := l.m + 1, avail := l.m + 2, context := PostponedRow, x0 := x0,
      x1 := x1))
  {
    Products(l);
    RowStarts(l, s.received - 1);
    LinesStep(l, 0);
    if s.n > 0 { LinesStep(l, s.n - 1); }
    if s.avail > 0 { LinesStep(l, s.avail - 1); }
    hide Layout.Lines, Layout.RowStart, Slot, Holds, NormalList, AtBottom;
  }

  class MainController {
    const l: Layout
    const workspace: array<int>
    const x0: array<int>
    const x1: array<int>
    var bufferFull: bool
    var rowgroupCtr: nat
    var whichptr: nat
    var contextState: ContextState
    var rowgroupsAvail: nat
    var imcuRowCtr: nat

    /** What the postprocessor was given with each row group it took. */
    ghost var seen: seq<seq<int>>

    /** The workspace and the two lists; a list starts one row group before its position 0. */
    ghost predicate Allocated() {
      l.Ok() && workspace.Length == l.Rows() && x0.Length == l.Rows() + 2 * l.rgroup == x1.Length
      && x0 != x1 && x0 != workspace && x1 != workspace
    }

    /** Copies the workspace pointers as they are. */
    method CopyPointers(n: nat)
      requires Allocated() && n == l.Rows()
      modifies x0, x1
      ensures forall p :: l.rgroup <= p < n + l.rgroup ==> x0[p] == x1[p] == p - l.rgroup
    {
      hide Layout.Lines, Layout.LastStart;
      var i := 0;
      while i < n
        invariant 0 <= i <= n
        invariant forall p :: l.rgroup <= p < i + l.rgroup ==> x0[p] == x1[p] == p - l.rgroup
      {
        x0[i + l.rgroup] := i;
        x1[i + l.rgroup] := i;
        i := i + 1;
      }
    }

    /** In the second list, puts the last four row groups, from rows a and b on, in swapped order. */
    method SwapLast(a: nat, b: nat)
      requires Allocated() && b == l.Span() == a + 2 * l.rgroup
      requires forall p :: l.rgroup <= p < l.Rows() + l.rgroup ==> x1[p] == p - l.rgroup
      modifies x1
      ensures forall p :: l.rgroup <= p < l.Rows() + l.rgroup ==>
        x1[p] == if p < a + l.rgroup then p - l.rgroup else if p < b + l.rgroup then p + l.rgroup else p - 3 * l.rgroup
    {
      hide Layout.Lines, Layout.LastStart;
      var i := 0;
      while i < l.rgroup * 2
        invariant 0 <= i <= l.rgroup * 2
        invariant forall p :: l.rgroup <= p < a + l.rgroup ==> x1[p] == p - l.rgroup
        invariant forall p :: a + l.rgroup <= p < a + l.rgroup + i ==> x1[p] == p + l.rgroup
        invariant forall p :: b + l.rgroup <= p < b + l.rgroup + i ==> x1[p] == p - 3 * l.rgroup
      {
        x1[a + i + l.rgroup] := b + i;
        x1[b + i + l.rgroup] := a + i;
        i := i + 1;
      }
    }

    /** Copies the workspace pointers, swaps the last four row groups of the second list, and lets
        the pointers above the first list repeat the first row. */
    method MakeFunnyPointers()
      requires Allocated()
      modifies x0, x1
      ensures TopList(l, x0[..]) && PlainList(l, 1, x1[..])
    {
      hide Layout.Lines, Layout.LastStart;
      Products(l);
      CopyPointers(l.Lines(l.m + 2));
      SwapLast(l.Lines(l.m - 2), l.Lines(l.m));
      var i := 0;
      while i < l.rgroup
        invariant 0 <= i <= l.rgroup
        invariant forall p :: l.rgroup <= p < l.Rows() + l.rgroup ==>
          x0[p] == Slot(l, 0, p - l.rgroup) && x1[p] == Slot(l, 1, p - l.rgroup)
        invariant forall p :: 0 <= p < i ==> x0[p] == 0
      {
        x0[i] := x0[l.rgroup];
        i := i + 1;
      }
    }

    /** Repeats the last row group before the start of each list, and the first after its end. */
    method WrapLists(n: nat)
      requires Allocated() && n == l.Rows()
      modifies x0, x1
      ensures forall p :: l.rgroup <= p < n + l.rgroup ==> x0[p] == old(x0[p]) && x1[p] == old(x1[p])
      ensures forall p :: 0 <= p < l.rgroup ==> x0[p] == old(x0[p + n]) && x1[p] == old(x1[p + n])
      ensures forall p :: n + l.rgroup <= p < n + 2 * l.rgroup ==> x0[p] == old(x0[p - n]) && x1[p] == old(x1[p - n])
    {
      hide Layout.Lines, Layout.LastStart;
      var i := 0;
      while i < l.rgroup
        invariant 0 <= i <= l.rgroup
        invariant forall p :: l.rgroup <= p < n + l.rgroup ==> x0[p] == old(x0[p]) && x1[p] == old(x1[p])
        invariant forall p :: 0 <= p < i ==> x0[p] == old(x0[p + n]) && x1[p] == old(x1[p + n])
        invariant forall p :: n + l.rgroup <= p < n + l.rgroup + i ==>
          x0[p] == old(x0[p - n]) && x1[p] == old(x1[p - n])
      {
        x0[i] := x0[n - l.rgroup + i + l.rgroup];
        x1[i] := x1[n - l.rgroup + i + l.rgroup];
        x0[n + i + l.rgroup] := x0[i + l.rgroup];
        x1[n + i + l.rgroup] := x1[i + l.rgroup];
        i := i + 1;
      }
    }

    /** Lets both lists wrap around. */
    method SetWraparoundPointers()
      requires Allocated()
      modifies x0, x1
      ensures old(PlainList(l, 0, x0[..])) && old(PlainList(l, 1, x1[..])) ==>
        NormalList(l, 0, x0[..]) && NormalList(l, 1, x1[..])
    {
      hide Layout.Lines, Layout.LastStart;
      Products(l);
      WrapLists(l.Lines(l.m + 2));
    }

    /** List w. */
    function Xbuffer(w: nat): array<int> { if w == 0 then x0 else x1 }

    /** decompress_data: stores an iMCU row through list w, which keeps the rows still needed. */
    method DecompressData(w: nat, first: nat, n: nat)
      requires Allocated() && w < 2 && PlainList(l, w, Xbuffer(w)[..])
      requires n <= l.Span() && (n == l.Span() || first + n >= l.Written())
      requires first == 0 || (first >= l.Span() && Holds(l, workspace[..], 1 - w, first - l.Span()))
      modifies workspace
      ensures Holds(l, workspace[..], w, first)
    {
      hide Layout.Lines, Layout.LastStart, Slot;
      Products(l);
      forall q | -2 * l.rgroup <= q < l.Span() ensures 0 <= Slot(l, w, q) < l.Rows() { SlotRange(l, w, q); }
      forall q | -2 * l.rgroup <= q < 0 && 0 <= first + q < l.Written() ensures workspace[Slot(l, w, q)] == first + q {
        SlotSwitch(l, w, q);
        SlotSwitch(l, 1 - w, q);
        assert Slot(l, 1 - w, q + l.Span()) == Slot(l, w, q);
      }
      ghost var x := Xbuffer(w)[..];
      var i := 0;
      while i < n
        invariant 0 <= i <= n && Xbuffer(w)[..] == x
        invariant forall q :: -2 * l.rgroup <= q < i && 0 <= first + q < l.Written() ==>
          workspace[Slot(l, w, q)] == first + q
      {
        forall q | -2 * l.rgroup <= q < i ensures Slot(l, w, q) != Slot(l, w, i) { SlotInjective(l, w, q, i); }
        assert x[i + l.rgroup] == Slot(l, w, i);
        workspace[Xbuffer(w)[i + l.rgroup]] := first + i;
        i := i + 1;
      }
    }

    /** Repeats the last real row below the image, and counts the real row groups. */
    method SetBottomPointers()
      requires Allocated() && whichptr < 2
      modifies Xbuffer(whichptr), this`rowgroupsAvail
      ensures rowgroupsAvail >= 1 && l.Lines(rowgroupsAvail - 1) < l.height - l.LastStart() <= l.Lines(rowgroupsAvail)
      ensures BottomList(l, old(Xbuffer(whichptr)[..]), Xbuffer(whichptr)[..])
    {
      Remainder(l);
      Products(l);
      var height := l.Lines(l.m);
      var rowsLeft := l.height % height;
      if rowsLeft == 0 { rowsLeft := height; }
      GroupsOf(l, rowsLeft);
      rowgroupsAvail := (rowsLeft - 1) / l.rgroup + 1;
      RepeatRow(Xbuffer(whichptr), rowsLeft + l.rgroup);
    }

    /** Overwrites the two row groups of pointers from n on with the one before them. */
    method RepeatRow(xbuf: array<int>, n: nat)
      requires 0 < n && n + 2 * l.rgroup <= xbuf.Length
      modifies xbuf
      ensures forall p :: 0 <= p < n ==> xbuf[p] == old(xbuf[p])
      ensures forall p :: n <= p < n + 2 * l.rgroup ==> xbuf[p] == old(xbuf[n - 1])
    {
      var i := 0;
      while i < l.rgroup * 2
        invariant 0 <= i <= 2 * l.rgroup
        invariant forall p :: 0 <= p < n ==> xbuf[p] == old(xbuf[p])
        invariant forall p :: n <= p < n + i ==> xbuf[p] == old(xbuf[n - 1])
      {
        xbuf[n + i] := xbuf[n - 1];
        i := i + 1;
      }
    }

    // ----- What the postprocessor is given -----

    /** Takes up to take row groups, if there are that many, from the current list. */
    method PostProcessData(take: nat, ghost origin: int)
      requires l.Ok() && rowgroupCtr <= rowgroupsAvail
      requires forall g :: rowgroupCtr <= g < rowgroupsAvail ==>
        Right(l, workspace[..], Xbuffer(whichptr)[..], l.Lines(g), origin + l.Lines(g))
      requires InOrder() && l.Lines(|seen|) == origin + l.Lines(rowgroupCtr)
      modifies this`rowgroupCtr, this`seen
      ensures rowgroupCtr ==
        if old(rowgroupCtr) + take <= rowgroupsAvail then old(rowgroupCtr) + take else rowgroupsAvail
      ensures InOrder() && l.Lines(|seen|) == origin + l.Lines(rowgroupCtr)
      ensures |seen| == old(|seen|) + (rowgroupCtr - old(rowgroupCtr)) && old(seen) <= seen
    {
      hide Layout.Lines, Layout.RowStart, Context, Layout.Ok;
      ghost var ws, x := workspace[..], Xbuffer(whichptr)[..];
      var left := take;
      while left > 0 && rowgroupCtr < rowgroupsAvail
        invariant 0 <= left <= take && rowgroupCtr <= rowgroupsAvail && rowgroupCtr - old(rowgroupCtr) == take - left
        invariant InOrder() && l.Lines(|seen|) == origin + l.Lines(rowgroupCtr)
        invariant |seen| == old(|seen|) + (rowgroupCtr - old(rowgroupCtr)) && old(seen) <= seen
      {
        LinesStep(l, |seen|);
        LinesStep(l, rowgroupCtr);
        assert Right(l, ws, x, l.Lines(rowgroupCtr), origin + l.Lines(rowgroupCtr));
        seen := seen + [View(l, ws, x, l.Lines(rowgroupCtr))];
        rowgroupCtr := rowgroupCtr + 1;
        left := left - 1;
      }
    }

    /** Every row group so far was processed in image order, with the right rows around it. */
    ghost predicate InOrder()
      requires l.Ok()
      reads this`seen
    {
      forall k :: 0 <= k < |seen| ==> |seen[k]| == 3 * l.rgroup && forall r :: 0 <= r < 3 * l.rgroup ==>
        Shows(seen[k][r], Context(l, l.Lines(k))[r])
    }

    ghost function Now(): State
      reads this, workspace, x0, x1
    {
      State(bufferFull, rowgroupCtr, whichptr, contextState, rowgroupsAvail, imcuRowCtr, workspace[..], x0[..], x1[..],
        |seen|)
    }

    ghost predicate Valid()
      reads this, workspace, x0, x1
    {
      Allocated() && whichptr < 2 && InOrder() && Reachable(l, Now())
    }

    constructor (layout: Layout)
      requires layout.Ok()
      ensures Valid() && l == layout && seen == [] && Waiting(l, Now())
    {
      l := layout;
      workspace := new int[layout.Rows()];
      x0 := new int[layout.Rows() + 2 * layout.rgroup];
      x1 := new int[layout.Rows() + 2 * layout.rgroup];
      bufferFull, rowgroupCtr, whichptr, contextState, imcuRowCtr, rowgroupsAvail := false, 0, 0, PrepareForImcu, 0, 0;
      seen := [];
      new;
      MakeFunnyPointers();
    }

    /** Takes the next iMCU row from the coefficient controller. */
    method Receive()
      requires Valid() && Waiting(l, Now())
      modifies this`bufferFull, this`imcuRowCtr, workspace
      ensures Valid() && bufferFull && imcuRowCtr == old(imcuRowCtr) + 1
    {
      hide Layout.Lines, Layout.RowStart, Holds, Context, Waiting, PlainList, Reachable;
      ghost var s := Now();
      BeforeReceiving(l, s);
      var lastRow := imcuRowCtr + 1 == l.total;
      BottomRows(l, s);
      DecompressData(whichptr, l.RowStart(imcuRowCtr), if lastRow then l.bottom else l.Lines(l.m));
      bufferFull := true;
      imcuRowCtr := imcuRowCtr + 1;
      AfterReceiving(l, s, workspace[..]);
    }

    /** Offers the postponed row group. */
    method ProcessPostponed(take: nat)
      requires Valid() && bufferFull && contextState == PostponedRow
      modifies this`rowgroupCtr, this`seen, this`contextState
      ensures Valid() && old(seen) <= seen
      ensures take > 0 ==> contextState == PrepareForImcu
      ensures contextState == PostponedRow || contextState == PrepareForImcu
    {
      hide Layout.Lines, Layout.RowStart, Context, Preparing, Right;
      ghost var s := Now();
      PostponedViews(l, s);
      PostProcessData(take, l.RowStart(imcuRowCtr - 1) - l.Rows());
      AfterPostponed(l, s, rowgroupCtr, |seen|);
      if rowgroupCtr < rowgroupsAvail {
        return;
      }
      contextState := PrepareForImcu;
      SamePreparing(l, Now(), s.(ctr := rowgroupCtr, n := |seen|));
    }

    /** Sets up for the first row groups of the iMCU row; at the bottom of the image, for all of them. */
    method Prepare()
      requires Valid() && bufferFull && contextState == PrepareForImcu
      modifies this`rowgroupCtr, this`rowgroupsAvail, this`contextState, x0, x1
      ensures Valid() && contextState == ProcessImcu && rowgroupCtr == 0 && rowgroupsAvail <= l.m
    {
      hide Layout.Lines, Layout.RowStart, Context, Preparing, Processing, BottomList;
      ghost var s := Now();
      rowgroupCtr := 0;
      rowgroupsAvail := l.m - 1;
      if imcuRowCtr == l.total {
        SetBottomPointers();
        AfterBottom(l, s, rowgroupsAvail, x0[..], x1[..]);
      } else {
        ReceivedBound(l, s);
        AfterPreparing(l, s);
      }
      contextState := ProcessImcu;
      SameProcessing(l, Now(), s.(ctr := 0, avail := rowgroupsAvail, x0 := x0[..], x1 := x1[..]));
    }

    /** Offers the row groups of the iMCU row; when they are used up, turns to the other list. */
    method ProcessRows(take: nat)
      requires Valid() && bufferFull && contextState == ProcessImcu
      modifies this`rowgroupCtr, this`rowgroupsAvail, this`seen, this`contextState, this`whichptr, this`bufferFull, x0,
        x1
      ensures Valid() && old(seen) <= seen
      ensures bufferFull <==> old(rowgroupCtr) + take < old(rowgroupsAvail)
    {
      hide Layout.Lines, Layout.RowStart, Context, Right, NormalList, PlainList, Waiting, Done, Received, Pointers,
        AtBottom;
      ghost var s := Now();
      ProcessingViews(l, s);
      PostProcessData(take, l.RowStart(imcuRowCtr - 1));
      StillProcessing(l, s, rowgroupCtr, |seen|);
      if rowgroupCtr < rowgroupsAvail {
        return;
      }
      ghost var done := s.(ctr := rowgroupCtr, n := |seen|);
      if imcuRowCtr == 1 {
        SetWraparoundPointers();
      }
      AfterProcessing(l, done, x0[..], x1[..]);
      whichptr := 1 - whichptr;
      bufferFull := false;
      rowgroupCtr := l.m + 1;
      rowgroupsAvail := l.m + 2;
      contextState := PostponedRow;
    }

    /** One call of the controller: suspend tells whether the coefficient controller has to wait for
        data, take1 and take2 how many row groups the postprocessor would take in its two calls, full
        whether the first of them filled the output buffer. */
    method ProcessData(suspend: bool, take1: nat, full: bool, take2: nat)
      requires Valid() && !Done(l, Now())
      modifies this`bufferFull, this`imcuRowCtr, this`rowgroupCtr, this`rowgroupsAvail, this`seen, this`contextState,
        this`whichptr,
        workspace, x0, x1
      ensures Valid() && old(seen) <= seen
      ensures !suspend && take1 > 0 && !full && take2 >= l.m ==>
        !bufferFull && imcuRowCtr == old(imcuRowCtr) + if old(bufferFull) then 0 else 1
    {
      hide Layout.Lines, Layout.RowStart, Context, Preparing, Postponed, Processing, Waiting, Done, InOrder;
      if !bufferFull {
        if suspend {
          return;
        }
        Receive();
      }
      if contextState == PostponedRow {
        ProcessPostponed(take1);
        if contextState == PostponedRow {
          return;
        }
        if full {
          return;
        }
      }
      if contextState == PrepareForImcu {
        Prepare();
      }
      AvailBound(l, Now());
      ProcessRows(take2);
    }
  }

  lemma ReceivedBound(l: Layout, s: State)
    requires l.Ok() && Preparing(l, s)
    ensures 1 <= s.received <= l.total
  {
    hide Holds;
  }

  lemma SamePreparing(l: Layout, s: State, r: State)
    requires l.Ok() && Preparing(l, r)
    requires s.received == r.received && s.which == r.which && s.ws == r.ws && s.x0 == r.x0 && s.x1 == r.x1
    requires s.n == r.n
    ensures Preparing(l, s)
  {
    hide Holds, NormalList, TopList, PlainList;
  }

  lemma SameProcessing(l: Layout, s: State, r: State)
    requires l.Ok() && Processing(l, r) && s == r.(context := s.context)
    ensures Processing(l, s)
  {
    hide Holds, NormalList, TopList, PlainList, AtBottom;
  }

  lemma AvailBound(l: Layout, s: State)
    requires l.Ok() && Processing(l, s)
    ensures s.avail <= l.m
  {
    hide Holds, NormalList, TopList, PlainList, AtBottom, Layout.Lines, Layout.RowStart;
    if s.received == l.total { GroupsFit(l, s.avail); }
  }

  lemma Remainder(l: Layout)
    requires l.Ok()
    ensures l.Span() > 0 &&
      l.height - l.LastStart() == if l.height % l.Span() == 0 then l.Span() else l.height % l.Span()
  {
    Products(l);
    hide Layout.Lines;
    var n := l.height - l.LastStart();
    if n == l.Span() {
      QuotientUnique(l.height, l.Span(), l.total, 0);
    } else {
      QuotientUnique(l.height, l.Span(), l.total - 1, n);
    }
  }

  lemma GroupsOf(l: Layout, n: nat)
    requires n > 0 && l.rgroup > 0
    ensures (n - 1) / l.rgroup >= 0 && l.Lines((n - 1) / l.rgroup) < n <= l.Lines((n - 1) / l.rgroup + 1)
  {
    QuotientRemainder(n - 1, l.rgroup);
    LinesStep(l, (n - 1) / l.rgroup);
  }
}
