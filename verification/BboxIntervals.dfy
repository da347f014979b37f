/** From a box to its table of curve intervals (src/bbox.c, bbox_to_intv): cubes are split
    breadth first until they lie inside or outside the box; the intervals of the inside
    ones are sorted and merged. */
module BboxIntervals {
  import opened Bits
  import opened Words
  import opened HilbertCube
  import opened Intervals
  import opened Bbox

  /** A cube still to be looked at: coarse position and log of its side. */
  datatype Sub = Sub(q: Cell, s: nat)

  /** The cube lies on the curve grid of m bits in n dimensions. */
  predicate OnGrid(n: nat, m: nat, u: Sub) {
    |u.q| == n && u.s <= m && IsCell(u.q, m - u.s)
  }

  predicate AllOnGrid(n: nat, m: nat, queue: seq<Sub>) {
    forall i :: 0 <= i < |queue| ==> OnGrid(n, m, queue[i])
  }

  function BoxOf(u: Sub): (b: Box)
    ensures IsBox(b, |u.q|)
  {
    Cube(u.q, u.s)
  }

  function RunOf(m: nat, u: Sub): Intv
    requires |u.q| > 0 && u.s <= m
  {
    Run(u.q, m - u.s, u.s)
  }

  function Runs(n: nat, m: nat, queue: seq<Sub>): (r: seq<Intv>)
    requires n > 0 && AllOnGrid(n, m, queue)
    ensures |r| == |queue|
    ensures forall i :: 0 <= i < |r| ==> r[i] == RunOf(m, queue[i])
  {
    seq(|queue|, i requires 0 <= i < |queue| => assert OnGrid(n, m, queue[i]); RunOf(m, queue[i]))
  }

  /** The 2^n cubes of half the side. */
  function Parts(u: Sub): (r: seq<Sub>)
    requires u.s > 0
    ensures |r| == Pow2(|u.q|)
    ensures forall i :: 0 <= i < |r| ==> r[i] == Sub(Refine(u.q, i), u.s - 1)
  {
    seq(Pow2(|u.q|), i requires 0 <= i => Sub(Refine(u.q, i), u.s - 1))
  }

  lemma {:induction false} PartsOnGrid(n: nat, m: nat, u: Sub)
    requires u.s > 0 && OnGrid(n, m, u)
    ensures AllOnGrid(n, m, Parts(u))
  {
    forall i | 0 <= i < |Parts(u)| ensures OnGrid(n, m, Parts(u)[i]) {
      var r := Refine(u.q, i);
      assert Pow2(m - u.s + 1) == 2 * Pow2(m - u.s);
      assert forall d :: 0 <= d < |r| ==> r[d] < Pow2(m - u.s + 1);
    }
  }

  // ---- termination: splitting a cube makes the queue lighter

  function Weight(n: nat, s: nat): (w: nat)
    ensures w > 0
  {
    if s == 0 then 1 else 1 + Mul(Pow2(n), Weight(n, s - 1))
  }

  function Total(n: nat, queue: seq<Sub>): nat {
    if queue == [] then 0 else Total(n, queue[..|queue| - 1]) + Weight(n, queue[|queue| - 1].s)
  }

  lemma {:induction false} TotalConcat(n: nat, a: seq<Sub>, b: seq<Sub>)
    ensures Total(n, a + b) == Total(n, a) + Total(n, b)
  {
    hide Weight;
    if b == [] {
      assert a + b == a;
    } else {
      assert (a + b)[..|a + b| - 1] == a + b[..|b| - 1];
      TotalConcat(n, a, b[..|b| - 1]);
    }
  }

  lemma {:induction false} TotalSame(n: nat, queue: seq<Sub>, s: nat)
    requires forall i :: 0 <= i < |queue| ==> queue[i].s == s
    ensures Total(n, queue) == Mul(|queue|, Weight(n, s))
  {
    hide Weight;
    if queue != [] { TotalSame(n, queue[..|queue| - 1], s); }
  }

  lemma {:induction false} TotalHead(n: nat, queue: seq<Sub>)
    requires queue != []
    ensures Total(n, queue) == Weight(n, queue[0].s) + Total(n, queue[1..])
    ensures queue[0].s > 0 && |queue[0].q| == n ==> Total(n, queue[1..] + Parts(queue[0])) < Total(n, queue)
    ensures Total(n, queue[1..]) < Total(n, queue)
  {
    hide Parts, Total, Mul;
    assert queue == [queue[0]] + queue[1..];
    TotalConcat(n, [queue[0]], queue[1..]);
    TotalOne(n, queue[0]);
    var u := queue[0];
    if u.s > 0 && |u.q| == n {
      TotalConcat(n, queue[1..], Parts(u));
      TotalSame(n, Parts(u), u.s - 1);
    }
  }

  lemma TotalOne(n: nat, u: Sub)
    ensures Total(n, [u]) == Weight(n, u.s)
  {
    assert [u][..0] == [];
    assert Total(n, []) == 0;
  }

  // ---- the decomposition

  /** The intervals the breadth-first splitting produces from a queue, in order. */
  function Decompose(bb: Box, n: nat, m: nat, queue: seq<Sub>): seq<Intv>
    requires n > 0 && AllOnGrid(n, m, queue)
    decreases Total(n, queue)
  {
    if queue == [] then [] else
    var u := queue[0];
    TotalHead(n, queue);
    assert OnGrid(n, m, u);
    if Includes(bb, BoxOf(u)) then
      [RunOf(m, u)] + Decompose(bb, n, m, queue[1..])
    else if Meets(bb, BoxOf(u)) && u.s > 0 then
      PartsOnGrid(n, m, u);
      Decompose(bb, n, m, queue[1..] + Parts(u))
    else
      Decompose(bb, n, m, queue[1..])
  }

  /** A single cell that meets a non-empty box is inside it, so it is never split. */
  lemma {:induction false} PointInside(bb: Box, u: Sub)
    requires NonEmpty(bb) && |bb.lb| == |u.q| && u.s == 0 && Meets(bb, BoxOf(u))
    ensures Includes(bb, BoxOf(u))
  {
    var b := BoxOf(u);
    forall d | 0 <= d < |bb.lb| ensures bb.lb[d] <= b.lb[d] && bb.ub[d] >= b.ub[d] {
      assert MeetOn(bb, b, d);
    }
  }

  /** The cell of an index on the grid. */
  lemma {:induction false} RunHasCell(n: nat, m: nat, u: Sub, x: nat)
    requires n > 0 && OnGrid(n, m, u) && x < Pow2(Mul(m, n))
    ensures Has(RunOf(m, u), x) <==> InBox(CellAt(n, m, x), BoxOf(u))
  {
    hide Index, CellAt, Run, Cube, InBox, Mul, Pow2, Has;
    IndexOfCellAt(n, m, x);
    InRun(CellAt(n, m, x), u.q, m - u.s, u.s);
  }

  /** The parts of a cube cover each of its indices once. */
  lemma {:induction false} PartsCount(n: nat, m: nat, u: Sub, x: nat)
    requires n > 0 && OnGrid(n, m, u) && u.s > 0 && x < Pow2(Mul(m, n))
    ensures AllOnGrid(n, m, Parts(u))
    ensures Count(Runs(n, m, Parts(u)), x) == if Has(RunOf(m, u), x) then 1 else 0
  {
    hide Index, CellAt, Run, Cube, InBox, Mul, Pow2, Has, Count, Parts, Child, PartOf, IsCell, NonEmpty;
    PartsOnGrid(n, m, u);
    var c, b, ps := CellAt(n, m, x), BoxOf(u), Parts(u);
    var runs := Runs(n, m, ps);
    CubeNonEmpty(u.q, u.s);
    RunHasCell(n, m, u, x);
    forall i | 0 <= i < |ps| ensures Has(runs[i], x) <==> InBox(c, b) && i == PartOf(c, b) {
      assert OnGrid(n, m, ps[i]);
      RunHasCell(n, m, ps[i], x);
      ChildOfCube(u.q, u.s, i);
      ChildCells(b, c, i);
    }
    if InBox(c, b) {
      CountOne(runs, x, PartOf(c, b));
    } else {
      CountHas(runs, x);
    }
  }

  lemma {:induction false} RunsSplit(n: nat, m: nat, a: seq<Sub>, b: seq<Sub>, x: nat)
    requires n > 0 && AllOnGrid(n, m, a) && AllOnGrid(n, m, b)
    ensures AllOnGrid(n, m, a + b)
    ensures Count(Runs(n, m, a + b), x) == Count(Runs(n, m, a), x) + Count(Runs(n, m, b), x)
  {
    hide Count, OnGrid, RunOf;
    assert AllOnGrid(n, m, a + b);
    assert Runs(n, m, a + b) == Runs(n, m, a) + Runs(n, m, b);
    CountConcat(Runs(n, m, a), Runs(n, m, b), x);
  }

  /** The decomposition covers the indices of the queued cubes whose cells lie in the
      box, each as often as the queue does, and no other index. */
  lemma {:induction false} DecomposeCount(bb: Box, n: nat, m: nat, queue: seq<Sub>, x: nat)
    requires n > 0 && AllOnGrid(n, m, queue) && NonEmpty(bb) && |bb.lb| == n && x < Pow2(Mul(m, n))
    ensures Count(Decompose(bb, n, m, queue), x) ==
            if InBox(CellAt(n, m, x), bb) then Count(Runs(n, m, queue), x) else 0
    decreases Total(n, queue)
  {
    hide CellAt, Count, Has, Total, Mul, Pow2, InBox, BoxOf, Includes, Meets, Parts, RunOf, OnGrid, NonEmpty;
    if queue == [] {
      CountNone(x);
    } else {
      var u, rest := queue[0], queue[1..];
      var c := CellAt(n, m, x);
      assert OnGrid(n, m, u);
      OnGridParts(n, m, u);
      TotalHead(n, queue);
      assert queue == [u] + rest;
      RunsSplit(n, m, [u], rest, x);
      assert Runs(n, m, [u]) == [RunOf(m, u)];
      CountSingle(RunOf(m, u), x);
      RunHasCell(n, m, u, x);
      if Includes(bb, BoxOf(u)) {
        DecomposeCount(bb, n, m, rest, x);
        CountConcat([RunOf(m, u)], Decompose(bb, n, m, rest), x);
        if InBox(c, BoxOf(u)) { InsideCell(bb, BoxOf(u), c); }
      } else if Meets(bb, BoxOf(u)) && u.s > 0 {
        PartsCount(n, m, u, x);
        RunsSplit(n, m, rest, Parts(u), x);
        DecomposeCount(bb, n, m, rest + Parts(u), x);
      } else {
        DecomposeCount(bb, n, m, rest, x);
        if InBox(c, BoxOf(u)) { OutsideCell(bb, u, c); }
      }
    }
  }

  lemma OnGridParts(n: nat, m: nat, u: Sub)
    requires OnGrid(n, m, u)
    ensures |u.q| == n && u.s <= m && IsCell(u.q, m - u.s)
  {}

  lemma CountNone(x: nat)
    ensures Count([], x) == 0
  {}

  lemma InsideCell(b0: Box, b1: Box, c: Cell)
    requires Includes(b0, b1) && InBox(c, b1)
    ensures InBox(c, b0)
  {}

  lemma {:induction false} OutsideCell(bb: Box, u: Sub, c: Cell)
    requires NonEmpty(bb) && |bb.lb| == |u.q| && InBox(c, BoxOf(u)) && !Includes(bb, BoxOf(u))
    requires !(Meets(bb, BoxOf(u)) && u.s > 0)
    ensures !InBox(c, bb)
  {
    if InBox(c, bb) {
      SharedCellMeets(bb, BoxOf(u), c);
      PointInside(bb, u);
    }
  }

  // ---- the table of a box

  /** The virtual cube of side 2^k, on a curve of k + 1 bits. */
  function Root(n: nat, k: nat): (u: Sub)
    ensures |u.q| == n && u.s == k
    ensures n > 0 ==> OnGrid(n, k + 1, u)
  {
    Sub(seq(n, _ => 0), k)
  }

  /** What bbox_to_intv returns. */
  function IntvTable(bb: Box, n: nat, k: nat): seq<Intv>
    requires n > 0
  {
    Compact(Sort(Decompose(bb, n, k + 1, [Root(n, k)])))
  }

  lemma {:induction false} RootCells(n: nat, k: nat, c: Cell)
    requires |c| == n
    ensures InBox(c, BoxOf(Root(n, k))) <==> forall d :: 0 <= d < n ==> c[d] < Pow2(k)
  {
    hide Pow2, Ones, Shl;
    ShlMul(0, k);
    var b := BoxOf(Root(n, k));
    assert forall d :: 0 <= d < n ==> b.lb[d] == 0 && b.ub[d] == Pow2(k) - 1;
    if forall d :: 0 <= d < n ==> c[d] < Pow2(k) {
      assert InBox(c, b);
    }
  }

  /** Every interval of the decomposition is the run of a cube on the grid. */
  lemma {:induction false} DecomposeProper(bb: Box, n: nat, m: nat, queue: seq<Sub>)
    requires n > 0 && AllOnGrid(n, m, queue)
    ensures Proper(Decompose(bb, n, m, queue))
    ensures forall i :: 0 <= i < |Decompose(bb, n, m, queue)| ==> Decompose(bb, n, m, queue)[i].ub < Pow2(Mul(m, n))
    decreases Total(n, queue)
  {
    hide Total, BoxOf, Includes, Meets, Parts, RunOf, OnGrid, Mul, Pow2;
    if queue != [] {
      var u := queue[0];
      assert OnGrid(n, m, u);
      OnGridParts(n, m, u);
      TotalHead(n, queue);
      if Includes(bb, BoxOf(u)) {
        DecomposeProper(bb, n, m, queue[1..]);
        RunOfBounds(n, m, u);
      } else if Meets(bb, BoxOf(u)) && u.s > 0 {
        PartsOnGrid(n, m, u);
        DecomposeProper(bb, n, m, queue[1..] + Parts(u));
      } else {
        DecomposeProper(bb, n, m, queue[1..]);
      }
    }
  }

  lemma {:induction false} RunOfBounds(n: nat, m: nat, u: Sub)
    requires n > 0 && OnGrid(n, m, u)
    ensures RunOf(m, u).lb <= RunOf(m, u).ub < Pow2(Mul(m, n))
  {
    hide Fill, Index, Mul, Pow2, IsCell;
    var i, k := Index(u.q, m - u.s), Mul(u.s, n);
    RunDef(u.q, m - u.s, u.s);
    FillValue(i, k);
    IndexBound(u.q, m - u.s);
    MulAdd(m - u.s, u.s, n);
    Pow2Add(Mul(m - u.s, n), k);
    MulLe(i + 1, Pow2(Mul(m - u.s, n)), Pow2(k));
    assert (i + 1) * Pow2(k) == i * Pow2(k) + Pow2(k);
  }

  /** How often the table of a non-empty box covers an index: once if the index belongs
      to a cell of the box inside the virtual cube, and not at all otherwise. */
  lemma {:induction false} TableCount(bb: Box, n: nat, k: nat, x: nat)
    requires n > 0 && NonEmpty(bb) && |bb.lb| == n && x < Pow2(Mul(k + 1, n))
    ensures var c := CellAt(n, k + 1, x);
            Count(IntvTable(bb, n, k), x) == if InBox(c, bb) && InBox(c, BoxOf(Root(n, k))) then 1 else 0
  {
    hide *;
    TableParts(bb, n, k);
    CountPermuted(Decompose(bb, n, k + 1, [Root(n, k)]), Sort(Decompose(bb, n, k + 1, [Root(n, k)])), x);
    RootCount(bb, n, k, x);
  }

  lemma {:induction false} RootCount(bb: Box, n: nat, k: nat, x: nat)
    requires n > 0 && NonEmpty(bb) && |bb.lb| == n && x < Pow2(Mul(k + 1, n))
    ensures AllOnGrid(n, k + 1, [Root(n, k)])
    ensures var c := CellAt(n, k + 1, x);
            Count(Decompose(bb, n, k + 1, [Root(n, k)]), x) == if InBox(c, bb) && InBox(c, BoxOf(Root(n, k))) then 1 else 0
  {
    hide CellAt, Count, Has, Total, Mul, Pow2, InBox, BoxOf, RunOf, OnGrid, NonEmpty, Decompose, Root;
    var u := Root(n, k);
    DecomposeCount(bb, n, k + 1, [u], x);
    OnGridParts(n, k + 1, u);
    assert Runs(n, k + 1, [u]) == [RunOf(k + 1, u)];
    CountSingle(RunOf(k + 1, u), x);
    RunHasCell(n, k + 1, u, x);
  }

  /** The table is sorted, disjoint and has a gap between any two intervals; merging and
      sorting do not change what is covered. */
  lemma {:induction false} TableParts(bb: Box, n: nat, k: nat)
    requires n > 0 && NonEmpty(bb) && |bb.lb| == n
    ensures AllOnGrid(n, k + 1, [Root(n, k)])
    ensures Proper(IntvTable(bb, n, k)) && Gapped(IntvTable(bb, n, k))
    ensures multiset(Sort(Decompose(bb, n, k + 1, [Root(n, k)]))) == multiset(Decompose(bb, n, k + 1, [Root(n, k)]))
    ensures Ordered(Sort(Decompose(bb, n, k + 1, [Root(n, k)])))
    ensures forall x: nat :: Count(IntvTable(bb, n, k), x) == Count(Sort(Decompose(bb, n, k + 1, [Root(n, k)])), x)
  {
    hide CellAt, Count, Total, Mul, Pow2, InBox, BoxOf, RunOf, OnGrid, NonEmpty, Decompose, Root, Compact, Sort, Ordered, Gapped;
    var d := Decompose(bb, n, k + 1, [Root(n, k)]);
    var t := Sort(d);
    SortCorrect(d);
    DecomposeProper(bb, n, k + 1, [Root(n, k)]);
    forall i | 0 <= i < |t| ensures t[i].lb <= t[i].ub {
      assert t[i] in multiset(t);
      assert t[i] in d;
    }
    forall x: nat ensures Count(t, x) <= 1 {
      CountPermuted(d, t, x);
      if x < Pow2(Mul(k + 1, n)) {
        RootCount(bb, n, k, x);
      } else {
        CountHas(d, x);
      }
    }
    OnceIsOrdered(t);
    CompactCorrect(t);
  }

  /** The intervals cover exactly the indices of the box's cells. */
  lemma {:induction false} TableExact(bb: Box, n: nat, k: nat, x: nat)
    requires n > 0 && NonEmpty(bb) && |bb.lb| == n
    requires forall d :: 0 <= d < n ==> bb.ub[d] < Pow2(k)
    ensures (exists i :: 0 <= i < |IntvTable(bb, n, k)| && Has(IntvTable(bb, n, k)[i], x)) <==>
            exists c: Cell :: InBox(c, bb) && Index(c, k + 1) == x
  {
    hide CellAt, Count, Has, Mul, Pow2, BoxOf, Root, IntvTable, Index;
    CountHas(IntvTable(bb, n, k), x);
    if x < Pow2(Mul(k + 1, n)) {
      TableCount(bb, n, k, x);
      IndexOfCellAt(n, k + 1, x);
      var c := CellAt(n, k + 1, x);
      if InBox(c, bb) { RootCells(n, k, c); }
    } else {
      TableBelow(bb, n, k, x);
    }
    forall c: Cell | InBox(c, bb) && Index(c, k + 1) == x
      ensures Count(IntvTable(bb, n, k), x) == 1
    {
      IndexBound(c, k + 1);
      BoxCells(bb, k, c);
      CellAtIndex(c, k + 1);
      RootCells(n, k, c);
      TableCount(bb, n, k, x);
    }
  }

  lemma BoxCells(bb: Box, k: nat, c: Cell)
    requires InBox(c, bb) && |c| > 0 && forall d :: 0 <= d < |bb.ub| ==> bb.ub[d] < Pow2(k)
    ensures IsCell(c, k + 1) && forall d :: 0 <= d < |c| ==> c[d] < Pow2(k)
  {
    assert Pow2(k + 1) == 2 * Pow2(k);
  }

  lemma {:induction false} TableBelow(bb: Box, n: nat, k: nat, x: nat)
    requires n > 0 && NonEmpty(bb) && |bb.lb| == n && x >= Pow2(Mul(k + 1, n))
    ensures Count(IntvTable(bb, n, k), x) == 0
  {
    hide Count, Total, Mul, Pow2, OnGrid, NonEmpty, Decompose, Root, Compact, Sort, Proper, Ordered;
    var d := Decompose(bb, n, k + 1, [Root(n, k)]);
    TableParts(bb, n, k);
    CountPermuted(d, Sort(d), x);
    DecomposeProper(bb, n, k + 1, [Root(n, k)]);
    CountHas(d, x);
  }

  // ---- the program

  /** compute_bits: the number of bits of n. */
  method ComputeBits(n: nat) returns (r: nat)
    ensures n < Pow2(r) && (r > 0 ==> Pow2(r - 1) <= n)
  {
    var v := n;
    r := 0;
    assert n == Shr(n, 0);
    while v > 0
      invariant v == Shr(n, r)
      invariant r > 0 ==> Pow2(r - 1) <= n
      decreases v
    {
      hide *;
      ShrDiv(n, r);
      MulGe(v, Pow2(r));
      ShrOne(v);
      ShrTwice(n, r, 1);
      v := Shr(v, 1);
      r := r + 1;
    }
    ShrDiv(n, r);
  }

  lemma MulGe(a: nat, b: nat)
    requires a > 0
    ensures a * b >= b
  {}

  lemma ShrOne(v: nat)
    requires v > 0
    ensures Shr(v, 1) < v
  {}

  /** A power of two has one bit more than its exponent: the spare bit of the curve. */
  lemma {:induction false} BitsOfPow2(k: nat, r: nat)
    requires Pow2(k) < Pow2(r) && (r > 0 ==> Pow2(r - 1) <= Pow2(k))
    ensures r == k + 1
  {
    if r <= k { Pow2Mono(r, k); }
    if r > k + 1 { Pow2Strict(k, r - 1); }
  }

  /** The source's requirements on the arguments: a non-empty box that meets the virtual
      cube of side 2^k, an index of at most 64 bits, and midpoints that fit a C int. */
  ghost predicate Sizes(bb: Box, n: nat, k: nat) {
    && 0 < n <= 30 && IsBox(bb, n) && NonEmpty(bb)
    && (forall d :: 0 <= d < n ==> bb.lb[d] < Pow2(k))
    && k <= 31 && Mul(k + 1, n) <= 64
  }

  lemma SizesParts(bb: Box, n: nat, k: nat)
    requires Sizes(bb, n, k)
    ensures 0 < n <= 30 && IsBox(bb, n) && NonEmpty(bb) && |bb.lb| == n && |bb.ub| == n
    ensures k <= 31 && Mul(k + 1, n) <= 64
  {}

  /** The root's interval list is not empty when the box meets the virtual cube. */
  lemma {:induction false} DecomposeSome(bb: Box, n: nat, k: nat)
    requires Sizes(bb, n, k)
    ensures |Decompose(bb, n, k + 1, [Root(n, k)])| > 0
  {
    hide Count, CellAt, Root, Decompose, Index, Pow2, Mul, BoxOf;
    var c := bb.lb;
    assert InBox(c, bb);
    LbIsCell(bb, n, k);
    CellAtIndex(c, k + 1);
    IndexBound(c, k + 1);
    RootCells(n, k, c);
    RootCount(bb, n, k, Index(c, k + 1));
    CountHas(Decompose(bb, n, k + 1, [Root(n, k)]), Index(c, k + 1));
  }

  lemma LbIsCell(bb: Box, n: nat, k: nat)
    requires Sizes(bb, n, k)
    ensures IsCell(bb.lb, k + 1)
  {
    assert Pow2(k + 1) == 2 * Pow2(k);
  }

  /** Cubes of side 2^s at most 2^31 have midpoints that fit an int. */
  lemma {:induction false} CubeMidFits(n: nat, k: nat, u: Sub, d: nat)
    requires OnGrid(n, k + 1, u) && 0 < u.s <= k <= 31 && d < n
    requires BoxOf(u).ub[d] < Pow2(k)
    ensures Mid(BoxOf(u), d) < 0x7fff_ffff
  {
    hide Shl, Ones, Pow2;
    var b := BoxOf(u);
    ShlOnesDouble(u.q[d], u.s);
    Pow2Mono(k, 31);
    Pow31();
  }

  lemma Pow31()
    ensures Pow2(31) == 0x8000_0000
  {
    assert Pow2(8) == 256 && Pow2(16) == 65536 by { Pow2Add(8, 8); }
    Pow2Add(16, 8);
    Pow2Add(24, 7);
  }

  /** The queued cubes stay inside the virtual cube. */
  predicate Inside(k: nat, u: Sub) {
    u.s <= k && forall d :: 0 <= d < |u.q| ==> BoxOf(u).ub[d] < Pow2(k)
  }

  lemma {:induction false} PartsInside(k: nat, u: Sub, i: nat)
    requires u.s > 0 && Inside(k, u) && i < Pow2(|u.q|)
    ensures Inside(k, Parts(u)[i])
  {
    hide Bit, Shl, Ones, Pow2, Refine;
    ChildOfCube(u.q, u.s, i);
    var b := BoxOf(u);
    forall d | 0 <= d < |u.q| ensures Child(b, i).ub[d] <= b.ub[d] {
      assert b.lb[d] <= b.ub[d];
    }
  }

  /** Everything the splitting loop keeps about its queue. */
  ghost predicate QueueInv(bb: Box, n: nat, k: nat, boxes: seq<Box>, queue: seq<Sub>) {
    && n > 0 && AllOnGrid(n, k + 1, queue) && |boxes| == |queue|
    && (forall i :: 0 <= i < |queue| ==> boxes[i] == BoxOf(queue[i]) && Inside(k, queue[i]))
  }

  lemma QueueHead(bb: Box, n: nat, k: nat, boxes: seq<Box>, queue: seq<Sub>)
    requires QueueInv(bb, n, k, boxes, queue) && queue != []
    ensures n > 0 && AllOnGrid(n, k + 1, queue)
    ensures OnGrid(n, k + 1, queue[0]) && boxes[0] == BoxOf(queue[0]) && Inside(k, queue[0])
    ensures |queue[0].q| == n && queue[0].s <= k && IsCell(queue[0].q, k + 1 - queue[0].s)
    ensures QueueInv(bb, n, k, boxes[1..], queue[1..])
    ensures AllOnGrid(n, k + 1, queue[1..])
  {}

  lemma {:induction false} QueueSplit(bb: Box, n: nat, k: nat, boxes: seq<Box>, queue: seq<Sub>, u: Sub)
    requires QueueInv(bb, n, k, boxes, queue) && u.s > 0 && OnGrid(n, k + 1, u) && Inside(k, u)
    ensures IsBox(BoxOf(u), |u.q|) && |BoxOf(u).lb| == |u.q|
    ensures QueueInv(bb, n, k, boxes + Children(BoxOf(u)), queue + Parts(u))
  {
    hide Inside, Pow2, BoxOf;
    PartsOnGrid(n, k + 1, u);
    var ps, cs := Parts(u), Children(BoxOf(u));
    BoxDims(u);
    forall i | 0 <= i < |ps| ensures cs[i] == BoxOf(ps[i]) && Inside(k, ps[i]) {
      ChildOfSub(u, i);
      PartsInside(k, u, i);
    }
    forall i | 0 <= i < |queue + ps|
      ensures (boxes + cs)[i] == BoxOf((queue + ps)[i]) && Inside(k, (queue + ps)[i]) && OnGrid(n, k + 1, (queue + ps)[i])
    {
      if i < |queue| { assert OnGrid(n, k + 1, queue[i]); } else { assert OnGrid(n, k + 1, ps[i - |queue|]); }
    }
  }

  lemma ChildOfSub(u: Sub, i: nat)
    requires u.s > 0
    ensures Child(BoxOf(u), i) == BoxOf(Sub(Refine(u.q, i), u.s - 1))
  {
    ChildOfCube(u.q, u.s, i);
  }

  lemma BoxDims(u: Sub)
    ensures |BoxOf(u).lb| == |u.q| == |BoxOf(u).ub|
  {}

  /** What each step of the loop does to the decomposition of the queue. */
  lemma {:induction false} DecomposeStep(bb: Box, n: nat, m: nat, queue: seq<Sub>)
    requires n > 0 && AllOnGrid(n, m, queue) && queue != [] && NonEmpty(bb) && |bb.lb| == n
    requires |queue[0].q| == n && queue[0].s <= m
    ensures AllOnGrid(n, m, queue[1..])
    ensures Includes(bb, BoxOf(queue[0])) ==>
              Decompose(bb, n, m, queue) == [RunOf(m, queue[0])] + Decompose(bb, n, m, queue[1..])
    ensures !Includes(bb, BoxOf(queue[0])) && Meets(bb, BoxOf(queue[0])) ==>
              && queue[0].s > 0 && AllOnGrid(n, m, queue[1..] + Parts(queue[0]))
              && Decompose(bb, n, m, queue) == Decompose(bb, n, m, queue[1..] + Parts(queue[0]))
    ensures !Includes(bb, BoxOf(queue[0])) && !Meets(bb, BoxOf(queue[0])) ==>
              Decompose(bb, n, m, queue) == Decompose(bb, n, m, queue[1..])
  {
    hide Total, BoxOf, Includes, Meets, Parts, RunOf, OnGrid, NonEmpty;
    var u := queue[0];
    assert OnGrid(n, m, u);
    if Meets(bb, BoxOf(u)) && u.s == 0 { PointInside(bb, u); }
    if u.s > 0 { PartsOnGrid(n, m, u); }
  }

  /** bbox_to_intv: the interval table of a box. */
  method BboxToIntv(bb: Box, dimVirt: nat, ghost k: nat) returns (itab: seq<Intv>)
    requires dimVirt == Pow2(k) && Sizes(bb, |bb.lb|, k)
    ensures itab == IntvTable(bb, |bb.lb|, k)
  {
    hide *;
    var n := |bb.lb|;
    SizesParts(bb, n, k);
    DecomposeSome(bb, n, k);
    var bpd := ComputeBits(dimVirt);
    BitsOfPow2(k, bpd);
    var qGood: seq<Intv> := [];
    var qCan := [Box(seq(n, _ => 0), seq(n, _ => dimVirt - 1))];
    ghost var queue := [Root(n, k)];
    RootInv(bb, n, k, dimVirt);
    ghost var all := Decompose(bb, n, k + 1, queue);
    var bTab := new Box[Pow2(n)](_ => bb);
    while |qCan| > 0
      invariant QueueInv(bb, n, k, qCan, queue) && |qCan| == |queue| && AllOnGrid(n, k + 1, queue)
      invariant qGood + Decompose(bb, n, k + 1, queue) == all
      invariant bTab.Length == Pow2(n) && fresh(bTab)
      decreases Total(n, queue)
    {
      QueueHead(bb, n, k, qCan, queue);
      ghost var u := queue[0];
      BoxDims(u);
      TotalHead(n, queue);
      DecomposeStep(bb, n, k + 1, queue);
      var bbVirt := qCan[0];
      qCan := qCan[1..];
      BoxShapes(bb, u, n);
      var inside := BboxInclude(bb, bbVirt);
      if inside {
        queue := queue[1..];
        RunOfDef(k + 1, u);
        BoxOfDef(u);
        var tmp := BboxFlat(bbVirt, bpd, u.q, k + 1 - u.s, u.s);
        qGood := qGood + [tmp];
      } else {
        var meets := BboxDoesIntersect(bb, bbVirt);
        if meets {
          MidsFit(n, k, u);
          BboxDivide(bbVirt, bTab, 0);
          assert bTab[..] == bTab[0..0 + Pow2(n)];
          QueueSplit(bb, n, k, qCan, queue[1..], u);
          queue := queue[1..] + Parts(u);
          qCan := EnqueueAll(qCan, bTab);
        } else {
          queue := queue[1..];
        }
      }
    }
    QueueDone(bb, n, k, qCan, queue);
    assert qGood == all;
    itab := SortAndCompact(qGood);
    TableDef(bb, n, k);
  }

  /** `for (i = 0; i < n; i++) queue_enqueue(&q_can, ...)` */
  method EnqueueAll(queue: seq<Box>, tab: array<Box>) returns (r: seq<Box>)
    ensures r == queue + tab[..]
  {
    r := queue;
    var i := 0;
    while i < tab.Length
      invariant 0 <= i <= tab.Length
      invariant r == queue + tab[..i]
    {
      r := r + [tab[i]];
      i := i + 1;
    }
    assert tab[..i] == tab[..];
  }

  /** Copying to an array, sorting it, and merging neighbours in place. */
  method SortAndCompact(good: seq<Intv>) returns (itab: seq<Intv>)
    requires |good| > 0
    ensures itab == Compact(Sort(good))
  {
    hide *;
    var sorted := Sort(good);
    var tab := new Intv[|sorted|](i requires 0 <= i < |sorted| => sorted[i]);
    assert tab[..|sorted|] == sorted;
    var n := IntvCompact(tab, |sorted|);
    itab := tab[..n];
  }

  lemma TableDef(bb: Box, n: nat, k: nat)
    requires n > 0
    ensures IntvTable(bb, n, k) == Compact(Sort(Decompose(bb, n, k + 1, [Root(n, k)])))
  {}

  lemma RunOfDef(m: nat, u: Sub)
    requires |u.q| > 0 && u.s <= m
    ensures RunOf(m, u) == Run(u.q, m - u.s, u.s)
  {}

  lemma BoxOfDef(u: Sub)
    ensures BoxOf(u) == Cube(u.q, u.s)
  {}

  lemma BoxShapes(bb: Box, u: Sub, n: nat)
    requires |bb.lb| == n && |bb.ub| == n && |u.q| == n
    ensures IsBox(bb, |bb.lb|) && IsBox(BoxOf(u), |bb.lb|) && IsBox(BoxOf(u), |BoxOf(u).lb|)
  {}

  lemma {:induction false} MidsFit(n: nat, k: nat, u: Sub)
    requires OnGrid(n, k + 1, u) && Inside(k, u) && u.s > 0 && k <= 31
    ensures |u.q| == n && |BoxOf(u).lb| == n == |BoxOf(u).ub|
    ensures forall d :: 0 <= d < n ==> Mid(BoxOf(u), d) < 0x7fff_ffff
  {
    forall d | 0 <= d < n ensures Mid(BoxOf(u), d) < 0x7fff_ffff { CubeMidFits(n, k, u, d); }
  }

  lemma {:induction false} RootInv(bb: Box, n: nat, k: nat, dimVirt: nat)
    requires n > 0 && dimVirt == Pow2(k)
    ensures QueueInv(bb, n, k, [Box(seq(n, _ => 0), seq(n, _ => dimVirt - 1))], [Root(n, k)])
    ensures AllOnGrid(n, k + 1, [Root(n, k)])
  {
    hide Pow2, Shl, Ones, IsCell;
    ShlMul(0, k);
    var u := Root(n, k);
    assert BoxOf(u) == Box(seq(n, _ => 0), seq(n, _ => dimVirt - 1));
  }

  lemma QueueDone(bb: Box, n: nat, k: nat, boxes: seq<Box>, queue: seq<Sub>)
    requires QueueInv(bb, n, k, boxes, queue) && |boxes| == 0 && AllOnGrid(n, k + 1, queue)
    ensures n > 0 && Decompose(bb, n, k + 1, queue) == []
  {}
}
