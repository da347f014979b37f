/** Bounding boxes (src/bbox.c): inclusion and intersection tests, splitting, and the
    translation of an aligned cube to its interval of curve indices. */
module Bbox {
  import opened Bits
  import opened Words
  import opened HilbertCube
  import opened HilbertCode
  import opened Intervals

  /** Inclusive lower and upper bounds, one per dimension. */
  datatype Box = Box(lb: seq<nat>, ub: seq<nat>)

  predicate IsBox(b: Box, n: nat) {
    |b.lb| == n && |b.ub| == n
  }

  predicate NonEmpty(b: Box) {
    |b.lb| == |b.ub| && forall d :: 0 <= d < |b.lb| ==> b.lb[d] <= b.ub[d]
  }

  predicate InBox(c: Cell, b: Box) {
    |b.lb| == |b.ub| == |c| && forall d :: 0 <= d < |c| ==> b.lb[d] <= c[d] <= b.ub[d]
  }

  predicate Includes(b0: Box, b1: Box) {
    |b0.lb| == |b0.ub| == |b1.lb| == |b1.ub| &&
    forall d :: 0 <= d < |b0.lb| ==> b0.lb[d] <= b1.lb[d] && b0.ub[d] >= b1.ub[d]
  }

  /** The intervals of the two boxes along dimension d meet. */
  predicate MeetOn(b0: Box, b1: Box, d: nat)
    requires d < |b0.lb| && d < |b0.ub| && d < |b1.lb| && d < |b1.ub|
  {
    || (b0.lb[d] <= b1.lb[d] && b1.lb[d] <= b0.ub[d])
    || (b1.lb[d] <= b0.lb[d] && b0.lb[d] <= b1.ub[d])
  }

  predicate Meets(b0: Box, b1: Box) {
    |b0.lb| == |b0.ub| == |b1.lb| == |b1.ub| &&
    forall d :: 0 <= d < |b0.lb| ==> MeetOn(b0, b1, d)
  }

  /** The inclusion test decides inclusion of cells. */
  lemma {:induction false} IncludesCells(b0: Box, b1: Box)
    requires NonEmpty(b1) && IsBox(b0, |b1.lb|)
    ensures Includes(b0, b1) <==> forall c: Cell :: InBox(c, b1) ==> InBox(c, b0)
  {
    if forall c: Cell :: InBox(c, b1) ==> InBox(c, b0) {
      assert InBox(b1.lb, b1) && InBox(b1.ub, b1);
    }
  }

  /** The intersection test decides whether two non-empty boxes share a cell. */
  lemma {:induction false} MeetsCells(b0: Box, b1: Box)
    requires NonEmpty(b0) && NonEmpty(b1) && |b0.lb| == |b1.lb|
    ensures Meets(b0, b1) <==> exists c: Cell :: InBox(c, b0) && InBox(c, b1)
  {
    if Meets(b0, b1) {
      var c := seq(|b0.lb|, d requires 0 <= d < |b0.lb| => if b0.lb[d] > b1.lb[d] then b0.lb[d] else b1.lb[d]);
      forall d | 0 <= d < |c| ensures b0.lb[d] <= c[d] <= b0.ub[d] && b1.lb[d] <= c[d] <= b1.ub[d] {
        assert MeetOn(b0, b1, d);
      }
      assert InBox(c, b0) && InBox(c, b1);
    }
  }

  /** Boxes that share a cell always pass the test, empty boxes included. */
  lemma SharedCellMeets(b0: Box, b1: Box, c: Cell)
    requires InBox(c, b0) && InBox(c, b1)
    ensures Meets(b0, b1)
  {}

  /** bbox_include */
  method BboxInclude(b0: Box, b1: Box) returns (r: bool)
    requires IsBox(b0, |b0.lb|) && IsBox(b1, |b0.lb|)
    ensures r == Includes(b0, b1)
  {
    var i := 0;
    while i < |b0.lb|
      invariant 0 <= i <= |b0.lb|
      invariant forall d :: 0 <= d < i ==> b0.lb[d] <= b1.lb[d] && b0.ub[d] >= b1.ub[d]
    {
      if !(b0.lb[i] <= b1.lb[i] && b0.ub[i] >= b1.ub[i]) { return false; }
      i := i + 1;
    }
    return true;
  }

  /** bbox_does_intersect */
  method BboxDoesIntersect(b0: Box, b1: Box) returns (r: bool)
    requires IsBox(b0, |b0.lb|) && IsBox(b1, |b0.lb|)
    ensures r == Meets(b0, b1)
  {
    var i := 0;
    while i < |b0.lb|
      invariant 0 <= i <= |b0.lb|
      invariant forall d :: 0 <= d < i ==> MeetOn(b0, b1, d)
    {
      if !((b0.lb[i] <= b1.lb[i] && b1.lb[i] <= b0.ub[i]) || (b1.lb[i] <= b0.lb[i] && b0.lb[i] <= b1.ub[i])) {
        assert !MeetOn(b0, b1, i);
        return false;
      }
      i := i + 1;
    }
    return true;
  }

  /** bbox_intersect: the cells common to both boxes. */
  method BboxIntersect(b0: Box, b1: Box) returns (b2: Box)
    requires IsBox(b0, |b0.lb|) && IsBox(b1, |b0.lb|)
    ensures IsBox(b2, |b0.lb|)
    ensures forall c: Cell :: InBox(c, b2) <==> InBox(c, b0) && InBox(c, b1)
    ensures b2 == Common(b0, b1)
  {
    var lb: seq<nat>, ub: seq<nat> := [], [];
    var i := 0;
    while i < |b0.lb|
      invariant 0 <= i <= |b0.lb| && |lb| == |ub| == i
      invariant lb == Common(b0, b1).lb[..i] && ub == Common(b0, b1).ub[..i]
    {
      lb := lb + [if b0.lb[i] > b1.lb[i] then b0.lb[i] else b1.lb[i]];
      ub := ub + [if b0.ub[i] < b1.ub[i] then b0.ub[i] else b1.ub[i]];
      i := i + 1;
    }
    b2 := Box(lb, ub);
    forall c: Cell ensures InBox(c, b2) <==> InBox(c, b0) && InBox(c, b1) { CommonCells(b0, b1, c); }
  }

  function Common(b0: Box, b1: Box): (b2: Box)
    requires IsBox(b0, |b0.lb|) && IsBox(b1, |b0.lb|)
    ensures IsBox(b2, |b0.lb|)
  {
    var n := |b0.lb|;
    Box(seq(n, d requires 0 <= d < n => if b0.lb[d] > b1.lb[d] then b0.lb[d] else b1.lb[d]),
        seq(n, d requires 0 <= d < n => if b0.ub[d] < b1.ub[d] then b0.ub[d] else b1.ub[d]))
  }

  lemma CommonCells(b0: Box, b1: Box, c: Cell)
    requires IsBox(b0, |b0.lb|) && IsBox(b1, |b0.lb|)
    ensures InBox(c, Common(b0, b1)) <==> InBox(c, b0) && InBox(c, b1)
  {}

  // ---- splitting in every dimension

  function Mid(b: Box, d: nat): nat
    requires d < |b.lb| && d < |b.ub|
  {
    (b.lb[d] + b.ub[d]) / 2
  }

  /** Part i of the box: its upper half along the dimensions set in i. */
  function Child(b: Box, i: nat): (r: Box)
    requires IsBox(b, |b.lb|)
    ensures IsBox(r, |b.lb|)
  {
    var n := |b.lb|;
    Box(seq(n, d requires 0 <= d < n => if Bit(i, d) then Mid(b, d) + 1 else b.lb[d]),
        seq(n, d requires 0 <= d < n => if Bit(i, d) then b.ub[d] else Mid(b, d)))
  }

  function Children(b: Box): (r: seq<Box>)
    requires IsBox(b, |b.lb|)
    ensures |r| == Pow2(|b.lb|)
    ensures forall i :: 0 <= i < |r| ==> r[i] == Child(b, i)
  {
    seq(Pow2(|b.lb|), i requires 0 <= i => Child(b, i))
  }

  /** The part a cell falls in. */
  function PartOf(c: Cell, b: Box): (i: nat)
    requires |b.lb| == |b.ub| == |c|
    ensures i < Pow2(|c|)
    ensures forall d: nat {:trigger Bit(i, d)} :: Bit(i, d) == (d < |c| && c[d] > Mid(b, d))
  {
    FromBits((d: nat) => d < |b.lb| && d < |b.ub| && d < |c| && c[d] > Mid(b, d), |c|)
  }

  /** Splitting partitions the box: a cell of the box lies in exactly one part, and no
      part has a cell outside the box. */
  lemma {:induction false} ChildCells(b: Box, c: Cell, i: nat)
    requires NonEmpty(b) && |c| == |b.lb| && i < Pow2(|c|)
    ensures InBox(c, Child(b, i)) <==> InBox(c, b) && i == PartOf(c, b)
  {
    hide Bit, Pow2, PartOf;
    var p := PartOf(c, b);
    if InBox(c, Child(b, i)) {
      HighBitsClear(i, |c|);
      forall d: nat ensures Bit(i, d) == Bit(p, d) {
        if d < |c| {
          var ch := Child(b, i);
          assert ch.lb[d] <= c[d] <= ch.ub[d];
        }
      }
      SameBits(i, p);
    }
  }

  /** bbox_divide: the parts of b0, written from position `at` on.  The midpoint is kept
      in a C int, so it has to fit one. */
  method BboxDivide(b0: Box, tab: array<Box>, at: nat)
    requires IsBox(b0, |b0.lb|) && |b0.lb| <= 30 && at + Pow2(|b0.lb|) <= tab.Length
    requires forall d :: 0 <= d < |b0.lb| ==> Mid(b0, d) < 0x7fff_ffff
    modifies tab
    ensures tab[at..at + Pow2(|b0.lb|)] == Children(b0)
    ensures forall k :: 0 <= k < tab.Length && !(at <= k < at + Pow2(|b0.lb|)) ==> tab[k] == old(tab[k])
  {
    hide Bit, Pow2;
    var ndims := |b0.lb|;
    var i := 0;
    while i < Pow2(ndims)
      invariant 0 <= i <= Pow2(ndims)
      invariant forall k :: 0 <= k < i ==> tab[at + k] == Child(b0, k)
      invariant forall k :: 0 <= k < tab.Length && !(at <= k < at + Pow2(ndims)) ==> tab[k] == old(tab[k])
    {
      var lb: seq<nat>, ub: seq<nat> := [], [];
      var j := 0;
      while j < ndims
        invariant 0 <= j <= ndims && |lb| == |ub| == j
        invariant lb == Child(b0, i).lb[..j] && ub == Child(b0, i).ub[..j]
      {
        var n := (b0.lb[j] + b0.ub[j]) / 2;
        if !Bit(i, j) {
          lb, ub := lb + [b0.lb[j]], ub + [n];
        } else {
          lb, ub := lb + [n + 1], ub + [b0.ub[j]];
        }
        j := j + 1;
      }
      assert Box(lb, ub) == Child(b0, i);
      tab[at + i] := Box(lb, ub);
      i := i + 1;
    }
    assert tab[at..at + Pow2(ndims)] == Children(b0);
  }

  // ---- aligned cubes

  /** The aligned cube of side 2^s at coarse position q. */
  function Cube(q: Cell, s: nat): (b: Box)
    ensures IsBox(b, |q|)
  {
    Box(seq(|q|, d requires 0 <= d < |q| => Shl(q[d], s)),
        seq(|q|, d requires 0 <= d < |q| => Shl(q[d], s) + Ones(s)))
  }

  lemma {:induction false} CoarseAt(c: Cell, s: nat, d: nat)
    requires d < |c|
    ensures Coarse(c, s)[d] == Shr(c[d], s)
    decreases s
  {
    if s > 0 { CoarseAt(Half(c), s - 1, d); }
  }

  lemma {:induction false} ShrRange(y: nat, s: nat, x: nat)
    ensures Shr(y, s) == x <==> Shl(x, s) <= y <= Shl(x, s) + Ones(s)
  {
    hide *;
    RunBounds(x, s, y);
    FillValue(x, s);
    ShlMul(x, s);
  }

  /** The cells of a cube are those with its coarse position. */
  lemma {:induction false} InCube(c: Cell, q: Cell, s: nat)
    requires |c| == |q|
    ensures InBox(c, Cube(q, s)) <==> Coarse(c, s) == q
  {
    hide Coarse, Shl, Shr, Ones;
    forall d | 0 <= d < |c| ensures Coarse(c, s)[d] == q[d] <==> Cube(q, s).lb[d] <= c[d] <= Cube(q, s).ub[d] {
      CoarseAt(c, s, d);
      ShrRange(c[d], s, q[d]);
    }
    if InBox(c, Cube(q, s)) { assert Coarse(c, s) == q; }
  }

  lemma CubeNonEmpty(q: Cell, s: nat)
    ensures NonEmpty(Cube(q, s))
  {}

  /** Splitting a cube gives the cubes of half its side. */
  lemma {:induction false} ChildOfCube(q: Cell, s: nat, i: nat)
    requires s > 0
    ensures Child(Cube(q, s), i) == Cube(Refine(q, i), s - 1)
  {
    hide Bit, Refine, Shl, Ones, Pow2;
    var b := Cube(q, s);
    forall d | 0 <= d < |q| ensures Child(b, i).lb[d] == Cube(Refine(q, i), s - 1).lb[d]
                                 && Child(b, i).ub[d] == Cube(Refine(q, i), s - 1).ub[d] {
      var x, o := Shl(q[d], s - 1), Ones(s - 1);
      ShlOnesDouble(q[d], s);
      assert Mid(b, d) == 2 * x + o;
      ShlRefine(q[d], s - 1, B2n(Bit(i, d)));
    }
  }

  lemma ShlOnesDouble(x: nat, s: nat)
    requires s > 0
    ensures Shl(x, s) == 2 * Shl(x, s - 1) && Ones(s) == 2 * Ones(s - 1) + 1
  {}

  lemma {:induction false} ShlRefine(x: nat, s: nat, b: nat)
    requires b < 2
    ensures Shl(2 * x + b, s) == 2 * Shl(x, s) + if b == 1 then Ones(s) + 1 else 0
  {
    hide *;
    ShlMul(2 * x + b, s);
    ShlMul(x, s);
    assert (2 * x + b) * Pow2(s) == 2 * (x * Pow2(s)) + b * Pow2(s);
  }

  // ---- the interval of a cube

  /** The indices of the cells of cube q of side 2^s, on the curve of g + s bits. */
  function Run(q: Cell, g: nat, s: nat): Intv
    requires |q| > 0
  {
    Intv(Fill(Index(q, g), Mul(s, |q|), false), Fill(Index(q, g), Mul(s, |q|), true))
  }

  lemma RunDef(q: Cell, g: nat, s: nat)
    requires |q| > 0
    ensures Run(q, g, s).lb == Fill(Index(q, g), Mul(s, |q|), false)
    ensures Run(q, g, s).ub == Fill(Index(q, g), Mul(s, |q|), true)
  {}

  /** A cell is in the cube exactly when its index is in the run. */
  lemma {:induction false} InRun(c: Cell, q: Cell, g: nat, s: nat)
    requires IsCell(c, g + s) && IsCell(q, g) && |c| == |q|
    ensures Has(Run(q, g, s), Index(c, g + s)) <==> InBox(c, Cube(q, s))
  {
    hide Fill, Index, Coarse, Cube, InBox, Mul, Shr;
    CubeIsRun(c, g + s, q, s);
    RunBounds(Index(q, g), Mul(s, |q|), Index(c, g + s));
    InCube(c, q, s);
  }

  lemma {:induction false} CornerIsCell(q: Cell, g: nat, s: nat, r: nat)
    requires IsCell(q, g)
    ensures IsCell(Corner(q, s, r), g + s)
  {
    hide Bit, Corner;
    forall d | 0 <= d < |q| ensures Corner(q, s, r)[d] < Pow2(g + s) {
      ShlMul(q[d], s);
      Pow2Add(g, s);
      MulLe(q[d] + 1, Pow2(g), Pow2(s));
      assert (q[d] + 1) * Pow2(s) == q[d] * Pow2(s) + Pow2(s);
    }
  }

  lemma {:induction false} CornerInCube(q: Cell, s: nat, r: nat)
    requires r < Pow2(|q|)
    ensures InBox(Corner(q, s, r), Cube(q, s))
  {
    hide Bit, Pow2, Coarse, Corner;
    CornerRows(q, s, r, 0);
    InCube(Corner(q, s, r), q, s);
  }

  /** What is known about the corners of a cube before looking at them. */
  lemma {:induction false} CornerIndices(q: Cell, g: nat, s: nat, r: nat)
    requires IsCell(q, g) && r < Pow2(|q|)
    ensures IsCell(Corner(q, s, r), g + s)
    ensures Has(Run(q, g, s), Index(Corner(q, s, r), g + s))
    ensures EndCorner(q, g, false) < Pow2(|q|) && EndCorner(q, g, true) < Pow2(|q|)
    ensures EndCorner(q, g, true) > 0
    ensures Index(Corner(q, s, EndCorner(q, g, false)), g + s) == Run(q, g, s).lb
    ensures Index(Corner(q, s, EndCorner(q, g, true)), g + s) == Run(q, g, s).ub
  {
    hide Bit, Pow2, Corner, Fill, Index, Cube, InBox, EndCorner;
    CornerIsCell(q, g, s, r);
    CornerInCube(q, s, r);
    InRun(Corner(q, s, r), q, g, s);
    CubeEnds(q, g, s, false);
    CubeEnds(q, g, s, true);
    assert !Parity(0);
  }

  /** bbox_flat: looks at the corners only, and finds exactly the run of the cube. */
  method BboxFlat(bb: Box, bpd: nat, ghost q: Cell, ghost g: nat, ghost s: nat) returns (itv: Intv)
    requires IsCell(q, g) && bb == Cube(q, s) && bpd == g + s && 1 <= bpd && Mul(bpd, |q|) <= 64
    requires |q| <= 30
    ensures itv == Run(q, g, s)
  {
    hide *;
    CellSize(q, g);
    CubeDims(q, s);
    var dims := |bb.lb|;
    var lb, ub: nat := OnesW(64, 64), 0;
    ghost var first, last := EndCorner(q, g, false), EndCorner(q, g, true);
    CornerIndices(q, g, s, 0);
    CornerBounds(q, g, s, 0);
    var i := 0;
    while i < Pow2(dims)
      invariant 0 <= i <= Pow2(dims)
      invariant lb < Pow2(64) && Run(q, g, s).lb <= lb && ub <= Run(q, g, s).ub
      invariant i > 0 ==> lb <= Index(Corner(q, s, 0), bpd)
      invariant i > first ==> lb == Run(q, g, s).lb
      invariant i > last ==> ub == Run(q, g, s).ub
    {
      var sfcCoord := CornerCoord(bb, i, q, s);
      CornerIndices(q, g, s, i);
      CornerBounds(q, g, s, i);
      var index := HilbertC2I(dims, bpd, sfcCoord);
      if index < lb {
        lb := index;
      } else if index > ub {
        ub := index;
      }
      i := i + 1;
    }
    itv := Intv(lb, ub);
  }

  lemma CubeDims(q: Cell, s: nat)
    ensures |Cube(q, s).lb| == |q| == |Cube(q, s).ub|
  {}

  lemma {:induction false} CornerBounds(q: Cell, g: nat, s: nat, r: nat)
    requires IsCell(q, g) && r < Pow2(|q|) && Mul(g + s, |q|) <= 64
    ensures Run(q, g, s).lb <= Index(Corner(q, s, r), g + s) <= Run(q, g, s).ub
    ensures Index(Corner(q, s, r), g + s) < Pow2(64)
  {
    hide Corner, Run, Index, Pow2, Mul;
    CornerIndices(q, g, s, r);
    IndexBound(Corner(q, s, r), g + s);
    Pow2Mono(Mul(g + s, |q|), 64);
  }

  /** The inner loops of bbox_flat: corner i of the box. */
  method CornerCoord(bb: Box, i: nat, ghost q: Cell, ghost s: nat) returns (c: Cell)
    requires bb == Cube(q, s)
    ensures c == Corner(q, s, i)
  {
    c := bb.lb;
    var j := 0;
    while j < |bb.lb|
      invariant 0 <= j <= |bb.lb| == |c|
      invariant forall d :: 0 <= d < j ==> c[d] == Corner(q, s, i)[d]
      invariant forall d :: j <= d < |c| ==> c[d] == bb.lb[d]
    {
      if Bit(i, j) { c := c[j := bb.ub[j]]; }
      j := j + 1;
    }
  }
}
