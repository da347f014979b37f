/** Routing boxes to servers by recursive bisection of the domain (src/ss_data.c:
    ssd_alloc_v2, ssd_hash_v2; src/bbox.c: bbox_divide_in2_ondim).  Splitting a side of
    length one leaves an empty half (lower bound one above the upper one), so boxes here
    may be empty in that exact way. */
module SpaceHashV2 {
  import opened Bits
  import opened Words
  import opened HilbertCube
  import opened Bbox
  import opened SpaceHashV1

  /** Bounds in order, or crossed by exactly one. */
  predicate Splittable(b: Box, n: nat) {
    IsBox(b, n) && forall d :: 0 <= d < n ==> b.lb[d] <= b.ub[d] + 1
  }

  predicate AllSplittable(bs: seq<Box>, n: nat) {
    forall i :: 0 <= i < |bs| ==> Splittable(bs[i], n)
  }

  /** The number of boxes that contain the cell. */
  function CountIn(bs: seq<Box>, c: Cell): nat {
    if bs == [] then 0 else CountIn(bs[..|bs| - 1], c) + B2n(InBox(c, bs[|bs| - 1]))
  }

  lemma {:induction false} CountInHas(bs: seq<Box>, c: Cell)
    ensures CountIn(bs, c) > 0 <==> exists i :: 0 <= i < |bs| && InBox(c, bs[i])
  {
    hide InBox;
    if bs != [] {
      var init := bs[..|bs| - 1];
      CountInHas(init, c);
      if CountIn(init, c) > 0 {
        var i :| 0 <= i < |init| && InBox(c, init[i]);
        assert InBox(c, bs[i]);
      }
      if i :| 0 <= i < |bs| && InBox(c, bs[i]) {
        assert i < |init| ==> InBox(c, init[i]);
      }
    }
  }

  // ---- one split

  function LowHalf(b: Box, dim: nat): Box
    requires dim < |b.lb| && dim < |b.ub|
  {
    Box(b.lb, b.ub[dim := (b.lb[dim] + b.ub[dim]) / 2])
  }

  function HighHalf(b: Box, dim: nat): Box
    requires dim < |b.lb| && dim < |b.ub|
  {
    Box(b.lb[dim := (b.lb[dim] + b.ub[dim]) / 2 + 1], b.ub)
  }

  /** bbox_divide_in2_ondim: the halves can be split again, and every cell of the box is
      in exactly one of them. */
  method DivideIn2OnDim(b: Box, dim: nat) returns (b0: Box, b1: Box)
    requires Splittable(b, |b.lb|) && dim < |b.lb|
    ensures b0 == LowHalf(b, dim) && b1 == HighHalf(b, dim)
    ensures Splittable(b0, |b.lb|) && Splittable(b1, |b.lb|)
    ensures forall c: Cell :: B2n(InBox(c, b0)) + B2n(InBox(c, b1)) == B2n(InBox(c, b))
  {
    var n := (b.lb[dim] + b.ub[dim]) / 2;
    b0, b1 := Box(b.lb, b.ub[dim := n]), Box(b.lb[dim := n + 1], b.ub);
    forall c: Cell ensures B2n(InBox(c, b0)) + B2n(InBox(c, b1)) == B2n(InBox(c, b)) { HalvesCells(b, dim, c); }
  }

  lemma {:induction false} HalvesCells(b: Box, dim: nat, c: Cell)
    requires Splittable(b, |b.lb|) && dim < |b.lb|
    ensures B2n(InBox(c, LowHalf(b, dim))) + B2n(InBox(c, HighHalf(b, dim))) == B2n(InBox(c, b))
  {
    var l, h := LowHalf(b, dim), HighHalf(b, dim);
    var n := (b.lb[dim] + b.ub[dim]) / 2;
    if |c| == |b.lb| {
      if InBox(c, b) {
        if c[dim] <= n { assert InBox(c, l); assert !InBox(c, h); }
        else { assert InBox(c, h); assert !InBox(c, l); }
      }
      if InBox(c, l) { assert l.lb[dim] <= c[dim] <= l.ub[dim]; assert InBox(c, b); }
      if InBox(c, h) { assert h.lb[dim] <= c[dim] <= h.ub[dim]; assert InBox(c, b); }
    }
  }

  /** get_bbox_max_dim_size: the first longest side; `dim` keeps its value when every side
      is empty. */
  method MaxDimSize(b: Box, dim0: nat) returns (size: nat, dim: nat)
    requires Splittable(b, |b.lb|) && dim0 < |b.lb|
    ensures dim < |b.lb|
    ensures forall d :: 0 <= d < |b.lb| ==> b.ub[d] + 1 - b.lb[d] <= size
    ensures if size == 0 then dim == dim0
            else size == b.ub[dim] + 1 - b.lb[dim] && forall d :: 0 <= d < dim ==> b.ub[d] + 1 - b.lb[d] < size
  {
    size, dim := 0, dim0;
    var i := 0;
    while i < |b.lb|
      invariant 0 <= i <= |b.lb| && dim < |b.lb|
      invariant forall d :: 0 <= d < i ==> b.ub[d] + 1 - b.lb[d] <= size
      invariant if size == 0 then dim == dim0
                else dim < i && size == b.ub[dim] + 1 - b.lb[dim] && forall d :: 0 <= d < dim ==> b.ub[d] + 1 - b.lb[d] < size
    {
      var s := b.ub[i] + 1 - b.lb[i];
      if size < s { size, dim := s, i; }
      i := i + 1;
    }
  }

  /** The length of side d; 0 for an empty one. */
  function Len(b: Box, d: nat): nat
    requires d < |b.lb| && d < |b.ub| && b.lb[d] <= b.ub[d] + 1
  {
    b.ub[d] + 1 - b.lb[d]
  }

  /** d is the first longest side; any side will do if all are empty. */
  predicate Longest(b: Box, d: nat)
    requires Splittable(b, |b.lb|)
  {
    && d < |b.lb| && (forall j :: 0 <= j < |b.lb| ==> Len(b, j) <= Len(b, d))
    && (Len(b, d) > 0 ==> forall j :: 0 <= j < d ==> Len(b, j) < Len(b, d))
  }

  /** b0 and b1 are the halves of b along its first longest side. */
  ghost predicate Cut(b: Box, b0: Box, b1: Box) {
    Splittable(b, |b.lb|) && exists d :: Longest(b, d) && b0 == LowHalf(b, d) && b1 == HighHalf(b, d)
  }

  /** The next level: in order, the two halves of each box. */
  ghost predicate NextLevel(src: seq<Box>, dst: seq<Box>) {
    |dst| == 2 * |src| && forall i :: 0 <= i < |src| ==> Cut(src[i], dst[2 * i], dst[2 * i + 1])
  }

  /** The boxes after e levels. */
  ghost predicate IsBisection(domain: Box, e: nat, boxes: seq<Box>) {
    if e == 0 then boxes == [domain]
    else exists prev :: IsBisection(domain, e - 1, prev) && NextLevel(prev, boxes)
  }

  /** `while (!queue_is_empty(src_q))`: every box of a level is replaced by its halves. */
  method SplitLevel(src: seq<Box>, n: nat, dim0: nat) returns (dst: seq<Box>, dim: nat)
    requires AllSplittable(src, n) && dim0 < n
    ensures AllSplittable(dst, n) && dim < n && NextLevel(src, dst)
    ensures forall c: Cell :: CountIn(dst, c) == CountIn(src, c)
  {
    hide InBox, Splittable, Cut, LowHalf, HighHalf;
    dst, dim := [], dim0;
    var i := 0;
    while i < |src|
      invariant 0 <= i <= |src| && dim < n && |dst| == 2 * i
      invariant AllSplittable(dst, n)
      invariant forall j :: 0 <= j < i ==> Cut(src[j], dst[2 * j], dst[2 * j + 1])
      invariant forall c: Cell :: CountIn(dst, c) == CountIn(src[..i], c)
    {
      assert Splittable(src[i], n);
      SplittableDims(src[i], n);
      var size;
      size, dim := MaxDimSize(src[i], dim);
      var b0, b1 := DivideIn2OnDim(src[i], dim);
      CutAt(src[i], n, size, dim, b0, b1);
      forall c: Cell ensures CountIn(dst + [b0, b1], c) == CountIn(src[..i + 1], c) {
        CountTwoMore(dst, b0, b1, c);
        assert src[..i + 1][..i] == src[..i];
        assert B2n(InBox(c, b0)) + B2n(InBox(c, b1)) == B2n(InBox(c, src[i]));
      }
      dst := dst + [b0, b1];
      i := i + 1;
    }
    assert src[..i] == src;
  }

  lemma CutAt(b: Box, n: nat, size: nat, d: nat, b0: Box, b1: Box)
    requires Splittable(b, n) && d < n && b0 == LowHalf(b, d) && b1 == HighHalf(b, d)
    requires forall j :: 0 <= j < n ==> b.ub[j] + 1 - b.lb[j] <= size
    requires size > 0 ==> size == b.ub[d] + 1 - b.lb[d] && forall j :: 0 <= j < d ==> b.ub[j] + 1 - b.lb[j] < size
    ensures Cut(b, b0, b1)
  {
    assert Longest(b, d);
  }

  lemma SplittableDims(b: Box, n: nat)
    requires Splittable(b, n)
    ensures |b.lb| == n
  {}

  lemma CountTwoMore(bs: seq<Box>, b0: Box, b1: Box, c: Cell)
    ensures CountIn(bs + [b0, b1], c) == CountIn(bs, c) + B2n(InBox(c, b0)) + B2n(InBox(c, b1))
  {
    hide InBox;
    var s := bs + [b0, b1];
    assert s[..|s| - 1] == bs + [b0];
    assert (bs + [b0])[..|bs|] == bs;
  }

  // ---- how many levels

  /** next_pow_2_v2 and compute_bits_v2: the least e with n <= 2^e. */
  method LevelsFor(n: nat) returns (e: nat)
    ensures n <= Pow2(e) && (e > 0 ==> Pow2(e - 1) < n)
  {
    var i := 1;
    ghost var p := 0;
    while i < n
      invariant i == Pow2(p) && (p > 0 ==> Pow2(p - 1) < n)
      decreases n - i
    {
      i := i * 2;
      p := p + 1;
    }
    e := 0;
    var v := i;
    while v > 1
      invariant e <= p && v == Pow2(p - e)
    {
      v := v / 2;
      e := e + 1;
    }
  }

  /** The decomposition of ssd_alloc_v2, with its two alternating queues: 2^e boxes that
      hold every cell of the domain exactly once. */
  method Bisect(domain: Box, numNodes: nat) returns (boxes: seq<Box>)
    requires NonEmpty(domain) && 0 < |domain.lb| && 0 < numNodes
    ensures AllSplittable(boxes, |domain.lb|) && |boxes| >= numNodes
    ensures forall c: Cell :: CountIn(boxes, c) == B2n(InBox(c, domain))
    ensures IsBisection(domain, CeilLog2(numNodes), boxes)
  {
    hide NextLevel, Splittable, InBox, CountIn;
    CountOne(domain);
    var iterations := LevelsFor(numNodes);
    var q1: seq<Box>, q2: seq<Box> := [domain], [];
    var dim: nat := 0;
    Pow2Half(0);
    FirstLevel(domain);
    var i := 0;
    while i < iterations
      invariant 0 <= i <= iterations && dim < |domain.lb|
      invariant if |q1| > 0 then q2 == [] && IsBisection(domain, i, q1) else IsBisection(domain, i, q2)
      invariant |q1| + |q2| == Pow2(i)
      invariant AllSplittable(q1, |domain.lb|) && AllSplittable(q2, |domain.lb|)
      invariant forall c: Cell :: CountIn(q1, c) + CountIn(q2, c) == B2n(InBox(c, domain))
    {
      if |q1| > 0 && |q2| == 0 {
        q2, dim := SplitLevel(q1, |domain.lb|, dim);
        LevelOn(domain, i, q1, q2);
        q1 := [];
      } else if |q2| > 0 && |q1| == 0 {
        q1, dim := SplitLevel(q2, |domain.lb|, dim);
        LevelOn(domain, i, q2, q1);
        q2 := [];
      }
      i := i + 1;
    }
    CeilLog2Is(numNodes, iterations);
    boxes := if |q1| > 0 then q1 else q2;
  }

  lemma CountOne(b: Box)
    ensures forall c: Cell :: CountIn([b], c) == B2n(InBox(c, b)) && CountIn([], c) == 0
  {
    hide InBox;
    assert [b][..0] == [];
  }

  lemma FirstLevel(domain: Box)
    requires NonEmpty(domain)
    ensures IsBisection(domain, 0, [domain]) && AllSplittable([domain], |domain.lb|)
  {}

  lemma LevelOn(domain: Box, e: nat, src: seq<Box>, dst: seq<Box>)
    requires IsBisection(domain, e, src) && NextLevel(src, dst)
    ensures IsBisection(domain, e + 1, dst) && |dst| == 2 * |src| && Pow2(e + 1) == 2 * Pow2(e)
  {
    hide Cut;
  }

  // ---- dealing the boxes round robin

  /** The first i boxes are dealt: entry j holds boxes j, j + n, j + 2n, ... and no others. */
  ghost predicate DealtTo(tab: seq<seq<Box>>, boxes: seq<Box>, i: nat) {
    && |tab| > 0
    && (forall j :: 0 <= j < |tab| ==> |tab[j]| == Quo(i, |tab|) + if j < Rem(i, |tab|) then 1 else 0)
    && (forall j, m :: 0 <= j < |tab| && 0 <= m < |tab[j]| ==>
          Mul(m, |tab|) + j < |boxes| && tab[j][m] == boxes[Mul(m, |tab|) + j])
  }

  /** Box a is in one place. */
  lemma {:induction false} DealtAt(tab: seq<seq<Box>>, boxes: seq<Box>, i: nat, a: nat)
    requires DealtTo(tab, boxes, i) && a < i <= |boxes|
    ensures Quo(a, |tab|) < |tab[Rem(a, |tab|)]| && tab[Rem(a, |tab|)][Quo(a, |tab|)] == boxes[a]
  {
    hide Quo, Rem, Mul;
    var n := |tab|;
    QuoRem(a, n);
    QuoRem(i, n);
    if Quo(i, n) < Quo(a, n) { MulStep(Quo(i, n), Quo(a, n), n); }
    assert |tab[Rem(a, n)]| == Quo(i, n) + if Rem(a, n) < Rem(i, n) then 1 else 0;
  }

  /** Boxes each entry can hold: ceil(total / entries). */
  function Capacity(total: nat, entries: nat): nat
    requires entries > 0
  {
    Quo(total, entries) + if Rem(total, entries) == 0 then 0 else 1
  }

  /** The round-robin loop: box i goes to entry i mod n, and no table overflows. */
  method DealBoxes(boxes: seq<Box>, numEntries: nat) returns (tab: seq<seq<Box>>)
    requires numEntries > 0
    ensures |tab| == numEntries && DealtTo(tab, boxes, |boxes|)
    ensures forall j :: 0 <= j < numEntries ==> |tab[j]| <= Capacity(|boxes|, numEntries)
  {
    hide Quo, Rem, Mul;
    tab := seq(numEntries, _ => []);
    QuoRemUnfold(0, numEntries);
    var i := 0;
    while i < |boxes|
      invariant 0 <= i <= |boxes| && |tab| == numEntries && DealtTo(tab, boxes, i)
    {
      var j := Modulo(i, numEntries);
      NextRem(i, numEntries);
      QuoRem(i, numEntries);
      tab := tab[j := tab[j] + [boxes[i]]];
      i := i + 1;
    }
  }

  lemma {:induction false} NextRem(i: nat, n: nat)
    requires n > 0
    ensures if Rem(i, n) + 1 < n then Quo(i + 1, n) == Quo(i, n) && Rem(i + 1, n) == Rem(i, n) + 1
            else Quo(i + 1, n) == Quo(i, n) + 1 && Rem(i + 1, n) == 0
  {
    hide Quo, Rem, Mul;
    QuoRem(i, n);
    var q := Quo(i, n);
    if Rem(i, n) + 1 < n { QuoRemOf(q, Rem(i, n) + 1, n); }
    else { MulAdd(q, 1, n); MulSmall(n); QuoRemOf(q + 1, 0, n); }
  }

  // ---- routing

  ghost predicate ReachesBox(tab: seq<Box>, bb: Box) {
    exists i :: 0 <= i < |tab| && Meets(bb, tab[i])
  }

  ghost function ServersV2(tab: seq<seq<Box>>, bb: Box, k: nat): (r: seq<nat>)
    requires k <= |tab|
    ensures forall j :: 0 <= j < |tab| ==> (j in r <==> j < k && ReachesBox(tab[j], bb))
    ensures forall i, j :: 0 <= i < j < |r| ==> r[i] < r[j]
    ensures forall i :: 0 <= i < |r| ==> r[i] < k
  {
    if k == 0 then [] else
    ServersV2(tab, bb, k - 1) + if ReachesBox(tab[k - 1], bb) then [k - 1] else []
  }

  /** The loops of ssd_hash_v2. */
  method CollectBoxEntries(tab: seq<seq<Box>>, bb: Box) returns (deTab: seq<nat>)
    requires IsBox(bb, |bb.lb|)
    requires forall j, i :: 0 <= j < |tab| && 0 <= i < |tab[j]| ==> IsBox(tab[j][i], |bb.lb|)
    ensures deTab == ServersV2(tab, bb, |tab|)
  {
    hide Meets;
    deTab := [];
    var k := 0;
    while k < |tab|
      invariant 0 <= k <= |tab|
      invariant deTab == ServersV2(tab, bb, k)
    {
      var found := BoxReached(tab[k], bb);
      if found { deTab := deTab + [k]; }
      k := k + 1;
    }
  }

  method BoxReached(tab: seq<Box>, bb: Box) returns (found: bool)
    requires IsBox(bb, |bb.lb|) && forall i :: 0 <= i < |tab| ==> IsBox(tab[i], |bb.lb|)
    ensures found == ReachesBox(tab, bb)
  {
    hide Meets;
    var i := 0;
    while i < |tab|
      invariant 0 <= i <= |tab|
      invariant forall j :: 0 <= j < i ==> !Meets(bb, tab[j])
    {
      found := BboxDoesIntersect(bb, tab[i]);
      if found { return; }
      i := i + 1;
    }
    return false;
  }

  /** The tables hold a decomposition of the domain into boxes. */
  ghost predicate SpaceInvV2(domain: Box, tab: seq<seq<Box>>, boxes: seq<Box>) {
    && NonEmpty(domain) && 0 < |domain.lb| && |tab| > 0
    && AllSplittable(boxes, |domain.lb|) && DealtTo(tab, boxes, |boxes|)
    && IsBisection(domain, CeilLog2(|tab|), boxes)
    && (forall c: Cell :: CountIn(boxes, c) == B2n(InBox(c, domain)))
  }

  /** Rendezvous: two boxes that share any cell of the domain have a server in common. */
  lemma {:induction false} RendezvousV2(domain: Box, tab: seq<seq<Box>>, boxes: seq<Box>, put: Box, get: Box, c: Cell)
      returns (j: nat)
    requires SpaceInvV2(domain, tab, boxes)
    requires InBox(c, domain) && InBox(c, put) && InBox(c, get)
    ensures j < |tab| && j in ServersV2(tab, put, |tab|) && j in ServersV2(tab, get, |tab|)
  {
    hide InBox, Meets, Rem, Quo, Mul;
    CountInHas(boxes, c);
    var a :| 0 <= a < |boxes| && InBox(c, boxes[a]);
    j := Rem(a, |tab|);
    DealtAt(tab, boxes, |boxes|, a);
    SharedCellMeets(put, boxes[a], c);
    SharedCellMeets(get, boxes[a], c);
  }

  /** Some box of the server holds the cell. */
  predicate HoldsCell(tab: seq<Box>, c: Cell) {
    exists m :: 0 <= m < |tab| && InBox(c, tab[m])
  }

  /** Each cell of the domain is held by exactly one server, any other cell by none. */
  lemma {:induction false} OneServer(domain: Box, tab: seq<seq<Box>>, boxes: seq<Box>, c: Cell)
    requires SpaceInvV2(domain, tab, boxes)
    ensures InBox(c, domain) <==> exists j :: 0 <= j < |tab| && HoldsCell(tab[j], c)
    ensures forall j, i :: 0 <= j < |tab| && 0 <= i < |tab| && HoldsCell(tab[j], c) && HoldsCell(tab[i], c) ==> j == i
  {
    hide InBox, Rem, Quo, Mul, HoldsCell, CountIn;
    var n := |tab|;
    CountInHas(boxes, c);
    if InBox(c, domain) {
      var a :| 0 <= a < |boxes| && InBox(c, boxes[a]);
      DealtAt(tab, boxes, |boxes|, a);
      HoldsAt(tab[Rem(a, n)], c, Quo(a, n));
    }
    forall j, i | 0 <= j < n && 0 <= i < n && HoldsCell(tab[j], c) && HoldsCell(tab[i], c)
      ensures j == i && InBox(c, domain)
    {
      var a := HeldBox(tab, boxes, c, j);
      var b := HeldBox(tab, boxes, c, i);
      if a < b { CountInTwo(boxes, c, a, b); } else if b < a { CountInTwo(boxes, c, b, a); }
    }
  }

  lemma HoldsAt(tab: seq<Box>, c: Cell, m: nat)
    requires m < |tab| && InBox(c, tab[m])
    ensures HoldsCell(tab, c)
  {
    hide InBox;
  }

  lemma {:induction false} HeldBox(tab: seq<seq<Box>>, boxes: seq<Box>, c: Cell, j: nat) returns (a: nat)
    requires DealtTo(tab, boxes, |boxes|) && j < |tab| && HoldsCell(tab[j], c)
    ensures a < |boxes| && InBox(c, boxes[a]) && Rem(a, |tab|) == j
  {
    hide InBox, Rem, Quo, Mul;
    var m :| 0 <= m < |tab[j]| && InBox(c, tab[j][m]);
    a := Mul(m, |tab|) + j;
    QuoRemOf(m, j, |tab|);
  }

  lemma {:induction false} CountInTwo(bs: seq<Box>, c: Cell, a: nat, b: nat)
    requires a < b < |bs| && InBox(c, bs[a]) && InBox(c, bs[b])
    ensures CountIn(bs, c) >= 2
  {
    hide InBox;
    var init := bs[..|bs| - 1];
    if b == |bs| - 1 {
      CountInHas(init, c);
      assert InBox(c, init[a]);
    } else {
      CountInTwo(init, c, a, b);
    }
  }

  /** A reported server whose boxes are not empty holds a cell of the queried box. */
  lemma {:induction false} ReportedShares(tab: seq<Box>, bb: Box)
    requires NonEmpty(bb) && ReachesBox(tab, bb)
    requires forall i :: 0 <= i < |tab| ==> NonEmpty(tab[i]) && |tab[i].lb| == |bb.lb|
    ensures exists i, c: Cell :: 0 <= i < |tab| && InBox(c, tab[i]) && InBox(c, bb)
  {
    hide InBox, Meets, NonEmpty;
    var i :| 0 <= i < |tab| && Meets(bb, tab[i]);
    MeetsCells(bb, tab[i]);
  }

  ghost predicate CacheSoundV2(tab: seq<seq<Box>>, cache: seq<Cached>) {
    forall c :: c in cache ==> IsBox(c.bb, |c.bb.lb|) && c.nodes == ServersV2(tab, c.bb, |tab|)
  }

  /** A shared space decomposed by bisection, with its cache of answers. */
  class SspaceV2 {
    const domain: Box
    const tab: seq<seq<Box>>
    ghost const boxes: seq<Box>
    var cache: seq<Cached>

    ghost predicate Valid()
      reads this
    {
      SpaceInvV2(domain, tab, boxes) && CacheSoundV2(tab, cache)
    }

    constructor (bbDomain: Box, numNodes: nat)
      requires NonEmpty(bbDomain) && 0 < |bbDomain.lb| && 0 < numNodes
      ensures Valid() && domain == bbDomain && |tab| == numNodes && cache == []
    {
      hide DealtTo, InBox, CountIn, AllSplittable, IsBisection;
      var bs := Bisect(bbDomain, numNodes);
      var t := DealBoxes(bs, numNodes);
      domain, tab, boxes, cache := bbDomain, t, bs, [];
    }

    /** ssd_hash_v2: the servers of a box, from the cache or afresh. */
    method Hash(bb: Box) returns (deTab: seq<nat>)
      requires Valid() && IsBox(bb, |domain.lb|)
      modifies this`cache
      ensures Valid()
      ensures deTab == ServersV2(tab, bb, |tab|)
    {
      hide InBox, CountIn, ServersV2, Meets;
      var found;
      found, deTab := ShFind(cache, bb);
      if !found || |deTab| == 0 {
        TableShapes(domain, tab, boxes);
        deTab := CollectBoxEntries(tab, bb);
        cache := cache + [Cached(bb, deTab)];
      }
    }
  }

  lemma {:induction false} TableShapes(domain: Box, tab: seq<seq<Box>>, boxes: seq<Box>)
    requires SpaceInvV2(domain, tab, boxes)
    ensures forall j, i :: 0 <= j < |tab| && 0 <= i < |tab[j]| ==> IsBox(tab[j][i], |domain.lb|)
  {
    hide InBox, CountIn, Mul, Quo, Rem;
    forall j, i | 0 <= j < |tab| && 0 <= i < |tab[j]| ensures IsBox(tab[j][i], |domain.lb|) {
      assert Splittable(boxes[Mul(i, |tab|) + j], |domain.lb|);
    }
  }
}
