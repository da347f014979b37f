/** How even the bisection of version 2 is (src/ss_data.c: ssd_alloc_v2): cutting the
    longest side keeps all boxes of a level at the same number of cells, as long as the
    sides are powers of two. */
module SpaceBalance {
  import opened Bits
  import opened Words
  import opened Bbox
  import opened BoxVolume
  import opened SpaceHashV1
  import opened SpaceHashV2

  ghost predicate IsPow2(x: nat) {
    exists a: nat :: x == Pow2(a)
  }

  /** A non-empty box whose sides are powers of two. */
  ghost predicate PowerSides(b: Box) {
    NonEmpty(b) && forall d :: 0 <= d < |b.lb| ==> IsPow2(b.ub[d] + 1 - b.lb[d])
  }

  lemma {:induction false} VolumeSame(b: Box, c: Box)
    requires NonEmpty(b) && NonEmpty(c) && |b.lb| == |c.lb|
    requires forall d :: 0 <= d < |b.lb| ==> b.ub[d] - b.lb[d] == c.ub[d] - c.lb[d]
    ensures Volume(b) == Volume(c)
    decreases |b.lb|
  {
    hide Mul;
    if |b.lb| > 0 { VolumeSame(Tail(b), Tail(c)); }
  }

  /** Halving one side halves the volume. */
  lemma {:induction false} VolumeHalf(b: Box, c: Box, k: nat)
    requires NonEmpty(b) && NonEmpty(c) && |b.lb| == |c.lb| && k < |b.lb|
    requires forall d :: 0 <= d < |b.lb| && d != k ==> b.ub[d] - b.lb[d] == c.ub[d] - c.lb[d]
    requires b.ub[k] + 1 - b.lb[k] == 2 * (c.ub[k] + 1 - c.lb[k])
    ensures Volume(b) == 2 * Volume(c)
    decreases |b.lb|
  {
    hide Mul;
    if k == 0 {
      VolumeSame(Tail(b), Tail(c));
      var x := c.ub[0] + 1 - c.lb[0];
      MulAdd(x, x, Volume(Tail(c)));
    } else {
      VolumeHalf(Tail(b), Tail(c), k - 1);
      var x, v := b.ub[0] + 1 - b.lb[0], Volume(Tail(c));
      MulComm(x, 2 * v);
      MulComm(x, v);
      MulAdd(v, v, x);
    }
  }

  lemma {:induction false} VolumeUnit(b: Box)
    requires NonEmpty(b) && forall d :: 0 <= d < |b.lb| ==> b.lb[d] == b.ub[d]
    ensures Volume(b) == 1
    decreases |b.lb|
  {
    hide Mul;
    if |b.lb| > 0 {
      VolumeUnit(Tail(b));
      MulSmall(1);
    }
  }

  lemma {:induction false} EvenSide(x: nat)
    requires IsPow2(x) && x > 1
    ensures x == 2 * (x / 2) && IsPow2(x / 2)
  {
    var a: nat :| x == Pow2(a);
    assert x / 2 == Pow2(a - 1);
  }

  /** A cut of a box of more than one cell gives two boxes of half the volume. */
  lemma {:induction false} CutEven(b: Box, b0: Box, b1: Box)
    requires PowerSides(b) && Cut(b, b0, b1) && Volume(b) > 1
    ensures PowerSides(b0) && PowerSides(b1) && Volume(b) == 2 * Volume(b0) == 2 * Volume(b1)
  {
    hide IsPow2, Volume;
    var d :| Longest(b, d) && b0 == LowHalf(b, d) && b1 == HighHalf(b, d);
    if Len(b, d) <= 1 {
      forall j | 0 <= j < |b.lb| ensures b.lb[j] == b.ub[j] { assert Len(b, j) <= Len(b, d); }
      VolumeUnit(b);
    }
    EvenSide(Len(b, d));
    HalfSides(b, d);
    VolumeHalf(b, b0, d);
    VolumeHalf(b, b1, d);
  }

  lemma HalfSides(b: Box, d: nat)
    requires NonEmpty(b) && d < |b.lb| && Len(b, d) > 1 && Len(b, d) == 2 * (Len(b, d) / 2)
    ensures var b0, b1 := LowHalf(b, d), HighHalf(b, d);
            && NonEmpty(b0) && NonEmpty(b1) && Len(b0, d) == Len(b, d) / 2 == Len(b1, d)
            && forall j :: 0 <= j < |b.lb| && j != d ==> Len(b0, j) == Len(b, j) == Len(b1, j)
  {}

  /** One of 2^e equal shares of total cells. */
  ghost predicate EvenShare(b: Box, e: nat, total: nat) {
    PowerSides(b) && Mul(Pow2(e), Volume(b)) == total
  }

  /** With sides that are powers of two and at least 2^e cells, each of the 2^e boxes has
      an equal share of the cells. */
  lemma {:induction false} Balanced(domain: Box, e: nat, boxes: seq<Box>)
    requires PowerSides(domain) && IsBisection(domain, e, boxes) && Pow2(e) <= Volume(domain)
    ensures |boxes| == Pow2(e) && forall i :: 0 <= i < |boxes| ==> EvenShare(boxes[i], e, Volume(domain))
  {
    hide IsPow2, NonEmpty, Volume, Cut, Pow2, Mul, EvenShare;
    Pow2Half(e);
    if e == 0 {
      WholeShare(domain);
    } else {
      var prev :| IsBisection(domain, e - 1, prev) && NextLevel(prev, boxes);
      Balanced(domain, e - 1, prev);
      forall i | 0 <= i < |boxes| ensures EvenShare(boxes[i], e, Volume(domain)) {
        var j := i / 2;
        assert Cut(prev[j], boxes[2 * j], boxes[2 * j + 1]);
        HalfShares(prev[j], boxes[2 * j], boxes[2 * j + 1], e, Volume(domain));
      }
    }
  }

  lemma WholeShare(b: Box)
    requires PowerSides(b)
    ensures EvenShare(b, 0, Volume(b))
  {
    hide Volume;
    MulSmall(Volume(b));
  }

  lemma {:induction false} HalfShares(b: Box, b0: Box, b1: Box, e: nat, total: nat)
    requires e > 0 && EvenShare(b, e - 1, total) && Cut(b, b0, b1) && Pow2(e) <= total
    ensures EvenShare(b0, e, total) && EvenShare(b1, e, total)
  {
    hide Volume, Pow2, Mul, Cut, IsPow2, NonEmpty;
    var p, v := Pow2(e - 1), Volume(b);
    Pow2Half(e);
    MulComm(p, v);
    MulSmall(p);
    MulAdd(1, 1, p);
    if v < 2 { MulStep(v, 2, p); }
    CutEven(b, b0, b1);
    Regroup(p, Volume(b0));
    Regroup(p, Volume(b1));
  }

  lemma Regroup(p: nat, v: nat)
    ensures Mul(2 * p, v) == Mul(p, 2 * v)
  {
    hide Mul;
    MulAdd(p, p, v);
    MulComm(p, 2 * v);
    MulAdd(v, v, p);
    MulComm(p, v);
  }

  /** With as many servers, a power of two, each server holds one box and an equal share of
      the cells of the domain. */
  lemma {:induction false} EvenShares(domain: Box, tab: seq<seq<Box>>, boxes: seq<Box>, e: nat, j: nat)
    requires SpaceInvV2(domain, tab, boxes) && PowerSides(domain) && |tab| == Pow2(e) <= Volume(domain) && j < |tab|
    ensures |tab[j]| == 1 && EvenShare(tab[j][0], e, Volume(domain))
  {
    hide Volume, Pow2, IsBisection, CountIn, InBox, Quo, Rem, Mul, IsPow2, EvenShare;
    if e > 0 { Pow2Strict(e - 1, e); }
    CeilLog2Is(|tab|, e);
    Balanced(domain, e, boxes);
    QuoRemOf(1, 0, |tab|);
    MulSmall(|tab|);
    assert |tab[j]| == Quo(|boxes|, |tab|) + if j < Rem(|boxes|, |tab|) then 1 else 0;
    assert tab[j][0] == boxes[Mul(0, |tab|) + j];
  }
}
