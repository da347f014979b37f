/** Row-major layout of a box: the position of a cell in the buffer of an object, the
    first dimension varying fastest. */
module BoxOffset {
  import opened Words
  import opened HilbertCube
  import opened Bbox
  import opened BoxVolume

  /** bbox_dist */
  function Side(b: Box): nat
    requires NonEmpty(b) && |b.lb| > 0
  {
    b.ub[0] - b.lb[0] + 1
  }

  lemma TailIn(b: Box, c: Cell)
    requires InBox(c, b) && |c| > 0
    ensures NonEmpty(b) && NonEmpty(Tail(b)) && InBox(c[1..], Tail(b))
  {}

  lemma TailFrom(b: Box, c: Cell)
    requires |c| > 0 && IsBox(b, |c|) && b.lb[0] <= c[0] <= b.ub[0] && InBox(c[1..], Tail(b))
    ensures InBox(c, b)
  {
    forall d | 0 <= d < |c| ensures b.lb[d] <= c[d] <= b.ub[d] {
      if d > 0 { assert Tail(b).lb[d - 1] <= c[1..][d - 1] <= Tail(b).ub[d - 1]; }
    }
  }

  function Off(b: Box, c: Cell): nat
    requires InBox(c, b)
    decreases |c|
  {
    if |c| == 0 then 0 else
    TailIn(b, c);
    c[0] - b.lb[0] + Mul(Off(Tail(b), c[1..]), Side(b))
  }

  /** The cell at position q. */
  function StoredCell(b: Box, q: nat): (c: Cell)
    requires NonEmpty(b)
    ensures |c| == |b.lb|
    decreases |b.lb|
  {
    if |b.lb| == 0 then [] else
    [b.lb[0] + Rem(q, Side(b))] + StoredCell(Tail(b), Quo(q, Side(b)))
  }

  lemma {:induction false} OffBound(b: Box, c: Cell)
    requires InBox(c, b) && NonEmpty(b)
    ensures Off(b, c) < Volume(b)
    decreases |c|
  {
    hide Mul;
    if |c| > 0 {
      TailIn(b, c);
      OffBound(Tail(b), c[1..]);
      MulStep(Off(Tail(b), c[1..]), Volume(Tail(b)), Side(b));
      MulComm(Side(b), Volume(Tail(b)));
    }
  }

  lemma {:induction false} CellAfterOff(b: Box, c: Cell)
    requires InBox(c, b) && NonEmpty(b)
    ensures StoredCell(b, Off(b, c)) == c
    decreases |c|
  {
    hide Mul, Quo, Rem;
    if |c| > 0 {
      TailIn(b, c);
      CellAfterOff(Tail(b), c[1..]);
      QuoRemOf(Off(Tail(b), c[1..]), c[0] - b.lb[0], Side(b));
      assert c == [c[0]] + c[1..];
    }
  }

  lemma {:induction false} OffAfterCell(b: Box, q: nat)
    requires NonEmpty(b) && q < Volume(b)
    ensures InBox(StoredCell(b, q), b) && Off(b, StoredCell(b, q)) == q
    decreases |b.lb|
  {
    hide Mul, Quo, Rem;
    if |b.lb| > 0 {
      QuoRem(q, Side(b));
      MulComm(Side(b), Volume(Tail(b)));
      QuoBound(q, Side(b), Volume(Tail(b)));
      OffAfterCell(Tail(b), Quo(q, Side(b)));
      var c := StoredCell(b, q);
      assert c[1..] == StoredCell(Tail(b), Quo(q, Side(b)));
      TailFrom(b, c);
    }
  }

  /** The position of cell c counted over dimensions d and up only. */
  function OffFrom(b: Box, c: Cell, d: nat): nat
    requires InBox(c, b) && d <= |c|
  {
    Off(Box(b.lb[d..], b.ub[d..]), c[d..])
  }

  lemma {:induction false} OffFromStep(b: Box, c: Cell, d: nat)
    requires InBox(c, b) && d <= |c|
    ensures d == |c| ==> OffFrom(b, c, d) == 0
    ensures d < |c| ==> OffFrom(b, c, d) == c[d] - b.lb[d] + Mul(OffFrom(b, c, d + 1), b.ub[d] - b.lb[d] + 1)
    ensures OffFrom(b, c, 0) == Off(b, c)
  {
    hide Mul;
    var r := Box(b.lb[d..], b.ub[d..]);
    assert b == Box(b.lb[0..], b.ub[0..]) && c == c[0..];
    if d < |c| { assert Tail(r) == Box(b.lb[d + 1..], b.ub[d + 1..]) && c[d..][1..] == c[d + 1..]; }
  }

  lemma OffFromSame(b: Box, c: Cell, c': Cell, d: nat)
    requires InBox(c, b) && InBox(c', b) && d <= |c| && c[d..] == c'[d..]
    ensures OffFrom(b, c, d) == OffFrom(b, c', d)
  {}

  /** Moving along the first dimension moves the position by as much. */
  lemma {:induction false} OffAlong(b: Box, c: Cell, x: nat)
    requires InBox(c, b) && |c| > 0 && InBox(c[0 := x], b)
    ensures Off(b, c[0 := x]) + c[0] == Off(b, c) + x
  {
    hide Mul;
    TailIn(b, c);
    assert c[0 := x][1..] == c[1..];
  }

  /** The product of the sides below dimension d. */
  function Stride(b: Box, d: nat): nat
    requires NonEmpty(b) && d < |b.lb|
    decreases d
  {
    if d == 0 then 1 else Mul(Stride(Tail(b), d - 1), Side(b))
  }

  /** One step along dimension d moves the position by the sides below it. */
  lemma {:induction false} OffStride(b: Box, c: Cell, d: nat)
    requires NonEmpty(b) && d < |c| && InBox(c, b) && InBox(c[d := c[d] + 1], b)
    ensures Off(b, c[d := c[d] + 1]) == Off(b, c) + Stride(b, d)
    decreases d
  {
    hide Mul;
    if d == 0 {
      OffAlong(b, c, c[0] + 1);
    } else {
      var c' := c[d := c[d] + 1];
      assert c'[1..] == c[1..][d - 1 := c[1..][d - 1] + 1];
      TailIn(b, c);
      TailIn(b, c');
      OffStride(Tail(b), c[1..], d - 1);
      MulAdd(Off(Tail(b), c[1..]), Stride(Tail(b), d - 1), Side(b));
    }
  }
}
