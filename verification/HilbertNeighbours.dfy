/** What makes the curve a Hilbert curve: consecutive indices are neighbouring cells
    (include/sfc.h: hilbert_i2c).

    Two consecutive indices have the same leading digits, then h and h + 1, then only
    all-ones and only zero digits.  The digits h and h + 1 move the walk to rows that
    differ in one dimension; the choice of the next rotation makes the rest of the way
    approach the border between the two halves in that dimension, and agree in all others. */
module HilbertNeighbours {
  import opened Bits
  import opened Words
  import opened HilbertCurve
  import opened HilbertCube

  // ---- counting up by one

  /** The number of trailing ones. */
  function Trail(h: nat): nat {
    if h % 2 == 0 then 0 else 1 + Trail(h / 2)
  }

  lemma {:induction false} TrailBits(h: nat, k: nat)
    ensures k < Trail(h) ==> Bit(h, k) && !Bit(h + 1, k)
    ensures k == Trail(h) ==> !Bit(h, k) && Bit(h + 1, k)
    ensures k > Trail(h) ==> Bit(h, k) == Bit(h + 1, k)
    decreases h
  {
    if h % 2 == 0 {
      assert (h + 1) / 2 == h / 2;
    } else {
      assert (h + 1) / 2 == h / 2 + 1;
      if k > 0 { TrailBits(h / 2, k - 1); }
    }
  }

  /** Gray codes of consecutive numbers differ in one bit. */
  lemma {:induction false} GrayNext(h: nat, k: nat)
    ensures Bit(Fold(h + 1, 1), k) == (Bit(Fold(h, 1), k) != (k == Trail(h)))
  {
    hide *;
    TrailBits(h, k);
    TrailBits(h, k + 1);
    assert Bit(Fold(h, 1), k) == (Bit(h, k) != Bit(h, k + 1));
    assert Bit(Fold(h + 1, 1), k) == (Bit(h + 1, k) != Bit(h + 1, k + 1));
  }

  /** Below its trailing ones the Gray code of an odd number is zero but for the last. */
  lemma {:induction false} GrayLow(h: nat, k: nat)
    requires k < Trail(h)
    ensures Bit(Fold(h, 1), k) == Bit(Fold(h + 1, 1), k) == (k == Trail(h) - 1)
  {
    hide *;
    GrayNext(h, k);
    TrailBits(h, k);
    TrailBits(h, k + 1);
    assert Bit(Fold(h, 1), k) == (Bit(h, k) != Bit(h, k + 1));
  }

  lemma {:induction false} TrailBound(h: nat, n: nat)
    requires h + 1 < Pow2(n)
    ensures Trail(h) < n
  {
    hide *;
    if Trail(h) >= n {
      HighBitsClear(h, n);
      forall k: nat ensures Bit(h, k) == Bit(Ones(n), k) { if k < n { TrailBits(h, k); } }
      SameBits(h, Ones(n));
    }
  }

  /** The digits of i and i + 1. */
  lemma {:induction false} Carry(n: nat, m: nat, i: nat) returns (pre: seq<nat>, h: nat, s: nat)
    requires n > 0 && i + 1 < Pow2(Mul(m, n))
    ensures h + 1 < Pow2(n) && IsDigits(n, pre)
    ensures ToDigits(n, m, i) == pre + [h] + Repeat(Extreme(n, true), s)
    ensures ToDigits(n, m, i + 1) == pre + [h + 1] + Repeat(Extreme(n, false), s)
    decreases m
  {
    hide *;
    MulUnfold(m, n);
    Pow2Zero();
    ToDigitsUnfold(n, m, i);
    ToDigitsUnfold(n, m, i + 1);
    ShrLowNext(i, n);
    var q, low := Shr(i, n), Low(i, n);
    if low + 1 < Pow2(n) {
      pre, h, s := ToDigits(n, m - 1, q), low, 0;
      ToDigitsAre(n, m - 1, q);
      RepeatNone(pre + [h], Extreme(n, true));
      RepeatNone(pre + [h + 1], Extreme(n, false));
    } else {
      ShrSmall(i + 1, n, Mul(m - 1, n));
      pre, h, s := Carry(n, m - 1, q);
      s := s + 1;
      ExtremeValue(n);
      RepeatMore(pre + [h], Extreme(n, true), s);
      RepeatMore(pre + [h + 1], Extreme(n, false), s);
    }
  }

  lemma Pow2Zero()
    ensures Pow2(0) == 1
  {}

  lemma ToDigitsUnfold(n: nat, m: nat, x: nat)
    ensures m > 0 ==> ToDigits(n, m, x) == ToDigits(n, m - 1, Shr(x, n)) + [Low(x, n)]
  {}

  lemma ToDigitsAre(n: nat, m: nat, x: nat)
    ensures IsDigits(n, ToDigits(n, m, x))
  {
    hide ToDigits;
  }

  lemma {:induction false} ShrLowNext(i: nat, n: nat)
    ensures Low(i, n) < Pow2(n)
    ensures Low(i, n) + 1 < Pow2(n) ==> Shr(i + 1, n) == Shr(i, n) && Low(i + 1, n) == Low(i, n) + 1
    ensures Low(i, n) + 1 == Pow2(n) ==> Shr(i + 1, n) == Shr(i, n) + 1 && Low(i + 1, n) == 0
  {
    hide Bit;
    if n > 0 {
      ShrLowNext(i / 2, n - 1);
      if i % 2 == 0 { assert (i + 1) / 2 == i / 2; } else { assert (i + 1) / 2 == i / 2 + 1; }
    }
  }

  // ---- one step of the walk

  /** The dimension that bit t of the digit's code moves. */
  function Turned(t: nat, rot: nat, n: nat): (d: nat)
    requires t < n && rot < n
    ensures d < n && (t > 0 ==> d != rot) && (t == 0 ==> d == rot)
  {
    if t + rot < n then t + rot else t + rot - n
  }

  lemma {:induction false} StepBit(n: nat, s: Phase, h: nat, k: nat)
    requires s.rot < n
    ensures Bit(Step(n, s, h).row, k) ==
            (Bit(s.row, k) != (Bit(RotL(StepBits(n, s, h), s.rot, n), k) != Bit(s.flip, k)))
  {
    hide Bit, Xor, Adjust, Unit, StepBits, RotL;
  }

  lemma CodeBit(n: nat, s: Phase, h: nat, k: nat)
    requires n > 0
    ensures Bit(StepBits(n, s, h), k) == (Bit(Fold(h, 1), k) != Bit(TopFix(n, s.odd), k))
  {
    hide Bit, Xor, Fold, TopFix;
  }

  /** The rows of digits h and h + 1 differ in one dimension. */
  lemma {:induction false} RowsDiffer(n: nat, s: Phase, h: nat, k: nat)
    requires s.rot < n && Trail(h) < n && k < n
    ensures Bit(Step(n, s, h + 1).row, k) == (Bit(Step(n, s, h).row, k) != (k == Turned(Trail(h), s.rot, n)))
  {
    hide *;
    StepBit(n, s, h, k);
    StepBit(n, s, h + 1, k);
    var j := if k >= s.rot then k - s.rot else k + n - s.rot;
    CodeBit(n, s, h, j);
    CodeBit(n, s, h + 1, j);
    GrayNext(h, j);
    assert Bit(RotL(StepBits(n, s, h), s.rot, n), k) == Bit(StepBits(n, s, h), j);
    assert Bit(RotL(StepBits(n, s, h + 1), s.rot, n), k) == Bit(StepBits(n, s, h + 1), j);
    TurnedIs(Trail(h), s.rot, n, k, j);
  }

  lemma TurnedIs(t: nat, rot: nat, n: nat, k: nat, j: nat)
    requires t < n && rot < n && k < n && j == if k >= rot then k - rot else k + n - rot
    ensures (j == t) == (k == Turned(t, rot, n))
  {}

  /** After an odd digit, or one that follows an odd digit, the rotation moves past the
      dimension in which the rows differ. */
  lemma {:induction false} NextTurn(n: nat, s: Phase, h: nat, g: nat)
    requires s.rot < n && 0 < Trail(h) < n && (g == h || g == h + 1)
    ensures FirstOne(StepBits(n, s, g), n - 1) == Trail(h)
  {
    hide *;
    var b, t := StepBits(n, s, g), Trail(h);
    forall k: nat | k < t ensures Bit(b, k) == (k == t - 1) {
      GrayLow(h, k);
      CodeBit(n, s, g, k);
      assert !Bit(TopFix(n, s.odd), k);
    }
    assert Bit(b, t - 1);
    var f := FirstOne(b, n - 1);
  }

  lemma {:induction false} ExtremeCode(n: nat, s: Phase, last: bool, k: nat)
    requires n > 0
    ensures Bit(StepBits(n, s, Extreme(n, last)), k) == (k == n - 1 && s.odd == last)
  {
    hide *;
    var h := Extreme(n, last);
    CodeBit(n, s, h, k);
    assert Bit(Fold(h, 1), k) == (Bit(h, k) != Bit(h, k + 1));
    assert Bit(h, k) == (last && k < n) && Bit(h, k + 1) == (last && k + 1 < n);
    assert Bit(TopFix(n, s.odd), k) == (!s.odd && k == n - 1);
  }

  /** The row from which (or to which) the walk goes on after digit g. */
  lemma {:induction false} EndBit(n: nat, s: Phase, g: nat, last: bool, k: nat)
    requires s.rot < n && k < n
    ensures var s' := Step(n, s, g);
            Bit(Step(n, s', Extreme(n, last)).row, k) ==
            (Bit(s'.row, k) != ((Bit(g, 0) == last && k == Turned(FirstOne(StepBits(n, s, g), n - 1), s.rot, n)) != (k == s.rot)))
  {
    hide *;
    var s' := Step(n, s, g);
    StepParts(n, s, g);
    StepBit(n, s', Extreme(n, last), k);
    var j := if k >= s'.rot then k - s'.rot else k + n - s'.rot;
    ExtremeCode(n, s', last, j);
    assert Bit(RotL(StepBits(n, s', Extreme(n, last)), s'.rot, n), k) == Bit(StepBits(n, s', Extreme(n, last)), j);
    AdjustTurned(n, s.rot, StepBits(n, s, g), k, j);
  }

  lemma StepParts(n: nat, s: Phase, g: nat)
    requires s.rot < n
    ensures var s' := Step(n, s, g);
            s'.rot == Adjust(s.rot, StepBits(n, s, g), n) && s'.flip == Unit(s.rot, n) && s'.odd == Bit(g, 0)
  {
    hide Adjust, Unit, StepBits, Bit, Delta;
  }

  lemma AdjustTurned(n: nat, rot: nat, b: nat, k: nat, j: nat)
    requires rot < n && k < n
    requires var r := Adjust(rot, b, n); j == if k >= r then k - r else k + n - r
    ensures FirstOne(b, n - 1) < n && ((j == n - 1) == (k == Turned(FirstOne(b, n - 1), rot, n)))
  {
    hide FirstOne, Bit;
  }

  // ---- coordinates

  /** A coordinate after a row and s times the same row again. */
  lemma {:induction false} TailCoord(n: nat, rows: seq<nat>, e: nat, s: nat, d: nat)
    requires d < n
    ensures CellOf(n, rows + Repeat(e, s))[d] == Fill(CellOf(n, rows)[d], s, Bit(e, d))
  {
    hide *;
    var x := CellOf(n, rows)[d];
    if s == 0 {
      RepeatNone(rows, e);
      SameBits(Fill(x, 0, Bit(e, d)), x);
    } else {
      TailCoord(n, rows, e, s - 1, d);
      RepeatMore(rows, e, s);
      CellSnoc(n, rows + Repeat(e, s - 1), e, d);
      FillTwice(x, s - 1, 1, Bit(e, d));
      FillOne(Fill(x, s - 1, Bit(e, d)), Bit(e, d));
    }
  }

  lemma CellSnoc(n: nat, rows: seq<nat>, e: nat, d: nat)
    requires d < n
    ensures CellOf(n, rows + [e])[d] == 2 * CellOf(n, rows)[d] + B2n(Bit(e, d))
  {
    hide Bit;
    assert (rows + [e])[..|rows|] == rows;
  }

  lemma {:induction false} FillOne(x: nat, b: bool)
    ensures Fill(x, 1, b) == 2 * x + B2n(b)
  {
    hide *;
    FillValue(x, 1);
    PowOne();
  }

  /** Filling up x and filling down x + 1 are neighbours. */
  lemma {:induction false} FillNext(x: nat, s: nat)
    ensures Fill(x, s, true) + 1 == Fill(x + 1, s, false)
  {
    hide *;
    FillValue(x, s);
    FillValue(x + 1, s);
    assert (x + 1) * Pow2(s) == x * Pow2(s) + Pow2(s);
  }

  // ---- neighbours

  /** The cells differ by one in dimension d and in no other. */
  predicate Neighbours(a: Cell, b: Cell, d: nat) {
    && |a| == |b| && d < |a| && (a[d] + 1 == b[d] || b[d] + 1 == a[d])
    && forall j :: 0 <= j < |a| && j != d ==> a[j] == b[j]
  }

  /** The rows of digits pre + [g] + only extreme digits. */
  lemma {:induction false} WayRows(n: nat, pre: seq<nat>, g: nat, s: nat, last: bool)
    requires n > 0
    ensures var p := After(n, pre); var p' := Step(n, p, g);
            Rows(n, pre + [g] + Repeat(Extreme(n, last), s)) ==
            Rows(n, pre) + [p'.row] + Repeat(Step(n, p', Extreme(n, last)).row, s)
  {
    hide *;
    WalkOn(n, pre, g);
    ExtremeTail(n, pre + [g], s, last);
    EndRowDef(n, pre + [g], last);
  }

  lemma EndRowDef(n: nat, hs: seq<nat>, last: bool)
    requires n > 0
    ensures EndRow(n, hs, last) == Step(n, After(n, hs), Extreme(n, last)).row
  {}

  /** Coordinate k of the cells of i and i + 1, from the rows of the two ways. */
  lemma {:induction false} WayCoord(n: nat, pre: seq<nat>, h: nat, s: nat, k: nat)
    requires n > 0 && Trail(h) < n && k < n
    ensures var d := Turned(Trail(h), After(n, pre).rot, n);
            var a := CellOf(n, Rows(n, pre + [h] + Repeat(Extreme(n, true), s)))[k];
            var b := CellOf(n, Rows(n, pre + [h + 1] + Repeat(Extreme(n, false), s)))[k];
            if k == d then a + 1 == b || b + 1 == a else a == b
  {
    hide *;
    var p := After(n, pre);
    var d := Turned(Trail(h), p.rot, n);
    var p1, p2 := Step(n, p, h), Step(n, p, h + 1);
    var e1, e2 := Step(n, p1, Extreme(n, true)).row, Step(n, p2, Extreme(n, false)).row;
    WayRows(n, pre, h, s, true);
    WayRows(n, pre, h + 1, s, false);
    var rows := Rows(n, pre);
    TailCoord(n, rows + [p1.row], e1, s, k);
    TailCoord(n, rows + [p2.row], e2, s, k);
    CellSnoc(n, rows, p1.row, k);
    CellSnoc(n, rows, p2.row, k);
    RowsDiffer(n, p, h, k);
    EndsMeet(n, p, h, k);
    var x := 2 * CellOf(n, rows)[k];
    FillNext(x, s);
  }

  /** The two ways end on the two sides of the border: equal rows but in dimension d, where
      each repeats the other's first row. */
  lemma {:induction false} EndsMeet(n: nat, p: Phase, h: nat, k: nat)
    requires p.rot < n && Trail(h) < n && k < n
    ensures var p1, p2 := Step(n, p, h), Step(n, p, h + 1);
            var e1, e2 := Step(n, p1, Extreme(n, true)).row, Step(n, p2, Extreme(n, false)).row;
            if k == Turned(Trail(h), p.rot, n)
            then Bit(e1, k) == Bit(p2.row, k) && Bit(e2, k) == Bit(p1.row, k)
            else Bit(e1, k) == Bit(e2, k)
  {
    hide *;
    EndBit(n, p, h, true, k);
    EndBit(n, p, h + 1, false, k);
    RowsDiffer(n, p, h, k);
    TrailBits(h, 0);
    if Trail(h) > 0 {
      NextTurn(n, p, h, h);
      NextTurn(n, p, h, h + 1);
    }
  }

  /** Cells of consecutive indices are neighbours. */
  lemma {:induction false} ConsecutiveNeighbours(n: nat, m: nat, i: nat) returns (d: nat)
    requires n > 0 && i + 1 < Pow2(Mul(m, n))
    ensures Neighbours(CellAt(n, m, i), CellAt(n, m, i + 1), d)
  {
    hide *;
    var pre, h, s := Carry(n, m, i);
    TrailBound(h, n);
    d := Turned(Trail(h), After(n, pre).rot, n);
    CellAtDef(n, m, i);
    CellAtDef(n, m, i + 1);
    var a, b := CellAt(n, m, i), CellAt(n, m, i + 1);
    forall k | 0 <= k < n ensures if k == d then a[k] + 1 == b[k] || b[k] + 1 == a[k] else a[k] == b[k] {
      WayCoord(n, pre, h, s, k);
    }
    NeighboursAre(a, b, d);
  }

  lemma NeighboursAre(a: Cell, b: Cell, d: nat)
    requires |a| == |b| && d < |a|
    requires forall k :: 0 <= k < |a| ==> if k == d then a[k] + 1 == b[k] || b[k] + 1 == a[k] else a[k] == b[k]
    ensures Neighbours(a, b, d)
  {}
}
