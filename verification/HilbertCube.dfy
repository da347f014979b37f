/** Cells, their indices, and what the curve does on aligned cubes.

    The index of a cell and the cell of an index are inverse to each other.  The indices
    of the cells of an aligned cube of side 2^s are exactly one run of 2^(s * nDims)
    consecutive numbers, which starts and ends at corners of the cube: at one of even and
    one of odd parity. */
module HilbertCube {
  import opened Bits
  import opened Words
  import opened HilbertCurve

  /** A cell of the grid of side 2^m: one coordinate per dimension. */
  type Cell = seq<nat>

  predicate IsCell(c: Cell, m: nat) {
    |c| > 0 && forall d :: 0 <= d < |c| ==> c[d] < Pow2(m)
  }

  /** Bit k of every coordinate. */
  function Row(c: Cell, k: nat): (r: nat)
    ensures r < Pow2(|c|)
    ensures forall d: nat {:trigger Bit(r, d)} :: Bit(r, d) == (d < |c| && Bit(c[d], k))
  {
    FromBits((d: nat) => d < |c| && Bit(c[d], k), |c|)
  }

  function Half(c: Cell): (h: Cell)
    ensures |h| == |c|
    ensures forall d :: 0 <= d < |c| ==> h[d] == c[d] / 2
  {
    seq(|c|, d requires 0 <= d < |c| => c[d] / 2)
  }

  function RowsOf(c: Cell, m: nat): (rows: seq<nat>)
    ensures |rows| == m
    ensures IsDigits(|c|, rows)
    decreases m
  {
    if m == 0 then [] else RowsOf(Half(c), m - 1) + [Row(c, 0)]
  }

  /** The cell twice as fine as c whose new low bits are those of r. */
  function Refine(c: Cell, r: nat): (c': Cell)
    ensures |c'| == |c|
    ensures forall d :: 0 <= d < |c| ==> c'[d] == 2 * c[d] + B2n(Bit(r, d))
  {
    seq(|c|, d requires 0 <= d < |c| => 2 * c[d] + B2n(Bit(r, d)))
  }

  function CellOf(n: nat, rows: seq<nat>): (c: Cell)
    ensures |c| == n
  {
    if rows == [] then seq(n, _ => 0) else Refine(CellOf(n, rows[..|rows| - 1]), rows[|rows| - 1])
  }

  lemma {:induction false} RefineParts(c: Cell, r: nat)
    requires r < Pow2(|c|)
    ensures Half(Refine(c, r)) == c && Row(Refine(c, r), 0) == r
  {
    hide Pow2;
    assert Half(Refine(c, r)) == c;
    HighBitsClear(r, |c|);
    SameBits(Row(Refine(c, r), 0), r);
  }

  lemma {:induction false} RefineHalf(c: Cell)
    ensures Refine(Half(c), Row(c, 0)) == c
  {
    hide Pow2;
  }

  lemma {:induction false} RowsOfCellOf(n: nat, rows: seq<nat>)
    requires IsDigits(n, rows)
    ensures RowsOf(CellOf(n, rows), |rows|) == rows
  {
    hide Pow2, Refine, Half, Row;
    if rows != [] {
      RowsOfCellOf(n, rows[..|rows| - 1]);
      RefineParts(CellOf(n, rows[..|rows| - 1]), rows[|rows| - 1]);
      assert rows == rows[..|rows| - 1] + [rows[|rows| - 1]];
    }
  }

  lemma {:induction false} CellOfIsCell(n: nat, rows: seq<nat>)
    requires n > 0
    ensures IsCell(CellOf(n, rows), |rows|)
  {
    if rows != [] {
      CellOfIsCell(n, rows[..|rows| - 1]);
    }
  }

  lemma {:induction false} HalfIsCell(c: Cell, m: nat)
    requires m > 0 && IsCell(c, m)
    ensures IsCell(Half(c), m - 1)
  {}

  lemma {:induction false} CellOfRowsOf(c: Cell, m: nat)
    requires IsCell(c, m)
    ensures CellOf(|c|, RowsOf(c, m)) == c
    decreases m
  {
    hide Refine, Half, Row;
    if m > 0 {
      HalfIsCell(c, m);
      CellOfRowsOf(Half(c), m - 1);
      RefineHalf(c);
      assert RowsOf(c, m)[..m - 1] == RowsOf(Half(c), m - 1);
    }
  }

  // ---- the two conversions and their inverse laws

  function Index(c: Cell, m: nat): nat
    requires |c| > 0
  {
    FromDigits(|c|, Digits(|c|, RowsOf(c, m)))
  }

  function CellAt(n: nat, m: nat, i: nat): (c: Cell)
    requires n > 0
    ensures |c| == n
  {
    CellOf(n, Rows(n, ToDigits(n, m, i)))
  }

  lemma CellAtDef(n: nat, m: nat, i: nat)
    requires n > 0
    ensures CellAt(n, m, i) == CellOf(n, Rows(n, ToDigits(n, m, i)))
  {}

  lemma {:induction false} IndexBound(c: Cell, m: nat)
    requires |c| > 0
    ensures Index(c, m) < Pow2(Mul(m, |c|))
  {
    hide *;
    RowsOfDigits(|c|, RowsOf(c, m));
    FromDigitsBound(|c|, Digits(|c|, RowsOf(c, m)));
    IndexDef(c, m);
  }

  lemma IndexDef(c: Cell, m: nat)
    requires |c| > 0
    ensures Index(c, m) == FromDigits(|c|, Digits(|c|, RowsOf(c, m)))
  {}

  /** Going from a cell to its index and back gives the cell. */
  lemma {:induction false} CellAtIndex(c: Cell, m: nat)
    requires IsCell(c, m)
    ensures CellAt(|c|, m, Index(c, m)) == c
  {
    hide RowsOf, Digits, FromDigits, ToDigits, Rows, CellOf;
    var rows := RowsOf(c, m);
    RowsOfDigits(|c|, rows);
    DigitsRoundTrip(|c|, Digits(|c|, rows));
    CellOfRowsOf(c, m);
  }

  /** Going from an index to its cell and back gives the index. */
  lemma {:induction false} IndexOfCellAt(n: nat, m: nat, i: nat)
    requires n > 0 && i < Pow2(Mul(m, n))
    ensures IsCell(CellAt(n, m, i), m) && Index(CellAt(n, m, i), m) == i
  {
    hide RowsOf, Digits, FromDigits, ToDigits, Rows, CellOf;
    var hs := ToDigits(n, m, i);
    DigitsOfRows(n, hs);
    RowsOfCellOf(n, Rows(n, hs));
    CellOfIsCell(n, Rows(n, hs));
    NumberRoundTrip(n, m, i);
  }

  lemma {:induction false} IndexInjective(a: Cell, b: Cell, m: nat)
    requires IsCell(a, m) && IsCell(b, m) && |a| == |b| && Index(a, m) == Index(b, m)
    ensures a == b
  {
    hide *;
    CellAtIndex(a, m);
    CellAtIndex(b, m);
  }

  // ---- self-similarity: dropping low coordinate bits drops low index digits

  lemma {:induction false} IndexOfHalf(c: Cell, m: nat)
    requires |c| > 0 && m > 0
    ensures Shr(Index(c, m), |c|) == Index(Half(c), m - 1)
  {
    hide Half, Row, FromDigits, StepDigit, After, Pow2;
    var rows := RowsOf(c, m);
    assert rows[..m - 1] == RowsOf(Half(c), m - 1);
    RowsOfDigits(|c|, rows);
    var hs := Digits(|c|, rows);
    assert hs[..m - 1] == Digits(|c|, rows[..m - 1]);
    FromDigitsBits(|c|, hs);
  }

  /** The cell's cube of side 2^s. */
  function Coarse(c: Cell, s: nat): (q: Cell)
    ensures |q| == |c|
    decreases s
  {
    if s == 0 then c else Coarse(Half(c), s - 1)
  }

  lemma {:induction false} CoarseIsCell(c: Cell, m: nat, s: nat)
    requires IsCell(c, m) && s <= m
    ensures IsCell(Coarse(c, s), m - s)
    decreases s
  {
    if s > 0 {
      HalfIsCell(c, m);
      CoarseIsCell(Half(c), m - 1, s - 1);
    }
  }

  lemma {:induction false} IndexOfCoarse(c: Cell, m: nat, s: nat)
    requires |c| > 0 && s <= m
    ensures Shr(Index(c, m), Mul(s, |c|)) == Index(Coarse(c, s), m - s)
    decreases s
  {
    hide Index, Half, Bit;
    if s > 0 {
      IndexOfHalf(c, m);
      IndexOfCoarse(Half(c), m - 1, s - 1);
      ShrTwice(Index(c, m), |c|, Mul(s - 1, |c|));
    }
  }

  lemma {:induction false} ShrTwice(x: nat, a: nat, b: nat)
    ensures Shr(Shr(x, a), b) == Shr(x, a + b)
  {
    hide *;
    SameBits(Shr(Shr(x, a), b), Shr(x, a + b));
  }

  /** A cell lies in the cube q of side 2^s exactly when its index starts with the
      index of q: the cube's indices are one run. */
  lemma {:induction false} CubeIsRun(c: Cell, m: nat, q: Cell, s: nat)
    requires IsCell(c, m) && s <= m && IsCell(q, m - s) && |q| == |c|
    ensures Coarse(c, s) == q <==> Shr(Index(c, m), Mul(s, |c|)) == Index(q, m - s)
  {
    hide Index, Coarse, Shr, Mul;
    IndexOfCoarse(c, m, s);
    CoarseIsCell(c, m, s);
    if Shr(Index(c, m), Mul(s, |c|)) == Index(q, m - s) {
      IndexInjective(Coarse(c, s), q, m - s);
    }
  }

  // ---- corners

  /** The corner of cube q of side 2^s on the upper side of the dimensions set in r. */
  function Corner(q: Cell, s: nat, r: nat): (c: Cell)
    ensures |c| == |q|
    ensures forall d :: 0 <= d < |q| ==> c[d] == Shl(q[d], s) + if Bit(r, d) then Ones(s) else 0
  {
    seq(|q|, d requires 0 <= d < |q| => Shl(q[d], s) + if Bit(r, d) then Ones(s) else 0)
  }

  function Repeat(x: nat, s: nat): (xs: seq<nat>)
    ensures |xs| == s
  {
    if s == 0 then [] else Repeat(x, s - 1) + [x]
  }

  lemma {:induction false} CornerHalf(q: Cell, s: nat, r: nat)
    requires s > 0 && r < Pow2(|q|)
    ensures Half(Corner(q, s, r)) == Corner(q, s - 1, r) && Row(Corner(q, s, r), 0) == r
  {
    hide Bit, Pow2;
    var c := Corner(q, s, r);
    forall d | 0 <= d < |q| ensures c[d] == 2 * Corner(q, s - 1, r)[d] + B2n(Bit(r, d)) {
      assert Shl(q[d], s) == 2 * Shl(q[d], s - 1) && Ones(s) == 2 * Ones(s - 1) + 1;
    }
    assert c == Refine(Corner(q, s - 1, r), r);
    RefineParts(Corner(q, s - 1, r), r);
  }

  lemma {:induction false} CornerRows(q: Cell, s: nat, r: nat, m: nat)
    requires r < Pow2(|q|)
    ensures RowsOf(Corner(q, s, r), m + s) == RowsOf(q, m) + Repeat(r, s)
    ensures Coarse(Corner(q, s, r), s) == q
    decreases s
  {
    hide Bit, Pow2, Row, Half, Corner;
    if s == 0 {
      CornerOfPoint(q, r);
      assert RowsOf(q, m) + Repeat(r, 0) == RowsOf(q, m);
    } else {
      CornerHalf(q, s, r);
      CornerRows(q, s - 1, r, m);
      assert RowsOf(q, m) + Repeat(r, s) == (RowsOf(q, m) + Repeat(r, s - 1)) + [r];
    }
  }

  lemma CornerOfPoint(q: Cell, r: nat)
    ensures Corner(q, 0, r) == q
  {}

  // ---- the curve enters and leaves an aligned cube at corners

  /** The first or the last digit: all zeros or all ones. */
  function Extreme(n: nat, last: bool): (h: nat)
    ensures forall k: nat {:trigger Bit(h, k)} :: Bit(h, k) == (last && k < n)
    ensures h < Pow2(n)
  {
    if last then Ones(n) else NoBits(); 0
  }

  /** In such a phase an extreme digit that repeats the last one leaves the row as it is. */
  ghost predicate Steady(n: nat, s: Phase, last: bool) {
    n > 0 && s.rot < n && s.flip == RotL(Unit(n - 1, n), s.rot, n) && s.odd == last
  }

  lemma {:induction false} ExtremeBits(n: nat, s: Phase, last: bool)
    requires s.rot < n
    ensures forall k: nat :: k < n - 1 ==> !Bit(StepBits(n, s, Extreme(n, last)), k)
    ensures s.odd == last ==> StepBits(n, s, Extreme(n, last)) == Unit(n - 1, n)
  {
    hide Bit, Xor, TopFix, Unit, Extreme, Fold;
    var h := Extreme(n, last);
    var b := StepBits(n, s, h);
    forall k: nat ensures Bit(b, k) == (k == n - 1 && (last == s.odd)) {
      assert Bit(Fold(h, 1), k) == (last && k == n - 1);
      assert Bit(TopFix(n, s.odd), k) == (!s.odd && k == n - 1);
    }
    if s.odd == last { SameBits(b, Unit(n - 1, n)); }
  }

  lemma {:induction false} NextRotation(n: nat, rot: nat, bits: nat)
    requires rot < n && forall k: nat :: k < n - 1 ==> !Bit(bits, k)
    ensures Adjust(rot, bits, n) == if rot + 1 == n then 0 else rot + 1
  {
    hide Bit, FirstOne;
    var t := FirstOne(bits, n - 1);
  }

  lemma {:induction false} UnitRotates(n: nat, rot: nat, rot': nat)
    requires rot < n && rot' == if rot + 1 == n then 0 else rot + 1
    ensures Unit(rot, n) == RotL(Unit(n - 1, n), rot', n)
  {
    hide *;
    var u := Unit(n - 1, n);
    forall k: nat ensures Bit(Unit(rot, n), k) == Bit(RotL(u, rot', n), k) {
      if k < n { assert Bit(u, if k >= rot' then k - rot' else k + n - rot') == (k == rot); }
    }
    SameBits(Unit(rot, n), RotL(u, rot', n));
  }

  /** An extreme digit leads to a steady phase from anywhere ... */
  lemma {:induction false} ExtremeSteady(n: nat, s: Phase, last: bool)
    requires s.rot < n
    ensures Steady(n, Step(n, s, Extreme(n, last)), last)
  {
    hide Xor, RotL, Unit, Adjust, StepBits, Extreme, Delta;
    var h := Extreme(n, last);
    ExtremeBits(n, s, last);
    NextRotation(n, s.rot, StepBits(n, s, h));
    UnitRotates(n, s.rot, Step(n, s, h).rot);
    assert Bit(h, 0) == last;
  }

  /** ... and from a steady phase the same digit keeps the row. */
  lemma {:induction false} SteadyKeeps(n: nat, s: Phase, last: bool)
    requires Steady(n, s, last)
    ensures Step(n, s, Extreme(n, last)).row == s.row
  {
    hide Xor, RotL, Unit, Adjust, StepBits, Extreme;
    ExtremeBits(n, s, last);
    XorSelf(s.row, s.flip);
  }

  lemma {:induction false} XorSelf(a: nat, b: nat)
    ensures Xor(a, Xor(b, b)) == a
  {
    hide *;
    SameBits(Xor(a, Xor(b, b)), a);
  }

  /** The row at which the curve enters (or leaves) what follows the digits hs. */
  function EndRow(n: nat, hs: seq<nat>, last: bool): (r: nat)
    requires n > 0
  {
    Step(n, After(n, hs), Extreme(n, last)).row
  }

  lemma {:induction false} WalkOn(n: nat, hs: seq<nat>, h: nat)
    requires n > 0
    ensures After(n, hs + [h]) == Step(n, After(n, hs), h)
    ensures Rows(n, hs + [h]) == Rows(n, hs) + [Step(n, After(n, hs), h).row]
  {
    hide Step;
    assert (hs + [h])[..|hs|] == hs;
  }

  lemma RepeatMore(xs: seq<nat>, x: nat, s: nat)
    requires s > 0
    ensures xs + Repeat(x, s) == xs + Repeat(x, s - 1) + [x]
  {}

  lemma RepeatNone(xs: seq<nat>, x: nat)
    ensures xs + Repeat(x, 0) == xs
  {}

  /** Digits that stay extreme repeat the row at which the curve enters or leaves. */
  lemma {:induction false} ExtremeTail(n: nat, hs: seq<nat>, s: nat, last: bool)
    requires n > 0
    ensures Rows(n, hs + Repeat(Extreme(n, last), s)) == Rows(n, hs) + Repeat(EndRow(n, hs, last), s)
    ensures s > 0 ==> Steady(n, After(n, hs + Repeat(Extreme(n, last), s)), last)
    ensures s > 0 ==> After(n, hs + Repeat(Extreme(n, last), s)).row == EndRow(n, hs, last)
  {
    hide Step, Extreme, Steady, After, Rows, Repeat;
    var h, r := Extreme(n, last), EndRow(n, hs, last);
    if s == 0 {
      RepeatNone(hs, h);
      RepeatNone(Rows(n, hs), r);
    } else {
      var ts := hs + Repeat(h, s - 1);
      ExtremeTail(n, hs, s - 1, last);
      RepeatMore(hs, h, s);
      RepeatMore(Rows(n, hs), r, s);
      WalkOn(n, ts, h);
      ExtremeSteady(n, After(n, ts), last);
      if s == 1 {
        RepeatNone(hs, h);
      } else {
        SteadyKeeps(n, After(n, ts), last);
      }
    }
  }

  // ---- parity: entry corners are even, exit corners odd

  function Parity(x: nat): bool {
    if x == 0 then false else (x % 2 == 1) != Parity(x / 2)
  }

  lemma {:induction false} ParityXor(a: nat, b: nat)
    ensures Parity(Xor(a, b)) == (Parity(a) != Parity(b))
    decreases a + b
  {
    if a != 0 || b != 0 {
      ParityXor(a / 2, b / 2);
      assert Xor(a, b) / 2 == Xor(a / 2, b / 2);
      assert (Xor(a, b) % 2 == 1) == (a % 2 != b % 2);
      assert forall x: nat {:trigger Parity(x)} :: Parity(x) == ((x % 2 == 1) != Parity(x / 2));
    }
  }

  lemma {:induction false} ParityShl(x: nat, s: nat)
    ensures Parity(Shl(x, s)) == Parity(x)
  {
    if s > 0 { ParityShl(x, s - 1); }
  }

  /** x splits into the bits below and above a place. */
  lemma {:induction false} ParitySplit(x: nat, s: nat)
    ensures Parity(x) == (Parity(Shr(x, s)) != Parity(Low(x, s)))
  {
    hide *;
    var hi := Shl(Shr(x, s), s);
    SameBits(Xor(hi, Low(x, s)), x);
    ParityXor(hi, Low(x, s));
    ParityShl(Shr(x, s), s);
  }

  lemma {:induction false} ParityRot(x: nat, r: nat, n: nat)
    requires r < n && x < Pow2(n)
    ensures Parity(RotL(x, r, n)) == Parity(x)
  {
    hide *;
    HighBitsClear(x, n);
    var lo, hi := Shl(Low(x, n - r), r), Shr(x, n - r);
    var y := RotL(x, r, n);
    forall k: nat ensures Bit(Xor(lo, hi), k) == Bit(y, k) {
      if k < r { assert !Bit(lo, k) && Bit(hi, k) == Bit(x, k + (n - r)); }
      else { assert !Bit(hi, k) && Bit(lo, k) == (k < n && Bit(x, k - r)); }
    }
    SameBits(Xor(lo, hi), y);
    ParityXor(lo, hi);
    ParityShl(Low(x, n - r), r);
    ParitySplit(x, n - r);
  }

  lemma {:induction false} ParityFold(h: nat)
    ensures Parity(Fold(h, 1)) == Bit(h, 0)
  {
    hide Bit, Xor, Shr, Fold, Low;
    ParityXor(h, Shr(h, 1));
    ParitySplit(h, 1);
    FoldDef(h, 1);
    LowBit(h);
  }

  lemma FoldDef(x: nat, s: nat)
    ensures Fold(x, s) == Xor(x, Shr(x, s))
  {}

  lemma LowBit(h: nat)
    ensures Parity(Low(h, 1)) == Bit(h, 0)
  {
    assert Low(h, 1) == h % 2 + 2 * Low(h / 2, 0);
  }

  lemma {:induction false} ParityUnit(r: nat, n: nat)
    requires r < n
    ensures Parity(Unit(r, n))
  {
    hide Bit, Xor, Shl, Unit;
    forall k: nat ensures Bit(Unit(r, n), k) == Bit(Shl(1, r), k) {
      if k >= r { SmallBit(true, k - r); }
    }
    SameBits(Unit(r, n), Shl(1, r));
    ParityShl(1, r);
    assert Parity(1);
  }

  lemma {:induction false} ParityTopFix(n: nat, odd: bool)
    requires n > 0
    ensures Parity(TopFix(n, odd)) == !odd
  {
    hide Bit, TopFix, Unit;
    NoBits();
    if odd { SameBits(TopFix(n, odd), 0); }
    else { SameBits(TopFix(n, odd), Unit(n - 1, n)); ParityUnit(n - 1, n); }
  }

  /** The parity of the row follows the parity of the digit just read. */
  ghost predicate InStep(s: Phase) {
    Parity(s.row) == (s.odd == Parity(s.flip))
  }

  lemma {:induction false} StepParity(n: nat, s: Phase, h: nat)
    requires Valid(n, s) && InStep(s) && h < Pow2(n)
    ensures InStep(Step(n, s, h)) && Parity(Step(n, s, h).row) == Bit(h, 0)
  {
    hide Xor, RotL, Unit, Adjust, Fold, TopFix, Parity, Pow2, Bit;
    var b := StepBits(n, s, h);
    FoldBound(h, 1, n);
    XorBound(Fold(h, 1), TopFix(n, s.odd), n);
    ParityXor(Fold(h, 1), TopFix(n, s.odd));
    ParityFold(h);
    ParityTopFix(n, s.odd);
    ParityRot(b, s.rot, n);
    ParityXor(RotL(b, s.rot, n), s.flip);
    ParityXor(s.row, Delta(n, s, h));
    ParityUnit(s.rot, n);
  }

  lemma {:induction false} AfterInStep(n: nat, hs: seq<nat>)
    requires n > 0 && IsDigits(n, hs)
    ensures InStep(After(n, hs))
  {
    hide Step, Pow2;
    if hs != [] {
      AfterInStep(n, hs[..|hs| - 1]);
      AfterValid(n, hs[..|hs| - 1]);
      StepParity(n, After(n, hs[..|hs| - 1]), hs[|hs| - 1]);
    }
  }

  // ---- the ends of a cube's run

  /** x followed by k zero bits, or by k one bits. */
  function Fill(x: nat, k: nat, last: bool): (y: nat)
    ensures forall b: nat {:trigger Bit(y, b)} :: Bit(y, b) == if b < k then last else Bit(x, b - k)
  {
    Or(Shl(x, k), Extreme(k, last))
  }

  lemma {:induction false} FillTwice(x: nat, a: nat, b: nat, last: bool)
    ensures Fill(Fill(x, a, last), b, last) == Fill(x, a + b, last)
  {
    hide *;
    SameBits(Fill(Fill(x, a, last), b, last), Fill(x, a + b, last));
  }

  lemma {:induction false} FillValue(x: nat, k: nat)
    ensures Fill(x, k, false) == x * Pow2(k)
    ensures Fill(x, k, true) == x * Pow2(k) + Pow2(k) - 1
  {
    hide *;
    FillParts(x, k, false);
    FillParts(x, k, true);
    ExtremeValue(k);
  }

  lemma ExtremeValue(k: nat)
    ensures Extreme(k, false) == 0 && Extreme(k, true) + 1 == Pow2(k)
  {}

  lemma {:induction false} FillParts(x: nat, k: nat, last: bool)
    ensures Fill(x, k, last) == x * Pow2(k) + Extreme(k, last)
  {
    hide *;
    var y := Fill(x, k, last);
    ShrDiv(y, k);
    SameBits(Shr(y, k), x);
    SameBits(Low(y, k), Extreme(k, last));
  }

  /** Numbers that start with x are exactly those between the two fills. */
  lemma {:induction false} RunBounds(x: nat, k: nat, y: nat)
    ensures Shr(y, k) == x <==> Fill(x, k, false) <= y <= Fill(x, k, true)
  {
    hide *;
    FillValue(x, k);
    ShrDiv(y, k);
    var q, p := Shr(y, k), Pow2(k);
    assert (q + 1) * p == q * p + p && (x + 1) * p == x * p + p;
    if q < x { MulLe(q + 1, x, p); } else if x < q { MulLe(x + 1, q, p); }
  }

  lemma MulLe(a: nat, b: nat, p: nat)
    requires a <= b
    ensures a * p <= b * p
  {
    assert b * p == a * p + (b - a) * p;
  }

  lemma {:induction false} FromDigitsTail(n: nat, hs: seq<nat>, s: nat, last: bool)
    requires n > 0
    ensures FromDigits(n, hs + Repeat(Extreme(n, last), s)) == Fill(FromDigits(n, hs), Mul(s, n), last)
  {
    hide *;
    var h := Extreme(n, last);
    MulUnfold(s, n);
    if s == 0 {
      RepeatNone(hs, h);
      SameBits(Fill(FromDigits(n, hs), 0, last), FromDigits(n, hs));
    } else {
      var ts := hs + Repeat(h, s - 1);
      FromDigitsTail(n, hs, s - 1, last);
      RepeatMore(hs, h, s);
      FromDigitsOn(n, ts, h);
      FillDef(FromDigits(n, ts), n, last);
      FillTwice(FromDigits(n, hs), Mul(s - 1, n), n, last);
    }
  }

  lemma FillDef(x: nat, k: nat, last: bool)
    ensures Fill(x, k, last) == Or(Shl(x, k), Extreme(k, last))
  {}

  lemma MulUnfold(a: nat, n: nat)
    ensures Mul(a, n) == if a == 0 then 0 else n + Mul(a - 1, n)
  {}

  /** The corner at which the curve enters (last = false) or leaves (last = true) cube q. */
  function EndCorner(q: Cell, g: nat, last: bool): (r: nat)
    requires |q| > 0
  {
    EndRow(|q|, Digits(|q|, RowsOf(q, g)), last)
  }

  /** The first and the last index of an aligned cube are those of two of its corners,
      the first of even and the last of odd parity. */
  lemma {:induction false} CubeEnds(q: Cell, g: nat, s: nat, last: bool)
    requires |q| > 0
    ensures EndCorner(q, g, last) < Pow2(|q|) && Parity(EndCorner(q, g, last)) == last
    ensures Index(Corner(q, s, EndCorner(q, g, last)), g + s) == Fill(Index(q, g), Mul(s, |q|), last)
  {
    hide RowsOf, Digits, Rows, After, Step, Fill, FromDigits, Extreme, Repeat, Parity, Pow2, Corner;
    var n := |q|;
    var rows := RowsOf(q, g);
    var hs := Digits(n, rows);
    RowsOfDigits(n, rows);
    var h, r := Extreme(n, last), EndCorner(q, g, last);
    AfterValid(n, hs);
    AfterInStep(n, hs);
    StepValid(n, After(n, hs), h);
    StepParity(n, After(n, hs), h);
    assert Bit(h, 0) == last;
    CornerRows(q, s, r, g);
    ExtremeTail(n, hs, s, last);
    TailDigits(n, hs, h, s);
    DigitsOfRows(n, hs + Repeat(h, s));
    FromDigitsTail(n, hs, s, last);
  }

  lemma {:induction false} TailDigits(n: nat, hs: seq<nat>, h: nat, s: nat)
    requires IsDigits(n, hs) && h < Pow2(n)
    ensures IsDigits(n, hs + Repeat(h, s))
  {
    hide Pow2;
    if s > 0 {
      TailDigits(n, hs, h, s - 1);
      RepeatMore(hs, h, s);
    }
  }
}
