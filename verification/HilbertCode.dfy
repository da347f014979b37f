/** The conversions hilbert_i2c and hilbert_c2i of include/sfc.h as they are written:
    on 64-bit words (with 32-bit digits), proved to compute the cell of an index and the
    index of a cell. */
module HilbertCode {
  import opened Bits
  import opened Words
  import opened BitTranspose
  import opened LogTranspose
  import opened HilbertCurve
  import opened HilbertCube

  // ---- the macros

  /** rotateLeft(arg, nRots, nDims) on a 32-bit arg. */
  function RotateLeft(arg: nat, nRots: nat, nDims: nat): (y: nat)
    requires nRots < nDims <= 31 && arg < Pow2(nDims)
    ensures y == RotL(arg, nRots, nDims)
  {
    RotateLeftBits(arg, nRots, nDims);
    And(Or(ShlW(arg, nRots, 32), Shr(arg, nDims - nRots)), OnesW(nDims, 64))
  }

  lemma {:induction false} RotateLeftBits(arg: nat, r: nat, n: nat)
    requires r < n <= 31 && arg < Pow2(n)
    ensures And(Or(ShlW(arg, r, 32), Shr(arg, n - r)), Ones(n)) == RotL(arg, r, n)
  {
    hide *;
    HighBitsClear(arg, n);
    var y := And(Or(ShlW(arg, r, 32), Shr(arg, n - r)), Ones(n));
    forall k: nat ensures Bit(y, k) == Bit(RotL(arg, r, n), k) {
      assert Bit(Shr(arg, n - r), k) == Bit(arg, k + (n - r));
    }
    SameBits(y, RotL(arg, r, n));
  }

  /** rotateRight(arg, nRots, nDims) on a 32-bit arg. */
  function RotateRight(arg: nat, nRots: nat, nDims: nat): (y: nat)
    requires nRots < nDims <= 31 && arg < Pow2(nDims)
    ensures y == RotR(arg, nRots, nDims)
  {
    RotateRightBits(arg, nRots, nDims);
    And(Or(Shr(arg, nRots), ShlW(arg, nDims - nRots, 32)), OnesW(nDims, 64))
  }

  lemma {:induction false} RotateRightBits(arg: nat, r: nat, n: nat)
    requires r < n <= 31 && arg < Pow2(n)
    ensures And(Or(Shr(arg, r), ShlW(arg, n - r, 32)), Ones(n)) == RotR(arg, r, n)
  {
    hide *;
    HighBitsClear(arg, n);
    var y := And(Or(Shr(arg, r), ShlW(arg, n - r, 32)), Ones(n));
    forall k: nat ensures Bit(y, k) == Bit(RotR(arg, r, n), k) {
      assert Bit(Shr(arg, r), k) == Bit(arg, k + r);
    }
    SameBits(y, RotR(arg, r, n));
  }

  ghost predicate HasBelow(x: nat, k: nat) {
    exists j: nat :: j < k && Bit(x, j)
  }

  /** Negation modulo 2^w keeps the bits up to the lowest set one and inverts the others. */
  lemma {:induction false} NegBit(x: nat, w: nat, k: nat)
    requires x < Pow2(w) && k < w
    ensures Bit(SubW(0, x, w), k) == (Bit(x, k) != HasBelow(x, k))
    decreases w
  {
    var y := SubW(0, x, w);
    var p := Pow2(w - 1);
    assert Pow2(w) == 2 * p;
    if x == 0 {
      NoBits();
    } else if k == 0 {
      assert y == 2 * p - x;
    } else if x % 2 == 0 {
      assert y / 2 == p - x / 2 == SubW(0, x / 2, w - 1);
      NegBit(x / 2, w - 1, k - 1);
      HasBelowHalf(x, k);
    } else {
      assert y / 2 == (p - 1) - x / 2;
      ComplementBit(x / 2, w - 1, k - 1);
      HasBelowHalf(x, k);
    }
  }

  lemma {:induction false} HasBelowHalf(x: nat, k: nat)
    requires k > 0
    ensures HasBelow(x, k) == (Bit(x, 0) || HasBelow(x / 2, k - 1))
  {
    if HasBelow(x / 2, k - 1) {
      var j: nat :| j < k - 1 && Bit(x / 2, j);
      assert Bit(x, j + 1);
    }
    if HasBelow(x, k) && !Bit(x, 0) {
      var j: nat :| j < k && Bit(x, j);
      assert Bit(x / 2, j - 1);
    }
  }

  lemma {:induction false} ComplementBit(x: nat, w: nat, k: nat)
    requires x < Pow2(w) && k < w
    ensures Bit((Pow2(w) - 1) - x, k) == !Bit(x, k)
    decreases w
  {
    var p := Pow2(w - 1);
    ComplementHalf(p, x);
    if k > 0 { ComplementBit(x / 2, w - 1, k - 1); }
  }

  lemma ComplementHalf(p: nat, x: nat)
    requires x < 2 * p
    ensures ((2 * p - 1) - x) / 2 == (p - 1) - x / 2
    ensures ((2 * p - 1) - x) % 2 == 1 - x % 2
  {
    hide *;
  }

  /** `bits & (-bits & nd1Ones)`: the lowest set bit, if it is below the top one. */
  lemma {:induction false} Isolate(bits: nat, n: nat)
    requires 0 < n <= 32 && bits < Pow2(32)
    ensures And(bits, And(SubW(0, bits, 32), Ones(n - 1))) ==
            (if FirstOne(bits, n - 1) == 0 then 0 else Pow2(FirstOne(bits, n - 1) - 1))
  {
    hide Bit, Pow2, And, FirstOne, Ones, SubW;
    var t := FirstOne(bits, n - 1);
    var y := And(bits, And(SubW(0, bits, 32), Ones(n - 1)));
    forall k: nat ensures Bit(y, k) == (t > 0 && k == t - 1) {
      if k < n - 1 { NegBit(bits, 32, k); }
    }
    NoBits();
    if t == 0 {
      SameBits(y, 0);
    } else {
      PowBit(t - 1);
      SameBits(y, Pow2(t - 1));
    }
  }

  /** adjust_rotation(rotation, nDims, bits). */
  method AdjustRotation(rotation: nat, nDims: nat, bits: nat, nd1Ones: nat) returns (r: nat)
    requires rotation < nDims <= 31 && bits < Pow2(nDims) && nd1Ones == Ones(nDims - 1)
    ensures r == Adjust(rotation, bits, nDims)
  {
    hide *;
    Pow2Strict(nDims, 32);
    var b := And(bits, And(SubW(0, bits, 32), nd1Ones));
    Isolate(bits, nDims);
    ghost var j := FirstOne(bits, nDims - 1);
    r := rotation;
    while b != 0
      invariant b == if j == 0 then 0 else Pow2(j - 1)
      invariant r + j == rotation + FirstOne(bits, nDims - 1)
      decreases j
    {
      Pow2Half(j - 1);
      b := Shr(b, 1);
      r := r + 1;
      j := j - 1;
    }
    r := r + 1;
    if r >= nDims { r := r - nDims; }
    AdjustDef(rotation, bits, nDims);
  }

  lemma AdjustDef(rot: nat, bits: nat, n: nat)
    requires rot < n
    ensures Adjust(rot, bits, n) == var t := rot + FirstOne(bits, n - 1) + 1; if t >= n then t - n else t
  {}

  // ---- the logarithmic exclusive-or scans

  /** `for (b = s; b < total; b *= 2) x ^= x >> b` inverts the fold by s. */
  method XorScan(x: nat, s: nat, total: nat) returns (y: nat)
    requires s > 0 && x < Pow2(total)
    ensures Fold(y, s) == x
  {
    hide *;
    y := x;
    var b := s;
    while b < total
      invariant b >= s
      invariant Fold(y, s) == Fold(x, b)
      decreases total - b
    {
      FoldDoubles(y, s, x, b);
      FoldDef(y, b);
      y := Xor(y, Shr(y, b));
      b := 2 * b;
    }
    HighBitsClear(x, total);
    SameBits(Fold(x, b), x);
  }

  lemma {:induction false} FoldDoubles(y: nat, s: nat, x: nat, b: nat)
    requires Fold(y, s) == Fold(x, b)
    ensures Fold(Fold(y, b), s) == Fold(x, 2 * b)
  {
    hide *;
    forall k: nat ensures Bit(Fold(Fold(y, b), s), k) == Bit(Fold(x, 2 * b), k) { FoldDoublesBit(y, s, x, b, k); }
    SameBits(Fold(Fold(y, b), s), Fold(x, 2 * b));
  }

  lemma {:induction false} FoldDoublesBit(y: nat, s: nat, x: nat, b: nat, k: nat)
    requires Fold(y, s) == Fold(x, b)
    ensures Bit(Fold(Fold(y, b), s), k) == Bit(Fold(x, 2 * b), k)
  {
    hide *;
    var z := Fold(y, b);
    assert Bit(Fold(z, s), k) == (Bit(z, k) != Bit(z, k + s));
    assert Bit(z, k) == (Bit(y, k) != Bit(y, k + b));
    assert Bit(z, k + s) == (Bit(y, k + s) != Bit(y, k + s + b));
    assert Bit(Fold(y, s), k) == (Bit(y, k) != Bit(y, k + s));
    assert Bit(Fold(y, s), k + b) == (Bit(y, k + b) != Bit(y, k + b + s));
    assert Bit(Fold(x, b), k) == (Bit(x, k) != Bit(x, k + b));
    assert Bit(Fold(x, b), k + b) == (Bit(x, k + b) != Bit(x, k + b + b));
    assert k + s + b == k + b + s && k + b + b == k + 2 * b;
  }

  // ---- the word of Gray digits

  /** The word with a one at the bottom of each of m digits: ones(n * m) / ones(n). */
  function Nth(n: nat, m: nat): nat {
    if m == 0 then 0 else Or(Shl(Nth(n, m - 1), n), 1)
  }

  lemma {:induction false} NthBit(n: nat, m: nat, k: nat)
    requires n > 0 && m > 0 && k > 0
    ensures Bit(Nth(n, m), k) == (k >= n && Bit(Nth(n, m - 1), k - n))
  {
    hide Bit, Or, Shl;
    SmallBit(true, k);
    assert Nth(n, m) == Or(Shl(Nth(n, m - 1), n), 1);
  }

  lemma {:induction false} NthLow(n: nat, m: nat)
    requires n > 0 && m > 0
    ensures Bit(Nth(n, m), 0)
  {
    hide Bit, Or, Shl;
    SmallBit(true, 0);
    assert Nth(n, m) == Or(Shl(Nth(n, m - 1), n), 1);
  }

  lemma {:induction false} NthIsQuotient(n: nat, m: nat)
    requires n > 0
    ensures Nth(n, m) * Ones(n) == Ones(Mul(m, n))
    ensures Ones(n) > 0 && Ones(Mul(m, n)) / Ones(n) == Nth(n, m)
  {
    NthProduct(n, m);
    assert Ones(n) > 0;
    DivExact(Nth(n, m), Ones(n));
  }

  lemma DivExact(a: nat, b: nat)
    requires b > 0
    ensures (a * b) / b == a
  {
    hide *;
    MulIsProduct(a, b);
    QuoRemOf(a, 0, b);
    QuoRemIsDivMod(a * b, b);
  }

  lemma {:induction false} NthProduct(n: nat, m: nat)
    requires n > 0
    ensures Nth(n, m) * Ones(n) == Ones(Mul(m, n))
  {
    hide Or, Shl, Ones, Bit, Pow2;
    if m == 0 {
      Zeros();
    } else {
      NthProduct(n, m - 1);
      NthValue(n, m);
      Pow2Add(n, Mul(m - 1, n));
      NthArith(Nth(n, m - 1), Pow2(n), Pow2(Mul(m - 1, n)));
    }
  }

  lemma NthArith(a: nat, p: nat, q: nat)
    requires p > 0 && a * (p - 1) == q - 1
    ensures (a * p + 1) * (p - 1) == p * q - 1
  {
    calc {
      (a * p + 1) * (p - 1);
      (a * p) * (p - 1) + (p - 1);
      p * (a * (p - 1)) + (p - 1);
      p * (q - 1) + (p - 1);
    }
  }

  lemma Zeros()
    ensures Ones(0) == 0
  {}

  lemma {:induction false} NthValue(n: nat, m: nat)
    requires n > 0 && m > 0
    ensures Nth(n, m) == Nth(n, m - 1) * Pow2(n) + 1
  {
    hide Bit, Or, Shl, Shr, Low, Pow2;
    var x, y := Nth(n, m), Nth(n, m - 1);
    assert x == Or(Shl(y, n), 1);
    ShrDiv(x, n);
    forall k: nat ensures Bit(1, k) == (k == 0) { SmallBit(true, k); }
    forall k: nat ensures Bit(Shr(x, n), k) == Bit(y, k) { assert Bit(x, k + n) == Bit(y, k); }
    SameBits(Shr(x, n), y);
    SameBits(Low(x, n), 1);
  }

  function BitsOf(n: nat, hs: seq<nat>): (bs: seq<nat>)
    requires n > 0
    ensures |bs| == |hs|
  {
    if hs == [] then [] else
    var init := hs[..|hs| - 1];
    BitsOf(n, init) + [StepBits(n, After(n, init), hs[|hs| - 1])]
  }

  function Deltas(n: nat, hs: seq<nat>): (cs: seq<nat>)
    requires n > 0
    ensures |cs| == |hs|
  {
    if hs == [] then [] else
    var init := hs[..|hs| - 1];
    Deltas(n, init) + [Delta(n, After(n, init), hs[|hs| - 1])]
  }

  lemma {:induction false} BitsOfDigits(n: nat, hs: seq<nat>)
    requires n > 0 && IsDigits(n, hs)
    ensures IsDigits(n, BitsOf(n, hs)) && IsDigits(n, Deltas(n, hs))
  {
    hide Pow2, After, Xor, TopFix, RotL, Fold;
    if hs != [] {
      var init, h := hs[..|hs| - 1], hs[|hs| - 1];
      BitsOfDigits(n, init);
      var s := After(n, init);
      AfterValid(n, init);
      FoldBound(h, 1, n);
      XorBound(Fold(h, 1), TopFix(n, s.odd), n);
      XorBound(RotL(StepBits(n, s, h), s.rot, n), s.flip, n);
    }
  }

  lemma {:induction false} BitsOfOn(n: nat, hs: seq<nat>, h: nat)
    requires n > 0
    ensures BitsOf(n, hs + [h]) == BitsOf(n, hs) + [StepBits(n, After(n, hs), h)]
    ensures Deltas(n, hs + [h]) == Deltas(n, hs) + [Delta(n, After(n, hs), h)]
  {
    hide After, StepBits, Delta;
    assert (hs + [h])[..|hs|] == hs;
  }

  lemma {:induction false} OddIsLowBit(n: nat, hs: seq<nat>)
    requires n > 0 && hs != [] && IsDigits(n, hs)
    ensures After(n, hs).odd == Bit(FromDigits(n, hs), 0)
  {
    hide Bit, FromDigits, StepBits, Delta, Adjust, Unit, Xor;
    FromDigitsBits(n, hs);
  }

  /** `index ^= (index ^ nthbits) >> 1` turns the digits of an index into Gray digits,
      each seen through the parity of the digit before it. */
  lemma {:induction false} GrayWord(n: nat, hs: seq<nat>)
    requires n > 0 && IsDigits(n, hs)
    ensures forall k: nat {:trigger Bit(FromDigits(n, BitsOf(n, hs)), k)} ::
              Bit(FromDigits(n, BitsOf(n, hs)), k) ==
              (Bit(FromDigits(n, hs), k) != (Bit(FromDigits(n, hs), k + 1) != Bit(Nth(n, |hs|), k + 1)))
  {
    hide Bit, FromDigits, StepBits, Delta, Adjust, Unit, Xor, After, Nth, IsDigits, Pow2;
    if hs == [] {
      GrayWordEmpty(n);
    } else {
      var init := hs[..|hs| - 1];
      DigitsInit(n, hs);
      GrayWord(n, init);
      forall k: nat {:trigger Bit(FromDigits(n, BitsOf(n, hs)), k)} ensures
        Bit(FromDigits(n, BitsOf(n, hs)), k) ==
        (Bit(FromDigits(n, hs), k) != (Bit(FromDigits(n, hs), k + 1) != Bit(Nth(n, |hs|), k + 1)))
      {
        GrayWordBit(n, hs, k);
      }
    }
  }

  lemma GrayWordEmpty(n: nat)
    requires n > 0
    ensures FromDigits(n, []) == 0 && Nth(n, 0) == 0
    ensures forall k: nat :: !Bit(0, k)
  {
    NoBits();
  }

  lemma DigitsInit(n: nat, hs: seq<nat>)
    requires hs != [] && IsDigits(n, hs)
    ensures IsDigits(n, hs[..|hs| - 1]) && hs[|hs| - 1] < Pow2(n)
  {}

  lemma {:induction false} GrayWordBit(n: nat, hs: seq<nat>, k: nat)
    requires n > 0 && hs != [] && IsDigits(n, hs)
    requires k >= n ==> var init := hs[..|hs| - 1];
               Bit(FromDigits(n, BitsOf(n, init)), k - n) ==
               (Bit(FromDigits(n, init), k - n) != (Bit(FromDigits(n, init), k - n + 1) != Bit(Nth(n, |init|), k - n + 1)))
    ensures Bit(FromDigits(n, BitsOf(n, hs)), k) ==
            (Bit(FromDigits(n, hs), k) != (Bit(FromDigits(n, hs), k + 1) != Bit(Nth(n, |hs|), k + 1)))
  {
    hide Bit, FromDigits, StepBits, Delta, Adjust, Unit, Xor, After, Nth, IsDigits, Pow2;
    var init, h := hs[..|hs| - 1], hs[|hs| - 1];
    DigitsInit(n, hs);
    BitsOfDigits(n, hs);
    DigitsInit(n, BitsOf(n, hs));
    var bs := BitsOf(n, hs);
    assert bs[..|hs| - 1] == BitsOf(n, init) && bs[|hs| - 1] == StepBits(n, After(n, init), h);
    FromDigitsBits(n, bs);
    FromDigitsBits(n, hs);
    NthBit(n, |hs|, k + 1);
    if k < n {
      StepBit(n, After(n, init), h, k);
      if k + 1 == n {
        if init == [] { GrayWordEmpty(n); AfterNone(n); HighBitsClear(h, n); }
        else { OddIsLowBit(n, init); NthLow(n, |init|); }
      }
    }
  }

  lemma AfterNone(n: nat)
    requires n > 0
    ensures After(n, []) == Start
  {}

  lemma {:induction false} StepBit(n: nat, s: Phase, h: nat, k: nat)
    requires n > 0
    ensures Bit(StepBits(n, s, h), k) == ((Bit(h, k) != Bit(h, k + 1)) != (!s.odd && k == n - 1))
  {
    hide Bit, Xor, Fold, TopFix;
  }

  /** `coords ^= coords >> nDims` turns rows into the exclusive ors of successive rows. */
  lemma {:induction false} DeltaWord(n: nat, hs: seq<nat>)
    requires n > 0 && IsDigits(n, hs)
    ensures Fold(FromDigits(n, Rows(n, hs)), n) == FromDigits(n, Deltas(n, hs))
  {
    hide Bit, FromDigits, StepBits, Delta, Adjust, Unit, Xor, After, IsDigits, Pow2, Fold, Rows, Deltas;
    if hs == [] {
      DeltaWordEmpty(n);
      SameBits(Fold(0, n), 0);
    } else {
      DigitsInit(n, hs);
      DeltaWord(n, hs[..|hs| - 1]);
      forall k: nat ensures Bit(Fold(FromDigits(n, Rows(n, hs)), n), k) == Bit(FromDigits(n, Deltas(n, hs)), k) {
        DeltaWordBit(n, hs, k);
      }
      SameBits(Fold(FromDigits(n, Rows(n, hs)), n), FromDigits(n, Deltas(n, hs)));
    }
  }

  lemma DeltaWordEmpty(n: nat)
    requires n > 0
    ensures Rows(n, []) == [] && Deltas(n, []) == [] && FromDigits(n, []) == 0
    ensures forall k: nat :: !Bit(0, k)
  {
    NoBits();
  }

  lemma {:induction false} DeltaWordBit(n: nat, hs: seq<nat>, k: nat)
    requires n > 0 && hs != [] && IsDigits(n, hs)
    requires var init := hs[..|hs| - 1]; Fold(FromDigits(n, Rows(n, init)), n) == FromDigits(n, Deltas(n, init))
    ensures Bit(Fold(FromDigits(n, Rows(n, hs)), n), k) == Bit(FromDigits(n, Deltas(n, hs)), k)
  {
    hide *;
    var init, h := hs[..|hs| - 1], hs[|hs| - 1];
    assert hs == init + [h];
    DigitsInit(n, hs);
    BitsOfDigits(n, hs);
    DigitsOfRows(n, hs);
    BitsOfOn(n, init, h);
    WalkOn(n, init, h);
    var rows, cs := Rows(n, hs), Deltas(n, hs);
    var r0, c0 := FromDigits(n, Rows(n, init)), FromDigits(n, Deltas(n, init));
    assert rows[..|hs| - 1] == Rows(n, init) && cs[..|hs| - 1] == Deltas(n, init);
    DigitWordBit(n, rows, k);
    DigitWordBit(n, rows, k + n);
    DigitWordBit(n, cs, k);
    if k < n {
      StepRow(n, After(n, init), h, k);
      LastRowBit(n, init, k);
      assert Bit(Fold(FromDigits(n, rows), n), k) == (Bit(FromDigits(n, rows), k) != Bit(FromDigits(n, rows), k + n));
    } else {
      FoldHigh(FromDigits(n, rows), r0, c0, n, k);
    }
  }

  lemma DigitWordBit(n: nat, ds: seq<nat>, k: nat)
    requires n > 0 && ds != [] && IsDigits(n, ds)
    ensures Bit(FromDigits(n, ds), k) ==
            if k < n then Bit(ds[|ds| - 1], k) else Bit(FromDigits(n, ds[..|ds| - 1]), k - n)
  {
    hide *;
    DigitsInit(n, ds);
    FromDigitsBits(n, ds);
  }

  lemma {:induction false} FoldHigh(r: nat, r0: nat, c0: nat, n: nat, k: nat)
    requires k >= n && Bit(r, k) == Bit(r0, k - n) && Bit(r, k + n) == Bit(r0, k) && Fold(r0, n) == c0
    ensures Bit(Fold(r, n), k) == Bit(c0, k - n)
  {
    hide *;
    assert Bit(Fold(r, n), k) == (Bit(r, k) != Bit(r, k + n));
    assert Bit(Fold(r0, n), k - n) == (Bit(r0, k - n) != Bit(r0, k - n + n));
  }

  lemma {:induction false} StepRow(n: nat, s: Phase, h: nat, k: nat)
    requires s.rot < n
    ensures Bit(Step(n, s, h).row, k) == (Bit(s.row, k) != Bit(Delta(n, s, h), k))
  {
    hide Bit, Xor, Delta, Adjust, Unit, StepBits;
  }

  lemma {:induction false} LastRowBit(n: nat, hs: seq<nat>, k: nat)
    requires n > 0 && IsDigits(n, hs) && k < n
    ensures Bit(FromDigits(n, Rows(n, hs)), k) == Bit(After(n, hs).row, k)
  {
    hide Bit, FromDigits, Step, Pow2;
    if hs == [] {
      DeltaWordEmpty(n);
    } else {
      DigitsOfRows(n, hs);
      FromDigitsBits(n, Rows(n, hs));
    }
  }

  // ---- packing a cell into a word and unpacking it

  lemma {:induction false} FromDigitsAt(n: nat, rows: seq<nat>, k: nat, d: nat)
    requires IsDigits(n, rows) && d < n && k < |rows|
    ensures Bit(FromDigits(n, rows), Mul(k, n) + d) == Bit(rows[|rows| - 1 - k], d)
    decreases k
  {
    hide Bit, FromDigits, Pow2, Shr, Low, Mul;
    DigitsInit(n, rows);
    FromDigitsBits(n, rows);
    if k == 0 {
      MulSmall(n);
    } else {
      FromDigitsAt(n, rows[..|rows| - 1], k - 1, d);
      MulAdd(k - 1, 1, n);
      MulSmall(n);
    }
  }

  lemma {:induction false} CellOfBit(n: nat, rows: seq<nat>, d: nat, k: nat)
    requires d < n
    ensures Bit(CellOf(n, rows)[d], k) == (k < |rows| && Bit(rows[|rows| - 1 - k], d))
    decreases |rows|
  {
    if rows == [] {
      NoBits();
    } else {
      var c := CellOf(n, rows[..|rows| - 1]);
      var x := CellOf(n, rows)[d];
      assert x == 2 * c[d] + B2n(Bit(rows[|rows| - 1], d));
      if k > 0 {
        assert Bit(x, k) == Bit(c[d], k - 1);
        CellOfBit(n, rows[..|rows| - 1], d, k - 1);
      }
    }
  }

  lemma {:induction false} RowsOfAt(c: Cell, m: nat, k: nat)
    requires k < m
    ensures RowsOf(c, m)[m - 1 - k] == Row(c, k)
    decreases m
  {
    hide Row, Bit, Pow2;
    if k > 0 {
      RowsOfAt(Half(c), m - 1, k - 1);
      forall d: nat ensures Bit(Row(Half(c), k - 1), d) == Bit(Row(c, k), d) {
        if d < |c| { HalfBit(c, d, k); }
      }
      SameBits(Row(Half(c), k - 1), Row(c, k));
    }
  }

  lemma HalfBit(c: Cell, d: nat, k: nat)
    requires d < |c| && k > 0
    ensures Bit(Half(c)[d], k - 1) == Bit(c[d], k)
  {}

  /** The cell's coordinates side by side, the first one lowest. */
  function Packed(c: Cell, m: nat): nat
    decreases |c|
  {
    if c == [] then 0 else Or(Shl(Packed(c[1..], m), m), c[0])
  }

  lemma {:induction false} PackedAt(c: Cell, m: nat, d: nat, k: nat)
    requires IsCell(c, m) && d < |c| && k < m
    ensures Bit(Packed(c, m), Mul(d, m) + k) == Bit(c[d], k)
    decreases |c|
  {
    hide Bit, Or, Shl, Pow2;
    assert Packed(c, m) == Or(Shl(Packed(c[1..], m), m), c[0]);
    HighBitsClear(c[0], m);
    if d > 0 { PackedAt(c[1..], m, d - 1, k); }
  }

  lemma {:induction false} PackedBound(c: Cell, m: nat)
    requires forall d :: 0 <= d < |c| ==> c[d] < Pow2(m)
    ensures Packed(c, m) < Pow2(Mul(|c|, m))
    decreases |c|
  {
    hide Bit, Or, Shl, Pow2;
    if c == [] {
    } else {
      PackedBound(c[1..], m);
      JoinBound(Packed(c[1..], m), m, c[0], Mul(|c| - 1, m));
    }
  }

  lemma {:induction false} JoinBound(hi: nat, m: nat, lo: nat, w: nat)
    requires hi < Pow2(w) && lo < Pow2(m)
    ensures Or(Shl(hi, m), lo) < Pow2(m + w)
  {
    hide *;
    HighBitsClear(hi, w);
    HighBitsClear(lo, m);
    BoundFromBits(Or(Shl(hi, m), lo), m + w);
  }

  /** Transposing the packed cell gives the word of its rows. */
  lemma {:induction false} TransposePacked(c: Cell, m: nat)
    requires IsCell(c, m) && m > 0
    ensures Transpose(|c|, m, Packed(c, m)) == FromDigits(|c|, RowsOf(c, m))
  {
    hide *;
    var n := |c|;
    CellSize(c, m);
    var x, y := Transpose(n, m, Packed(c, m)), FromDigits(n, RowsOf(c, m));
    FromDigitsBound(n, RowsOf(c, m));
    HighBitsClear(y, Mul(m, n));
    forall p: nat ensures Bit(x, p) == Bit(y, p) {
      if p < Mul(m, n) {
        QuoBound(p, n, m);
        QuoRem(p, n);
        var k, d := Quo(p, n), Rem(p, n);
        PackedAt(c, m, d, k);
        FromDigitsAt(n, RowsOf(c, m), k, d);
        RowsOfAt(c, m, k);
      }
    }
    SameBits(x, y);
  }

  lemma CellSize(c: Cell, m: nat)
    requires IsCell(c, m)
    ensures |c| > 0
  {}

  /** Each field of the transposed rows is a coordinate of their cell. */
  lemma {:induction false} UnpackRows(n: nat, rows: seq<nat>, d: nat)
    requires n > 0 && rows != [] && IsDigits(n, rows) && d < n
    ensures Low(Shr(Transpose(|rows|, n, FromDigits(n, rows)), Mul(d, |rows|)), |rows|) == CellOf(n, rows)[d]
  {
    hide *;
    var m := |rows|;
    var P := Transpose(m, n, FromDigits(n, rows));
    var x, y := Low(Shr(P, Mul(d, m)), m), CellOf(n, rows)[d];
    forall k: nat ensures Bit(x, k) == Bit(y, k) {
      CellOfBit(n, rows, d, k);
      if k < m {
        TransposeAt(m, n, FromDigits(n, rows), k, d);
        FromDigitsAt(n, rows, k, d);
        assert Bit(Shr(P, Mul(d, m)), k) == Bit(P, k + Mul(d, m));
      }
    }
    SameBits(x, y);
  }

  /** `for (d = nDims; d--;) coords = coords << nBits | coord[d]`. */
  method Pack(nDims: nat, nBits: nat, coord: Cell) returns (coords: nat)
    requires nDims == |coord| && IsCell(coord, nBits) && Mul(nDims, nBits) <= 64
    ensures coords == Packed(coord, nBits)
  {
    hide Bit, Or, Shl, Pow2, ShlW, Mul;
    coords := 0;
    var d := nDims;
    while d > 0
      invariant 0 <= d <= nDims
      invariant coords == Packed(coord[d..], nBits)
    {
      d := d - 1;
      PackedBound(coord[d + 1..], nBits);
      MulMonoFit(nDims - d, nDims, nBits);
      ShlFits64(coords, nBits, Mul(nDims - d - 1, nBits));
      assert coord[d..][1..] == coord[d + 1..] && coord[d..][0] == coord[d];
      coords := Or(ShlW(coords, nBits, 64), coord[d]);
    }
    assert coord[0..] == coord;
  }

  lemma {:induction false} MulMonoFit(a: nat, b: nat, n: nat)
    requires 0 < a <= b && Mul(b, n) <= 64
    ensures Mul(a - 1, n) + n == Mul(a, n) <= 64
  {
    hide Mul;
    MulAdd(a - 1, 1, n);
    MulSmall(n);
    MulMono(a, b, n);
  }

  /** A left shift that stays within the word loses nothing. */
  lemma {:induction false} ShlFits64(x: nat, s: nat, w: nat)
    requires x < Pow2(w) && w + s <= 64
    ensures ShlW(x, s, 64) == Shl(x, s)
  {
    hide *;
    HighBitsClear(x, w);
    SameBits(ShlW(x, s, 64), Shl(x, s));
  }

  // ---- the digit loops

  lemma {:induction false} AndOnes(x: nat, n: nat)
    ensures And(x, Ones(n)) == Low(x, n)
  {
    hide *;
    SameBits(And(x, Ones(n)), Low(x, n));
  }

  /** The digits of a word, read from the top. */
  lemma {:induction false} PrefixShr(n: nat, ds: seq<nat>, j: nat)
    requires IsDigits(n, ds) && j <= |ds|
    ensures Shr(FromDigits(n, ds), Mul(|ds| - j, n)) == FromDigits(n, ds[..j])
    decreases |ds|
  {
    hide Bit, FromDigits, Pow2, Shr;
    if j == |ds| {
      assert ds[..j] == ds;
      ShrNone(FromDigits(n, ds));
    } else {
      FromDigitsBits(n, ds);
      var init := ds[..|ds| - 1];
      PrefixShr(n, init, j);
      assert init[..j] == ds[..j];
      ShrTwice(FromDigits(n, ds), n, Mul(|ds| - 1 - j, n));
    }
  }

  lemma ShrNone(x: nat)
    ensures Shr(x, 0) == x
  {}

  lemma {:induction false} DigitFromTop(n: nat, ds: seq<nat>, j: nat)
    requires IsDigits(n, ds) && j < |ds|
    ensures And(Shr(FromDigits(n, ds), Mul(|ds| - j - 1, n)), Ones(n)) == ds[j]
  {
    hide Bit, FromDigits, Pow2, Shr, And, Ones, Mul, Low;
    PrefixShr(n, ds, j + 1);
    FromDigitsBits(n, ds[..j + 1]);
    AndOnes(FromDigits(n, ds[..j + 1]), n);
  }

  lemma {:induction false} BitsOfPrefix(n: nat, hs: seq<nat>, j: nat)
    requires n > 0 && j < |hs|
    ensures BitsOf(n, hs)[j] == StepBits(n, After(n, hs[..j]), hs[j])
    ensures Deltas(n, hs)[j] == Delta(n, After(n, hs[..j]), hs[j])
    decreases |hs|
  {
    hide After, StepBits, Delta;
    if j < |hs| - 1 {
      BitsOfPrefix(n, hs[..|hs| - 1], j);
      assert hs[..|hs| - 1][..j] == hs[..j];
    }
  }

  /** One more digit fits in the word. */
  lemma {:induction false} AppendDigit(n: nat, ds: seq<nat>, d: nat, m: nat)
    requires IsDigits(n, ds) && |ds| < m && Mul(m, n) <= 64
    ensures Or(ShlW(FromDigits(n, ds), n, 64), d) == FromDigits(n, ds + [d])
  {
    hide *;
    FromDigitsBound(n, ds);
    MulMonoFit(|ds| + 1, m, n);
    ShlFits64(FromDigits(n, ds), n, Mul(|ds|, n));
    FromDigitsOn(n, ds, d);
  }

  lemma DigitsTake(n: nat, hs: seq<nat>, j: nat)
    requires IsDigits(n, hs) && j < |hs|
    ensures IsDigits(n, hs[..j]) && hs[..j + 1] == hs[..j] + [hs[j]] && hs[j] < Pow2(n)
  {}

  /** The do-while loop of hilbert_i2c: from Gray digits to row differences. */
  method WalkToDeltas(n: nat, m: nat, word: nat, ghost hs: seq<nat>) returns (coords: nat)
    requires 2 <= n <= 31 && 1 <= m == |hs| && Mul(m, n) <= 64 && IsDigits(n, hs)
    requires word == FromDigits(n, BitsOf(n, hs))
    ensures coords == FromDigits(n, Deltas(n, hs))
  {
    hide *;
    var ndOnes := OnesW(n, 32);
    var nd1Ones := Shr(ndOnes, 1);
    SameBits(nd1Ones, Ones(n - 1));
    var b := Mul(m, n);
    var rotation, flipBit := 0, 0;
    coords := 0;
    ghost var j := 0;
    BitsOfDigits(n, hs);
    LoopStart(n, hs);
    while b > 0
      invariant 0 <= j <= m && b == Mul(m - j, n)
      invariant rotation == After(n, hs[..j]).rot && flipBit == After(n, hs[..j]).flip
      invariant coords == FromDigits(n, Deltas(n, hs[..j]))
      invariant b == 0 <==> j == m
    {
      MulMonoFit(m - j, m, n);
      b := b - n;
      DigitFromTop(n, BitsOf(n, hs), j);
      var bits := And(Shr(word, b), ndOnes);
      BitsOfPrefix(n, hs, j);
      DigitsTake(n, hs, j);
      DigitsTake(n, BitsOf(n, hs), j);
      ghost var s := After(n, hs[..j]);
      BitsOfDigits(n, hs[..j]);
      AppendDigit(n, Deltas(n, hs[..j]), Delta(n, s, hs[j]), m);
      BitsOfOn(n, hs[..j], hs[j]);
      WalkOn(n, hs[..j], hs[j]);
      StepParts(n, s, hs[j]);
      coords := Or(ShlW(coords, n, 64), Xor(RotateLeft(bits, rotation, n), flipBit));
      UnitIsShift(rotation, n);
      flipBit := ShlW(1, rotation, 32);
      rotation := AdjustRotation(rotation, n, bits, nd1Ones);
      j := j + 1;
      MulZero(m - j, n);
    }
    assert hs[..m] == hs;
  }

  lemma LoopStart(n: nat, hs: seq<nat>)
    requires n > 0
    ensures hs[..0] == [] && After(n, []) == Start && Deltas(n, []) == [] && BitsOf(n, []) == []
    ensures FromDigits(n, []) == 0 && Start.rot == 0 && Start.flip == 0
    ensures Mul(|hs|, n) == 0 <==> |hs| == 0
  {}

  lemma MulZero(a: nat, n: nat)
    requires n > 0
    ensures Mul(a, n) == 0 <==> a == 0
  {}

  lemma StepParts(n: nat, s: Phase, h: nat)
    requires s.rot < n
    ensures Step(n, s, h).rot == Adjust(s.rot, StepBits(n, s, h), n)
    ensures Step(n, s, h).flip == Unit(s.rot, n)
    ensures Delta(n, s, h) == Xor(RotL(StepBits(n, s, h), s.rot, n), s.flip)
  {
    hide Adjust, Unit, Xor, RotL, StepBits;
  }

  lemma {:induction false} UnitIsShift(r: nat, n: nat)
    requires r < n <= 31
    ensures ShlW(1, r, 32) == Unit(r, n)
  {
    hide *;
    forall k: nat ensures Bit(ShlW(1, r, 32), k) == Bit(Unit(r, n), k) {
      if k >= r { SmallBit(true, k - r); }
      B2nOne();
    }
    SameBits(ShlW(1, r, 32), Unit(r, n));
  }

  lemma B2nOne()
    ensures B2n(true) == 1
  {}

  /** The do-while loop of hilbert_c2i: from row differences to Gray digits. */
  method WalkToBits(n: nat, m: nat, word: nat, ghost hs: seq<nat>) returns (index: nat)
    requires 2 <= n <= 31 && 1 <= m == |hs| && Mul(m, n) <= 64 && IsDigits(n, hs)
    requires word == FromDigits(n, Deltas(n, hs))
    ensures index == FromDigits(n, BitsOf(n, hs))
  {
    hide *;
    var ndOnes := OnesW(n, 32);
    var nd1Ones := Shr(ndOnes, 1);
    SameBits(nd1Ones, Ones(n - 1));
    var b := Mul(m, n);
    var rotation, flipBit := 0, 0;
    index := 0;
    ghost var j := 0;
    BitsOfDigits(n, hs);
    LoopStart(n, hs);
    while b > 0
      invariant 0 <= j <= m && b == Mul(m - j, n)
      invariant rotation == After(n, hs[..j]).rot && flipBit == After(n, hs[..j]).flip
      invariant index == FromDigits(n, BitsOf(n, hs[..j]))
      invariant b == 0 <==> j == m
    {
      MulMonoFit(m - j, m, n);
      b := b - n;
      DigitFromTop(n, Deltas(n, hs), j);
      var bits := And(Shr(word, b), ndOnes);
      BitsOfPrefix(n, hs, j);
      DigitsTake(n, hs, j);
      DigitsTake(n, BitsOf(n, hs), j);
      ghost var s := After(n, hs[..j]);
      StepParts(n, s, hs[j]);
      AfterValid(n, hs[..j]);
      BitsFromDelta(n, s, hs[j]);
      bits := RotateRight(Xor(flipBit, bits), rotation, n);
      BitsOfDigits(n, hs[..j]);
      AppendDigit(n, BitsOf(n, hs[..j]), StepBits(n, s, hs[j]), m);
      BitsOfOn(n, hs[..j], hs[j]);
      WalkOn(n, hs[..j], hs[j]);
      index := Or(ShlW(index, n, 64), bits);
      UnitIsShift(rotation, n);
      flipBit := ShlW(1, rotation, 32);
      rotation := AdjustRotation(rotation, n, bits, nd1Ones);
      j := j + 1;
      MulZero(m - j, n);
    }
    assert hs[..m] == hs;
  }

  lemma {:induction false} BitsFromDelta(n: nat, s: Phase, h: nat)
    requires Valid(n, s) && StepBits(n, s, h) < Pow2(n)
    ensures Xor(s.flip, Delta(n, s, h)) < Pow2(n)
    ensures RotR(Xor(s.flip, Delta(n, s, h)), s.rot, n) == StepBits(n, s, h)
  {
    hide Xor, RotL, RotR, StepBits, Pow2;
    var r := RotL(StepBits(n, s, h), s.rot, n);
    XorMiddle(s.flip, r);
    RotInverse(StepBits(n, s, h), s.rot, n);
  }

  lemma {:induction false} XorMiddle(f: nat, x: nat)
    ensures Xor(f, Xor(x, f)) == x
  {
    hide *;
    SameBits(Xor(f, Xor(x, f)), x);
  }

  // ---- one dimension, and one bit per dimension

  /** In one dimension the curve is the identity. */
  lemma {:induction false} OneDimDigits(rows: seq<nat>)
    requires IsDigits(1, rows)
    ensures Digits(1, rows) == rows
  {
    hide *;
    OneDimNone();
    if rows != [] {
      var init, row := rows[..|rows| - 1], rows[|rows| - 1];
      OneDimInit(rows);
      OneDimDigits(init);
      AfterValid(1, init);
      AfterInStep(1, init);
      OneDimStep(After(1, init), row);
      OneDimSnoc(rows);
      assert rows == init + [row];
    }
  }

  lemma OneDimNone()
    ensures Digits(1, []) == []
  {}

  lemma OneDimInit(rows: seq<nat>)
    requires rows != [] && IsDigits(1, rows)
    ensures IsDigits(1, rows[..|rows| - 1]) && rows[|rows| - 1] < Pow2(1)
  {}

  lemma OneDimSnoc(rows: seq<nat>)
    requires rows != []
    ensures var init := Digits(1, rows[..|rows| - 1]);
            Digits(1, rows) == init + [StepDigit(1, After(1, init), rows[|rows| - 1])]
  {
    hide StepDigit, After;
  }

  lemma {:induction false} OneDimStep(s: Phase, row: nat)
    requires Valid(1, s) && InStep(s) && row < Pow2(1)
    ensures StepDigit(1, s, row) == row
  {
    hide Xor, RotR, TopFix, UnGray, Parity, Bit;
    var t := Xor(s.flip, Xor(s.row, row));
    XorBound(s.row, row, 1);
    XorBound(s.flip, Xor(s.row, row), 1);
    RotZero(t, 1);
    var g := Xor(RotR(t, s.rot, 1), TopFix(1, s.odd));
    XorBound(t, TopFix(1, s.odd), 1);
    OneBitUnGray(g);
    ParityXor(s.row, row);
    ParityXor(s.flip, Xor(s.row, row));
    ParityXor(t, TopFix(1, s.odd));
    ParityTopFix(1, s.odd);
    assert Parity(g) == Parity(row);
    OneBitParity(g);
    OneBitParity(row);
  }

  lemma {:induction false} RotZero(x: nat, n: nat)
    requires n > 0 && x < Pow2(n)
    ensures RotR(x, 0, n) == x && RotL(x, 0, n) == x
  {
    hide *;
    HighBitsClear(x, n);
    SameBits(RotR(x, 0, n), x);
    SameBits(RotL(x, 0, n), x);
  }

  lemma OneBitUnGray(g: nat)
    requires g < Pow2(1)
    ensures UnGray(g) == g
  {
    assert Shr(g, 1) == 0;
    assert UnGray(0) == 0;
    NoBits();
    if g > 0 { SameBits(Xor(g, 0), g); }
  }

  lemma OneBitParity(x: nat)
    requires x < Pow2(1)
    ensures x == B2n(Parity(x))
  {
    assert x == 0 || (x == 1 && Parity(1));
  }

  lemma {:induction false} OneDimIndex(x: nat, m: nat)
    requires x < Pow2(m)
    ensures Index([x], m) == x
  {
    hide RowsOf, Digits, FromDigits, Pow2, Bit;
    var rows := RowsOf([x], m);
    OneDimDigits(rows);
    var y := FromDigits(1, rows);
    FromDigitsBound(1, rows);
    MulComm(m, 1);
    MulSmall(m);
    HighBitsClear(y, m);
    HighBitsClear(x, m);
    forall k: nat ensures Bit(y, k) == Bit(x, k) {
      if k < m {
        FromDigitsAt(1, rows, k, 0);
        RowsOfAt([x], m, k);
        MulComm(k, 1);
        MulSmall(k);
      }
    }
    SameBits(y, x);
  }

  lemma {:induction false} OneDimCell(i: nat, m: nat)
    requires i < Pow2(m)
    ensures CellAt(1, m, i) == [i]
  {
    hide Index, CellAt, Pow2;
    OneDimIndex(i, m);
    assert IsCell([i], m);
    CellAtIndex([i], m);
  }

  /** With one bit per dimension the curve is the Gray code. */
  lemma {:induction false} OneBitGray(n: nat, h: nat)
    requires n > 0 && h < Pow2(n)
    ensures Rows(n, [h]) == [Fold(h, 1)]
  {
    hide Xor, RotL, Fold, TopFix, Unit, Adjust, Bit, Pow2, StepBits;
    var s := Start;
    LoopStart(n, []);
    WalkOn(n, [], h);
    assert [] + [h] == [h];
    NoBits();
    var b := StepBits(n, s, h);
    FoldBound(h, 1, n);
    forall k: nat ensures Bit(b, k) == Bit(Fold(h, 1), k) { StepBit(n, s, h, k); }
    SameBits(b, Fold(h, 1));
    RotZero(b, n);
    SameBits(Xor(b, 0), b);
    SameBits(Xor(0, b), b);
    assert Step(n, s, h).row == b;
    assert Rows(n, []) == [];
  }

  // ---- the conversions

  /** hilbert_c2i: the index of a cell. */
  method HilbertC2I(nDims: nat, nBits: nat, coord: Cell) returns (index: nat)
    requires nDims == |coord| && IsCell(coord, nBits) && 1 <= nBits && Mul(nBits, nDims) <= 64
    requires nDims == 1 || nBits == 1 || nDims <= 31
    ensures index == Index(coord, nBits)
  {
    hide *;
    CellSize(coord, nBits);
    if nDims > 1 {
      var nDimsBits := Mul(nDims, nBits);
      MulComm(nDims, nBits);
      var coords := Pack(nDims, nBits, coord);
      ghost var rows := RowsOf(coord, nBits);
      ghost var hs := Digits(nDims, rows);
      RowsOfDigits(nDims, rows);
      FromDigitsBound(nDims, hs);
      IndexDef(coord, nBits);
      TransposePacked(coord, nBits);
      PackedCell(coord, nBits);
      if nBits > 1 {
        NthIsQuotient(nDims, nBits);
        var nthbits := OnesW(nDimsBits, 64) / OnesW(nDims, 32);
        SizesFit(nDims, nBits);
        coords := BitTransposeLog(nDims, nBits, coords);
        DeltaWord(nDims, hs);
        FoldDef(coords, nDims);
        coords := Xor(coords, Shr(coords, nDims));
        index := WalkToBits(nDims, nBits, coords, hs);
        GrayIndex(nDims, hs);
        index := Xor(index, Shr(nthbits, 1));
      } else {
        index := coords;
        OneBitWord(coord, coords);
      }
      FoldBound(FromDigits(nDims, hs), 1, nDimsBits);
      ghost var g := index;
      index := XorScan(index, 1, nDimsBits);
      FoldInjective(index, FromDigits(nDims, hs), 1);
    } else {
      index := coord[0];
      CellParts(coord, nBits, 0);
      OneDimIndex(coord[0], nBits);
      assert coord == [coord[0]];
    }
  }

  lemma CellParts(c: Cell, m: nat, d: nat)
    requires IsCell(c, m) && d < |c|
    ensures c[d] < Pow2(m)
  {}

  lemma PackedCell(c: Cell, m: nat)
    requires IsCell(c, m)
    ensures Packed(c, m) < Pow2(Mul(|c|, m))
  {
    PackedBound(c, m);
  }

  lemma {:induction false} SizesFit(n: nat, m: nat)
    requires n > 1 && m > 1 && Mul(m, n) <= 64
    ensures n <= 32 && m <= 32
  {
    MulComm(m, n);
    MulMono(2, n, m);
    MulMono(2, m, n);
  }

  /** `index ^= nthbits >> 1` leaves the Gray code of the index. */
  lemma {:induction false} GrayIndex(n: nat, hs: seq<nat>)
    requires n > 0 && IsDigits(n, hs)
    ensures Xor(FromDigits(n, BitsOf(n, hs)), Shr(Nth(n, |hs|), 1)) == Fold(FromDigits(n, hs), 1)
    ensures Xor(FromDigits(n, hs), Shr(Xor(FromDigits(n, hs), Nth(n, |hs|)), 1)) == FromDigits(n, BitsOf(n, hs))
  {
    hide *;
    GrayWord(n, hs);
    var w, x, t := FromDigits(n, BitsOf(n, hs)), FromDigits(n, hs), Nth(n, |hs|);
    SameBits(Xor(w, Shr(t, 1)), Fold(x, 1));
    SameBits(Xor(x, Shr(Xor(x, t), 1)), w);
  }

  lemma {:induction false} OneBitWord(c: Cell, packed: nat)
    requires IsCell(c, 1) && packed == Packed(c, 1)
    ensures packed == Fold(FromDigits(|c|, Digits(|c|, RowsOf(c, 1))), 1)
  {
    hide Bit, Pow2, RowsOf, Transpose, Packed, Fold, Mul;
    var n := |c|;
    var rows := RowsOf(c, 1);
    RowsOfDigits(n, rows);
    var hs := Digits(n, rows);
    OneDigit(n, hs);
    OneBitGray(n, hs[0]);
    OneDigit(n, rows);
    TransposePacked(c, 1);
    PackedCell(c, 1);
    TransposeOne(n, packed);
    assert hs == [hs[0]];
  }

  lemma {:induction false} OneDigit(n: nat, ds: seq<nat>)
    requires |ds| == 1
    ensures FromDigits(n, ds) == ds[0]
  {
    hide Bit, Or, Shl;
    assert ds[..0] == [];
    ShlMul(0, n);
    NoBits();
    SameBits(Or(0, ds[0]), ds[0]);
  }

  /** One-bit fields are already transposed. */
  lemma {:induction false} TransposeOne(n: nat, x: nat)
    requires n > 0 && x < Pow2(Mul(n, 1))
    ensures Transpose(n, 1, x) == x
  {
    hide *;
    MulComm(n, 1);
    MulSmall(n);
    HighBitsClear(x, n);
    forall p: nat ensures Bit(Transpose(n, 1, x), p) == Bit(x, p) {
      if p < n {
        QuoRemUnfold(p, n);
        MulComm(p, 1);
        MulSmall(p);
      }
    }
    SameBits(Transpose(n, 1, x), x);
  }

  /** hilbert_i2c: the cell of an index, written to the caller's array. */
  method HilbertI2C(nDims: nat, nBits: nat, index: nat, coord: array<nat>)
    requires 1 <= nDims <= coord.Length && 1 <= nBits && Mul(nBits, nDims) <= 64
    requires nDims == 1 || nBits == 1 || nDims <= 31
    requires index < Pow2(Mul(nBits, nDims))
    modifies coord
    ensures coord[..nDims] == CellAt(nDims, nBits, index)
    ensures coord[nDims..] == old(coord[nDims..])
  {
    hide *;
    if nDims > 1 {
      var coords;
      ghost var hs := ToDigits(nDims, nBits, index);
      ghost var rows := Rows(nDims, hs);
      ToDigitsDigits(nDims, nBits, index);
      DigitsOfRows(nDims, hs);
      NumberRoundTrip(nDims, nBits, index);
      CellAtDef(nDims, nBits, index);
      if nBits > 1 {
        SizesFit(nDims, nBits);
        var nDimsBits := Mul(nBits, nDims);
        NthIsQuotient(nDims, nBits);
        var nthbits := OnesW(nDimsBits, 64) / OnesW(nDims, 32);
        GrayIndex(nDims, hs);
        var word := Xor(index, Shr(Xor(index, nthbits), 1));
        coords := WalkToDeltas(nDims, nBits, word, hs);
        DeltaWord(nDims, hs);
        BitsOfDigits(nDims, hs);
        FromDigitsBound(nDims, Deltas(nDims, hs));
        coords := XorScan(coords, nDims, nDimsBits);
        FoldInjective(coords, FromDigits(nDims, rows), nDims);
        FromDigitsBound(nDims, rows);
        MulComm(nDims, nBits);
        coords := BitTransposeLog(nBits, nDims, coords);
      } else {
        FoldDef(index, 1);
        coords := Xor(index, Shr(index, 1));
        OneBitCoords(nDims, index, hs);
      }
      Unpack(nDims, nBits, coords, rows, coord);
    } else {
      coord[0] := index;
      MulComm(nBits, 1);
      MulSmall(nBits);
      OneDimCell(index, nBits);
    }
  }

  lemma ToDigitsDigits(n: nat, m: nat, x: nat)
    ensures IsDigits(n, ToDigits(n, m, x))
  {}

  lemma {:induction false} OneBitCoords(n: nat, i: nat, hs: seq<nat>)
    requires n > 0 && i < Pow2(Mul(1, n)) && hs == ToDigits(n, 1, i) && FromDigits(n, hs) == i
    ensures Fold(i, 1) == Transpose(1, n, FromDigits(n, Rows(n, hs)))
  {
    hide Bit, Pow2, Transpose, Fold, Mul, Rows, ToDigits;
    OneDigit(n, hs);
    MulSmall(n);
    OneBitGray(n, i);
    OneDigit(n, [Fold(i, 1)]);
    assert hs == [i];
    FoldBound(i, 1, n);
    var x := Fold(i, 1);
    TransposeRow(n, x);
  }

  lemma {:induction false} TransposeRow(n: nat, x: nat)
    requires n > 0 && x < Pow2(n)
    ensures Transpose(1, n, x) == x
  {
    hide *;
    MulComm(n, 1);
    MulSmall(n);
    HighBitsClear(x, n);
    forall p: nat ensures Bit(Transpose(1, n, x), p) == Bit(x, p) {
      if p < n {
        QuoRemOf(p, 0, 1);
        MulComm(p, 1);
        MulSmall(p);
      }
    }
    SameBits(Transpose(1, n, x), x);
  }

  /** `coord[d] = coords & nbOnes; coords >>= nBits`. */
  method Unpack(nDims: nat, nBits: nat, coords: nat, ghost rows: seq<nat>, coord: array<nat>)
    requires 1 <= nDims <= coord.Length && 1 <= nBits == |rows| && IsDigits(nDims, rows) && nBits <= 32
    requires coords == Transpose(nBits, nDims, FromDigits(nDims, rows))
    modifies coord
    ensures coord[..nDims] == CellOf(nDims, rows)
    ensures coord[nDims..] == old(coord[nDims..])
  {
    hide *;
    var nbOnes := OnesW(nBits, 32);
    var word := coords;
    MulSmall(nBits);
    ShrNone(coords);
    var d := 0;
    while d < nDims
      invariant 0 <= d <= nDims
      invariant word == Shr(coords, Mul(d, nBits))
      invariant forall i :: 0 <= i < d ==> coord[i] == CellOf(nDims, rows)[i]
      invariant coord[nDims..] == old(coord[nDims..])
    {
      UnpackRows(nDims, rows, d);
      AndOnes(word, nBits);
      coord[d] := And(word, nbOnes);
      MulAdd(d, 1, nBits);
      ShrTwice(coords, Mul(d, nBits), nBits);
      word := Shr(word, nBits);
      d := d + 1;
    }
    assert coord[..nDims] == CellOf(nDims, rows);
  }
}
