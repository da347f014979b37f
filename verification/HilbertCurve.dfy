/** The Hilbert curve of include/sfc.h as an automaton on digits.

    An index of nDims * nBits bits is nBits digits of nDims bits, most significant first;
    a cell is nBits rows of nDims bits, row j holding bit nBits-1-j of every coordinate.
    Both conversions walk the same states: reading digits and writing rows, or the
    reverse.  All of this is for any nDims >= 1 and any nBits. */
module HilbertCurve {
  import opened Bits
  import opened Words

  // ---- digits of a number

  function ToDigits(n: nat, m: nat, x: nat): (ds: seq<nat>)
    ensures |ds| == m
    ensures forall j :: 0 <= j < m ==> ds[j] < Pow2(n)
  {
    if m == 0 then [] else ToDigits(n, m - 1, Shr(x, n)) + [Low(x, n)]
  }

  predicate IsDigits(n: nat, ds: seq<nat>) {
    forall j :: 0 <= j < |ds| ==> ds[j] < Pow2(n)
  }

  function FromDigits(n: nat, ds: seq<nat>): nat
  {
    if ds == [] then 0 else Or(Shl(FromDigits(n, ds[..|ds| - 1]), n), ds[|ds| - 1])
  }

  lemma {:induction false} FromDigitsOn(n: nat, ds: seq<nat>, d: nat)
    ensures FromDigits(n, ds + [d]) == Or(Shl(FromDigits(n, ds), n), d)
  {
    assert (ds + [d])[..|ds|] == ds;
  }

  /** The bits of a number given by its digits: the last digit, then the others. */
  lemma {:induction false} FromDigitsBits(n: nat, ds: seq<nat>)
    requires ds != [] && ds[|ds| - 1] < Pow2(n)
    ensures forall k: nat {:trigger Bit(FromDigits(n, ds), k)} :: Bit(FromDigits(n, ds), k) ==
              if k < n then Bit(ds[|ds| - 1], k) else Bit(FromDigits(n, ds[..|ds| - 1]), k - n)
    ensures Shr(FromDigits(n, ds), n) == FromDigits(n, ds[..|ds| - 1])
    ensures Low(FromDigits(n, ds), n) == ds[|ds| - 1]
  {
    hide Bit, Pow2, Shl, Shr, Low, Or;
    var hi, lo, x := FromDigits(n, ds[..|ds| - 1]), ds[|ds| - 1], FromDigits(n, ds);
    assert x == Or(Shl(hi, n), lo);
    HighBitsClear(lo, n);
    forall k: nat ensures Bit(Shr(x, n), k) == Bit(hi, k) {
      assert Bit(x, k + n) == Bit(hi, k);
    }
    SameBits(Shr(x, n), hi);
    SameBits(Low(x, n), lo);
  }

  lemma {:induction false} DigitsRoundTrip(n: nat, ds: seq<nat>)
    requires IsDigits(n, ds)
    ensures ToDigits(n, |ds|, FromDigits(n, ds)) == ds
  {
    hide Bit, Or, Shl, Shr, Low, Pow2, FromDigits;
    if ds != [] {
      FromDigitsBits(n, ds);
      DigitsRoundTrip(n, ds[..|ds| - 1]);
      assert ds == ds[..|ds| - 1] + [ds[|ds| - 1]];
    }
  }

  lemma {:induction false} FromDigitsBound(n: nat, ds: seq<nat>)
    requires IsDigits(n, ds)
    ensures FromDigits(n, ds) < Pow2(Mul(|ds|, n))
  {
    hide Bit, Or, Shl, Shr, Low, Pow2;
    if ds == [] {
    } else {
      FromDigitsBits(n, ds);
      FromDigitsBound(n, ds[..|ds| - 1]);
      ShrBound(FromDigits(n, ds), n, Mul(|ds| - 1, n));
    }
  }

  lemma {:induction false} ShrBound(x: nat, n: nat, w: nat)
    requires Shr(x, n) < Pow2(w)
    ensures x < Pow2(n + w)
  {
    hide *;
    HighBitsClear(Shr(x, n), w);
    forall k: nat | k >= n + w ensures !Bit(x, k) { assert !Bit(Shr(x, n), k - n); }
    BoundFromBits(x, n + w);
  }

  lemma {:induction false} NumberRoundTrip(n: nat, m: nat, x: nat)
    requires x < Pow2(Mul(m, n))
    ensures FromDigits(n, ToDigits(n, m, x)) == x
  {
    if m > 0 {
      var ds := ToDigits(n, m, x);
      assert ds[..m - 1] == ToDigits(n, m - 1, Shr(x, n)) && ds[m - 1] == Low(x, n);
      assert Shr(x, n) < Pow2(Mul(m - 1, n)) by { ShrSmall(x, n, Mul(m - 1, n)); }
      NumberRoundTrip(n, m - 1, Shr(x, n));
      FromDigitsBits(n, ds);
      forall k: nat ensures Bit(FromDigits(n, ds), k) == Bit(x, k) { }
      SameBits(FromDigits(n, ds), x);
    }
  }

  lemma {:induction false} ShrSmall(x: nat, n: nat, w: nat)
    requires x < Pow2(n + w)
    ensures Shr(x, n) < Pow2(w)
  {
    hide *;
    HighBitsClear(x, n + w);
    forall k: nat | k >= w ensures !Bit(Shr(x, n), k) { }
    BoundFromBits(Shr(x, n), w);
  }

  // ---- exclusive-or folds: x ^ (x >> s), of which the Gray code is the case s = 1

  function Fold(x: nat, s: nat): (y: nat)
    ensures forall k: nat {:trigger Bit(y, k)} :: Bit(y, k) == (Bit(x, k) != Bit(x, k + s))
  {
    Xor(x, Shr(x, s))
  }

  /** Where two folds agree, the difference of the words repeats every s bits. */
  lemma {:induction false} FoldBit(a: nat, b: nat, s: nat, k: nat)
    requires Fold(a, s) == Fold(b, s)
    ensures Bit(Shr(Xor(a, b), s), k) == Bit(Xor(a, b), k)
  {
    hide *;
    assert Bit(Fold(a, s), k) == (Bit(a, k) != Bit(a, k + s));
    assert Bit(Fold(b, s), k) == (Bit(b, k) != Bit(b, k + s));
    assert Bit(Shr(Xor(a, b), s), k) == Bit(Xor(a, b), k + s);
  }

  /** A fold loses nothing. */
  lemma {:induction false} FoldInjective(a: nat, b: nat, s: nat)
    requires s > 0 && Fold(a, s) == Fold(b, s)
    ensures a == b
  {
    hide *;
    var z := Xor(a, b);
    forall k: nat ensures Bit(Shr(z, s), k) == Bit(z, k) { FoldBit(a, b, s, k); }
    SameBits(Shr(z, s), z);
    ShrShrinks(z, s);
    NoBits();
    forall k: nat ensures Bit(a, k) == Bit(b, k) { assert !Bit(z, k); }
    SameBits(a, b);
  }

  lemma {:induction false} ShrShrinks(x: nat, s: nat)
    requires s > 0
    ensures x > 0 ==> Shr(x, s) < x
  {}

  function UnGray(g: nat): (h: nat)
  {
    if g == 0 then 0 else Xor(g, UnGray(Shr(g, 1)))
  }

  lemma {:induction false} UnGrayShift(g: nat, k: nat)
    ensures Bit(UnGray(g), k + 1) == Bit(UnGray(Shr(g, 1)), k)
    decreases g
  {
    hide Bit, Xor, Shr;
    ShrShrinks(g, 1);
    NoBits();
    if g > 0 {
      UnGrayShift(Shr(g, 1), k);
      if Shr(g, 1) == 0 { ShrOfZero(); } else { ShrShrinks(Shr(g, 1), 1); }
      assert Bit(UnGray(g), k + 1) == (Bit(g, k + 1) != Bit(UnGray(Shr(g, 1)), k + 1));
    }
  }

  lemma ShrOfZero()
    ensures Shr(0, 1) == 0
  {}

  /** The Gray code is undone by the running exclusive or. */
  lemma {:induction false} GrayInverse(x: nat)
    ensures Fold(UnGray(x), 1) == x && UnGray(Fold(x, 1)) == x
  {
    hide *;
    FoldOfUnGray(x);
    FoldOfUnGray(Fold(x, 1));
    FoldInjective(UnGray(Fold(x, 1)), x, 1);
  }

  lemma {:induction false} FoldOfUnGray(g: nat)
    ensures Fold(UnGray(g), 1) == g
  {
    hide Bit, Xor, Shr, Fold;
    NoBits();
    forall k: nat ensures Bit(Fold(UnGray(g), 1), k) == Bit(g, k) {
      UnGrayShift(g, k);
      if g > 0 { assert Bit(UnGray(g), k) == (Bit(g, k) != Bit(UnGray(Shr(g, 1)), k)); }
    }
    SameBits(Fold(UnGray(g), 1), g);
  }

  lemma {:induction false} UnGrayBound(g: nat, n: nat)
    requires g < Pow2(n)
    ensures UnGray(g) < Pow2(n)
    decreases g
  {
    hide Bit, Xor, Shr, Pow2;
    if g > 0 {
      ShrShrinks(g, 1);
      UnGrayBound(Shr(g, 1), n);
      XorBound(g, UnGray(Shr(g, 1)), n);
    }
  }

  lemma {:induction false} XorBound(a: nat, b: nat, n: nat)
    requires a < Pow2(n) && b < Pow2(n)
    ensures Xor(a, b) < Pow2(n)
  {
    hide *;
    HighBitsClear(a, n);
    HighBitsClear(b, n);
    BoundFromBits(Xor(a, b), n);
  }

  // ---- the operations of one step

  /** Rotate the low n bits of x left by r. */
  function RotL(x: nat, r: nat, n: nat): (y: nat)
    requires r < n
    ensures forall k: nat {:trigger Bit(y, k)} :: Bit(y, k) == (k < n && Bit(x, if k >= r then k - r else k + n - r))
    ensures y < Pow2(n)
  {
    FromBits((k: nat) => Bit(x, if k >= r then k - r else k + n - r), n)
  }

  function RotR(x: nat, r: nat, n: nat): (y: nat)
    requires r < n
    ensures forall k: nat {:trigger Bit(y, k)} :: Bit(y, k) == (k < n && Bit(x, if k + r < n then k + r else k + r - n))
    ensures y < Pow2(n)
  {
    FromBits((k: nat) => Bit(x, if k + r < n then k + r else k + r - n), n)
  }

  lemma {:induction false} RotInverse(x: nat, r: nat, n: nat)
    requires r < n && x < Pow2(n)
    ensures RotL(RotR(x, r, n), r, n) == x && RotR(RotL(x, r, n), r, n) == x
  {
    hide *;
    HighBitsClear(x, n);
    forall k: nat ensures Bit(RotL(RotR(x, r, n), r, n), k) == Bit(x, k) { RotLRBit(x, r, n, k); }
    SameBits(RotL(RotR(x, r, n), r, n), x);
    forall k: nat ensures Bit(RotR(RotL(x, r, n), r, n), k) == Bit(x, k) { RotRLBit(x, r, n, k); }
    SameBits(RotR(RotL(x, r, n), r, n), x);
  }

  lemma {:induction false} RotLRBit(x: nat, r: nat, n: nat, k: nat)
    requires r < n
    ensures Bit(RotL(RotR(x, r, n), r, n), k) == (k < n && Bit(x, k))
  {
    hide *;
    var y := RotR(x, r, n);
    if k < r { assert k < n ==> Bit(y, k + n - r) == Bit(x, k); }
    else { assert k < n ==> Bit(y, k - r) == Bit(x, k); }
  }

  lemma {:induction false} RotRLBit(x: nat, r: nat, n: nat, k: nat)
    requires r < n
    ensures Bit(RotR(RotL(x, r, n), r, n), k) == (k < n && Bit(x, k))
  {
    hide *;
    var y := RotL(x, r, n);
    if k + r < n { assert Bit(y, k + r) == Bit(x, k); }
    else if k < n { assert Bit(y, k + r - n) == Bit(x, k); }
  }

  /** One more than the place of the lowest set bit among the low w bits, or 0. */
  function FirstOne(x: nat, w: nat): (t: nat)
    ensures t <= w
    ensures t == 0 ==> forall k: nat :: k < w ==> !Bit(x, k)
    ensures t > 0 ==> Bit(x, t - 1) && forall k: nat :: k < t - 1 ==> !Bit(x, k)
  {
    if w == 0 then 0
    else if Bit(x, w - 1) then (if FirstOne(x, w - 1) == 0 then w else FirstOne(x, w - 1))
    else FirstOne(x, w - 1)
  }

  /** The new rotation: the old one, plus one, plus the place (counted from one) of the
      lowest set bit of `bits` below the top one, modulo n. */
  function Adjust(rot: nat, bits: nat, n: nat): (r: nat)
    requires rot < n
    ensures r < n
  {
    var t := rot + FirstOne(bits, n - 1) + 1;
    if t >= n then t - n else t
  }

  /** What the walk remembers: the rotation, the bit to flip, the last row, and whether
      the last digit was odd. */
  datatype Phase = Phase(rot: nat, flip: nat, row: nat, odd: bool)

  const Start := Phase(0, 0, 0, true)

  ghost predicate Valid(n: nat, s: Phase) {
    s.rot < n && s.flip < Pow2(n) && s.row < Pow2(n)
  }

  /** After an even digit the top bit of the next Gray digit is inverted. */
  function TopFix(n: nat, odd: bool): (t: nat)
    requires n > 0
    ensures forall k: nat {:trigger Bit(t, k)} :: Bit(t, k) == (!odd && k == n - 1)
    ensures t < Pow2(n)
  {
    FromBits((k: nat) => !odd && k == n - 1, n)
  }

  function Unit(r: nat, n: nat): (t: nat)
    requires r < n
    ensures forall k: nat {:trigger Bit(t, k)} :: Bit(t, k) == (k == r)
    ensures t < Pow2(n)
  {
    FromBits((k: nat) => k == r, n)
  }

  /** The bits the walk sees for digit h. */
  function StepBits(n: nat, s: Phase, h: nat): (b: nat)
    requires n > 0
  {
    Xor(Fold(h, 1), TopFix(n, s.odd))
  }

  function Delta(n: nat, s: Phase, h: nat): (c: nat)
    requires s.rot < n
  {
    Xor(RotL(StepBits(n, s, h), s.rot, n), s.flip)
  }

  function Step(n: nat, s: Phase, h: nat): (s': Phase)
    requires s.rot < n
    ensures s'.rot < n
  {
    Phase(Adjust(s.rot, StepBits(n, s, h), n), Unit(s.rot, n), Xor(s.row, Delta(n, s, h)), Bit(h, 0))
  }

  /** The digit that moves the walk to the given row. */
  function StepDigit(n: nat, s: Phase, row: nat): (h: nat)
    requires s.rot < n
  {
    UnGray(Xor(RotR(Xor(s.flip, Xor(s.row, row)), s.rot, n), TopFix(n, s.odd)))
  }

  lemma {:induction false} StepValid(n: nat, s: Phase, h: nat)
    requires Valid(n, s)
    ensures Valid(n, Step(n, s, h))
  {
    hide Pow2, Xor, RotL, Unit, Adjust, StepBits;
    XorBound(RotL(StepBits(n, s, h), s.rot, n), s.flip, n);
    XorBound(s.row, Delta(n, s, h), n);
  }

  lemma {:induction false} FoldBound(h: nat, s: nat, n: nat)
    requires h < Pow2(n)
    ensures Fold(h, s) < Pow2(n)
  {
    hide *;
    HighBitsClear(h, n);
    BoundFromBits(Fold(h, s), n);
  }

  /** A step is undone by reading off its digit ... */
  lemma {:induction false} DigitOfStep(n: nat, s: Phase, h: nat)
    requires Valid(n, s) && h < Pow2(n)
    ensures StepDigit(n, s, Step(n, s, h).row) == h
  {
    hide Pow2, Bit, Xor, RotL, RotR, Fold, TopFix, UnGray, Unit, Adjust;
    var b := StepBits(n, s, h);
    FoldBound(h, 1, n);
    XorBound(Fold(h, 1), TopFix(n, s.odd), n);
    var c := Delta(n, s, h);
    XorCancel(s.flip, s.row, RotL(b, s.rot, n));
    RotInverse(b, s.rot, n);
    XorUndo(Fold(h, 1), TopFix(n, s.odd));
    GrayInverse(h);
  }

  lemma {:induction false} XorCancel(f: nat, r: nat, x: nat)
    ensures Xor(f, Xor(r, Xor(r, Xor(x, f)))) == x
  {
    hide *;
    SameBits(Xor(f, Xor(r, Xor(r, Xor(x, f)))), x);
  }

  lemma {:induction false} XorUndo(a: nat, b: nat)
    ensures Xor(Xor(a, b), b) == a
  {
    hide *;
    SameBits(Xor(Xor(a, b), b), a);
  }

  /** ... and every row is reached by exactly the digit read off. */
  lemma {:induction false} StepOfDigit(n: nat, s: Phase, row: nat)
    requires Valid(n, s) && row < Pow2(n)
    ensures StepDigit(n, s, row) < Pow2(n)
    ensures Step(n, s, StepDigit(n, s, row)).row == row
  {
    hide Pow2, Bit, Xor, RotL, RotR, Fold, TopFix, UnGray, Unit, Adjust;
    var t := Xor(s.flip, Xor(s.row, row));
    XorBound(s.row, row, n);
    XorBound(s.flip, Xor(s.row, row), n);
    var g := Xor(RotR(t, s.rot, n), TopFix(n, s.odd));
    XorBound(RotR(t, s.rot, n), TopFix(n, s.odd), n);
    UnGrayBound(g, n);
    GrayInverse(g);
    XorUndo(RotR(t, s.rot, n), TopFix(n, s.odd));
    RotInverse(t, s.rot, n);
    XorBack(s.flip, s.row, row);
  }

  lemma {:induction false} XorBack(f: nat, r: nat, row: nat)
    ensures Xor(r, Xor(Xor(f, Xor(r, row)), f)) == row
  {
    hide *;
    SameBits(Xor(r, Xor(Xor(f, Xor(r, row)), f)), row);
  }

  // ---- whole walks

  function After(n: nat, hs: seq<nat>): (s: Phase)
    requires n > 0
    ensures s.rot < n
  {
    if hs == [] then Start else Step(n, After(n, hs[..|hs| - 1]), hs[|hs| - 1])
  }

  function Rows(n: nat, hs: seq<nat>): (rows: seq<nat>)
    requires n > 0
    ensures |rows| == |hs|
  {
    if hs == [] then [] else Rows(n, hs[..|hs| - 1]) + [After(n, hs).row]
  }

  function Digits(n: nat, rows: seq<nat>): (hs: seq<nat>)
    requires n > 0
    ensures |hs| == |rows|
  {
    if rows == [] then []
    else
      var hs := Digits(n, rows[..|rows| - 1]);
      hs + [StepDigit(n, After(n, hs), rows[|rows| - 1])]
  }

  lemma {:induction false} AfterValid(n: nat, hs: seq<nat>)
    requires n > 0
    ensures Valid(n, After(n, hs))
  {
    if hs != [] {
      AfterValid(n, hs[..|hs| - 1]);
      StepValid(n, After(n, hs[..|hs| - 1]), hs[|hs| - 1]);
    }
  }

  /** Reading rows back gives the digits that wrote them ... */
  lemma {:induction false} DigitsOfRows(n: nat, hs: seq<nat>)
    requires n > 0 && IsDigits(n, hs)
    ensures Digits(n, Rows(n, hs)) == hs && IsDigits(n, Rows(n, hs))
  {
    hide Pow2, Step, StepDigit;
    if hs != [] {
      var init, last := hs[..|hs| - 1], hs[|hs| - 1];
      DigitsOfRows(n, init);
      AfterValid(n, init);
      AfterValid(n, hs);
      assert Valid(n, After(n, hs));
      DigitOfStep(n, After(n, init), last);
      assert Rows(n, hs)[..|hs| - 1] == Rows(n, init);
      assert hs == init + [last];
    }
  }

  /** ... and writing digits read from rows gives the rows. */
  lemma {:induction false} RowsOfDigits(n: nat, rows: seq<nat>)
    requires n > 0 && IsDigits(n, rows)
    ensures Rows(n, Digits(n, rows)) == rows && IsDigits(n, Digits(n, rows))
  {
    hide Pow2, Step, StepDigit;
    if rows != [] {
      var init, last := rows[..|rows| - 1], rows[|rows| - 1];
      RowsOfDigits(n, init);
      var hs := Digits(n, init);
      AfterValid(n, hs);
      StepOfDigit(n, After(n, hs), last);
      assert Digits(n, rows)[..|rows| - 1] == hs;
      assert rows == init + [last];
    }
  }
}
