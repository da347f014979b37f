/** Machine words as natural numbers, seen bit by bit.

    A word of the C program is a natural number below 2^64 (or 2^32); every bitwise
    operator is defined by halving its operands, and its contract says what each bit of
    the result is.  Operators are unbounded here: truncation to a word is an explicit
    `Low(x, 64)`. */
module Bits {

  function Pow2(k: nat): (r: nat)
    ensures r >= 1
  {
    if k == 0 then 1 else 2 * Pow2(k - 1)
  }

  /** Bit k of x; bit 0 is the least significant. */
  predicate Bit(x: nat, k: nat)
    decreases k
  {
    if k == 0 then x % 2 == 1 else Bit(x / 2, k - 1)
  }

  function B2n(b: bool): (r: nat)
    ensures r < 2 && (r == 1 <==> b)
  {
    if b then 1 else 0
  }

  function Shr(x: nat, s: nat): (r: nat)
    ensures forall k: nat {:trigger Bit(r, k)} :: Bit(r, k) == Bit(x, k + s)
    ensures r <= x
    decreases s
  {
    if s == 0 then x else Shr(x / 2, s - 1)
  }

  function Shl(x: nat, s: nat): (r: nat)
    ensures forall k: nat {:trigger Bit(r, k)} :: Bit(r, k) == (k >= s && Bit(x, k - s))
    ensures r >= x
  {
    if s == 0 then x else 2 * Shl(x, s - 1)
  }

  /** The low w bits of x: what is left of x in a w-bit variable. */
  function Low(x: nat, w: nat): (r: nat)
    ensures forall k: nat {:trigger Bit(r, k)} :: Bit(r, k) == (k < w && Bit(x, k))
    ensures r < Pow2(w)
    ensures r <= x
    decreases w
  {
    if w == 0 then NoBits(); 0
    else x % 2 + 2 * Low(x / 2, w - 1)
  }

  lemma NoBits()
    ensures forall k: nat :: !Bit(0, k)
  {
    forall k: nat ensures !Bit(0, k) { NoBit(k); }
  }

  lemma NoBit(k: nat)
    ensures !Bit(0, k)
  {}

  lemma SmallBit(b: bool, k: nat)
    ensures Bit(B2n(b), k) == (k == 0 && b)
  {
    if k > 0 { NoBit(k - 1); }
  }

  /** The all-ones word of width w. */
  function Ones(w: nat): (r: nat)
    ensures forall k: nat {:trigger Bit(r, k)} :: Bit(r, k) == (k < w)
    ensures r + 1 == Pow2(w)
  {
    if w == 0 then NoBits(); 0 else 1 + 2 * Ones(w - 1)
  }

  function Xor(a: nat, b: nat): (r: nat)
    ensures forall k: nat {:trigger Bit(r, k)} :: Bit(r, k) == (Bit(a, k) != Bit(b, k))
    decreases a + b
  {
    if a == 0 && b == 0 then NoBits(); 0
    else B2n(a % 2 != b % 2) + 2 * Xor(a / 2, b / 2)
  }

  function And(a: nat, b: nat): (r: nat)
    ensures forall k: nat {:trigger Bit(r, k)} :: Bit(r, k) == (Bit(a, k) && Bit(b, k))
    ensures r <= a && r <= b
    decreases a + b
  {
    if a == 0 || b == 0 then NoBits(); 0
    else B2n(a % 2 == 1 && b % 2 == 1) + 2 * And(a / 2, b / 2)
  }

  function Or(a: nat, b: nat): (r: nat)
    ensures forall k: nat {:trigger Bit(r, k)} :: Bit(r, k) == (Bit(a, k) || Bit(b, k))
    ensures r >= a && r >= b
    decreases a + b
  {
    if a == 0 && b == 0 then NoBits(); 0
    else B2n(a % 2 == 1 || b % 2 == 1) + 2 * Or(a / 2, b / 2)
  }

  /** Words with the same bits are the same number. */
  lemma {:induction false} SameBits(a: nat, b: nat)
    requires forall k: nat :: Bit(a, k) == Bit(b, k)
    ensures a == b
    decreases a + b
  {
    assert Bit(a, 0) == Bit(b, 0);
    if a != 0 || b != 0 {
      forall k: nat ensures Bit(a / 2, k) == Bit(b / 2, k) {
        assert Bit(a, k + 1) == Bit(b, k + 1);
      }
      SameBits(a / 2, b / 2);
    }
  }

  /** A number below 2^w has no bit at w or above ... */
  lemma {:induction false} HighBitsClear(x: nat, w: nat)
    requires x < Pow2(w)
    ensures forall k: nat :: k >= w ==> !Bit(x, k)
    decreases w
  {
    if w == 0 {
      NoBits();
    } else {
      HighBitsClear(x / 2, w - 1);
    }
  }

  /** ... and a number without such bits is below 2^w. */
  lemma {:induction false} BoundFromBits(x: nat, w: nat)
    requires forall k: nat :: k >= w ==> !Bit(x, k)
    ensures x < Pow2(w)
  {
    SameBits(x, Low(x, w));
  }

  lemma {:induction false} Pow2Add(a: nat, b: nat)
    ensures Pow2(a + b) == Pow2(a) * Pow2(b)
  {
    if a > 0 { Pow2Add(a - 1, b); }
  }

  lemma {:induction false} ShlMul(x: nat, s: nat)
    ensures Shl(x, s) == x * Pow2(s)
  {
    if s > 0 { ShlMul(x, s - 1); }
  }

  /** Shifting right is dividing; the low bits are the remainder. */
  lemma {:induction false} ShrDiv(x: nat, s: nat)
    ensures x == Shr(x, s) * Pow2(s) + Low(x, s)
    decreases s
  {
    hide *;
    ShrDivUnfold(x, s);
    if s > 0 {
      ShrDiv(x / 2, s - 1);
      TimesTwice(Shr(x / 2, s - 1), Pow2(s - 1));
    }
  }

  lemma ShrDivUnfold(x: nat, s: nat)
    ensures s == 0 ==> Shr(x, s) == x && Pow2(s) == 1 && Low(x, s) == 0
    ensures s > 0 ==> Shr(x, s) == Shr(x / 2, s - 1) && Pow2(s) == 2 * Pow2(s - 1) && Low(x, s) == x % 2 + 2 * Low(x / 2, s - 1)
  {
    hide Bit;
  }

  lemma TimesTwice(q: nat, p: nat)
    ensures q * (2 * p) == 2 * (q * p)
  {}
}
