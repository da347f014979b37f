/** Bit transposition (include/sfc.h): nDims fields of nBits bits become nBits fields of
    nDims bits.  The specification reads each bit from its transposed place; the
    bit-by-bit loop and the logarithmic one are both proved to compute it. */
module BitTranspose {
  import opened Bits
  import opened Words

  /** Bit b of field d of x becomes bit d of field b. */
  function Transpose(n: nat, B: nat, x: nat): (y: nat)
    requires n > 0
    ensures forall p: nat {:trigger Bit(y, p)} :: Bit(y, p) == (p < Mul(B, n) && Bit(x, Mul(Rem(p, n), B) + Quo(p, n)))
    ensures y < Pow2(Mul(B, n))
  {
    FromBits((p: nat) => Bit(x, Mul(Rem(p, n), B) + Quo(p, n)), Mul(B, n))
  }

  /** Field d, bit b of the source lands at field b, bit d. */
  lemma {:induction false} TransposeAt(n: nat, B: nat, x: nat, d: nat, b: nat)
    requires d < n && b < B
    ensures Bit(Transpose(n, B, x), Mul(b, n) + d) == Bit(x, Mul(d, B) + b)
  {
    hide *;
    QuoRemOf(b, d, n);
    QuoBound(Mul(b, n) + d, n, B);
  }

  /** Transposing with the two sizes swapped undoes a transposition. */
  lemma {:induction false} TransposeTwice(n: nat, B: nat, x: nat)
    requires n > 0 && B > 0 && x < Pow2(Mul(B, n))
    ensures Transpose(B, n, Transpose(n, B, x)) == x
  {
    hide *;
    var y := Transpose(n, B, x);
    var z := Transpose(B, n, y);
    MulComm(n, B);
    HighBitsClear(x, Mul(B, n));
    forall p: nat ensures Bit(z, p) == Bit(x, p) {
      if p < Mul(B, n) {
        QuoBound(p, B, n);
        QuoRem(p, B);
        TransposeAt(n, B, x, Quo(p, B), Rem(p, B));
      }
    }
    SameBits(z, x);
  }

  /** The bit-by-bit loop (include/sfc.h, without DLOGB_BIT_TRANSPOSE). */
  method BitTransposeSimple(nDims: nat, nBits: nat, inCoords: nat) returns (coords: nat)
    requires 1 <= nDims <= 63 && 1 <= nBits <= 63 && Mul(nBits, nDims) <= 64
    requires inCoords < Pow2(64)
    ensures coords == Transpose(nDims, nBits, inCoords)
  {
    hide *;
    NoBits();
    MulSmall(nBits);
    coords := 0;
    var src := inCoords;
    var d := 0;
    while d < nDims
      invariant 0 <= d <= nDims
      invariant forall k: nat {:trigger Bit(src, k)} :: Bit(src, k) == Bit(inCoords, Mul(d, nBits) + k)
      invariant forall p: nat {:trigger Bit(coords, p)} ::
        Bit(coords, p) == (p < Mul(nBits, nDims) && Rem(p, nDims) < d
                           && Bit(inCoords, Mul(Rem(p, nDims), nBits) + Quo(p, nDims)))
    {
      var field := And(src, OnesW(nBits, 64));
      src := Shr(src, nBits);
      var out := SpreadField(nDims, nBits, field);
      ghost var before := coords;
      coords := Or(coords, ShlW(out, d, 64));
      forall p: nat {:trigger Bit(coords, p)} ensures
        Bit(coords, p) == (p < Mul(nBits, nDims) && Rem(p, nDims) < d + 1
                           && Bit(inCoords, Mul(Rem(p, nDims), nBits) + Quo(p, nDims)))
      {
        SimpleStep(nDims, nBits, inCoords, d, field, out, before, p);
      }
      MulAdd(d, 1, nBits);
      d := d + 1;
    }
    SameBits(coords, Transpose(nDims, nBits, inCoords));
  }

  /** The inner loop: the bits of one field, nDims places apart. */
  method SpreadField(nDims: nat, nBits: nat, field: nat) returns (out: nat)
    requires 1 <= nDims <= 63 && 1 <= nBits && Mul(nBits, nDims) <= 64
    ensures forall p: nat {:trigger Bit(out, p)} :: Bit(out, p) == (Rem(p, nDims) == 0 && Quo(p, nDims) < nBits && Bit(field, Quo(p, nDims)))
  {
    hide *;
    NoBits();
    out := 0;
    var b := nBits;
    while b > 0
      invariant 0 <= b <= nBits
      invariant forall p: nat {:trigger Bit(out, p)} ::
        Bit(out, p) == (Rem(p, nDims) == 0 && Quo(p, nDims) < nBits - b && Bit(field, b + Quo(p, nDims)))
    {
      b := b - 1;
      ghost var before := out;
      out := Or(ShlW(out, nDims, 64), B2n(Bit(field, b)));
      forall p: nat {:trigger Bit(out, p)} ensures
        Bit(out, p) == (Rem(p, nDims) == 0 && Quo(p, nDims) < nBits - b && Bit(field, b + Quo(p, nDims)))
      {
        QuoBound(p, nDims, nBits);
        QuoRemUnfold(p, nDims);
        SmallBit(Bit(field, b), p);
      }
    }
  }

  lemma {:induction false} SimpleStep(n: nat, B: nat, x: nat, d: nat, field: nat, out: nat, before: nat, p: nat)
    requires 0 < n && 0 < B && Mul(B, n) <= 64 && d < n
    requires forall k: nat {:trigger Bit(field, k)} :: Bit(field, k) == (k < B && Bit(x, Mul(d, B) + k))
    requires forall k: nat {:trigger Bit(out, k)} :: Bit(out, k) == (Rem(k, n) == 0 && Quo(k, n) < B && Bit(field, Quo(k, n)))
    requires forall k: nat {:trigger Bit(before, k)} :: Bit(before, k) == (k < Mul(B, n) && Rem(k, n) < d && Bit(x, Mul(Rem(k, n), B) + Quo(k, n)))
    ensures Bit(Or(before, ShlW(out, d, 64)), p) ==
            (p < Mul(B, n) && Rem(p, n) < d + 1 && Bit(x, Mul(Rem(p, n), B) + Quo(p, n)))
  {
    hide *;
    QuoBound(p, n, B);
    QuoRem(p, n);
    if d <= p {
      QuoRem(p - d, n);
      if Rem(p - d, n) == 0 {
        QuoRemOf(Quo(p - d, n), d, n);
      } else if Rem(p, n) == d {
        QuoRemOf(Quo(p, n), 0, n);
      }
    }
  }
}
