/** Fixed-width machine arithmetic of the C program on top of `Bits`:
    left shift, subtraction and the `ones` macro in a word of w bits
    (w is 64 for bitmask_t and 32 for halfmask_t). */
module Words {
  import opened Bits

  /** `x << s` in a w-bit variable. */
  function ShlW(x: nat, s: nat, w: nat): (r: nat)
    ensures forall k: nat {:trigger Bit(r, k)} :: Bit(r, k) == (s <= k < w && Bit(x, k - s))
    ensures r < Pow2(w)
  {
    Low(Shl(x, s), w)
  }

  /** `a - b` modulo 2^w. */
  function SubW(a: nat, b: nat, w: nat): (r: nat)
    requires a < Pow2(w) && b < Pow2(w)
    ensures r < Pow2(w)
    ensures b <= a ==> r == a - b
  {
    if b <= a then a - b else a + Pow2(w) - b
  }

  /** The macro `ones(T, k)`: `((T)2 << (k-1)) - 1`. */
  function OnesW(k: nat, w: nat): (r: nat)
    requires 1 <= k <= w
    ensures r == Ones(k)
  {
    var two := ShlW(2, k - 1, w);
    assert two == if k < w then Pow2(k) else 0 by {
      ShlMul(2, k - 1);
      assert Shl(2, k - 1) == Pow2(k);
      if k < w { Pow2Strict(k, w); LowOfSmall(Pow2(k), w); } else { LowOfPow2(w); }
    }
    assert 1 < Pow2(w);
    SubW(two, 1, w)
  }

  lemma {:induction false} Pow2Strict(a: nat, b: nat)
    requires a < b
    ensures Pow2(a) < Pow2(b)
    decreases b
  {
    if a < b - 1 { Pow2Strict(a, b - 1); }
  }

  lemma Pow2Mono(a: nat, b: nat)
    requires a <= b
    ensures Pow2(a) <= Pow2(b)
  {
    if a < b { Pow2Strict(a, b); }
  }

  /** A value that fits in w bits survives truncation. */
  lemma LowOfSmall(x: nat, w: nat)
    requires x < Pow2(w)
    ensures Low(x, w) == x
  {
    HighBitsClear(x, w);
    SameBits(Low(x, w), x);
  }

  lemma {:induction false} LowOfPow2(w: nat)
    ensures Low(Pow2(w), w) == 0
  {
    if w > 0 { LowOfPow2(w - 1); }
  }

  /** The number of w bits whose bit k is f(k). */
  function FromBits(f: nat -> bool, w: nat): (r: nat)
    ensures forall k: nat {:trigger Bit(r, k)} :: Bit(r, k) == (k < w && f(k))
    ensures r < Pow2(w)
    decreases w
  {
    if w == 0 then NoBits(); 0 else B2n(f(0)) + 2 * FromBits((k: nat) => f(k + 1), w - 1)
  }

  // Products, quotients and remainders of two variables, by repeated addition and
  // subtraction, so that reasoning about bit positions stays linear.

  function Mul(a: nat, n: nat): (r: nat)
    ensures a > 0 ==> r >= n
  {
    if a == 0 then 0 else n + Mul(a - 1, n)
  }

  function Quo(p: nat, n: nat): (q: nat)
    requires n > 0
    ensures q <= p
  {
    if p < n then 0 else 1 + Quo(p - n, n)
  }

  function Rem(p: nat, n: nat): (r: nat)
    requires n > 0
    ensures r < n && r <= p
  {
    if p < n then p else Rem(p - n, n)
  }

  lemma {:induction false} MulIsProduct(a: nat, n: nat)
    ensures Mul(a, n) == a * n
  {
    if a > 0 {
      MulIsProduct(a - 1, n);
      assert a * n == (a - 1) * n + n;
    }
  }

  lemma {:induction false} QuoRem(p: nat, n: nat)
    requires n > 0
    ensures p == Mul(Quo(p, n), n) + Rem(p, n)
  {
    if p >= n { QuoRem(p - n, n); }
  }

  lemma QuoRemUnfold(p: nat, n: nat)
    requires n > 0
    ensures p < n ==> Quo(p, n) == 0 && Rem(p, n) == p
    ensures p >= n ==> Quo(p, n) == Quo(p - n, n) + 1 && Rem(p, n) == Rem(p - n, n)
  {}

  /** The recursive quotient and remainder are the usual ones. */
  lemma {:induction false} QuoRemIsDivMod(p: nat, n: nat)
    requires n > 0
    ensures Quo(p, n) == p / n && Rem(p, n) == p % n
  {
    hide *;
    var q, r := p / n, p % n;
    MulIsProduct(q, n);
    assert p == q * n + r;
    QuoRemOf(q, r, n);
  }

  lemma {:induction false} QuoRemOf(b: nat, d: nat, n: nat)
    requires d < n
    ensures Quo(Mul(b, n) + d, n) == b && Rem(Mul(b, n) + d, n) == d
  {
    if b > 0 { QuoRemOf(b - 1, d, n); }
  }

  lemma {:induction false} MulStep(a: nat, b: nat, n: nat)
    requires a < b
    ensures Mul(a, n) + n <= Mul(b, n)
    decreases b
  {
    if a < b - 1 { MulStep(a, b - 1, n); }
  }

  lemma MulSmall(n: nat)
    ensures Mul(0, n) == 0 && Mul(1, n) == n
  {}

  lemma {:induction false} MulAdd(a: nat, b: nat, n: nat)
    ensures Mul(a + b, n) == Mul(a, n) + Mul(b, n)
  {
    if a > 0 { MulAdd(a - 1, b, n); }
  }

  lemma {:induction false} MulComm(a: nat, n: nat)
    ensures Mul(a, n) == Mul(n, a)
  {
    MulIsProduct(a, n);
    MulIsProduct(n, a);
    assert a * n == n * a;
  }

  /** `x % n`. */
  function Modulo(x: nat, n: nat): (r: nat)
    requires n > 0
    ensures r == Rem(x, n)
  {
    QuoRemIsDivMod(x, n);
    x % n
  }

  /** p is below m * n exactly when its quotient by n is below m. */
  lemma {:induction false} QuoBound(p: nat, n: nat, m: nat)
    requires n > 0
    ensures p < Mul(m, n) <==> Quo(p, n) < m
  {
    QuoRem(p, n);
    if Quo(p, n) < m { MulStep(Quo(p, n), m, n); }
    else if m < Quo(p, n) { MulStep(m, Quo(p, n), n); }
  }

  lemma PowOne()
    ensures Pow2(1) == 2
  {}

  lemma Pow2Half(e: nat)
    ensures Shr(Pow2(e), 1) == (if e == 0 then 0 else Pow2(e - 1)) && Pow2(e) >= 1
    ensures Pow2(e) == if e == 0 then 1 else 2 * Pow2(e - 1)
  {
    assert Shr(Pow2(e), 1) == Pow2(e) / 2;
  }

  lemma {:induction false} TestBit(n: nat, e: nat)
    requires n < 2 * Pow2(e)
    ensures And(Pow2(e), n) == 0 <==> n < Pow2(e)
  {
    hide Bit, And, Pow2, Shr, Low;
    ShrDiv(n, e);
    var y := And(Pow2(e), n);
    PowBit(e);
    if n < Pow2(e) {
      HighBitsClear(n, e);
      NoBits();
      SameBits(y, 0);
    } else if y == 0 {
      NoBits();
      forall k: nat | k >= e ensures !Bit(n, k) {
        HighBitsClear(n, e + 1) by { PowStep(e); }
        assert !Bit(y, e);
      }
      BoundFromBits(n, e);
    }
  }

  lemma PowStep(e: nat)
    ensures Pow2(e + 1) == 2 * Pow2(e)
  {}

  lemma {:induction false} PowBit(e: nat)
    ensures forall k: nat :: Bit(Pow2(e), k) == (k == e)
  {
    hide Bit, Shl, Pow2;
    ShlMul(1, e);
    forall k: nat ensures Bit(Shl(1, e), k) == (k == e) {
      if k >= e { SmallBit(true, k - e); }
    }
  }

  /** The least k with 2^k >= p. */
  function CeilLog2(p: nat): (k: nat)
    requires p >= 1
    ensures Pow2(k) >= p && (k > 0 ==> Pow2(k - 1) < p)
  {
    if p == 1 then 0 else 1 + CeilLog2((p + 1) / 2)
  }

  lemma {:induction false} CeilLog2Is(p: nat, k: nat)
    requires p >= 1 && Pow2(k) >= p && (k > 0 ==> Pow2(k - 1) < p)
    ensures CeilLog2(p) == k
  {
    hide *;
    var q := CeilLog2(p);
    if q < k { Pow2Mono(q, k - 1); }
    if k < q { Pow2Mono(k, q - 1); }
  }
}
