/** The logarithmic bit transposition (include/sfc.h, DLOGB_BIT_TRANSPOSE).

    Every pass halves the width of the fields still to be moved.  Between passes the
    word holds blocks: the block at offset o carries bits o .. o+w-1 of every field,
    nDims fields of w bits starting at position o * nDims.  A pass splits each block into
    two of half the width; an odd top bit goes straight to its final place. */
module LogTranspose {
  import opened Bits
  import opened Words
  import opened BitTranspose

  /** Blocks of width w at the given offsets: they fit in B bits and do not overlap. */
  ghost predicate Spaced(offs: set<nat>, w: nat, B: nat) {
    && (forall o <- offs :: o + w <= B)
    && (forall o <- offs, o' <- offs :: o < o' ==> o + w <= o')
  }

  ghost predicate Covered(offs: set<nat>, w: nat, b: nat) {
    exists o <- offs :: o <= b < o + w
  }

  ghost predicate InField(offs: set<nat>, n: nat, w: nat, p: nat) {
    exists o <- offs :: Mul(o, n) <= p < Mul(o, n) + w
  }

  /** The word v holds, at each block start, the bits f(o), .., f(o+w-1), and nothing else. */
  ghost predicate Fields(v: nat, offs: set<nat>, n: nat, w: nat, f: nat -> bool) {
    && (forall p: nat, o: nat {:trigger Bit(v, p), o in offs} ::
          o in offs && Mul(o, n) <= p < Mul(o, n) + w ==> Bit(v, p) == f(o + p - Mul(o, n)))
    && (forall p: nat {:trigger Bit(v, p)} :: Bit(v, p) ==> InField(offs, n, w, p))
  }

  /** The first c fields of every block are in place in v, and nothing else is. */
  ghost predicate Layout(v: nat, offs: set<nat>, n: nat, w: nat, c: nat, x: nat, B: nat)
    requires w > 0
  {
    && (forall p: nat, o: nat {:trigger Bit(v, p), o in offs} ::
          o in offs && Mul(o, n) <= p < Mul(o, n) + Mul(c, w) ==>
          Bit(v, p) == Bit(x, Mul(Quo(p - Mul(o, n), w), B) + o + Rem(p - Mul(o, n), w)))
    && (forall p: nat {:trigger Bit(v, p)} :: Bit(v, p) ==> InField(offs, n, Mul(c, w), p))
  }

  /** The bits no longer in any block have reached their final place. */
  ghost predicate Settled(v: nat, offs: set<nat>, n: nat, w: nat, x: nat, B: nat)
    requires n > 0
  {
    forall p: nat {:trigger Bit(v, p)} ::
      Bit(v, p) == (p < Mul(B, n) && !Covered(offs, w, Quo(p, n)) && Bit(x, Mul(Rem(p, n), B) + Quo(p, n)))
  }

  ghost predicate Ends(e: nat, offs: set<nat>, n: nat) {
    && (forall p: nat {:trigger Bit(e, p)} :: Bit(e, p) ==> exists o <- offs :: p == Mul(o, n))
    && (forall o: nat {:trigger o in offs} :: o in offs ==> Bit(e, Mul(o, n)))
  }

  ghost predicate MaskOf(m: nat, offs: set<nat>, n: nat, w: nat) {
    forall p: nat {:trigger Bit(m, p)} :: Bit(m, p) == InField(offs, n, w, p)
  }

  ghost function Halved(offs: set<nat>, u: nat): set<nat> {
    offs + (set o <- offs :: o + u)
  }

  lemma {:induction false} HalvedHas(offs: set<nat>, u: nat, o: nat)
    requires o in offs
    ensures o in Halved(offs, u) && o + u in Halved(offs, u)
  {}

  lemma {:induction false} HalvedOnly(offs: set<nat>, u: nat, o: nat)
    requires o in Halved(offs, u)
    ensures o in offs || (o >= u && o - u in offs)
  {}

  /** Field d of the source. */
  ghost function Field(x: nat, B: nat, d: nat): nat -> bool {
    (b: nat) => Bit(x, Mul(d, B) + b)
  }

  lemma {:induction false} BlocksApart(offs: set<nat>, w: nat, B: nat, n: nat, o: nat, o': nat, p: nat)
    requires Spaced(offs, w, B) && o in offs && o' in offs
    requires Mul(o, n) <= p < Mul(o, n) + Mul(w, n) && Mul(o', n) <= p < Mul(o', n) + Mul(w, n)
    ensures o == o'
  {
    MulAdd(o, w, n);
    MulAdd(o', w, n);
    if o < o' {
      MulMono(o + w, o', n);
    } else if o' < o {
      MulMono(o' + w, o, n);
    }
  }

  lemma {:induction false} MulMono(a: nat, b: nat, n: nat)
    requires a <= b
    ensures Mul(a, n) <= Mul(b, n)
  {
    if a < b { MulStep(a, b, n); }
  }

  /** Halving the blocks of width w: the new blocks cover what the old ones did,
      except an odd top bit, and are still apart. */
  lemma {:induction false} HalvedSpaced(offs: set<nat>, w: nat, B: nat, u: nat)
    requires Spaced(offs, w, B) && 2 * u <= w
    ensures Spaced(Halved(offs, u), u, B)
  {
  }

  lemma {:induction false} HalvedCovers(offs: set<nat>, u: nat, b: nat)
    ensures Covered(Halved(offs, u), u, b) <==> Covered(offs, 2 * u, b)
  {
    if Covered(offs, 2 * u, b) {
      var o :| o in offs && o <= b < o + 2 * u;
      assert o in Halved(offs, u) && o + u in Halved(offs, u);
    }
  }

  /** The set bits of e are at least u places apart. */
  ghost predicate Sparse(e: nat, u: nat) {
    forall p: nat, q: nat :: Bit(e, p) && Bit(e, q) && p < q ==> p + u <= q
  }

  /** Position p lies in one of the u-bit fields that start at the bits of e. */
  ghost predicate InFieldOf(e: nat, u: nat, p: nat) {
    exists q: nat :: q <= p < q + u && Bit(e, q)
  }

  ghost predicate IsMask(m: nat, e: nat, u: nat) {
    forall p: nat {:trigger Bit(m, p)} :: Bit(m, p) == InFieldOf(e, u, p)
  }

  /** `(e << u) - e` is the mask of the u-bit fields that start at the bits of e. */
  lemma {:induction false} MaskSum(e: nat, u: nat, m: nat)
    requires u > 0 && Sparse(e, u) && IsMask(m, e, u)
    ensures m + e == Shl(e, u)
    decreases e
  {
    hide *;
    ShlMul(e, u);
    if e == 0 {
      MaskSumZero(u, m);
    } else if e % 2 == 0 {
      var e1, m1 := Shr(e, 1), Shr(m, 1);
      MaskSumEven(e, u, m, e1, m1);
      MaskSum(e1, u, m1);
      ShlMul(e1, u);
      assert e * Pow2(u) == 2 * (e1 * Pow2(u));
    } else {
      var e2, m2 := Shr(e, u), Shr(m, u);
      MaskSumOdd(e, u, m, e2, m2);
      MaskSum(e2, u, m2);
      ShlMul(e2, u);
      OddSum(e, m, e2, m2, Pow2(u));
    }
  }

  lemma {:induction false} OddSum(e: nat, m: nat, e2: nat, m2: nat, s: nat)
    requires e == 1 + e2 * s && m + 1 == s + m2 * s && m2 + e2 == e2 * s
    ensures m + e == e * s
  {
    assert (m2 + e2) * s == m2 * s + e2 * s;
    assert e * s == s + (e2 * s) * s;
  }

  lemma {:induction false} MaskSumZero(u: nat, m: nat)
    requires IsMask(m, 0, u)
    ensures m == 0
  {
    NoBits();
    SameBits(m, 0);
  }

  lemma {:induction false} MaskSumEven(e: nat, u: nat, m: nat, e1: nat, m1: nat)
    requires u > 0 && e % 2 == 0 && Sparse(e, u) && IsMask(m, e, u)
    requires e1 == Shr(e, 1) && m1 == Shr(m, 1)
    ensures Sparse(e1, u) && IsMask(m1, e1, u) && e == 2 * e1 && m == 2 * m1
  {
    assert !Bit(e, 0) && !Bit(m, 0);
    assert Sparse(e1, u) by {
      forall p: nat, q: nat | Bit(e1, p) && Bit(e1, q) && p < q ensures p + u <= q {
        assert Bit(e, p + 1) && Bit(e, q + 1);
      }
    }
    forall p: nat ensures Bit(m1, p) == InFieldOf(e1, u, p) {
      if Bit(m, p + 1) {
        var q: nat :| q <= p + 1 < q + u && Bit(e, q);
        assert Bit(e1, q - 1);
      }
      if InFieldOf(e1, u, p) {
        var q: nat :| q <= p < q + u && Bit(e1, q);
        assert Bit(e, q + 1);
        assert InFieldOf(e, u, p + 1);
      }
    }
  }

  lemma {:induction false} MaskSumOdd(e: nat, u: nat, m: nat, e2: nat, m2: nat)
    requires u > 0 && e % 2 == 1 && Sparse(e, u) && IsMask(m, e, u)
    requires e2 == Shr(e, u) && m2 == Shr(m, u)
    ensures Sparse(e2, u) && IsMask(m2, e2, u)
    ensures e2 < e && e == 1 + e2 * Pow2(u) && m + 1 == Pow2(u) + m2 * Pow2(u)
  {
    assert Bit(e, 0);
    assert Sparse(e2, u) by {
      forall p: nat, q: nat | Bit(e2, p) && Bit(e2, q) && p < q ensures p + u <= q {
        assert Bit(e, p + u) && Bit(e, q + u);
      }
    }
    forall p: nat ensures Bit(m2, p) == InFieldOf(e2, u, p) {
      if Bit(m, p + u) {
        var q: nat :| q <= p + u < q + u && Bit(e, q);
        assert Bit(e2, q - u);
      }
      if InFieldOf(e2, u, p) {
        var q: nat :| q <= p < q + u && Bit(e2, q);
        assert Bit(e, q + u);
        assert InFieldOf(e, u, p + u);
      }
    }
    ShrDiv(e, u);
    ShrDiv(m, u);
    assert Low(e, u) == 1 by {
      forall k: nat ensures Bit(Low(e, u), k) == Bit(1, k) { SmallBit(true, k); }
      SameBits(Low(e, u), 1);
    }
    assert Low(m, u) == Ones(u) by {
      forall k: nat ensures Bit(Low(m, u), k) == Bit(Ones(u), k) {
        if k < u { assert InFieldOf(e, u, k); }
      }
      SameBits(Low(m, u), Ones(u));
    }
  }

  /** One field of every block at once: `in = inCoords & inMask` after d shifts. */
  lemma {:induction false} ExtractField(v: nat, offs: set<nat>, n: nat, w: nat, x: nat, B: nat, d: nat, cur: nat, mask: nat)
    requires n > 0 && w > 0 && d < n && Spaced(offs, w, B)
    requires Layout(v, offs, n, w, n, x, B) && MaskOf(mask, offs, n, w)
    requires forall k: nat {:trigger Bit(cur, k)} :: Bit(cur, k) == Bit(v, Mul(d, w) + k)
    ensures Fields(And(cur, mask), offs, n, w, Field(x, B, d))
  {
    hide Bit, Mul, Quo, Rem, And, Layout, Field, Spaced;
    var r := And(cur, mask);
    forall p: nat, o: nat | o in offs && Mul(o, n) <= p < Mul(o, n) + w
      ensures Bit(r, p) == Field(x, B, d)(o + p - Mul(o, n))
    {
      ExtractBit(v, offs, n, w, x, B, d, cur, mask, o, p);
    }
  }

  lemma {:induction false} ExtractBit(v: nat, offs: set<nat>, n: nat, w: nat, x: nat, B: nat, d: nat, cur: nat, mask: nat, o: nat, p: nat)
    requires n > 0 && w > 0 && d < n && o in offs && Mul(o, n) <= p < Mul(o, n) + w
    requires Layout(v, offs, n, w, n, x, B) && MaskOf(mask, offs, n, w)
    requires forall k: nat {:trigger Bit(cur, k)} :: Bit(cur, k) == Bit(v, Mul(d, w) + k)
    ensures Bit(And(cur, mask), p) == Field(x, B, d)(o + p - Mul(o, n))
  {
    hide Bit, Mul, Quo, Rem, And;
    var i := p - Mul(o, n);
    QuoRemOf(d, i, w);
    MulStep(d, n, w);
    assert Bit(cur, p) == Bit(v, Mul(d, w) + p);
    assert Mul(d, w) + p - Mul(o, n) == Mul(d, w) + i;
    assert InField(offs, n, w, p);
  }

  ghost predicate Tops(s: nat, offs: set<nat>, n: nat, w: nat)
  {
    forall p: nat {:trigger Bit(s, p)} :: Bit(s, p) == exists o <- offs :: p + 1 == Mul(o, n) + w
  }

  lemma {:induction false} TopsOwner(s: nat, offs: set<nat>, n: nat, w: nat, p: nat) returns (o: nat)
    requires Tops(s, offs, n, w) && Bit(s, p)
    ensures o in offs && p + 1 == Mul(o, n) + w
  {
    hide Bit, Mul, Quo, Rem, Pow2;
    o :| o in offs && p + 1 == Mul(o, n) + w;
  }

  lemma {:induction false} TopsAt(s: nat, offs: set<nat>, n: nat, w: nat, o: nat, p: nat)
    requires Tops(s, offs, n, w) && o in offs && p + 1 == Mul(o, n) + w
    ensures Bit(s, p)
  {
    hide Bit, Mul, Quo, Rem, Pow2;
  }

  /** `~x` in a w-bit word. */
  function NotW(x: nat, w: nat): (r: nat)
    ensures forall k: nat {:trigger Bit(r, k)} :: k < w ==> Bit(r, k) == !Bit(x, k)
  {
    Xor(x, Ones(w))
  }

  /** Clearing the odd top bit of each field leaves fields one bit narrower. */
  lemma {:induction false} ClearTops(v: nat, offs: set<nat>, n: nat, w: nat, B: nat, f: nat -> bool, tops: nat)
    requires n > 0 && w > 0 && Spaced(offs, w, B) && Mul(B, n) <= 64
    requires Fields(v, offs, n, w, f) && Tops(tops, offs, n, w)
    ensures Fields(And(v, NotW(tops, 64)), offs, n, w - 1, f)
  {
    hide Bit, Mul, And, NotW;
    var r := And(v, NotW(tops, 64));
    forall p: nat, o: nat | o in offs && Mul(o, n) <= p < Mul(o, n) + w - 1
      ensures Bit(r, p) == f(o + p - Mul(o, n))
    {
      FieldBelow(offs, n, w, B, o);
      if Bit(tops, p) {
        var o' :| o' in offs && p + 1 == Mul(o', n) + w;
        SameField(offs, n, w, B, o, o', p);
      }
    }
    forall p: nat | Bit(r, p) ensures InField(offs, n, w - 1, p) {
      var o :| o in offs && Mul(o, n) <= p < Mul(o, n) + w;
      FieldBelow(offs, n, w, B, o);
      assert !Bit(tops, p);
    }
  }

  /** A field ends before the block does, so inside the word. */
  lemma {:induction false} FieldBelow(offs: set<nat>, n: nat, w: nat, B: nat, o: nat)
    requires n > 0 && w > 0 && Spaced(offs, w, B) && o in offs
    ensures Mul(o, n) + w <= Mul(o, n) + Mul(w, n) <= Mul(B, n)
  {
    hide Mul;
    MulAdd(o, w, n);
    MulMono(o + w, B, n);
    MulComm(w, n);
    MulMono(1, n, w);
    MulSmall(w);
  }

  /** A position lies in the field of at most one block. */
  lemma {:induction false} SameField(offs: set<nat>, n: nat, w: nat, B: nat, o: nat, o': nat, p: nat)
    requires n > 0 && w > 0 && Spaced(offs, w, B) && o in offs && o' in offs
    requires Mul(o, n) <= p < Mul(o, n) + w && Mul(o', n) <= p < Mul(o', n) + w
    ensures o == o'
  {
    hide Mul, Spaced;
    FieldBelow(offs, n, w, B, o);
    FieldBelow(offs, n, w, B, o');
    BlocksApart(offs, w, B, n, o, o', p);
  }

  /** Splitting a field: the low half stays, the high half moves (n-1) * u places up,
      and the mask keeps only those two. */
  lemma {:induction false} SplitField(v: nat, offs: set<nat>, n: nat, u: nat, B: nat, f: nat -> bool, mask: nat)
    requires n > 0 && u > 0 && Spaced(offs, 2 * u, B) && Mul(B, n) <= 64
    requires Fields(v, offs, n, 2 * u, f) && MaskOf(mask, Halved(offs, u), n, u)
    ensures Fields(And(Or(v, ShlW(v, Mul(n - 1, u), 64)), mask), Halved(offs, u), n, u, f)
  {
    hide *;
    var r := And(Or(v, ShlW(v, Mul(n - 1, u), 64)), mask);
    var offs' := Halved(offs, u);
    forall p: nat, o: nat | o in offs' && Mul(o, n) <= p < Mul(o, n) + u
      ensures Bit(r, p) == f(o + p - Mul(o, n))
    {
      InFieldIntro(offs', n, u, p, o);
      MaskAt(mask, offs', n, u, p);
      HalvedOnly(offs, u, o);
      if o in offs {
        SplitLow(v, offs, n, u, B, f, o, p);
      } else {
        SplitHigh(v, offs, n, u, B, f, o - u, p);
      }
    }
    forall p: nat {:trigger Bit(r, p)} | Bit(r, p) ensures InField(offs', n, u, p) {
      MaskAt(mask, offs', n, u, p);
    }
    FieldsIntro(r, offs', n, u, f);
  }

  lemma {:induction false} FieldsIntro(v: nat, offs: set<nat>, n: nat, w: nat, f: nat -> bool)
    requires forall p: nat, o: nat {:trigger Bit(v, p), o in offs} ::
               o in offs && Mul(o, n) <= p < Mul(o, n) + w ==> Bit(v, p) == f(o + p - Mul(o, n))
    requires forall p: nat {:trigger Bit(v, p)} :: Bit(v, p) ==> InField(offs, n, w, p)
    ensures Fields(v, offs, n, w, f)
  {
    hide Bit, Mul, Quo, Rem, Pow2;
  }

  lemma {:induction false} MaskAt(m: nat, offs: set<nat>, n: nat, w: nat, p: nat)
    requires MaskOf(m, offs, n, w)
    ensures Bit(m, p) == InField(offs, n, w, p)
  {
    hide Bit, Mul, Quo, Rem, Pow2;
  }

  lemma {:induction false} FieldsAt(v: nat, offs: set<nat>, n: nat, w: nat, f: nat -> bool, o: nat, p: nat)
    requires Fields(v, offs, n, w, f) && o in offs && Mul(o, n) <= p < Mul(o, n) + w
    ensures Bit(v, p) == f(o + p - Mul(o, n))
  {
    hide Bit, Mul, Quo, Rem, Pow2;
  }

  lemma {:induction false} FieldsOwner(v: nat, offs: set<nat>, n: nat, w: nat, f: nat -> bool, p: nat) returns (o: nat)
    requires Fields(v, offs, n, w, f) && Bit(v, p)
    ensures o in offs && Mul(o, n) <= p < Mul(o, n) + w
  {
    hide Bit, Mul, Quo, Rem, Pow2;
    o :| o in offs && Mul(o, n) <= p < Mul(o, n) + w;
  }

  lemma {:induction false} LayoutIntro(v: nat, offs: set<nat>, n: nat, w: nat, c: nat, x: nat, B: nat)
    requires w > 0
    requires forall p: nat, o: nat {:trigger Bit(v, p), o in offs} ::
               o in offs && Mul(o, n) <= p < Mul(o, n) + Mul(c, w) ==>
               Bit(v, p) == Bit(x, Mul(Quo(p - Mul(o, n), w), B) + o + Rem(p - Mul(o, n), w))
    requires forall p: nat {:trigger Bit(v, p)} :: Bit(v, p) ==> InField(offs, n, Mul(c, w), p)
    ensures Layout(v, offs, n, w, c, x, B)
  {
    hide Bit, Mul, Quo, Rem, Pow2;
  }

  lemma {:induction false} LayoutAt(v: nat, offs: set<nat>, n: nat, w: nat, c: nat, x: nat, B: nat, o: nat, p: nat)
    requires w > 0 && Layout(v, offs, n, w, c, x, B) && o in offs && Mul(o, n) <= p < Mul(o, n) + Mul(c, w)
    ensures Bit(v, p) == Bit(x, Mul(Quo(p - Mul(o, n), w), B) + o + Rem(p - Mul(o, n), w))
  {
    hide Bit, Mul, Quo, Rem, Pow2;
  }

  lemma {:induction false} LayoutOwner(v: nat, offs: set<nat>, n: nat, w: nat, c: nat, x: nat, B: nat, p: nat) returns (o: nat)
    requires w > 0 && Layout(v, offs, n, w, c, x, B) && Bit(v, p)
    ensures o in offs && Mul(o, n) <= p < Mul(o, n) + Mul(c, w)
  {
    hide Bit, Mul, Quo, Rem, Pow2;
    o :| o in offs && Mul(o, n) <= p < Mul(o, n) + Mul(c, w);
  }

  /** The shift distance within a block: (n-1) * u = n * u - u. */
  lemma {:induction false} ShiftDistance(n: nat, u: nat)
    requires n > 0
    ensures Mul(n - 1, u) + u == Mul(n, u) == Mul(u, n)
    ensures n > 1 ==> Mul(n, u) >= 2 * u
    ensures n == 1 ==> Mul(n, u) == u
  {
    MulAdd(n - 1, 1, u);
    MulSmall(u);
    MulComm(n, u);
    if n > 1 { MulMono(2, n, u); }
  }

  lemma {:induction false} SplitLow(v: nat, offs: set<nat>, n: nat, u: nat, B: nat, f: nat -> bool, o: nat, p: nat)
    requires n > 0 && u > 0 && Spaced(offs, 2 * u, B) && Mul(B, n) <= 64
    requires Fields(v, offs, n, 2 * u, f) && o in offs && Mul(o, n) <= p < Mul(o, n) + u
    ensures Bit(Or(v, ShlW(v, Mul(n - 1, u), 64)), p) == f(o + p - Mul(o, n))
  {
    hide *;
    var s := Mul(n - 1, u);
    ShiftDistance(n, u);
    FieldBelow(offs, n, 2 * u, B, o);
    FieldsAt(v, offs, n, 2 * u, f, o, p);
    if s <= p && Bit(v, p - s) {
      var o2 := FieldsOwner(v, offs, n, 2 * u, f, p - s);
      MulAdd(u, u, n);
      FieldBelow(offs, n, 2 * u, B, o2);
      BlocksApart(offs, 2 * u, B, n, o, o2, p);
    }
  }

  lemma {:induction false} SplitHigh(v: nat, offs: set<nat>, n: nat, u: nat, B: nat, f: nat -> bool, o: nat, p: nat)
    requires n > 0 && u > 0 && Spaced(offs, 2 * u, B) && Mul(B, n) <= 64
    requires Fields(v, offs, n, 2 * u, f) && o in offs && Mul(o + u, n) <= p < Mul(o + u, n) + u
    ensures Bit(Or(v, ShlW(v, Mul(n - 1, u), 64)), p) == f(o + u + p - Mul(o + u, n))
  {
    hide *;
    var s := Mul(n - 1, u);
    ShiftDistance(n, u);
    FieldBelow(offs, n, 2 * u, B, o);
    MulAdd(o, u, n);
    MulAdd(u, u, n);
    FieldsAt(v, offs, n, 2 * u, f, o, p - s);
    if Bit(v, p) {
      var o2 := FieldsOwner(v, offs, n, 2 * u, f, p);
      FieldBelow(offs, n, 2 * u, B, o2);
      BlocksApart(offs, 2 * u, B, n, o, o2, p);
    }
  }

  /** `utCoords |= in << (d*utB)`: one more field of every block is in place. */
  lemma {:induction false} InsertField(ut: nat, offs: set<nat>, n: nat, u: nat, d: nat, x: nat, B: nat, v: nat)
    requires n > 0 && u > 0 && d < n && Spaced(offs, u, B) && Mul(B, n) <= 64
    requires Layout(ut, offs, n, u, d, x, B) && Fields(v, offs, n, u, Field(x, B, d))
    ensures Layout(Or(ut, ShlW(v, Mul(d, u), 64)), offs, n, u, d + 1, x, B)
  {
    hide *;
    var r := Or(ut, ShlW(v, Mul(d, u), 64));
    MulAdd(d, 1, u);
    MulSmall(u);
    forall p: nat, o: nat {:trigger Bit(r, p), o in offs} | o in offs && Mul(o, n) <= p < Mul(o, n) + Mul(d + 1, u)
      ensures Bit(r, p) == Bit(x, Mul(Quo(p - Mul(o, n), u), B) + o + Rem(p - Mul(o, n), u))
    {
      InsertBit(ut, offs, n, u, d, x, B, v, o, p);
    }
    forall p: nat {:trigger Bit(r, p)} | Bit(r, p) ensures InField(offs, n, Mul(d + 1, u), p) {
      if Bit(ut, p) {
        var o := LayoutOwner(ut, offs, n, u, d, x, B, p);
        InFieldIntro(offs, n, Mul(d + 1, u), p, o);
      } else {
        var o := FieldsOwner(v, offs, n, u, Field(x, B, d), p - Mul(d, u));
        InFieldIntro(offs, n, Mul(d + 1, u), p, o);
      }
    }
    LayoutIntro(r, offs, n, u, d + 1, x, B);
  }

  lemma {:induction false} InFieldIntro(offs: set<nat>, n: nat, w: nat, p: nat, o: nat)
    requires o in offs && Mul(o, n) <= p < Mul(o, n) + w
    ensures InField(offs, n, w, p)
  {
    hide Bit, Mul, Quo, Rem, Pow2;
  }

  lemma {:induction false} InsertBit(ut: nat, offs: set<nat>, n: nat, u: nat, d: nat, x: nat, B: nat, v: nat, o: nat, p: nat)
    requires n > 0 && u > 0 && d < n && Spaced(offs, u, B) && Mul(B, n) <= 64
    requires Layout(ut, offs, n, u, d, x, B) && Fields(v, offs, n, u, Field(x, B, d))
    requires o in offs && Mul(o, n) <= p < Mul(o, n) + Mul(d, u) + u
    ensures Bit(Or(ut, ShlW(v, Mul(d, u), 64)), p) ==
            Bit(x, Mul(Quo(p - Mul(o, n), u), B) + o + Rem(p - Mul(o, n), u))
  {
    hide *;
    MulStep(d, n, u);
    MulComm(n, u);
    FieldBelow(offs, n, u, B, o);
    var s := Mul(d, u);
    var q := p - Mul(o, n);
    if q < s {
      LayoutAt(ut, offs, n, u, d, x, B, o, p);
      if s <= p && Bit(v, p - s) {
        var o2 := FieldsOwner(v, offs, n, u, Field(x, B, d), p - s);
        FieldBelow(offs, n, u, B, o2);
        BlocksApart(offs, u, B, n, o, o2, p);
      }
    } else {
      QuoRemOf(d, q - s, u);
      FieldsAt(v, offs, n, u, Field(x, B, d), o, p - s);
      FieldValue(x, B, d, o + (p - s) - Mul(o, n));
      if Bit(ut, p) {
        var o2 := LayoutOwner(ut, offs, n, u, d, x, B, p);
        BlocksApart(offs, u, B, n, o, o2, p);
      }
    }
  }

  lemma {:induction false} FieldValue(x: nat, B: nat, d: nat, b: nat)
    ensures Field(x, B, d)(b) == Bit(x, Mul(d, B) + b)
  {}

  // ---- odd widths: the top bit of each field goes straight to its place

  ghost predicate IsTop(offs: set<nat>, w: nat, b: nat) {
    exists o <- offs :: b + 1 == o + w
  }

  /** As `Settled`, with the top bits of the first c fields of every block settled too. */
  ghost predicate SettledTops(v: nat, offs: set<nat>, n: nat, w: nat, c: nat, x: nat, B: nat)
    requires n > 0
  {
    forall p: nat {:trigger Bit(v, p)} :: Bit(v, p) ==
      (&& p < Mul(B, n)
       && (!Covered(offs, w, Quo(p, n)) || (Rem(p, n) < c && IsTop(offs, w, Quo(p, n))))
       && Bit(x, Mul(Rem(p, n), B) + Quo(p, n)))
  }

  /** `coords |= (in & inFieldStarts) << oddShift` for field d. */
  lemma {:induction false} SettleTop(v: nat, offs: set<nat>, n: nat, u: nat, d: nat, x: nat, B: nat, field: nat, tops: nat)
    requires n > 0 && d < n && Spaced(offs, 2 * u + 1, B) && Mul(B, n) <= 64
    requires SettledTops(v, offs, n, 2 * u + 1, d, x, B)
    requires Fields(field, offs, n, 2 * u + 1, Field(x, B, d)) && Tops(tops, offs, n, 2 * u + 1)
    ensures SettledTops(Or(v, ShlW(And(field, tops), 2 * Mul(n - 1, u) + d, 64)), offs, n, 2 * u + 1, d + 1, x, B)
  {
    hide *;
    var w := 2 * u + 1;
    var moved := ShlW(And(field, tops), 2 * Mul(n - 1, u) + d, 64);
    var r := Or(v, moved);
    forall p: nat {:trigger Bit(r, p)} ensures Bit(r, p) ==
      (&& p < Mul(B, n)
       && (!Covered(offs, w, Quo(p, n)) || (Rem(p, n) < d + 1 && IsTop(offs, w, Quo(p, n))))
       && Bit(x, Mul(Rem(p, n), B) + Quo(p, n)))
    {
      SettledTopsAt(v, offs, n, w, d, x, B, p);
      if Bit(moved, p) {
        MovedTopOnly(offs, n, u, d, x, B, field, tops, p);
      } else if p < Mul(B, n) && Rem(p, n) == d && IsTop(offs, w, Quo(p, n)) && Bit(x, Mul(d, B) + Quo(p, n)) {
        MovedTopAll(offs, n, u, d, x, B, field, tops, p);
      }
    }
    SettledTopsIntro(r, offs, n, w, d + 1, x, B);
  }

  lemma {:induction false} SettledTopsAt(v: nat, offs: set<nat>, n: nat, w: nat, c: nat, x: nat, B: nat, p: nat)
    requires n > 0 && SettledTops(v, offs, n, w, c, x, B)
    ensures Bit(v, p) ==
            (&& p < Mul(B, n)
             && (!Covered(offs, w, Quo(p, n)) || (Rem(p, n) < c && IsTop(offs, w, Quo(p, n))))
             && Bit(x, Mul(Rem(p, n), B) + Quo(p, n)))
  {
    hide Bit, Mul, Quo, Rem, Pow2;
  }

  lemma {:induction false} SettledTopsIntro(v: nat, offs: set<nat>, n: nat, w: nat, c: nat, x: nat, B: nat)
    requires n > 0
    requires forall p: nat {:trigger Bit(v, p)} :: Bit(v, p) ==
               (&& p < Mul(B, n)
                && (!Covered(offs, w, Quo(p, n)) || (Rem(p, n) < c && IsTop(offs, w, Quo(p, n))))
                && Bit(x, Mul(Rem(p, n), B) + Quo(p, n)))
    ensures SettledTops(v, offs, n, w, c, x, B)
  {
    hide Bit, Mul, Quo, Rem, Pow2;
  }

  /** Where the moved top bits of field d arrive: at most in their final places ... */
  lemma {:induction false} MovedTopOnly(offs: set<nat>, n: nat, u: nat, d: nat, x: nat, B: nat, field: nat, tops: nat, p: nat)
    requires n > 0 && d < n && Spaced(offs, 2 * u + 1, B) && Mul(B, n) <= 64
    requires Fields(field, offs, n, 2 * u + 1, Field(x, B, d)) && Tops(tops, offs, n, 2 * u + 1)
    requires Bit(ShlW(And(field, tops), 2 * Mul(n - 1, u) + d, 64), p)
    ensures p < Mul(B, n) && Rem(p, n) == d && IsTop(offs, 2 * u + 1, Quo(p, n)) && Bit(x, Mul(d, B) + Quo(p, n))
  {
    hide *;
    var k := p - (2 * Mul(n - 1, u) + d);
    var o := TopsOwner(tops, offs, n, 2 * u + 1, k);
    TopPlace(offs, n, u, d, B, o, k);
    FieldsAt(field, offs, n, 2 * u + 1, Field(x, B, d), o, k);
    FieldValue(x, B, d, o + 2 * u);
    IsTopIntro(offs, 2 * u + 1, o);
  }

  /** ... and in all of them. */
  lemma {:induction false} MovedTopAll(offs: set<nat>, n: nat, u: nat, d: nat, x: nat, B: nat, field: nat, tops: nat, p: nat)
    requires n > 0 && d < n && Spaced(offs, 2 * u + 1, B) && Mul(B, n) <= 64
    requires Fields(field, offs, n, 2 * u + 1, Field(x, B, d)) && Tops(tops, offs, n, 2 * u + 1)
    requires p < Mul(B, n) && Rem(p, n) == d && IsTop(offs, 2 * u + 1, Quo(p, n)) && Bit(x, Mul(d, B) + Quo(p, n))
    ensures Bit(ShlW(And(field, tops), 2 * Mul(n - 1, u) + d, 64), p)
  {
    hide *;
    var o := IsTopOwner(offs, 2 * u + 1, Quo(p, n));
    var k := Mul(o, n) + 2 * u;
    TopPlace(offs, n, u, d, B, o, k);
    QuoRem(p, n);
    FieldsAt(field, offs, n, 2 * u + 1, Field(x, B, d), o, k);
    FieldValue(x, B, d, o + 2 * u);
    TopsAt(tops, offs, n, 2 * u + 1, o, k);
    assert Bit(And(field, tops), k);
  }

  lemma {:induction false} IsTopIntro(offs: set<nat>, w: nat, o: nat)
    requires o in offs && w > 0
    ensures IsTop(offs, w, o + w - 1)
  {}

  lemma {:induction false} IsTopOwner(offs: set<nat>, w: nat, b: nat) returns (o: nat)
    requires IsTop(offs, w, b)
    ensures o in offs && b + 1 == o + w
  {
    o :| o in offs && b + 1 == o + w;
  }

  lemma {:induction false} TopPlace(offs: set<nat>, n: nat, u: nat, d: nat, B: nat, o: nat, k: nat)
    requires n > 0 && d < n && Spaced(offs, 2 * u + 1, B) && o in offs && k == Mul(o, n) + 2 * u
    ensures k + 2 * Mul(n - 1, u) + d == Mul(o + 2 * u, n) + d < Mul(B, n)
    ensures Quo(Mul(o + 2 * u, n) + d, n) == o + 2 * u && Rem(Mul(o + 2 * u, n) + d, n) == d
  {
    hide Mul, Quo, Rem;
    ShiftDistance(n, u);
    MulAdd(u, u, n);
    MulAdd(o, 2 * u, n);
    QuoRemOf(o + 2 * u, d, n);
    MulStep(o + 2 * u, B, n);
  }

  /** After the last field of a pass the settled bits are those outside the halved blocks. */
  lemma {:induction false} PassSettled(v: nat, offs: set<nat>, n: nat, u: nat, x: nat, B: nat, odd: bool)
    requires n > 0 && Spaced(offs, 2 * u + B2n(odd), B)
    requires if odd then SettledTops(v, offs, n, 2 * u + 1, n, x, B) else Settled(v, offs, n, 2 * u, x, B)
    ensures Settled(v, Halved(offs, u), n, u, x, B)
  {
    hide Bit, Mul, Quo, Rem, Halved, Covered, Spaced, IsTop;
    forall p: nat {:trigger Bit(v, p)} ensures Bit(v, p) ==
      (p < Mul(B, n) && !Covered(Halved(offs, u), u, Quo(p, n)) && Bit(x, Mul(Rem(p, n), B) + Quo(p, n)))
    {
      HalvedCovers(offs, u, Quo(p, n));
      if odd { CoveredOdd(offs, u, B, Quo(p, n)); }
    }
  }

  lemma {:induction false} CoveredOdd(offs: set<nat>, u: nat, B: nat, b: nat)
    requires Spaced(offs, 2 * u + 1, B)
    ensures Covered(offs, 2 * u, b) <==> Covered(offs, 2 * u + 1, b) && !IsTop(offs, 2 * u + 1, b)
  {
    if Covered(offs, 2 * u + 1, b) {
      var o :| o in offs && o <= b < o + 2 * u + 1;
    }
  }

  // ---- the masks of a pass

  lemma {:induction false} HalvedEnds(e: nat, offs: set<nat>, n: nat, u: nat, w: nat, B: nat)
    requires n > 0 && Ends(e, offs, n) && Spaced(offs, w, B) && 2 * u <= w && 0 < u && Mul(B, n) <= 64
    ensures Ends(Or(e, ShlW(e, Mul(n - 1, u) + u, 64)), Halved(offs, u), n)
  {
    hide *;
    var e' := Or(e, ShlW(e, Mul(n - 1, u) + u, 64));
    ShiftDistance(n, u);
    forall p: nat {:trigger Bit(e', p)} | Bit(e', p) ensures exists o <- Halved(offs, u) :: p == Mul(o, n) {
      if Bit(e, p) {
        var o := EndsOwner(e, offs, n, p);
        HalvedHas(offs, u, o);
      } else {
        var o := EndsOwner(e, offs, n, p - Mul(u, n));
        MulAdd(o, u, n);
        HalvedHas(offs, u, o);
      }
    }
    forall o: nat | o in Halved(offs, u) ensures Bit(e', Mul(o, n)) {
      HalvedOnly(offs, u, o);
      if o in offs {
        EndsAt(e, offs, n, o);
      } else {
        EndsAt(e, offs, n, o - u);
        MulAdd(o - u, u, n);
        EndBelow(offs, n, u, w, B, o - u);
      }
    }
    EndsIntro(e', Halved(offs, u), n);
  }

  lemma {:induction false} EndsIntro(e: nat, offs: set<nat>, n: nat)
    requires forall p: nat {:trigger Bit(e, p)} :: Bit(e, p) ==> exists o <- offs :: p == Mul(o, n)
    requires forall o: nat {:trigger o in offs} :: o in offs ==> Bit(e, Mul(o, n))
    ensures Ends(e, offs, n)
  {
    hide Bit, Mul, Quo, Rem, Pow2;
  }

  lemma {:induction false} EndsOwner(e: nat, offs: set<nat>, n: nat, p: nat) returns (o: nat)
    requires Ends(e, offs, n) && Bit(e, p)
    ensures o in offs && p == Mul(o, n)
  {
    hide Bit, Mul, Quo, Rem, Pow2;
    o :| o in offs && p == Mul(o, n);
  }

  lemma {:induction false} EndsAt(e: nat, offs: set<nat>, n: nat, o: nat)
    requires Ends(e, offs, n) && o in offs
    ensures Bit(e, Mul(o, n))
  {
    hide Bit, Mul, Quo, Rem, Pow2;
  }

  lemma {:induction false} EndBelow(offs: set<nat>, n: nat, u: nat, w: nat, B: nat, o: nat)
    requires n > 0 && u < w && Spaced(offs, w, B) && o in offs
    ensures Mul(o + u, n) < Mul(B, n)
  {
    hide Mul;
    MulStep(o + u, B, n);
  }

  /** `(utFieldEnds << utB) - utFieldEnds` masks one u-bit field per block. */
  lemma {:induction false} FieldMask(e: nat, offs: set<nat>, n: nat, u: nat, B: nat)
    requires 0 < n && 0 < u && B <= 63 && Ends(e, offs, n) && Spaced(offs, u, B) && Mul(B, n) <= 64
    requires e < Pow2(64)
    ensures MaskOf(SubW(ShlW(e, u, 64), e, 64), offs, n, u)
  {
    hide *;
    var m := FromBits((p: nat) => InField(offs, n, u, p), 64);
    EndsSparse(e, offs, n, u, B);
    FieldMaskBits(e, offs, n, u, B, m);
    MaskSum(e, u, m);
    assert ShlW(e, u, 64) == Shl(e, u) by {
      forall k: nat ensures Bit(ShlW(e, u, 64), k) == Bit(Shl(e, u), k) {
        if k >= 64 && Bit(Shl(e, u), k) { ShlFits(e, offs, n, u, B, k - u); }
      }
      SameBits(ShlW(e, u, 64), Shl(e, u));
    }
  }

  lemma {:induction false} ShlFits(e: nat, offs: set<nat>, n: nat, u: nat, B: nat, p: nat)
    requires 0 < n && 0 < u && B <= 63 && Ends(e, offs, n) && Spaced(offs, u, B) && Mul(B, n) <= 64 && Bit(e, p)
    ensures p + u < 64
  {
    hide Bit, Mul, Spaced;
    var o :| o in offs && p == Mul(o, n);
    FieldBelow(offs, n, u, B, o);
    ShiftDistance(n, u);
    if n == 1 { MulComm(B, 1); MulSmall(B); }
  }

  lemma {:induction false} EndsSparse(e: nat, offs: set<nat>, n: nat, u: nat, B: nat)
    requires 0 < n && 0 < u && Ends(e, offs, n) && Spaced(offs, u, B)
    ensures Sparse(e, u)
  {
    hide Bit, Mul, Spaced;
    forall p: nat, q: nat | Bit(e, p) && Bit(e, q) && p < q ensures p + u <= q {
      var o :| o in offs && p == Mul(o, n);
      var o' :| o' in offs && q == Mul(o', n);
      FieldBelow(offs, n, u, B, o);
      FieldBelow(offs, n, u, B, o');
      if q < p + u { SameField(offs, n, u, B, o, o', q); }
    }
  }

  lemma {:induction false} FieldMaskBits(e: nat, offs: set<nat>, n: nat, u: nat, B: nat, m: nat)
    requires 0 < n && 0 < u && Ends(e, offs, n) && Spaced(offs, u, B) && Mul(B, n) <= 64
    requires forall k: nat {:trigger Bit(m, k)} :: Bit(m, k) == (k < 64 && InField(offs, n, u, k))
    ensures IsMask(m, e, u) && MaskOf(m, offs, n, u)
  {
    hide Bit, Mul, Spaced;
    forall p: nat ensures InField(offs, n, u, p) == InFieldOf(e, u, p) {
      if InField(offs, n, u, p) {
        var o :| o in offs && Mul(o, n) <= p < Mul(o, n) + u;
        assert Bit(e, Mul(o, n));
      }
      if InFieldOf(e, u, p) {
        var q: nat :| q <= p < q + u && Bit(e, q);
      }
    }
    forall p: nat | InField(offs, n, u, p) ensures p < 64 {
      var o :| o in offs && Mul(o, n) <= p < Mul(o, n) + u;
      FieldBelow(offs, n, u, B, o);
    }
  }

  // ---- the program

  /** Everything the loop keeps true between passes. */
  ghost predicate PassInv(offs: set<nat>, n: nat, w: nat, x: nat, B: nat, word: nat, ends: nat, mask: nat, coords: nat) {
    && 0 < n && 0 < w && Mul(B, n) <= 64 && ends < Pow2(64)
    && Spaced(offs, w, B)
    && Layout(word, offs, n, w, n, x, B)
    && Ends(ends, offs, n)
    && MaskOf(mask, offs, n, w)
    && Settled(coords, offs, n, w, x, B)
  }

  /** One pass over the fields: `for (d = 0; d < nDims; ++d)`, both parities of inB. */
  method Pass(n: nat, B: nat, inB: nat, inCoords: nat, inFieldEnds: nat, inMask: nat, coords: nat,
              utFieldEnds: nat, utMask: nat, ghost offs: set<nat>, ghost x: nat)
    returns (utCoords: nat, coords': nat)
    requires 2 <= inB && PassInv(offs, n, inB, x, B, inCoords, inFieldEnds, inMask, coords)
    requires MaskOf(utMask, Halved(offs, inB / 2), n, inB / 2)
    ensures Layout(utCoords, Halved(offs, inB / 2), n, inB / 2, n, x, B)
    ensures Settled(coords', Halved(offs, inB / 2), n, inB / 2, x, B)
  {
    hide *;
    PassInvParts(offs, n, inB, x, B, inCoords, inFieldEnds, inMask, coords);
    var utB := inB / 2;
    var shiftAmt := Mul(n - 1, utB);
    var odd := inB % 2 == 1;
    ghost var offs' := Halved(offs, utB);
    HalvedSpaced(offs, inB, B, utB);
    utCoords, coords' := 0, coords;
    LayoutEmpty(offs', n, utB, x, B);
    if odd { SettledToTops(coords, offs, n, inB, x, B); }
    var cur := inCoords;
    var inFieldStarts := ShlW(inFieldEnds, inB - 1, 64);
    TopsOfEnds(inFieldEnds, offs, n, inB, B);
    MulSmall(inB);
    var d := 0;
    while d < n
      invariant 0 <= d <= n
      invariant forall k: nat {:trigger Bit(cur, k)} :: Bit(cur, k) == Bit(inCoords, Mul(d, inB) + k)
      invariant Layout(utCoords, offs', n, utB, d, x, B)
      invariant if odd then SettledTops(coords', offs, n, inB, d, x, B) else Settled(coords', offs, n, inB, x, B)
    {
      var field := And(cur, inMask);
      ExtractField(inCoords, offs, n, inB, x, B, d, cur, inMask);
      cur := Shr(cur, inB);
      MulAdd(d, 1, inB);
      if odd {
        SettleTop(coords', offs, n, utB, d, x, B, field, inFieldStarts);
        coords' := Or(coords', ShlW(And(field, inFieldStarts), 2 * shiftAmt + d, 64));
        ClearTops(field, offs, n, inB, B, Field(x, B, d), inFieldStarts);
        field := And(field, NotW(inFieldStarts, 64));
      }
      SpacedNarrow(offs, inB, 2 * utB, B);
      SplitField(field, offs, n, utB, B, Field(x, B, d), utMask);
      field := And(Or(field, ShlW(field, shiftAmt, 64)), utMask);
      InsertField(utCoords, offs', n, utB, d, x, B, field);
      utCoords := Or(utCoords, ShlW(field, Mul(d, utB), 64));
      d := d + 1;
    }
    PassSettled(coords', offs, n, utB, x, B, odd);
  }

  lemma {:induction false} PassInvParts(offs: set<nat>, n: nat, w: nat, x: nat, B: nat, word: nat, ends: nat, mask: nat, coords: nat)
    requires PassInv(offs, n, w, x, B, word, ends, mask, coords)
    ensures 0 < n && 0 < w && Mul(B, n) <= 64 && ends < Pow2(64) && Spaced(offs, w, B)
    ensures Layout(word, offs, n, w, n, x, B) && Ends(ends, offs, n) && MaskOf(mask, offs, n, w)
    ensures Settled(coords, offs, n, w, x, B)
  {
    hide Bit, Mul, Quo, Rem, Pow2;
  }

  lemma {:induction false} SpacedNarrow(offs: set<nat>, w: nat, w': nat, B: nat)
    requires Spaced(offs, w, B) && w' <= w
    ensures Spaced(offs, w', B)
  {}

  lemma {:induction false} LayoutEmpty(offs: set<nat>, n: nat, w: nat, x: nat, B: nat)
    requires w > 0
    ensures Layout(0, offs, n, w, 0, x, B)
  {
    NoBits();
  }

  lemma {:induction false} SettledToTops(v: nat, offs: set<nat>, n: nat, w: nat, x: nat, B: nat)
    requires n > 0 && Settled(v, offs, n, w, x, B)
    ensures SettledTops(v, offs, n, w, 0, x, B)
  {
    hide Bit, Mul, Quo, Rem;
  }

  lemma {:induction false} TopsOfEnds(e: nat, offs: set<nat>, n: nat, w: nat, B: nat)
    requires 0 < n && 0 < w && Ends(e, offs, n) && Spaced(offs, w, B) && Mul(B, n) <= 64
    ensures Tops(ShlW(e, w - 1, 64), offs, n, w)
  {
    hide Bit, Mul, ShlW, Ends, Spaced;
    var s := ShlW(e, w - 1, 64);
    forall p: nat ensures Bit(s, p) == exists o <- offs :: p + 1 == Mul(o, n) + w {
      if Bit(s, p) {
        var o := EndsOwner(e, offs, n, p - (w - 1));
      }
      if exists o <- offs :: p + 1 == Mul(o, n) + w {
        var o :| o in offs && p + 1 == Mul(o, n) + w;
        EndsAt(e, offs, n, o);
        FieldBelow(offs, n, w, B, o);
      }
    }
  }

  /** The logarithmic transposition computes exactly what the bit-by-bit one does. */
  method BitTransposeLog(nDims: nat, nBits: nat, inCoords: nat) returns (coords: nat)
    requires 1 <= nDims && 1 <= nBits <= 63 && Mul(nBits, nDims) <= 64
    requires inCoords < Pow2(Mul(nBits, nDims))
    ensures coords == Transpose(nDims, nBits, inCoords)
  {
    hide *;
    var word, inB := inCoords, nBits;
    var inFieldEnds, inMask := 1, OnesW(inB, 64);
    coords := 0;
    ghost var offs: set<nat> := {0};
    PassInvInit(nDims, nBits, inCoords);
    while inB / 2 > 0
      invariant 1 <= inB <= nBits
      invariant PassInv(offs, nDims, inB, inCoords, nBits, word, inFieldEnds, inMask, coords)
      decreases inB
    {
      PassInvParts(offs, nDims, inB, inCoords, nBits, word, inFieldEnds, inMask, coords);
      var utB := inB / 2;
      var shiftAmt := Mul(nDims - 1, utB);
      var utFieldEnds := Or(inFieldEnds, ShlW(inFieldEnds, shiftAmt + utB, 64));
      HalvedEnds(inFieldEnds, offs, nDims, utB, inB, nBits);
      HalvedSpaced(offs, inB, nBits, utB);
      OrBound(inFieldEnds, ShlW(inFieldEnds, shiftAmt + utB, 64));
      var utMask := SubW(ShlW(utFieldEnds, utB, 64), utFieldEnds, 64);
      FieldMask(utFieldEnds, Halved(offs, utB), nDims, utB, nBits);
      word, coords := Pass(nDims, nBits, inB, word, inFieldEnds, inMask, coords, utFieldEnds, utMask, offs, inCoords);
      inFieldEnds, inMask := utFieldEnds, utMask;
      offs, inB := Halved(offs, utB), utB;
      PassInvIntro(offs, nDims, inB, inCoords, nBits, word, inFieldEnds, inMask, coords);
    }
    PassInvParts(offs, nDims, inB, inCoords, nBits, word, inFieldEnds, inMask, coords);
    Finish(offs, nDims, inCoords, nBits, word, coords);
    coords := Or(coords, word);
  }

  lemma {:induction false} OrBound(a: nat, b: nat)
    requires a < Pow2(64) && b < Pow2(64)
    ensures Or(a, b) < Pow2(64)
  {
    hide *;
    HighBitsClear(a, 64);
    HighBitsClear(b, 64);
    BoundFromBits(Or(a, b), 64);
  }

  lemma {:induction false} PassInvIntro(offs: set<nat>, n: nat, w: nat, x: nat, B: nat, word: nat, ends: nat, mask: nat, coords: nat)
    requires 0 < n && 0 < w && Mul(B, n) <= 64 && ends < Pow2(64) && Spaced(offs, w, B)
    requires Layout(word, offs, n, w, n, x, B) && Ends(ends, offs, n) && MaskOf(mask, offs, n, w)
    requires Settled(coords, offs, n, w, x, B)
    ensures PassInv(offs, n, w, x, B, word, ends, mask, coords)
  {
    hide Bit, Mul, Quo, Rem, Pow2;
  }

  /** At the start there is one block, the whole word. */
  lemma {:induction false} PassInvInit(n: nat, B: nat, x: nat)
    requires 0 < n && 0 < B && Mul(B, n) <= 64 && x < Pow2(Mul(B, n))
    ensures PassInv({0}, n, B, x, B, x, 1, Ones(B), 0)
  {
    hide Bit, Mul, Quo, Rem, Ones, Pow2;
    MulSmall(n);
    MulSmall(B);
    MulComm(n, B);
    HighBitsClear(x, Mul(B, n));
    assert Layout(x, {0}, n, B, n, x, B) by {
      forall p: nat ensures p == Mul(Quo(p, B), B) + 0 + Rem(p, B) { QuoRem(p, B); }
      forall p: nat | Bit(x, p) ensures InField({0}, n, Mul(n, B), p) { InFieldIntro({0}, n, Mul(n, B), p, 0); }
    }
    assert Ends(1, {0}, n) by {
      forall p: nat ensures Bit(1, p) == (p == 0) { SmallBit(true, p); }
    }
    assert MaskOf(Ones(B), {0}, n, B) by {
      forall p: nat | p < B ensures InField({0}, n, B, p) { InFieldIntro({0}, n, B, p, 0); }
    }
    assert Settled(0, {0}, n, B, x, B) by {
      NoBits();
      forall p: nat | p < Mul(B, n) ensures Covered({0}, B, Quo(p, n)) {
        QuoBound(p, n, B);
        assert 0 in {0};
      }
    }
    assert 1 < Pow2(64) by { Pow2Strict(0, 64); OneIsPow2(); }
  }

  lemma {:induction false} OneIsPow2()
    ensures Pow2(0) == 1
  {}

  /** When the blocks are one bit wide, each block is in its final place. */
  lemma {:induction false} Finish(offs: set<nat>, n: nat, x: nat, B: nat, word: nat, coords: nat)
    requires 0 < n && Spaced(offs, 1, B) && Layout(word, offs, n, 1, n, x, B) && Settled(coords, offs, n, 1, x, B)
    ensures Or(coords, word) == Transpose(n, B, x)
  {
    hide Bit, Mul, Quo, Rem, Or, Transpose, Layout, Spaced;
    var r := Or(coords, word);
    forall p: nat ensures Bit(r, p) == Bit(Transpose(n, B, x), p) {
      FinishBit(offs, n, x, B, word, p);
    }
    SameBits(r, Transpose(n, B, x));
  }

  lemma {:induction false} FinishBit(offs: set<nat>, n: nat, x: nat, B: nat, word: nat, p: nat)
    requires 0 < n && Spaced(offs, 1, B) && Layout(word, offs, n, 1, n, x, B)
    ensures Bit(word, p) == (p < Mul(B, n) && Covered(offs, 1, Quo(p, n)) && Bit(x, Mul(Rem(p, n), B) + Quo(p, n)))
  {
    hide Bit, Mul, Quo, Rem, Layout, Spaced;
    MulComm(n, 1);
    MulSmall(n);
    if Bit(word, p) {
      var o := LayoutOwner(word, offs, n, 1, n, x, B, p);
      LayoutAt(word, offs, n, 1, n, x, B, o, p);
      QuoRemOf(o, p - Mul(o, n), n);
      QuoRemOf(p - Mul(o, n), 0, 1);
      MulComm(p - Mul(o, n), 1);
      MulSmall(p - Mul(o, n));
      EndBelow(offs, n, 0, 1, B, o);
      QuoBound(p, n, B);
      SpacedBelow(offs, 1, B, o);
    }
    if p < Mul(B, n) && Covered(offs, 1, Quo(p, n)) {
      var o := Quo(p, n);
      QuoRem(p, n);
      LayoutAt(word, offs, n, 1, n, x, B, o, p);
      MulComm(Rem(p, n), 1);
      MulSmall(Rem(p, n));
      QuoRemOf(Rem(p, n), 0, 1);
    }
  }

  lemma {:induction false} SpacedBelow(offs: set<nat>, w: nat, B: nat, o: nat)
    requires Spaced(offs, w, B) && o in offs
    ensures o + w <= B
  {}
}
