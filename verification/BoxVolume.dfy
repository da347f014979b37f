/** The volume of a box is the number of its cells, hence the length of its ordered list
    of curve indices (src/bbox.c, bbox_volume; used by dht_construct_hash). */
module BoxVolume {
  import opened Bits
  import opened Words
  import opened HilbertCube
  import opened Intervals
  import opened Bbox
  import opened BboxIntervals
  import opened DhtPartition

  function Tail(b: Box): (t: Box)
    requires IsBox(b, |b.lb|) && |b.lb| > 0
    ensures IsBox(t, |b.lb| - 1)
  {
    Box(b.lb[1..], b.ub[1..])
  }

  function Volume(b: Box): nat
    requires NonEmpty(b)
    decreases |b.lb|
  {
    if |b.lb| == 0 then 1 else Mul(b.ub[0] - b.lb[0] + 1, Volume(Tail(b)))
  }

  /** bbox_volume: the product of the sides. */
  method BboxVolume(b: Box) returns (n: nat)
    requires NonEmpty(b)
    ensures n == Volume(b)
  {
    hide Mul, Volume;
    n := 1;
    var k := 0;
    VolumeUpto(b, 0);
    while k < |b.lb|
      invariant 0 <= k <= |b.lb| && NonEmpty(Box(b.lb[k..], b.ub[k..]))
      invariant Mul(n, Volume(Box(b.lb[k..], b.ub[k..]))) == Volume(b)
    {
      VolumeUpto(b, k);
      VolumeUpto(b, k + 1);
      MulAssoc(n, b.ub[k] - b.lb[k] + 1, Volume(Box(b.lb[k + 1..], b.ub[k + 1..])));
      n := n * (b.ub[k] - b.lb[k] + 1);
      k := k + 1;
    }
    VolumeUpto(b, k);
    MulComm(n, 1);
    MulSmall(n);
  }

  lemma {:induction false} VolumeUpto(b: Box, k: nat)
    requires NonEmpty(b) && k <= |b.lb|
    ensures NonEmpty(Box(b.lb[k..], b.ub[k..]))
    ensures k == |b.lb| ==> Volume(Box(b.lb[k..], b.ub[k..])) == 1
    ensures k == 0 ==> Mul(1, Volume(Box(b.lb[k..], b.ub[k..]))) == Volume(b)
    ensures k < |b.lb| ==> Volume(Box(b.lb[k..], b.ub[k..])) ==
                           Mul(b.ub[k] - b.lb[k] + 1, Volume(Box(b.lb[k + 1..], b.ub[k + 1..])))
  {
    hide Mul;
    var r := Box(b.lb[k..], b.ub[k..]);
    if k == 0 { assert r == b; MulSmall(Volume(b)); }
    if k < |b.lb| { assert Tail(r) == Box(b.lb[k + 1..], b.ub[k + 1..]); }
  }

  lemma {:induction false} MulAssoc(a: nat, b: nat, c: nat)
    ensures Mul(a * b, c) == Mul(a, Mul(b, c))
  {
    hide Mul;
    MulIsProduct(a * b, c);
    MulIsProduct(b, c);
    MulIsProduct(a, b * c);
    assert a * b * c == a * (b * c);
  }

  // ---- the set of cells

  /** Cells of one dimension more: each of cnt first coordinates before each cell of s. */
  function Prefixed(lo: nat, cnt: nat, s: set<Cell>): set<Cell> {
    if cnt == 0 then {} else Prefixed(lo, cnt - 1, s) + Prepend(lo + cnt - 1, s)
  }

  function Prepend(x: nat, s: set<Cell>): set<Cell> {
    set c <- s :: [x] + c
  }

  function CellSet(b: Box): set<Cell>
    requires NonEmpty(b)
    decreases |b.lb|
  {
    if |b.lb| == 0 then {[]} else Prefixed(b.lb[0], b.ub[0] - b.lb[0] + 1, CellSet(Tail(b)))
  }

  lemma {:induction false} PrefixedHas(lo: nat, cnt: nat, s: set<Cell>, c: Cell)
    ensures c in Prefixed(lo, cnt, s) <==> c != [] && lo <= c[0] < lo + cnt && c[1..] in s
  {
    if cnt > 0 {
      PrefixedHas(lo, cnt - 1, s, c);
      if c != [] && c[0] == lo + cnt - 1 && c[1..] in s { assert c == [lo + cnt - 1] + c[1..]; }
    }
  }

  lemma {:induction false} CellSetHas(b: Box, c: Cell)
    requires NonEmpty(b)
    ensures c in CellSet(b) <==> InBox(c, b)
    decreases |b.lb|
  {
    hide Prefixed;
    if |b.lb| > 0 {
      PrefixedHas(b.lb[0], b.ub[0] - b.lb[0] + 1, CellSet(Tail(b)), c);
      if c != [] {
        CellSetHas(Tail(b), c[1..]);
        if InBox(c[1..], Tail(b)) && b.lb[0] <= c[0] <= b.ub[0] {
          forall d | 0 <= d < |c| ensures b.lb[d] <= c[d] <= b.ub[d] {
            if d > 0 { assert Tail(b).lb[d - 1] <= c[1..][d - 1] <= Tail(b).ub[d - 1]; }
          }
        }
        if InBox(c, b) {
          forall d | 0 <= d < |c[1..]| ensures Tail(b).lb[d] <= c[1..][d] <= Tail(b).ub[d] {
            assert b.lb[d + 1] <= c[d + 1] <= b.ub[d + 1];
          }
        }
      }
    }
  }

  lemma {:induction false} PrependSize(x: nat, s: set<Cell>)
    ensures |Prepend(x, s)| == |s|
  {
    var r := Prepend(x, s);
    if s == {} {
      assert r == {};
    } else {
      var a :| a in s;
      var s' := s - {a};
      PrependSize(x, s');
      var r' := Prepend(x, s');
      forall c | c in s' ensures [x] + c != [x] + a {
        assert ([x] + c)[1..] == c && ([x] + a)[1..] == a;
      }
      assert r == r' + {[x] + a};
    }
  }

  lemma {:induction false} PrefixedSize(lo: nat, cnt: nat, s: set<Cell>)
    ensures |Prefixed(lo, cnt, s)| == Mul(cnt, |s|)
  {
    hide Prepend;
    if cnt > 0 {
      PrefixedSize(lo, cnt - 1, s);
      var x := lo + cnt - 1;
      PrependSize(x, s);
      PrefixedApart(lo, cnt - 1, s);
      UnionSize(Prefixed(lo, cnt - 1, s), Prepend(x, s));
    }
  }

  lemma {:induction false} PrefixedApart(lo: nat, cnt: nat, s: set<Cell>)
    ensures Prefixed(lo, cnt, s) !! Prepend(lo + cnt, s)
  {
    forall c | c in Prefixed(lo, cnt, s) ensures c !in Prepend(lo + cnt, s) {
      PrefixedHas(lo, cnt, s, c);
    }
  }

  lemma UnionSize(a: set<Cell>, b: set<Cell>)
    requires a !! b
    ensures |a + b| == |a| + |b|
  {}

  lemma {:induction false} CellSetSize(b: Box)
    requires NonEmpty(b)
    ensures |CellSet(b)| == Volume(b)
    decreases |b.lb|
  {
    hide Prefixed, Mul;
    if |b.lb| > 0 {
      CellSetSize(Tail(b));
      PrefixedSize(b.lb[0], b.ub[0] - b.lb[0] + 1, CellSet(Tail(b)));
    }
  }

  // ---- the list of indices

  function Elements(s: seq<nat>): set<nat> {
    set x | x in s
  }

  lemma {:induction false} IncreasingSize(s: seq<nat>)
    requires Increasing(s)
    ensures |Elements(s)| == |s|
  {
    hide Elements;
    if s == [] {
      ElementsNone();
    } else {
      var init, last := s[..|s| - 1], s[|s| - 1];
      IncreasingSize(init);
      assert s == init + [last];
      ElementsMore(init, last);
    }
  }

  lemma ElementsNone()
    ensures Elements([]) == {}
  {}

  lemma {:induction false} ElementsMore(s: seq<nat>, x: nat)
    requires x !in s
    ensures |Elements(s + [x])| == |Elements(s)| + 1
  {
    forall y ensures y in Elements(s + [x]) <==> y in Elements(s) || y == x {}
    assert Elements(s + [x]) == Elements(s) + {x};
  }

  function Image(s: set<Cell>, m: nat): set<nat> {
    set c | c in s && |c| > 0 :: Index(c, m)
  }

  lemma {:induction false} ImageSize(s: set<Cell>, m: nat, n: nat)
    requires forall c :: c in s ==> IsCell(c, m) && |c| == n
    ensures |Image(s, m)| == |s|
  {
    hide Index;
    if s == {} {
      assert Image(s, m) == {};
    } else {
      var a :| a in s;
      var s' := s - {a};
      ImageSize(s', m, n);
      assert IsCell(a, m);
      assert Index(a, m) !in Image(s', m) by {
        if Index(a, m) in Image(s', m) {
          var c :| c in s' && |c| > 0 && Index(c, m) == Index(a, m);
          IndexInjective(a, c, m);
        }
      }
      assert Image(s, m) == Image(s', m) + {Index(a, m)};
    }
  }

  /** The table of a box inside the virtual cube lists as many indices as the box has
      cells, in increasing order, and exactly the indices of those cells. */
  lemma {:induction false} TableVolume(bb: Box, n: nat, k: nat)
    requires n > 0 && NonEmpty(bb) && |bb.lb| == n && forall d :: 0 <= d < n ==> bb.ub[d] < Pow2(k)
    ensures Proper(IntvTable(bb, n, k)) && Increasing(Flat(IntvTable(bb, n, k)))
    ensures |Flat(IntvTable(bb, n, k))| == Volume(bb)
    ensures forall x: nat :: x in Flat(IntvTable(bb, n, k)) <==> exists c: Cell :: InBox(c, bb) && Index(c, k + 1) == x
  {
    hide IntvTable, Index, Flat, Increasing, CellSet, Pow2, Has;
    var t := IntvTable(bb, n, k);
    TableParts(bb, n, k);
    GappedOrdered(t);
    FlatIncreasing(t);
    IncreasingSize(Flat(t));
    forall x: nat ensures x in Flat(t) <==> exists c: Cell :: InBox(c, bb) && Index(c, k + 1) == x {
      FlatHas(t, x);
      TableExact(bb, n, k, x);
    }
    var cells := CellSet(bb);
    forall c | c in cells ensures IsCell(c, k + 1) && |c| == n {
      CellSetHas(bb, c);
      BoxCells(bb, k, c);
    }
    ImageSize(cells, k + 1, n);
    CellSetSize(bb);
    forall x: nat ensures x in Elements(Flat(t)) <==> x in Image(cells, k + 1) {
      if c: Cell :| InBox(c, bb) && Index(c, k + 1) == x {
        CellSetHas(bb, c);
      }
      if x in Image(cells, k + 1) {
        var c :| c in cells && |c| > 0 && Index(c, k + 1) == x;
        CellSetHas(bb, c);
      }
    }
    assert Elements(Flat(t)) == Image(cells, k + 1);
  }

  lemma GappedOrdered(t: seq<Intv>)
    requires Gapped(t)
    ensures Ordered(t)
  {}
}
