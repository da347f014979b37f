/** bbox_to_intv2 (src/bbox.c): the same splitting with a hand-made ring buffer in place
    of a queue.  Slots are used in groups of p = 2^nDims; the buffer is enlarged before
    the group in front of the head would be reused. */
module BboxRing {
  import opened Bits
  import opened Words
  import opened Intervals
  import opened Bbox
  import opened BboxIntervals

  /** The queue held in the ring: from head up to tail, wrapping around. */
  function Live(s: seq<Box>, head: nat, tail: nat): (r: seq<Box>)
    requires head < |s| && tail < |s|
    ensures |r| == if head <= tail then tail - head else |s| - head + tail
  {
    if head <= tail then s[head..tail] else s[head..] + s[..tail]
  }

  /** The first slot of the group a slot belongs to. */
  function GroupOf(x: nat, p: nat): (g: nat)
    requires p > 0
    ensures g <= x < g + p
  {
    QuoRem(x, p);
    x - Rem(x, p)
  }

  /** Sizes are whole groups; the tail is at a group boundary and never catches up with
      the group of the head unless the ring is empty. */
  ghost predicate RingInv(size: nat, head: nat, tail: nat, p: nat) {
    && 0 < p && 2 * p <= size && head < size && tail < size
    && Rem(size, p) == 0 && Rem(tail, p) == 0
    && (head != tail ==> GroupOf(head, p) != tail)
  }

  lemma {:induction false} WholeGroups(a: nat, b: nat, p: nat)
    requires p > 0 && Rem(a, p) == 0 && Rem(b, p) == 0 && a < b
    ensures a + p <= b
  {
    hide Rem, Quo, Mul;
    QuoRem(a, p);
    QuoRem(b, p);
    if Quo(a, p) < Quo(b, p) { MulStep(Quo(a, p), Quo(b, p), p); }
    else if Quo(b, p) < Quo(a, p) { MulStep(Quo(b, p), Quo(a, p), p); }
  }

  lemma {:induction false} GroupStart(x: nat, p: nat)
    requires p > 0
    ensures Rem(GroupOf(x, p), p) == 0
    ensures Rem(x, p) == 0 <==> GroupOf(x, p) == x
    ensures x + 1 < GroupOf(x, p) + p ==> GroupOf(x + 1, p) == GroupOf(x, p)
    ensures x + 1 == GroupOf(x, p) + p ==> Rem(x + 1, p) == 0
  {
    hide Rem, Quo, Mul;
    QuoRem(x, p);
    var q := Quo(x, p);
    QuoRemOf(q, 0, p);
    if Rem(x, p) + 1 < p { QuoRemOf(q, Rem(x, p) + 1, p); }
    else { MulAdd(q, 1, p); MulSmall(p); QuoRemOf(q + 1, 0, p); }
  }

  lemma {:induction false} RemAdd(a: nat, p: nat)
    requires p > 0 && Rem(a, p) == 0
    ensures Rem(a + p, p) == 0 && Rem(0, p) == 0
  {
    QuoRemUnfold(a + p, p);
  }

  lemma {:induction false} Wrap(x: nat, size: nat)
    requires 0 < size && x <= size
    ensures Rem(x, size) == if x == size then 0 else x
  {
    QuoRemUnfold(x, size);
    if x == size { QuoRemUnfold(0, size); }
  }

  /** Taking the entry at the head off the ring. */
  lemma {:induction false} PopHead(s: seq<Box>, head: nat, tail: nat, p: nat)
    requires RingInv(|s|, head, tail, p) && head != tail
    ensures var head' := if head + 1 == |s| then 0 else head + 1;
            head' < |s| && RingInv(|s|, head', tail, p)
            && Live(s, head', tail) == Live(s, head, tail)[1..] && Live(s, head, tail)[0] == s[head]
  {
    hide Rem, Quo, Mul, GroupOf, Live;
    GroupStart(head, p);
    QuoRemUnfold(0, p);
    GroupStart(0, p);
    GroupStart(head + 1, p);
    LivePop(s, head, tail);
  }

  lemma {:induction false} LivePop(s: seq<Box>, head: nat, tail: nat)
    requires head < |s| && tail < |s| && head != tail
    ensures var head' := if head + 1 == |s| then 0 else head + 1;
            head' < |s| && Live(s, head', tail) == Live(s, head, tail)[1..] && Live(s, head, tail)[0] == s[head]
  {
    if head < tail {
      assert s[head..tail] == [s[head]] + s[head + 1..tail];
    } else if head + 1 < |s| {
      assert s[head..] + s[..tail] == [s[head]] + (s[head + 1..] + s[..tail]);
    } else {
      assert s[head..] + s[..tail] == [s[head]] + s[..tail];
      assert s[0..tail] == s[..tail];
    }
  }

  /** The ring has room for a group after the tail without touching the head's group. */
  lemma {:induction false} RoomAtTail(size: nat, head: nat, tail: nat, p: nat)
    requires RingInv(size, head, tail, p) && head != tail
    ensures tail + p <= size
    ensures tail < head ==> tail + p <= GroupOf(head, p)
    ensures head < tail ==> GroupOf(head, p) + p <= tail
  {
    hide Rem, Quo, Mul, GroupOf;
    WholeGroups(tail, size, p);
    GroupStart(head, p);
    var g := GroupOf(head, p);
    if tail < g { WholeGroups(tail, g, p); } else if g < tail { WholeGroups(g, tail, p); }
  }

  /** Writing a group at the tail of a ring that is not full appends it to the queue. */
  lemma {:induction false} PushGroup(s: seq<Box>, t: seq<Box>, head: nat, tail: nat, p: nat)
    requires RingInv(|s|, head, tail, p) && head != tail && |t| == |s|
    requires tail + p <= |s|
    requires GroupOf(head, p) != if tail + p == |s| then 0 else tail + p
    requires forall i :: 0 <= i < |s| && !(tail <= i < tail + p) ==> t[i] == s[i]
    ensures var tail' := if tail + p == |s| then 0 else tail + p;
            tail' < |s| && RingInv(|s|, head, tail', p) && head != tail'
            && Live(t, head, tail') == Live(s, head, tail) + t[tail..tail + p] && t[head] == s[head]
  {
    hide Rem, Quo, Mul, GroupOf;
    RoomAtTail(|s|, head, tail, p);
    RemAdd(tail, p);
    GroupStart(head, p);
    if tail + p == |s| { QuoRemUnfold(0, p); GroupStart(0, p); }
    if head < tail {
      assert t[head..tail] == s[head..tail];
      if tail + p < |s| {
        assert t[head..tail + p] == t[head..tail] + t[tail..tail + p];
      } else {
        assert t[head..] == t[head..tail] + t[tail..tail + p];
      }
    } else {
      assert t[head..] == s[head..] && t[..tail] == s[..tail];
      assert t[..tail + p] == t[..tail] + t[tail..tail + p];
    }
  }

  // ---- enlarging a full ring

  /** The next group after the tail is the head's: the ring is full. */
  ghost predicate Full(size: nat, head: nat, tail: nat, p: nat)
    requires p > 0
  {
    GroupOf(head, p) == if tail + p == size then 0 else tail + p
  }

  /** What a resize copies: the slots from g, the start of the head's group, to the tail. */
  function Front(s: seq<Box>, head: nat, tail: nat, g: nat): seq<Box>
    requires g <= head < |s| && tail < |s| && (tail > head ==> g <= tail)
  {
    if tail > head then s[g..tail] else s[g..] + s[..tail]
  }

  /** The enlarged ring has at least one more group. */
  lemma {:induction false} GrownSize(size: nat, p: nat)
    requires p > 0 && 2 * p <= size && Rem(size, p) == 0
    ensures var t := size + size / 2; size + p <= t - Rem(t, p) && Rem(t - Rem(t, p), p) == 0
  {
    hide Rem, Quo, Mul, GroupOf;
    var t := size + size / 2;
    GroupStart(t, p);
    GroupDef(t, p);
    RemAdd(size, p);
    var g := GroupOf(t, p);
    if g < size + p { WholeGroups(g, size + p, p); }
  }

  lemma GroupDef(x: nat, p: nat)
    requires p > 0
    ensures GroupOf(x, p) == x - Rem(x, p)
  {}

  lemma {:induction false} GrownRing(size: nat, nsize: nat, off: nat, p: nat)
    requires 0 < p && 2 * p <= size && off < p && size + p <= nsize && Rem(size, p) == 0 && Rem(nsize, p) == 0
    ensures Rem(size - p, p) == 0 && GroupOf(off, p) == 0 && off != size - p
    ensures RingInv(nsize, off, size - p, p) && !Full(nsize, off, size - p, p)
  {
    hide Quo, Mul;
    QuoRemUnfold(size, p);
    QuoRemUnfold(off, p);
    QuoRemUnfold(0, p);
    GroupDef(off, p);
  }

  /** The resize branch: copy the live groups to the front of a larger table. */
  method Grow(tab: array<Box>, head: nat, tail: nat, p: nat) returns (ntab: array<Box>, nhead: nat, ntail: nat)
    requires (RingInv(tab.Length, head, tail, p) && head != tail && Full(tab.Length, head, tail, p))
             || Twelve(tab.Length, head, tail, p)
    ensures fresh(ntab) && nhead < ntab.Length && ntail < ntab.Length && ntab[nhead] == tab[head]
    ensures !Twelve(tab.Length, head, tail, p) ==>
              (RingInv(ntab.Length, nhead, ntail, p) && nhead != ntail && !Full(ntab.Length, nhead, ntail, p)
               && Live(ntab[..], nhead, ntail) == Live(tab[..], head, tail))
    ensures Twelve(tab.Length, head, tail, p) ==> Twelve(ntab.Length, nhead, ntail, p)
  {
    hide *;
    var size := tab.Length;
    GrowBounds(size, head, tail, p);
    var tmp := size + size / 2;
    var nsize := tmp - Modulo(tmp, p);
    var g := head - Modulo(head, p);
    ntab := CopyFront(tab, head, tail, g, nsize);
    nhead := Modulo(head, p);
    ntail := size - p;
    TwelveParts(size, head, tail, p);
    if Twelve(size, head, tail, p) {
      GrownTwelve(tab[..], ntab[..], head, tail, p);
    } else {
      GrownLive(tab[..], ntab[..], head, tail, p);
    }
  }

  function GrownTo(size: nat, p: nat): (nsize: nat)
    requires p > 0
  {
    QuoRem(size + size / 2, p);
    size + size / 2 - Rem(size + size / 2, p)
  }

  lemma {:induction false} GrowBounds(size: nat, head: nat, tail: nat, p: nat)
    requires (RingInv(size, head, tail, p) && head != tail && Full(size, head, tail, p)) || Twelve(size, head, tail, p)
    ensures 0 < p <= size && head < size && tail < size && GrownTo(size, p) == size + size / 2 - Rem(size + size / 2, p)
    ensures var g := head - Rem(head, p);
            && 0 <= g <= head && (tail > head ==> g <= tail)
            && (if tail > head then tail - g else size - g + tail) <= GrownTo(size, p)
  {
    hide *;
    TwelveParts(size, head, tail, p);
    if Twelve(size, head, tail, p) {
      GrownToDef(size, p);
    } else {
      RingParts(size, head, tail, p);
      RoomAtTail(size, head, tail, p);
      GroupDef(head, p);
      GrownSize(size, p);
      GrownToDef(size, p);
    }
  }

  lemma GrownToDef(size: nat, p: nat)
    requires p > 0
    ensures GrownTo(size, p) == size + size / 2 - Rem(size + size / 2, p)
  {}

  lemma {:induction false} GrownTwelve(s: seq<Box>, t: seq<Box>, head: nat, tail: nat, p: nat)
    requires Twelve(|s|, head, tail, p) && |t| == GrownTo(|s|, p) && head - Rem(head, p) == 0
    requires var f := Front(s, head, tail, 0); |f| <= |t| && t[..|f|] == f
    ensures Twelve(|t|, Rem(head, p), |s| - p, p) && t[Rem(head, p)] == s[head]
  {
    hide Rem;
    TwelveParts(|s|, head, tail, p);
    assert Front(s, head, tail, 0) == s;
    assert t[..|s|][head] == s[head];
  }

  lemma {:induction false} GrownLive(s: seq<Box>, t: seq<Box>, head: nat, tail: nat, p: nat)
    requires RingInv(|s|, head, tail, p) && head != tail && Full(|s|, head, tail, p) && |t| == GrownTo(|s|, p)
    requires var g := head - Rem(head, p);
             && 0 <= g && (tail > head ==> g <= tail)
             && var f := Front(s, head, tail, g); |f| <= |t| && t[..|f|] == f
    ensures var h, l := Rem(head, p), |s| - p;
            && h < |t| && 0 <= l < |t| && t[h] == s[head] && RingInv(|t|, h, l, p) && h != l && !Full(|t|, h, l, p)
            && Live(t, h, l) == Live(s, head, tail)
  {
    hide *;
    RingParts(|s|, head, tail, p);
    GrownNumbers(|s|, head, tail, p);
    FrontLive(s, head, tail, p);
    LiveFront(t, Front(s, head, tail, head - Rem(head, p)), Rem(head, p), |s| - p);
  }

  lemma {:induction false} GrownNumbers(size: nat, head: nat, tail: nat, p: nat)
    requires RingInv(size, head, tail, p) && head != tail && Full(size, head, tail, p)
    ensures 0 < p <= size
    ensures var h, l, n := Rem(head, p), size - p, GrownTo(size, p);
            h < l < n && RingInv(n, h, l, p) && !Full(n, h, l, p)
  {
    hide *;
    RingParts(size, head, tail, p);
    GrownSize(size, p);
    GrownToDef(size, p);
    GrownRing(size, GrownTo(size, p), Rem(head, p), p);
  }

  lemma {:induction false} FrontLive(s: seq<Box>, head: nat, tail: nat, p: nat)
    requires RingInv(|s|, head, tail, p) && head != tail && Full(|s|, head, tail, p)
    ensures p > 0 && head < |s| && tail < |s|
    ensures var g := head - Rem(head, p);
            && 0 <= g <= head && (tail > head ==> g <= tail)
            && var f := Front(s, head, tail, g);
               |f| == |s| - p && Rem(head, p) < |f| && f[Rem(head, p)] == s[head] && f[Rem(head, p)..] == Live(s, head, tail)
  {
    hide Rem, Quo, Mul, GroupOf;
    RoomAtTail(|s|, head, tail, p);
    GroupStart(head, p);
    GroupDef(head, p);
    var g := GroupOf(head, p);
    if tail > head {
      assert g == 0;
    } else {
      assert g == tail + p;
      assert Front(s, head, tail, g)[head - g..] == s[head..] + s[..tail];
    }
  }

  /** The copying of the live groups, from slot g to the tail, to the front of a new table. */
  method CopyFront(tab: array<Box>, head: nat, tail: nat, g: nat, nsize: nat) returns (ntab: array<Box>)
    requires g <= head < tab.Length && tail < tab.Length && (tail > head ==> g <= tail)
    requires (if tail > head then tail - g else tab.Length - g + tail) <= nsize
    ensures fresh(ntab) && ntab.Length == nsize
    ensures var f := Front(tab[..], head, tail, g); |f| <= nsize && ntab[..|f|] == f
  {
    var front := Front(tab[..], head, tail, g);
    ntab := new Box[nsize](i requires 0 <= i => if i < |front| then front[i] else Box([], []));
  }

  /** The ring with twelve dimensions: one group is the whole table. */
  ghost predicate Twelve(size: nat, head: nat, tail: nat, p: nat) {
    size == 4096 && head == 4095 && tail == 0 && p == 4096
  }

  /** The enlarged table would be no larger, and the tail comes back to where it was. */
  lemma {:induction false} TwelveParts(size: nat, head: nat, tail: nat, p: nat)
    ensures Twelve(size, head, tail, p) ==> size == p == 4096 && head == 4095 && tail == 0 && !RingInv(size, head, tail, p)
    ensures size == 4096 && head == 4095 && tail == 0 && p == 4096 ==> Twelve(size, head, tail, p)
    ensures Rem(6144, 4096) == 2048 && Rem(4095, 4096) == 4095 && Rem(4096, 4096) == 0
  {
    hide Rem;
    QuoRemUnfold(6144, 4096);
    QuoRemUnfold(2048, 4096);
    QuoRemUnfold(4095, 4096);
    QuoRemUnfold(4096, 4096);
    QuoRemUnfold(0, 4096);
  }

  lemma LiveFront(s: seq<Box>, front: seq<Box>, head: nat, tail: nat)
    requires head < tail < |s| && s[..tail] == front
    ensures Live(s, head, tail) == front[head..] && s[head] == front[head]
  {
    assert s[head..tail] == s[..tail][head..];
    assert s[head] == s[..tail][head];
  }

  // ---- the program

  lemma {:induction false} FirstRing(n: nat)
    requires 0 < n <= 11
    ensures RingInv(4096, 4095, 0, Pow2(n)) && 2 * Pow2(n) <= 4096
  {
    hide Rem, Quo, Mul, GroupOf, Pow2;
    var p := Pow2(n);
    Pow2Add(12 - n, n);
    Pow2Twelve();
    MulIsProduct(Pow2(12 - n), p);
    QuoRemOf(Pow2(12 - n), 0, p);
    QuoRemUnfold(0, p);
    Pow2Mono(n, 11);
    GroupStart(4095, p);
    RemAdd(0, p);
  }

  lemma Pow2Twelve()
    ensures Pow2(12) == 4096 && Pow2(11) == 2048
  {}

  /** The box the search starts from: the virtual cube. */
  function FirstBox(n: nat, dimVirt: nat): Box
    requires dimVirt > 0
  {
    Box(seq(n, _ => 0), seq(n, _ => dimVirt - 1))
  }

  /** bbox_to_intv2: the same table as bbox_to_intv for up to eleven dimensions.  With
      twelve, unless the box is the whole cube, all parts of the cube are lost, no interval
      is found, and the result is one interval that was never written. */
  method BboxToIntv2(bb: Box, dimVirt: nat, unwritten: Intv, ghost k: nat) returns (itab: seq<Intv>)
    requires dimVirt == Pow2(k) && Sizes(bb, |bb.lb|, k) && |bb.lb| <= 12
    ensures |bb.lb| <= 11 || Includes(bb, FirstBox(|bb.lb|, dimVirt)) ==> itab == IntvTable(bb, |bb.lb|, k)
    ensures |bb.lb| == 12 && !Includes(bb, FirstBox(|bb.lb|, dimVirt)) ==> itab == [unwritten]
  {
    hide *;
    var n := |bb.lb|;
    SizesParts(bb, n, k);
    DecomposeSome(bb, n, k);
    var good := RingIntervals(bb, dimVirt, k);
    if |good| > 0 {
      itab := SortAndCompact(good);
    } else {
      // intv_compact returns 1 for an empty table
      itab := [unwritten];
    }
    TableDef(bb, n, k);
  }

  /** Eleven dimensions are the limit: with twelve, whatever the box (short of the whole
      cube), some content of the unwritten interval makes the result wrong ... */
  lemma {:induction false} TwelveWrong(bb: Box, k: nat)
    requires Sizes(bb, 12, k)
    ensures IntvTable(bb, 12, k) != [Intv(1, 0)]
  {
    hide *;
    TableParts(bb, 12, k) by { SizesParts(bb, 12, k); }
    ProperAt(IntvTable(bb, 12, k));
    assert [Intv(1, 0)][0].lb == 1;
  }

  lemma ProperAt(tab: seq<Intv>)
    requires Proper(tab)
    ensures tab == [] || tab[0].lb <= tab[0].ub
  {}

  /** ... and with more, the first split enlarges the table to no slots at all. */
  lemma {:induction false} MoreThanTwelve(n: nat)
    requires n >= 13
    ensures Rem(0 + Pow2(n), 4096) == 4095 - Rem(4095, Pow2(n))
    ensures 6144 - Rem(6144, Pow2(n)) == 0
  {
    hide Rem, Quo, Mul, Pow2;
    Pow2Mono(13, n);
    PowStep(12);
    Pow2Twelve();
    QuoRemUnfold(4095, Pow2(n));
    QuoRemUnfold(6144, Pow2(n));
    Pow2Add(n - 12, 12);
    MulIsProduct(Pow2(n - 12), 4096);
    QuoRemOf(Pow2(n - 12), 0, 4096);
  }

  /** The loop over the ring. */
  method RingIntervals(bb: Box, dimVirt: nat, ghost k: nat) returns (good: seq<Intv>)
    requires dimVirt == Pow2(k) && Sizes(bb, |bb.lb|, k) && |bb.lb| <= 12
    ensures AllOnGrid(|bb.lb|, k + 1, [Root(|bb.lb|, k)])
    ensures good == (if |bb.lb| <= 11 || Includes(bb, FirstBox(|bb.lb|, dimVirt))
                     then Decompose(bb, |bb.lb|, k + 1, [Root(|bb.lb|, k)]) else [])
  {
    hide *;
    var n := |bb.lb|;
    var p := Pow2(n);
    SizesParts(bb, n, k);
    if n <= 11 { FirstRing(n); } else { Pow2Twelve(); TwelveParts(4096, 4095, 0, p); }
    var bpd := ComputeBits(dimVirt);
    BitsOfPow2(k, bpd);
    var first := FirstBox(n, dimVirt);
    var tab := new Box[4096](_ => first);
    var head: nat, tail: nat := 4095, 0;
    ghost var queue := [Root(n, k)];
    RootInv(bb, n, k, dimVirt);
    FirstDef(n, dimVirt);
    LiveLast(tab[..], first);
    ghost var all := Decompose(bb, n, k + 1, queue);
    ghost var found := if Includes(bb, first) then all else [];
    good := [];
    assert [] + all == all;
    while head != tail
      invariant fresh(tab) && head < tab.Length && tail < tab.Length && AllOnGrid(n, k + 1, queue)
      invariant head != tail || n <= 11 ==> QueueInv(bb, n, k, Live(tab[..], head, tail), queue)
      invariant |queue| == |Live(tab[..], head, tail)|
      invariant n <= 11 ==> RingInv(tab.Length, head, tail, p) && good + Decompose(bb, n, k + 1, queue) == all
      invariant n == 12 && head != tail ==>
                  Twelve(tab.Length, head, tail, p) && tab[head] == first && good == [] && queue == [Root(n, k)]
      invariant n == 12 && head == tail ==> good == found
      decreases Total(n, queue)
    {
      TwelveParts(tab.Length, head, tail, p);
      var more;
      tab, head, tail, more, queue := RingTurn(bb, bpd, tab, head, tail, p, n, k, queue);
      assert (good + more) + Decompose(bb, n, k + 1, queue) == good + (more + Decompose(bb, n, k + 1, queue));
      assert [] + more == more;
      good := good + more;
    }
    LiveEmpty(tab[..], head);
    if n <= 11 {
      QueueDone(bb, n, k, [], queue);
      assert good + [] == good;
    }
  }

  lemma FirstDef(n: nat, dimVirt: nat)
    requires dimVirt > 0
    ensures FirstBox(n, dimVirt) == Box(seq(n, _ => 0), seq(n, _ => dimVirt - 1))
  {}

  /** One turn of the loop: the intervals it finds and the queue it leaves. */
  method RingTurn(bb: Box, bpd: nat, tab0: array<Box>, head0: nat, tail0: nat, p: nat, n: nat, ghost k: nat, ghost queue0: seq<Sub>)
    returns (tab: array<Box>, head: nat, tail: nat, more: seq<Intv>, ghost queue: seq<Sub>)
    requires n == |bb.lb| && Sizes(bb, n, k) && bpd == k + 1 && p == Pow2(n)
    requires head0 < tab0.Length && tail0 < tab0.Length && head0 != tail0
    requires RingInv(tab0.Length, head0, tail0, p) || Twelve(tab0.Length, head0, tail0, p)
    requires AllOnGrid(n, k + 1, queue0) && QueueInv(bb, n, k, Live(tab0[..], head0, tail0), queue0)
    requires |queue0| == |Live(tab0[..], head0, tail0)|
    modifies tab0
    ensures fresh(tab) || tab == tab0
    ensures head < tab.Length && tail < tab.Length && AllOnGrid(n, k + 1, queue) && Total(n, queue) < Total(n, queue0)
    ensures |queue| == |Live(tab[..], head, tail)|
    ensures !Twelve(tab0.Length, head0, tail0, p) ==>
              (RingInv(tab.Length, head, tail, p) && QueueInv(bb, n, k, Live(tab[..], head, tail), queue)
               && more + Decompose(bb, n, k + 1, queue) == Decompose(bb, n, k + 1, queue0))
    ensures Twelve(tab0.Length, head0, tail0, p) ==>
              head == tail && more == if Includes(bb, old(tab0[head0])) then Decompose(bb, n, k + 1, queue0) else []
  {
    hide *;
    tab, head, tail, queue, more := tab0, head0, tail0, queue0, [];
    SizesParts(bb, n, k);
    TwelveParts(tab.Length, head, tail, p);
    ghost var twelve := Twelve(tab.Length, head, tail, p);
    ghost var live := Live(tab[..], head, tail);
    if twelve { LiveLast(tab[..], tab[head]); } else {
      RingParts(tab.Length, head, tail, p);
      PopHead(tab[..], head, tail, p);
    }
    QueueHead(bb, n, k, live, queue);
    ghost var u := queue[0];
    BoxDims(u);
    TotalHead(n, queue);
    DecomposeStep(bb, n, k + 1, queue);
    BoxShapes(bb, u, n);
    var pbb := tab[head];
    var inside := BboxInclude(bb, pbb);
    if inside {
      queue := queue[1..];
      var itv := FlatOf(pbb, bpd, n, k, u);
      more := [itv];
    } else {
      var meets := BboxDoesIntersect(bb, pbb);
      if meets {
        MidsFit(n, k, u);
        tab, head, tail := SplitAtTail(tab, head, tail, p, n);
        if !twelve {
          SplitQueue(bb, n, k, tab[..], head, tail, p, live, queue);
          queue := queue[1..] + Parts(u);
        } else {
          TwelveParts(tab.Length, head, tail, p);
          queue := queue[1..];
        }
      } else {
        queue := queue[1..];
      }
    }
    Wrap(head + 1, tab.Length);
    head := Modulo(head + 1, tab.Length);
    if twelve {
      LiveEmpty(tab[..], head);
      NoneLeft(bb, n, k, queue);
      assert more + [] == more;
    }
    assert [] + Decompose(bb, n, k + 1, queue) == Decompose(bb, n, k + 1, queue);
  }

  /** bbox_flat on the box of u. */
  method FlatOf(pbb: Box, bpd: nat, n: nat, ghost k: nat, ghost u: Sub) returns (itv: Intv)
    requires bpd == k + 1 && pbb == BoxOf(u) && OnGrid(n, k + 1, u) && Inside(k, u) && 0 < n <= 30 && Mul(k + 1, n) <= 64
    ensures itv == RunOf(k + 1, u)
  {
    hide *;
    OnGridParts(n, k + 1, u);
    RunOfDef(k + 1, u);
    BoxOfDef(u);
    itv := BboxFlat(pbb, bpd, u.q, k + 1 - u.s, u.s);
  }

  /** After a split, and with the head advanced, the ring holds the new queue. */
  lemma {:induction false} SplitQueue(bb: Box, n: nat, k: nat, t: seq<Box>, head: nat, tail: nat, p: nat, live: seq<Box>, queue: seq<Sub>)
    requires RingInv(|t|, head, tail, p) && head < |t| && tail < |t| && head != tail
    requires QueueInv(bb, n, k, live, queue) && live != [] && |live| == |queue| && queue[0].s > 0
    requires |live[0].lb| == |live[0].ub| && Live(t, head, tail) == live + Children(live[0])
    ensures var head' := if head + 1 == |t| then 0 else head + 1;
            && head' < |t| && RingInv(|t|, head', tail, p)
            && QueueInv(bb, n, k, Live(t, head', tail), queue[1..] + Parts(queue[0]))
            && AllOnGrid(n, k + 1, queue[1..] + Parts(queue[0]))
            && |Live(t, head', tail)| == |queue[1..] + Parts(queue[0])|
  {
    hide *;
    QueueHead(bb, n, k, live, queue);
    var u := queue[0];
    QueueSplit(bb, n, k, live[1..], queue[1..], u);
    LiveAppend(live, Children(live[0]));
    PopHead(t, head, tail, p);
    QueueSize(bb, n, k, live[1..] + Children(live[0]), queue[1..] + Parts(u));
  }

  lemma QueueSize(bb: Box, n: nat, k: nat, boxes: seq<Box>, queue: seq<Sub>)
    requires QueueInv(bb, n, k, boxes, queue)
    ensures |boxes| == |queue| && AllOnGrid(n, k + 1, queue)
  {}

  lemma NoneLeft(bb: Box, n: nat, k: nat, queue: seq<Sub>)
    requires n > 0 && AllOnGrid(n, k + 1, queue) && queue == []
    ensures Decompose(bb, n, k + 1, queue) == []
  {}

  lemma RingParts(size: nat, head: nat, tail: nat, p: nat)
    requires RingInv(size, head, tail, p)
    ensures 0 < p && 2 * p <= size && head < size && tail < size && Rem(size, p) == 0
  {}

  lemma LiveLast(s: seq<Box>, b: Box)
    requires |s| == 4096 && s[4095] == b
    ensures Live(s, 4095, 0) == [b]
  {}

  lemma LiveEmpty(s: seq<Box>, head: nat)
    requires head < |s|
    ensures Live(s, head, head) == []
  {}

  lemma LiveAppend(live: seq<Box>, more: seq<Box>)
    requires live != []
    ensures (live + more)[1..] == live[1..] + more
  {}

  /** The intersecting case: enlarge if full, then split the head's box at the tail. */
  method SplitAtTail(tab0: array<Box>, head0: nat, tail0: nat, p: nat, n: nat)
    returns (tab: array<Box>, head: nat, tail: nat)
    requires RingInv(tab0.Length, head0, tail0, p) || Twelve(tab0.Length, head0, tail0, p)
    requires head0 < tab0.Length && tail0 < tab0.Length && head0 != tail0
    requires p == Pow2(n) && n <= 30 && IsBox(tab0[head0], |tab0[head0].lb|)
    requires |tab0[head0].lb| == n == |tab0[head0].ub|
    requires forall d :: 0 <= d < n ==> Mid(tab0[head0], d) < 0x7fff_ffff
    modifies tab0
    ensures fresh(tab) || tab == tab0
    ensures head < tab.Length && tail < tab.Length
    ensures !Twelve(tab0.Length, head0, tail0, p) ==>
              (RingInv(tab.Length, head, tail, p) && head != tail && tab[head] == old(tab0[head0])
               && Live(tab[..], head, tail) == old(Live(tab0[..], head0, tail0) + Children(tab0[head0])))
    ensures Twelve(tab0.Length, head0, tail0, p) ==> Twelve(tab.Length, head, tail, p)
  {
    hide *;
    tab, head, tail := tab0, head0, tail0;
    TwelveParts(tab.Length, head, tail, p);
    ghost var twelve := Twelve(tab.Length, head, tail, p);
    if !twelve {
      RingParts(tab.Length, head, tail, p);
      RoomAtTail(tab.Length, head, tail, p);
      GroupDef(head, p);
      FullDef(tab.Length, head, tail, p);
    }
    Wrap(tail + p, tab.Length);
    if Modulo(tail + p, tab.Length) == head - Modulo(head, p) {
      tab, head, tail := Grow(tab, head, tail, p);
      TwelveParts(tab.Length, head, tail, p);
      if !twelve {
        RingParts(tab.Length, head, tail, p);
        RoomAtTail(tab.Length, head, tail, p);
        FullDef(tab.Length, head, tail, p);
      }
    }
    tail := PushChildren(tab, head, tail, p, n);
  }

  /** `bbox_divide(pbb, &bb_tab[bb_tail]); bb_tail = (bb_tail + n) % bb_size;` */
  method PushChildren(tab: array<Box>, head: nat, tail: nat, p: nat, n: nat) returns (tail': nat)
    requires (RingInv(tab.Length, head, tail, p) && p > 0 && !Full(tab.Length, head, tail, p))
             || Twelve(tab.Length, head, tail, p)
    requires head < tab.Length && tail < tab.Length && head != tail && tail + p <= tab.Length
    requires p == Pow2(n) && n <= 30 && IsBox(tab[head], |tab[head].lb|) && |tab[head].lb| == n == |tab[head].ub|
    requires forall d :: 0 <= d < n ==> Mid(tab[head], d) < 0x7fff_ffff
    modifies tab
    ensures tail' < tab.Length
    ensures !Twelve(tab.Length, head, tail, p) ==>
              (RingInv(tab.Length, head, tail', p) && head != tail' && tab[head] == old(tab[head])
               && Live(tab[..], head, tail') == old(Live(tab[..], head, tail) + Children(tab[head])))
    ensures Twelve(tab.Length, head, tail, p) ==> tail' == 0
  {
    hide *;
    TwelveParts(tab.Length, head, tail, p);
    ghost var before := tab[..];
    BboxDivide(tab[head], tab, tail);
    if !Twelve(tab.Length, head, tail, p) {
      FullDef(tab.Length, head, tail, p);
      PushGroup(before, tab[..], head, tail, p);
    }
    Wrap(tail + p, tab.Length);
    tail' := Modulo(tail + p, tab.Length);
  }

  lemma FullDef(size: nat, head: nat, tail: nat, p: nat)
    requires p > 0
    ensures Full(size, head, tail, p) <==> GroupOf(head, p) == if tail + p == size then 0 else tail + p
  {}
}
