/** Routing boxes to servers along the Hilbert curve (src/ss_data.c: ssd_alloc_v1,
    dht_intersect, ssd_hash_v1, sh_add, sh_find). */
module SpaceHashV1 {
  import opened Bits
  import opened Words
  import opened HilbertCube
  import opened Intervals
  import opened Bbox
  import opened BboxIntervals
  import opened BboxRing
  import opened DhtPartition
  import opened BoxVolume

  // ---- one server and one interval

  predicate IntvMeets(a: Intv, b: Intv) {
    (a.lb <= b.lb <= a.ub) || (b.lb <= a.lb <= b.ub)
  }

  lemma IntvMeetsShare(a: Intv, b: Intv)
    requires a.lb <= a.ub && b.lb <= b.ub
    ensures IntvMeets(a, b) <==> exists x: nat :: Has(a, x) && Has(b, x)
  {
    if IntvMeets(a, b) { assert Has(a, if a.lb <= b.lb then b.lb else a.lb) && Has(b, if a.lb <= b.lb then b.lb else a.lb); }
  }

  /** The hull of an entry contains all of its intervals. */
  predicate Hulled(e: Entry) {
    forall i :: 0 <= i < |e.itab| ==> e.virt.lb <= e.itab[i].lb && e.itab[i].ub <= e.virt.ub
  }

  lemma {:induction false} SliceHulled(e: Entry, i: nat, flat: seq<nat>, sn: nat)
    requires HoldsSlice(e, i, flat, sn) && Increasing(flat)
    ensures Hulled(e)
  {
    hide Mul, Flat;
    var s := Flat(e.itab);
    FlatEnds(e.itab);
    forall j | 0 <= j < |e.itab| ensures e.virt.lb <= e.itab[j].lb && e.itab[j].ub <= e.virt.ub {
      FlatHas(e.itab, e.itab[j].lb);
      FlatHas(e.itab, e.itab[j].ub);
      assert Has(e.itab[j], e.itab[j].lb) && Has(e.itab[j], e.itab[j].ub);
      var a: nat :| a < |s| && s[a] == e.itab[j].lb;
      var b: nat :| b < |s| && s[b] == e.itab[j].ub;
      var off := Mul(i, sn);
      assert s[a] == flat[off + a] && s[b] == flat[off + b] && s[0] == flat[off] && s[|s| - 1] == flat[off + |s| - 1];
    }
  }

  lemma {:induction false} FlatEnds(tab: seq<Intv>)
    requires Proper(tab) && tab != []
    ensures |Flat(tab)| > 0 && Flat(tab)[0] == tab[0].lb && Flat(tab)[|Flat(tab)| - 1] == tab[|tab| - 1].ub
  {
    var init, v := tab[..|tab| - 1], tab[|tab| - 1];
    assert tab == init + [v];
    FlatMore(init, v);
  }

  /** An index of the entry that the interval misses: outside the hull ... */
  lemma {:induction false} HullMiss(de: Entry, itv: Intv, x: nat)
    requires Hulled(de) && (de.virt.lb > itv.ub || de.virt.ub < itv.lb) && Owns(de, x)
    ensures !Has(itv, x)
  {
    hide Flat;
    FlatHas(de.itab, x);
    var i :| 0 <= i < |de.itab| && Has(de.itab[i], x);
  }

  /** ... or in an interval that does not meet it. */
  lemma {:induction false} IntvMiss(de: Entry, itv: Intv, x: nat)
    requires (forall j :: 0 <= j < |de.itab| ==> !IntvMeets(de.itab[j], itv)) && Owns(de, x)
    ensures !Has(itv, x)
  {
    hide Flat;
    FlatHas(de.itab, x);
    var j :| 0 <= j < |de.itab| && Has(de.itab[j], x);
    assert !IntvMeets(de.itab[j], itv);
  }

  /** dht_intersect: the entry and the interval share an index. */
  method DhtIntersect(de: Entry, itv: Intv) returns (r: bool)
    requires Proper(de.itab) && Hulled(de) && itv.lb <= itv.ub
    ensures r <==> exists x: nat :: Owns(de, x) && Has(itv, x)
  {
    hide Flat;
    if de.virt.lb > itv.ub || de.virt.ub < itv.lb {
      forall x: nat | Owns(de, x) ensures !Has(itv, x) { HullMiss(de, itv, x); }
      return false;
    }
    var i := 0;
    while i < |de.itab|
      invariant 0 <= i <= |de.itab|
      invariant forall j :: 0 <= j < i ==> !IntvMeets(de.itab[j], itv)
    {
      if (de.itab[i].lb <= itv.lb && itv.lb <= de.itab[i].ub) || (itv.lb <= de.itab[i].lb && de.itab[i].lb <= itv.ub) {
        IntvMeetsShare(de.itab[i], itv);
        ghost var x: nat := if de.itab[i].lb <= itv.lb then itv.lb else de.itab[i].lb;
        assert Has(de.itab[i], x) && Has(itv, x);
        FlatHas(de.itab, x);
        return true;
      }
      i := i + 1;
    }
    forall x: nat | Owns(de, x) ensures !Has(itv, x) { IntvMiss(de, itv, x); }
    return false;
  }

  // ---- a box's servers

  /** The server owns an index that some interval of the table has. */
  ghost predicate Reaches(e: Entry, tab: seq<Intv>) {
    exists x: nat, i: nat :: i < |tab| && Owns(e, x) && Has(tab[i], x)
  }

  /** The ranks below k of the servers reached by the table, in order. */
  ghost function Route(ents: seq<Entry>, tab: seq<Intv>, k: nat): (r: seq<nat>)
    requires k <= |ents|
    ensures forall j :: 0 <= j < |ents| ==> (j in r <==> j < k && Reaches(ents[j], tab))
    ensures forall i, j :: 0 <= i < j < |r| ==> r[i] < r[j]
    ensures forall i :: 0 <= i < |r| ==> r[i] < k
  {
    if k == 0 then [] else
    Route(ents, tab, k - 1) + if Reaches(ents[k - 1], tab) then [k - 1] else []
  }

  /** The inner loop of ssd_hash_v1, with its break. */
  method EntryReached(e: Entry, tab: seq<Intv>) returns (found: bool)
    requires Proper(tab) && Proper(e.itab) && Hulled(e)
    ensures found == Reaches(e, tab)
  {
    hide Owns, Has, Hulled;
    var i := 0;
    while i < |tab|
      invariant 0 <= i <= |tab|
      invariant forall x: nat, j: nat :: j < i && Owns(e, x) ==> !Has(tab[j], x)
    {
      found := DhtIntersect(e, tab[i]);
      if found { return; }
      i := i + 1;
    }
    return false;
  }

  /** The outer loop of ssd_hash_v1. */
  method CollectEntries(ents: seq<Entry>, tab: seq<Intv>) returns (deTab: seq<nat>)
    requires Proper(tab) && forall e :: e in ents ==> Proper(e.itab) && Hulled(e)
    ensures deTab == Route(ents, tab, |ents|)
  {
    hide Owns, Has, Hulled, Reaches;
    deTab := [];
    var k := 0;
    while k < |ents|
      invariant 0 <= k <= |ents|
      invariant deTab == Route(ents, tab, k)
    {
      assert ents[k] in ents;
      var found := EntryReached(ents[k], tab);
      if found { deTab := deTab + [k]; }
      k := k + 1;
    }
  }

  // ---- the space

  /** The servers of a box: those that own the index of one of its cells. */
  ghost function Servers(ents: seq<Entry>, bb: Box, k: nat): seq<nat>
    requires |bb.lb| > 0
  {
    Route(ents, IntvTable(bb, |bb.lb|, k), |ents|)
  }

  /** A server is among those of a box exactly when it owns the index of a cell of the
      box (in the virtual cube). */
  lemma {:induction false} ServersExact(ents: seq<Entry>, bb: Box, k: nat, j: nat)
    requires Sizes(bb, |bb.lb|, k) && j < |ents|
    requires forall x: nat :: Owns(ents[j], x) ==> x < Pow2(Mul(k + 1, |bb.lb|))
    ensures |bb.lb| > 0
    ensures j in Servers(ents, bb, k) <==>
            exists c: Cell :: InBox(c, bb) && InBox(c, BoxOf(Root(|bb.lb|, k))) && Owns(ents[j], Index(c, k + 1))
  {
    hide Owns, Has, Index, IntvTable, Sizes, Pow2, Mul, BoxOf, Root, Count, CellAt, NonEmpty;
    var n := |bb.lb|;
    SizesParts(bb, n, k);
    var t := IntvTable(bb, n, k);
    if Reaches(ents[j], t) {
      var x: nat, i: nat :| i < |t| && Owns(ents[j], x) && Has(t[i], x);
      CountHas(t, x);
      TableCount(bb, n, k, x);
      IndexOfCellAt(n, k + 1, x);
    }
    forall c: Cell | InBox(c, bb) && InBox(c, BoxOf(Root(n, k))) && Owns(ents[j], Index(c, k + 1))
      ensures Reaches(ents[j], t)
    {
      var x := Index(c, k + 1);
      RootCellIs(n, k, c);
      CellAtIndex(c, k + 1);
      TableCount(bb, n, k, x);
      CountHas(t, x);
    }
  }

  lemma RootCellIs(n: nat, k: nat, c: Cell)
    requires n > 0 && InBox(c, BoxOf(Root(n, k)))
    ensures |c| == n && IsCell(c, k + 1)
  {
    hide Root;
    BoxDims(Root(n, k));
    RootCells(n, k, c);
    assert Pow2(k + 1) == 2 * Pow2(k);
  }

  /** Rendezvous: two boxes that share a cell assigned to a server both route to it. */
  lemma {:induction false} Rendezvous(ents: seq<Entry>, put: Box, get: Box, k: nat, c: Cell, j: nat)
    requires Sizes(put, |put.lb|, k) && Sizes(get, |put.lb|, k) && |get.lb| == |put.lb| && j < |ents|
    requires forall x: nat :: Owns(ents[j], x) ==> x < Pow2(Mul(k + 1, |put.lb|))
    requires InBox(c, put) && InBox(c, get) && InBox(c, BoxOf(Root(|put.lb|, k)))
    requires Owns(ents[j], Index(c, k + 1))
    ensures |put.lb| > 0 && j in Servers(ents, put, k) && j in Servers(ents, get, k)
  {
    hide *;
    ServersExact(ents, put, k, j);
    ServersExact(ents, get, k, j);
  }

  // ---- the hash cache

  datatype Cached = Cached(bb: Box, nodes: seq<nat>)

  /** bbox_equals */
  method BboxEquals(b0: Box, b1: Box) returns (r: bool)
    requires IsBox(b0, |b0.lb|) && IsBox(b1, |b1.lb|)
    ensures r == (b0 == b1)
  {
    if |b0.lb| != |b1.lb| { return false; }
    var i := 0;
    while i < |b0.lb|
      invariant 0 <= i <= |b0.lb|
      invariant forall d :: 0 <= d < i ==> b0.lb[d] == b1.lb[d] && b0.ub[d] == b1.ub[d]
    {
      if b0.lb[i] != b1.lb[i] || b0.ub[i] != b1.ub[i] { return false; }
      i := i + 1;
    }
    assert b0.lb == b1.lb && b0.ub == b1.ub;
    return true;
  }

  /** sh_find: the first cached answer for the box, if any. */
  method ShFind(cache: seq<Cached>, bb: Box) returns (found: bool, nodes: seq<nat>)
    requires IsBox(bb, |bb.lb|) && forall c :: c in cache ==> IsBox(c.bb, |c.bb.lb|)
    ensures found ==> Cached(bb, nodes) in cache
    ensures !found ==> forall c :: c in cache ==> c.bb != bb
  {
    var i := 0;
    while i < |cache|
      invariant 0 <= i <= |cache|
      invariant forall j :: 0 <= j < i ==> cache[j].bb != bb
    {
      var same := BboxEquals(bb, cache[i].bb);
      if same { return true, cache[i].nodes; }
      i := i + 1;
    }
    return false, [];
  }

  /** The number of bits of x. */
  function NumBits(x: nat): (r: nat)
    ensures x < Pow2(r) && (r > 0 ==> Pow2(r - 1) <= x)
  {
    if x == 0 then 0 else 1 + NumBits(x / 2)
  }

  /** The largest upper bound, at least 1. */
  function MaxDim(ub: seq<nat>): (r: nat)
    ensures r >= 1 && forall d :: 0 <= d < |ub| ==> ub[d] <= r
    ensures r == 1 || r in ub
  {
    if ub == [] then 1 else
    var r := MaxDim(ub[..|ub| - 1]);
    if ub[|ub| - 1] > r then ub[|ub| - 1] else r
  }

  /** The log of the side of the virtual cube: the least power of two above every upper
      bound (and above 1). */
  function CubeBits(domain: Box): (k: nat)
    ensures forall d :: 0 <= d < |domain.ub| ==> domain.ub[d] < Pow2(k)
  {
    NumBits(MaxDim(domain.ub))
  }

  /** No smaller power of two would do. */
  lemma {:induction false} CubeBitsLeast(domain: Box, k: nat)
    requires Pow2(k) > 1 && forall d :: 0 <= d < |domain.ub| ==> domain.ub[d] < Pow2(k)
    ensures CubeBits(domain) <= k
  {
    hide Pow2, MaxDim, NumBits;
    var r := MaxDim(domain.ub);
    if r in domain.ub { var d :| 0 <= d < |domain.ub| && domain.ub[d] == r; }
    if CubeBits(domain) > k { Pow2Mono(k, CubeBits(domain) - 1); }
  }

  /** `for (i = 1; ...) max_dim = max(...)`, and 1 for an all-zero bound. */
  method ComputeMaxDim(ub: seq<nat>) returns (r: nat)
    requires |ub| > 0
    ensures r == MaxDim(ub)
  {
    r := ub[0];
    var i := 1;
    while i < |ub|
      invariant 1 <= i <= |ub|
      invariant MaxDim(ub[..i]) == if r == 0 then 1 else r
    {
      assert ub[..i + 1][..i] == ub[..i];
      r := if ub[i] > r then ub[i] else r;
      i := i + 1;
    }
    assert ub[..i] == ub;
    if r == 0 { r := 1; }
  }

  /** next_pow_2: the least power of two above n (n below 2^63). */
  method NextPow2(n: nat) returns (r: nat)
    requires 1 <= n < Pow2(63)
    ensures r == Pow2(NumBits(n))
  {
    hide *;
    var i := Pow2(63);
    ghost var e := 63;
    while And(i, n) == 0
      invariant 0 <= e <= 63 && i == Pow2(e) && n < 2 * i
      decreases e
    {
      TestBit(n, e);
      Pow2Half(e);
      if e == 0 { assert false; }
      i := Shr(i, 1);
      e := e - 1;
      Pow2Half(e + 1);
    }
    TestBit(n, e);
    NumBitsAt(n, e);
    Pow2Strict(e, 64);
    ShlMul(i, 1);
    Pow2Half(e + 1);
    PowOne();
    Pow2Mono(e + 1, 64);
    r := Shl(i, 1);
  }

  lemma {:induction false} NumBitsAt(n: nat, e: nat)
    requires Pow2(e) <= n < 2 * Pow2(e)
    ensures NumBits(n) == e + 1
  {
    var r := NumBits(n);
    if r <= e { Pow2Mono(r, e); }
    if r > e + 1 { Pow2Mono(e + 1, r - 1); }
  }

  // ---- ssd_alloc_v1 and ssd_hash_v1

  /** The servers hold consecutive slices of the domain's ordered index list. */
  ghost predicate SpaceInv(domain: Box, maxDim: nat, ents: seq<Entry>) {
    && |domain.lb| <= 11 && Sizes(domain, |domain.lb|, CubeBits(domain))
    && maxDim == Pow2(CubeBits(domain))
    && DealtEvenly(ents, DomainList(domain))
  }

  /** Each server holds one slice of floor(length / servers) indices. */
  ghost predicate DealtEvenly(ents: seq<Entry>, flat: seq<nat>) {
    0 < |ents| <= |flat| && Dealt(ents, flat, |flat| / |ents|)
  }

  /** Every cached answer is the answer that would be computed. */
  ghost predicate CacheSound(domain: Box, ents: seq<Entry>, cache: seq<Cached>) {
    forall c :: c in cache ==>
      IsBox(c.bb, |c.bb.lb|) && |c.bb.lb| > 0 && c.nodes == Servers(ents, c.bb, CubeBits(domain))
  }

  lemma {:induction false} SpaceFacts(domain: Box, maxDim: nat, ents: seq<Entry>)
    requires SpaceInv(domain, maxDim, ents)
    ensures |domain.lb| <= 11 && Sizes(domain, |domain.lb|, CubeBits(domain)) && maxDim == Pow2(CubeBits(domain))
    ensures forall e :: e in ents ==> Proper(e.itab) && Hulled(e)
  {
    hide *;
    SpaceParts(domain, maxDim, ents);
    DomainFacts(domain);
    DealtHulled(ents, DomainList(domain));
  }

  lemma SpaceParts(domain: Box, maxDim: nat, ents: seq<Entry>)
    requires SpaceInv(domain, maxDim, ents)
    ensures |domain.lb| <= 11 && Sizes(domain, |domain.lb|, CubeBits(domain)) && maxDim == Pow2(CubeBits(domain))
    ensures DealtEvenly(ents, DomainList(domain))
  {
    hide Sizes, CubeBits, Pow2, DomainList, DealtEvenly;
  }

  lemma {:induction false} DealtHulled(ents: seq<Entry>, flat: seq<nat>)
    requires DealtEvenly(ents, flat) && Increasing(flat)
    ensures forall e :: e in ents ==> Proper(e.itab) && Hulled(e)
  {
    hide Flat, Hulled, Increasing, Mul, Proper;
    var sn := |flat| / |ents|;
    forall e | e in ents ensures Proper(e.itab) && Hulled(e) {
      var i :| 0 <= i < |ents| && ents[i] == e;
      assert HoldsSlice(ents[i], i, flat, sn);
      SliceHulled(e, i, flat, sn);
    }
  }

  lemma CacheUse(domain: Box, ents: seq<Entry>, cache: seq<Cached>)
    requires CacheSound(domain, ents, cache)
    ensures forall c :: c in cache ==>
              IsBox(c.bb, |c.bb.lb|) && |c.bb.lb| > 0 && c.nodes == Servers(ents, c.bb, CubeBits(domain))
  {}

  lemma CacheMore(domain: Box, ents: seq<Entry>, cache: seq<Cached>, c: Cached)
    requires CacheSound(domain, ents, cache)
    requires IsBox(c.bb, |c.bb.lb|) && |c.bb.lb| > 0 && c.nodes == Servers(ents, c.bb, CubeBits(domain))
    ensures CacheSound(domain, ents, cache + [c])
  {
    hide Servers, CubeBits;
  }

  /** A shared space: the domain, the servers' shares, and the cache of answers. */
  class SspaceV1 {
    const domain: Box
    const maxDim: nat
    const ents: seq<Entry>
    var cache: seq<Cached>

    ghost predicate Valid()
      reads this
    {
      SpaceInv(domain, maxDim, ents) && CacheSound(domain, ents, cache)
    }

    constructor (bbDomain: Box, numNodes: nat)
      requires Sizes(bbDomain, |bbDomain.lb|, CubeBits(bbDomain)) && |bbDomain.lb| <= 11
      requires NonEmpty(bbDomain) && 0 < numNodes <= Volume(bbDomain)
      ensures Valid() && domain == bbDomain && |ents| == numNodes && cache == []
    {
      var es, side := AllocEntries(bbDomain, numNodes);
      domain := bbDomain;
      maxDim := side;
      ents := es;
      cache := [];
    }

    /** ssd_hash_v1: the servers of a box, from the cache or afresh. */
    method Hash(bb: Box) returns (deTab: seq<nat>)
      requires Valid() && |bb.lb| == |domain.lb| && Sizes(bb, |bb.lb|, CubeBits(domain))
      modifies this`cache
      ensures Valid() && |bb.lb| > 0
      ensures deTab == Servers(ents, bb, CubeBits(domain))
    {
      deTab, cache := HashWith(domain, maxDim, ents, cache, bb);
    }
  }

  /** The body of ssd_alloc_v1. */
  method AllocEntries(domain: Box, numNodes: nat) returns (ents: seq<Entry>, side: nat)
    requires Sizes(domain, |domain.lb|, CubeBits(domain)) && |domain.lb| <= 11
    requires NonEmpty(domain) && 0 < numNodes <= Volume(domain)
    ensures SpaceInv(domain, side, ents) && |ents| == numNodes
  {
    hide *;
    var n := |domain.lb|;
    ghost var k := CubeBits(domain);
    SizesParts(domain, n, k);
    DomainFacts(domain);
    MaxDimBound(domain);
    var md := ComputeMaxDim(domain.ub);
    side := NextPow2(md);
    var itab := BboxToIntv(domain, side, k);
    var volume := BboxVolume(domain);
    ents := ConstructHash(itab, volume, numNodes);
    DealtIntro(ents, DomainList(domain));
    SpaceIntro(domain, side, ents);
  }

  lemma SpaceIntro(domain: Box, maxDim: nat, ents: seq<Entry>)
    requires |domain.lb| <= 11 && Sizes(domain, |domain.lb|, CubeBits(domain)) && maxDim == Pow2(CubeBits(domain))
    requires DealtEvenly(ents, DomainList(domain))
    ensures SpaceInv(domain, maxDim, ents)
  {
    hide Sizes, CubeBits, DomainList, DealtEvenly, Pow2;
  }

  lemma DealtIntro(ents: seq<Entry>, flat: seq<nat>)
    requires 0 < |ents| <= |flat|
    requires forall i :: 0 <= i < |ents| ==> HoldsSlice(ents[i], i, flat, |flat| / |ents|)
    ensures DealtEvenly(ents, flat)
  {
    hide HoldsSlice;
  }

  /** The body of ssd_hash_v1 on the list of cached answers. */
  method HashWith(domain: Box, maxDim: nat, ents: seq<Entry>, cache: seq<Cached>, bb: Box)
    returns (deTab: seq<nat>, cache': seq<Cached>)
    requires SpaceInv(domain, maxDim, ents) && CacheSound(domain, ents, cache)
    requires |bb.lb| == |domain.lb| && Sizes(bb, |bb.lb|, CubeBits(domain))
    ensures |bb.lb| > 0 && deTab == Servers(ents, bb, CubeBits(domain))
    ensures CacheSound(domain, ents, cache')
    ensures cache' == cache || cache' == cache + [Cached(bb, deTab)]
  {
    hide *;
    ghost var k := CubeBits(domain);
    SpaceFacts(domain, maxDim, ents);
    CacheUse(domain, ents, cache);
    SizesParts(bb, |bb.lb|, k);
    cache' := cache;
    var found;
    found, deTab := ShFind(cache, bb);
    if !found || |deTab| == 0 {
      var itab := BboxToIntv2(bb, maxDim, Intv(0, 0), k);
      TableParts(bb, |bb.lb|, k);
      deTab := CollectEntries(ents, itab);
      ServersDef(ents, bb, k);
      CacheMore(domain, ents, cache, Cached(bb, deTab));
      cache' := cache + [Cached(bb, deTab)];
    }
  }

  /** The ordered list of the indices of the domain's cells. */
  ghost function DomainList(domain: Box): seq<nat>
  {
    if |domain.lb| > 0 && Proper(IntvTable(domain, |domain.lb|, CubeBits(domain)))
    then Flat(IntvTable(domain, |domain.lb|, CubeBits(domain))) else []
  }

  lemma {:induction false} DomainFacts(domain: Box)
    requires Sizes(domain, |domain.lb|, CubeBits(domain))
    ensures |domain.lb| > 0 && NonEmpty(domain)
    ensures Proper(IntvTable(domain, |domain.lb|, CubeBits(domain)))
    ensures DomainList(domain) == Flat(IntvTable(domain, |domain.lb|, CubeBits(domain)))
    ensures Increasing(DomainList(domain)) && |DomainList(domain)| == Volume(domain)
    ensures forall x: nat :: x in DomainList(domain) <==>
              exists c: Cell :: InBox(c, domain) && Index(c, CubeBits(domain) + 1) == x
  {
    hide Flat, IntvTable, Increasing, Volume, CubeBits, Index, InBox, Pow2;
    TableVolume(domain, |domain.lb|, CubeBits(domain));
  }

  lemma {:induction false} MaxDimBound(domain: Box)
    requires Sizes(domain, |domain.lb|, CubeBits(domain))
    ensures 1 <= MaxDim(domain.ub) < Pow2(63) && CubeBits(domain) == NumBits(MaxDim(domain.ub))
    ensures |domain.ub| > 0
  {
    hide Pow2, MaxDim, NumBits;
    Pow2Mono(CubeBits(domain), 63);
  }

  lemma ServersDef(ents: seq<Entry>, bb: Box, k: nat)
    requires |bb.lb| > 0
    ensures Servers(ents, bb, k) == Route(ents, IntvTable(bb, |bb.lb|, k), |ents|)
  {}

  /** The cell's index is one of the n * floor(volume / n) lowest of the domain. */
  ghost predicate Assigned(domain: Box, n: nat, c: Cell) {
    && |c| > 0 && 0 < n <= |DomainList(domain)|
    && var flat := DomainList(domain);
       ShareBound(|flat|, n);
       Index(c, CubeBits(domain) + 1) in flat[..Mul(n, |flat| / n)]
  }

  lemma AssignedDef(domain: Box, n: nat, c: Cell)
    requires Assigned(domain, n, c)
    ensures |c| > 0 && 0 < n <= |DomainList(domain)| && 0 < |DomainList(domain)| / n
    ensures Mul(n, |DomainList(domain)| / n) <= |DomainList(domain)|
    ensures Index(c, CubeBits(domain) + 1) in DomainList(domain)[..Mul(n, |DomainList(domain)| / n)]
  {
    hide DomainList, Index, Mul, CubeBits;
    ShareBound(|DomainList(domain)|, n);
  }

  /** Rendezvous on an allocated space: any two boxes that share a cell of the domain
      whose index is among the assigned ones have a server in common. */
  lemma {:induction false} SpaceRendezvous(domain: Box, maxDim: nat, ents: seq<Entry>, put: Box, get: Box, c: Cell)
      returns (j: nat)
    requires SpaceInv(domain, maxDim, ents)
    requires |put.lb| == |domain.lb| == |get.lb|
    requires Sizes(put, |put.lb|, CubeBits(domain)) && Sizes(get, |get.lb|, CubeBits(domain))
    requires InBox(c, put) && InBox(c, get) && InBox(c, domain)
    requires Assigned(domain, |ents|, c)
    ensures |put.lb| > 0 && j < |ents|
    ensures j in Servers(ents, put, CubeBits(domain)) && j in Servers(ents, get, CubeBits(domain))
  {
    hide Servers, Index, Sizes, DomainList, Owns, Pow2, Mul, BoxOf, Root, HoldsSlice;
    var k, x := CubeBits(domain), Index(c, CubeBits(domain) + 1);
    var flat, n := DomainList(domain), |domain.lb|;
    SizesParts(put, n, k);
    var sn := |flat| / |ents|;
    AssignedDef(domain, |ents|, c);
    SharesCover(ents, flat, sn, x);
    j :| 0 <= j < |ents| && Owns(ents[j], x);
    assert HoldsSlice(ents[j], j, flat, sn);
    forall y: nat | Owns(ents[j], y) ensures y < Pow2(Mul(k + 1, n)) {
      var a := SlicePlace(ents[j], j, flat, sn, y);
      DomainBound(domain, flat[a]);
    }
    RootCells(n, k, c);
    Rendezvous(ents, put, get, k, c, j);
  }

  lemma {:induction false} DomainBound(domain: Box, x: nat)
    requires Sizes(domain, |domain.lb|, CubeBits(domain)) && x in DomainList(domain)
    ensures x < Pow2(Mul(CubeBits(domain) + 1, |domain.lb|))
  {
    hide DomainList, CubeBits, Index, Pow2, Mul, Sizes, Flat, IntvTable, Increasing, Volume;
    DomainFacts(domain);
    var c: Cell :| InBox(c, domain) && Index(c, CubeBits(domain) + 1) == x;
    IndexBound(c, CubeBits(domain) + 1);
  }
}
